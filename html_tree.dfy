/**
  A parsed HTML document as BeautifulSoup holds it, and the BeautifulSoup
  operations the cleaners use: `find_all` with a list of tag names, `decompose`
  / `extract` of a found element, and the `.text` / `get_text()` of a node.

  A document is the forest of the soup's top-level nodes. Each element carries
  an `id` that stands for the identity of its BeautifulSoup object: decomposing
  a found element removes the subtree whose root is that very object, wherever
  it is now, and does nothing once it has already left the tree. Elements of a
  parsed document are distinct objects, which is `DistinctIds`.
 */
module HtmlTree {
  import opened Seqs

  datatype Node = Element(id: nat, tag: string, children: seq<Node>) | Text(text: string)

  /** The ids of a node and of all its descendants. */
  function NodeIds(n: Node): set<nat>
  {
    match n
    case Text(_) => {}
    case Element(id, _, cs) => {id} + IdSet(cs)
  }

  /** The ids of every element of a forest, at any depth. */
  function IdSet(f: seq<Node>): set<nat>
  {
    if f == [] then {} else NodeIds(f[0]) + IdSet(f[1..])
  }

  /** No two elements of the forest are the same object. */
  predicate DistinctIds(f: seq<Node>)
  {
    f == [] ||
    (&& (match f[0]
         case Text(_) => true
         case Element(id, _, cs) => id !in IdSet(cs) && DistinctIds(cs))
     && NodeIds(f[0]) !! IdSet(f[1..])
     && DistinctIds(f[1..]))
  }

  /** `n` is one of the nodes of the forest `f`, at any depth. */
  predicate Within(n: Node, f: seq<Node>)
  {
    f != [] &&
    (|| f[0] == n
     || (f[0].Element? && Within(n, f[0].children))
     || Within(n, f[1..]))
  }

  /**
    `find_all(tags)`: every element, at any depth, whose tag is one of `tags`,
    in document order (an element before its descendants, and before the later
    siblings of its ancestors).
   */
  function FindAll(f: seq<Node>, tags: set<string>): (found: seq<Node>)
    ensures forall k :: 0 <= k < |found| ==> found[k].Element? && found[k].tag in tags
    ensures forall n :: Within(n, f) && n.Element? && n.tag in tags ==> n in found
  {
    if f == [] then []
    else
      (match f[0]
       case Text(_) => []
       case Element(_, tag, cs) => (if tag in tags then [f[0]] else []) + FindAll(cs, tags))
      + FindAll(f[1..], tags)
  }

  /** The ids of the elements listed in `es` (not of their descendants). */
  function IdsOf(es: seq<Node>): set<nat>
  {
    if es == [] then {} else (if es[0].Element? then {es[0].id} else {}) + IdsOf(es[1..])
  }

  /**
    The ids of the elements of `f` that are in `ids` or below one that is:
    the objects that go with the subtrees rooted at `ids`.
   */
  function Below(f: seq<Node>, ids: set<nat>): (gone: set<nat>)
    ensures gone <= IdSet(f)
  {
    if f == [] then {}
    else
      (match f[0]
       case Text(_) => {}
       case Element(id, _, cs) => if id in ids then NodeIds(f[0]) else Below(cs, ids))
      + Below(f[1..], ids)
  }

  /**
    The forest with every element whose id is in `ids` removed, with its
    subtree. On a page of distinct objects, exactly the objects outside the
    removed subtrees stay.
   */
  function Without(f: seq<Node>, ids: set<nat>): (r: seq<Node>)
    ensures IdSet(r) <= IdSet(f) - ids
    ensures DistinctIds(f) ==> IdSet(r) == IdSet(f) - Below(f, ids)
    ensures IdSet(f) !! ids ==> r == f
  {
    if f == [] then []
    else
      var head := match f[0]
        case Text(_) => [f[0]]
        case Element(id, tag, cs) => if id in ids then [] else [Element(id, tag, Without(cs, ids))];
      IdSetAppend(head, Without(f[1..], ids));
      head + Without(f[1..], ids)
  }

  /** `element.decompose()` (or `element.extract()`) for the element with this id. */
  function Decompose(f: seq<Node>, id: nat): (r: seq<Node>)
    ensures id !in IdSet(r) && IdSet(r) <= IdSet(f)
    ensures DistinctIds(f) ==> IdSet(r) == IdSet(f) - Below(f, {id})
    ensures id !in IdSet(f) ==> r == f
  {
    Without(f, {id})
  }

  /** The forest with every subtree rooted at an element with a tag in `tags` cut out. */
  function Prune(f: seq<Node>, tags: set<string>): seq<Node>
  {
    if f == [] then []
    else
      (match f[0]
       case Text(_) => [f[0]]
       case Element(id, tag, cs) => if tag in tags then [] else [Element(id, tag, Prune(cs, tags))])
      + Prune(f[1..], tags)
  }

  /** `node.text`: every string below the node, in document order. */
  function NodeText(n: Node): string
  {
    match n
    case Text(s) => s
    case Element(_, _, cs) => ForestText(cs)
  }

  /** `soup.get_text()`: every string of the forest, in document order. */
  function ForestText(f: seq<Node>): string
  {
    if f == [] then "" else NodeText(f[0]) + ForestText(f[1..])
  }

  /** The text of each element followed by "\n", concatenated in order. */
  function ElementTexts(es: seq<Node>): string
  {
    if es == [] then "" else NodeText(es[0]) + "\n" + ElementTexts(es[1..])
  }

  /** The strings of the forest that do not lie under an element with a tag in `stop`. */
  function VisibleText(f: seq<Node>, stop: set<string>): string
  {
    if f == [] then ""
    else
      (match f[0]
       case Text(s) => s
       case Element(_, tag, cs) => if tag in stop then "" else VisibleText(cs, stop))
      + VisibleText(f[1..], stop)
  }

  /**
    Reference definition of the cleaners' output, in one walk over the
    original document: an element with a `stop` tag contributes nothing, not
    even through its descendants; an element with a `sel` tag contributes its
    visible text and "\n", and its descendants are then visited as well.
   */
  function SelectedText(f: seq<Node>, stop: set<string>, sel: set<string>): string
  {
    if f == [] then ""
    else
      (match f[0]
       case Text(_) => ""
       case Element(_, tag, cs) =>
         if tag in stop then ""
         else (if tag in sel then VisibleText(cs, stop) + "\n" else "") + SelectedText(cs, stop, sel))
      + SelectedText(f[1..], stop, sel)
  }

  /**
    The loop `for element in soup.find_all(tags): element.decompose()` (and the
    same loop with `extract()`): it cuts out exactly the subtrees rooted at an
    element with one of the tags. An element found inside an already removed
    subtree is no longer in the tree, and decomposing it changes nothing.
   */
  method DetachAll(soup: seq<Node>, tags: set<string>) returns (pruned: seq<Node>)
    requires DistinctIds(soup)
    ensures pruned == Prune(soup, tags)
    ensures DistinctIds(pruned)
  {
    var found := FindAll(soup, tags);
    pruned := soup;
    var i := 0;
    while i < |found|
      invariant 0 <= i <= |found|
      invariant pruned == Without(soup, IdsOf(found[..i]))
    {
      DecomposeStep(soup, found, i);
      pruned := Decompose(pruned, found[i].id);
      i := i + 1;
    }
    assert found[..i] == found;
    FoundWithin(soup, tags);
    WithoutFoundIsPrune(soup, IdsOf(found), tags);
    PruneDistinct(soup, tags);
  }

  /** One turn of the removal loop: decomposing the next found element. */
  lemma {:induction false} DecomposeStep(soup: seq<Node>, found: seq<Node>, i: nat)
    requires i < |found| && found[i].Element?
    ensures Decompose(Without(soup, IdsOf(found[..i])), found[i].id) == Without(soup, IdsOf(found[..i + 1]))
  {
    assert found[..i + 1] == found[..i] + [found[i]];
    IdsOfAppend(found[..i], [found[i]]);
    assert IdsOf([found[i]]) == {found[i].id};
    WithoutUnion(soup, IdsOf(found[..i]), {found[i].id});
  }

  /** The loop `for e in elements: whole_text += e.text + "\n"`, from `whole_text = ""`. */
  method JoinElementTexts(elements: seq<Node>) returns (wholeText: string)
    ensures wholeText == ElementTexts(elements)
  {
    wholeText := "";
    var i := 0;
    while i < |elements|
      invariant 0 <= i <= |elements|
      invariant wholeText == ElementTexts(elements[..i])
    {
      assert elements[..i + 1] == elements[..i] + [elements[i]];
      ElementTextsAppend(elements[..i], [elements[i]]);
      wholeText := wholeText + NodeText(elements[i]) + "\n";
      i := i + 1;
    }
    assert elements[..i] == elements;
  }

  // ---------------------------------------------------------------------------
  // Structural facts

  lemma {:induction false} IdSetAppend(a: seq<Node>, b: seq<Node>)
    ensures IdSet(a + b) == IdSet(a) + IdSet(b)
  {
    if a == [] {
      assert a + b == b;
    } else {
      assert (a + b)[0] == a[0];
      assert (a + b)[1..] == a[1..] + b;
      IdSetAppend(a[1..], b);
    }
  }

  lemma {:induction false} IdsOfAppend(a: seq<Node>, b: seq<Node>)
    ensures IdsOf(a + b) == IdsOf(a) + IdsOf(b)
  {
    if a == [] {
      assert a + b == b;
    } else {
      assert (a + b)[0] == a[0];
      assert (a + b)[1..] == a[1..] + b;
      IdsOfAppend(a[1..], b);
    }
  }

  lemma {:induction false} ForestTextAppend(a: seq<Node>, b: seq<Node>)
    ensures ForestText(a + b) == ForestText(a) + ForestText(b)
  {
    if a == [] {
      assert a + b == b;
    } else {
      assert (a + b)[0] == a[0];
      assert (a + b)[1..] == a[1..] + b;
      ForestTextAppend(a[1..], b);
    }
  }

  lemma {:induction false} ElementTextsAppend(a: seq<Node>, b: seq<Node>)
    ensures ElementTexts(a + b) == ElementTexts(a) + ElementTexts(b)
  {
    if a == [] {
      assert a + b == b;
    } else {
      assert (a + b)[0] == a[0];
      assert (a + b)[1..] == a[1..] + b;
      ElementTextsAppend(a[1..], b);
    }
  }

  lemma {:induction false} FindAllAppend(a: seq<Node>, b: seq<Node>, tags: set<string>)
    ensures FindAll(a + b, tags) == FindAll(a, tags) + FindAll(b, tags)
  {
    if a == [] {
      assert a + b == b;
    } else {
      assert (a + b)[0] == a[0];
      assert (a + b)[1..] == a[1..] + b;
      FindAllAppend(a[1..], b, tags);
    }
  }

  /** Adding tags that occur nowhere in the forest does not change what `find_all` returns. */
  lemma {:induction false} FindAllIgnoresAbsent(f: seq<Node>, a: set<string>, b: set<string>)
    requires FindAll(f, b) == []
    ensures FindAll(f, a + b) == FindAll(f, a)
  {
    if f != [] {
      match f[0]
      case Text(_) =>
        FindAllIgnoresAbsent(f[1..], a, b);
      case Element(_, tag, cs) =>
        assert |FindAll(cs, b)| + |FindAll(f[1..], b)| <= |FindAll(f, b)|;
        FindAllIgnoresAbsent(cs, a, b);
        FindAllIgnoresAbsent(f[1..], a, b);
    }
  }

  /**
    Selecting with two disjoint tag sets at once yields, in total length, the
    texts of both selections.
   */
  lemma {:induction false} FindAllDisjointLength(f: seq<Node>, a: set<string>, b: set<string>)
    requires a !! b
    ensures |ElementTexts(FindAll(f, a + b))|
         == |ElementTexts(FindAll(f, a))| + |ElementTexts(FindAll(f, b))|
  {
    if f != [] {
      FindAllDisjointLength(f[1..], a, b);
      match f[0]
      case Text(_) =>
        assert FindAll(f, a + b) == FindAll(f[1..], a + b);
        assert FindAll(f, a) == FindAll(f[1..], a);
        assert FindAll(f, b) == FindAll(f[1..], b);
      case Element(_, tag, cs) =>
        FindAllDisjointLength(cs, a, b);
        ElementTextsOfHead(f, a + b);
        ElementTextsOfHead(f, a);
        ElementTextsOfHead(f, b);
    }
  }

  /** The text `find_all` collects from a forest whose first node is an element, split into its three parts. */
  lemma {:induction false} ElementTextsOfHead(f: seq<Node>, tags: set<string>)
    requires f != [] && f[0].Element?
    ensures |ElementTexts(FindAll(f, tags))|
         == |ElementTexts(if f[0].tag in tags then [f[0]] else [])|
          + |ElementTexts(FindAll(f[0].children, tags))| + |ElementTexts(FindAll(f[1..], tags))|
  {
    var own := if f[0].tag in tags then [f[0]] else [];
    ElementTextsAppend(own + FindAll(f[0].children, tags), FindAll(f[1..], tags));
    ElementTextsAppend(own, FindAll(f[0].children, tags));
  }

  /** Every node `find_all` returns is one of the nodes of the forest. */
  lemma {:induction false} FindAllWithin(f: seq<Node>, tags: set<string>, n: Node)
    requires n in FindAll(f, tags)
    ensures Within(n, f)
  {
    if n in FindAll(f[1..], tags) {
      FindAllWithin(f[1..], tags, n);
    } else if f[0].Element? && n in FindAll(f[0].children, tags) {
      FindAllWithin(f[0].children, tags, n);
    }
  }

  /** Every element `find_all` returns belongs to the forest. */
  lemma {:induction false} FoundWithin(f: seq<Node>, tags: set<string>)
    ensures IdsOf(FindAll(f, tags)) <= IdSet(f)
  {
    if f != [] {
      FoundWithin(f[1..], tags);
      match f[0]
      case Text(_) =>
        IdsOfAppend([], FindAll(f[1..], tags));
      case Element(id, tag, cs) =>
        FoundWithin(cs, tags);
        var head := (if tag in tags then [f[0]] else []) + FindAll(cs, tags);
        IdsOfAppend(if tag in tags then [f[0]] else [], FindAll(cs, tags));
        IdsOfAppend(head, FindAll(f[1..], tags));
    }
  }

  lemma {:induction false} WithoutAppend(a: seq<Node>, b: seq<Node>, ids: set<nat>)
    ensures Without(a + b, ids) == Without(a, ids) + Without(b, ids)
  {
    if a == [] {
      assert a + b == b;
    } else {
      assert (a + b)[0] == a[0];
      assert (a + b)[1..] == a[1..] + b;
      WithoutAppend(a[1..], b, ids);
    }
  }

  /** Removing the elements of `s` and then those of `t` removes those of both. */
  lemma {:induction false} WithoutUnion(f: seq<Node>, s: set<nat>, t: set<nat>)
    ensures Without(Without(f, s), t) == Without(f, s + t)
  {
    if f != [] {
      WithoutUnion(f[1..], s, t);
      match f[0]
      case Text(_) =>
        WithoutAppend([f[0]], Without(f[1..], s), t);
      case Element(id, tag, cs) =>
        WithoutUnion(cs, s, t);
        var head := if id in s then [] else [Element(id, tag, Without(cs, s))];
        WithoutAppend(head, Without(f[1..], s), t);
    }
  }

  /**
    Removing by identity the elements that `find_all(tags)` returned is the
    same as pruning by tag, provided that, within the forest, exactly the found
    elements have their ids in `s` (true when ids are distinct).
   */
  lemma {:induction false} WithoutFoundIsPrune(f: seq<Node>, s: set<nat>, tags: set<string>)
    requires DistinctIds(f)
    requires s * IdSet(f) == IdsOf(FindAll(f, tags))
    ensures Without(f, s) == Prune(f, tags)
  {
    if f != [] {
      var rest := f[1..];
      var headFound := match f[0]
        case Text(_) => []
        case Element(_, tag, cs) => (if tag in tags then [f[0]] else []) + FindAll(cs, tags);
      assert FindAll(f, tags) == headFound + FindAll(rest, tags);
      IdsOfAppend(headFound, FindAll(rest, tags));
      FoundWithin(rest, tags);
      assert IdsOf(headFound) <= NodeIds(f[0]) by {
        match f[0]
        case Text(_) =>
        case Element(id, tag, cs) =>
          FoundWithin(cs, tags);
          IdsOfAppend(if tag in tags then [f[0]] else [], FindAll(cs, tags));
      }
      assert s * IdSet(rest) == IdsOf(FindAll(rest, tags));
      WithoutFoundIsPrune(rest, s, tags);
      assert s * NodeIds(f[0]) == IdsOf(headFound);
      match f[0]
      case Text(_) =>
      case Element(id, tag, cs) =>
        FoundWithin(cs, tags);
        var own := if tag in tags then [f[0]] else [];
        IdsOfAppend(own, FindAll(cs, tags));
        if tag !in tags {
          assert id !in IdsOf(FindAll(cs, tags));
          assert s * IdSet(cs) == IdsOf(FindAll(cs, tags));
          WithoutFoundIsPrune(cs, s, tags);
        }
    }
  }

  /** Pruning keeps only elements that were there, so distinct ids stay distinct. */
  lemma {:induction false} PruneDistinct(f: seq<Node>, tags: set<string>)
    requires DistinctIds(f)
    ensures DistinctIds(Prune(f, tags)) && IdSet(Prune(f, tags)) <= IdSet(f)
  {
    if f != [] {
      PruneDistinct(f[1..], tags);
      match f[0]
      case Text(_) =>
        assert Prune(f, tags) == [f[0]] + Prune(f[1..], tags);
      case Element(id, tag, cs) =>
        PruneDistinct(cs, tags);
        var head := if tag in tags then [] else [Element(id, tag, Prune(cs, tags))];
        assert Prune(f, tags) == head + Prune(f[1..], tags);
        IdSetAppend(head, Prune(f[1..], tags));
        if tag !in tags {
          assert (head + Prune(f[1..], tags))[0] == head[0];
          assert (head + Prune(f[1..], tags))[1..] == Prune(f[1..], tags);
        } else {
          assert head + Prune(f[1..], tags) == Prune(f[1..], tags);
        }
    }
  }

  // ---------------------------------------------------------------------------
  // What removal guarantees

  /** After pruning, `find_all(tags)` finds nothing: no element with such a tag is left. */
  lemma {:induction false} PruneRemovesAll(f: seq<Node>, tags: set<string>)
    ensures FindAll(Prune(f, tags), tags) == []
  {
    if f != [] {
      PruneRemovesAll(f[1..], tags);
      match f[0]
      case Text(_) =>
        FindAllAppend([f[0]], Prune(f[1..], tags), tags);
      case Element(id, tag, cs) =>
        PruneRemovesAll(cs, tags);
        var head := if tag in tags then [] else [Element(id, tag, Prune(cs, tags))];
        FindAllAppend(head, Prune(f[1..], tags), tags);
    }
  }

  /** Pruning a second time changes nothing. */
  lemma {:induction false} PruneIdempotent(f: seq<Node>, tags: set<string>)
    ensures Prune(Prune(f, tags), tags) == Prune(f, tags)
  {
    if f != [] {
      PruneIdempotent(f[1..], tags);
      match f[0]
      case Text(_) =>
        PruneAppend([f[0]], Prune(f[1..], tags), tags);
      case Element(id, tag, cs) =>
        PruneIdempotent(cs, tags);
        var head := if tag in tags then [] else [Element(id, tag, Prune(cs, tags))];
        PruneAppend(head, Prune(f[1..], tags), tags);
    }
  }

  lemma {:induction false} PruneAppend(a: seq<Node>, b: seq<Node>, tags: set<string>)
    ensures Prune(a + b, tags) == Prune(a, tags) + Prune(b, tags)
  {
    if a == [] {
      assert a + b == b;
    } else {
      assert (a + b)[0] == a[0];
      assert (a + b)[1..] == a[1..] + b;
      PruneAppend(a[1..], b, tags);
    }
  }

  /**
    The elements left after pruning are exactly those of the original
    document minus every element of a subtree rooted at a found element: the
    found elements go, and all their descendants with them.
   */
  lemma {:induction false} PruneIds(f: seq<Node>, tags: set<string>)
    requires DistinctIds(f)
    ensures IdSet(Prune(f, tags)) == IdSet(f) - IdSet(FindAll(f, tags))
    decreases f
  {
    if f != [] {
      var h, rest := f[0], f[1..];
      assert f == [h] + rest;
      assert DistinctIds([h]);
      PruneIdsNode(h, tags);
      PruneIds(rest, tags);
      FoundIdsWithin([h], tags);
      FoundIdsWithin(rest, tags);
      PruneAppend([h], rest, tags);
      FindAllAppend([h], rest, tags);
      IdSetAppend(Prune([h], tags), Prune(rest, tags));
      IdSetAppend(FindAll([h], tags), FindAll(rest, tags));
      IdSetAppend([h], rest);
      assert IdSet([h]) == NodeIds(h);
    }
  }

  lemma {:induction false} PruneIdsNode(h: Node, tags: set<string>)
    requires DistinctIds([h])
    ensures IdSet(Prune([h], tags)) == NodeIds(h) - IdSet(FindAll([h], tags))
    decreases h
  {
    assert [h][1..] == [];
    match h
    case Text(_) =>
      assert FindAll([h], tags) == [];
    case Element(id, tag, cs) =>
      PruneIds(cs, tags);
      FoundIdsWithin(cs, tags);
      assert FindAll([h], tags) == (if tag in tags then [h] else []) + FindAll(cs, tags);
      IdSetAppend(if tag in tags then [h] else [], FindAll(cs, tags));
      if tag in tags {
        assert Prune([h], tags) == [];
        assert IdSet([h]) == NodeIds(h);
      } else {
        assert Prune([h], tags) == [Element(id, tag, Prune(cs, tags))];
        assert IdSet([Element(id, tag, Prune(cs, tags))]) == {id} + IdSet(Prune(cs, tags));
      }
  }

  /** The subtrees `find_all` returns lie within the forest. */
  lemma {:induction false} FoundIdsWithin(f: seq<Node>, tags: set<string>)
    ensures IdSet(FindAll(f, tags)) <= IdSet(f)
  {
    if f != [] {
      FoundIdsWithin(f[1..], tags);
      match f[0]
      case Text(_) =>
        assert FindAll(f, tags) == FindAll(f[1..], tags);
      case Element(id, tag, cs) =>
        FoundIdsWithin(cs, tags);
        var own := if tag in tags then [f[0]] else [];
        IdSetAppend(own + FindAll(cs, tags), FindAll(f[1..], tags));
        IdSetAppend(own, FindAll(cs, tags));
    }
  }

  // ---------------------------------------------------------------------------
  // What the collected text is

  /** The text of the pruned document is the text that does not lie under a pruned tag. */
  lemma {:induction false} PrunedTextIsVisible(f: seq<Node>, stop: set<string>)
    ensures ForestText(Prune(f, stop)) == VisibleText(f, stop)
  {
    if f != [] {
      PrunedTextIsVisible(f[1..], stop);
      match f[0]
      case Text(_) =>
        ForestTextAppend([f[0]], Prune(f[1..], stop));
      case Element(id, tag, cs) =>
        PrunedTextIsVisible(cs, stop);
        var head := if tag in stop then [] else [Element(id, tag, Prune(cs, stop))];
        ForestTextAppend(head, Prune(f[1..], stop));
    }
  }

  /**
    Removing the `stop` elements, selecting the `sel` elements of what is left
    and joining their texts, each followed by "\n", gives the reference
    `SelectedText` of the original document.
   */
  lemma {:induction false} SelectedTextOfPruned(f: seq<Node>, stop: set<string>, sel: set<string>)
    ensures ElementTexts(FindAll(Prune(f, stop), sel)) == SelectedText(f, stop, sel)
  {
    if f != [] {
      var rest := Prune(f[1..], stop);
      SelectedTextOfPruned(f[1..], stop, sel);
      match f[0]
      case Text(_) =>
        assert Prune(f, stop) == [f[0]] + rest;
        FindAllAppend([f[0]], rest, sel);
        assert FindAll([f[0]], sel) == [];
        assert FindAll(Prune(f, stop), sel) == FindAll(rest, sel);
      case Element(id, tag, cs) =>
        if tag in stop {
          assert Prune(f, stop) == rest;
        } else {
          var e := Element(id, tag, Prune(cs, stop));
          SelectedTextOfPruned(cs, stop, sel);
          PrunedTextIsVisible(cs, stop);
          FindAllAppend([e], rest, sel);
          var own := if tag in sel then [e] else [];
          ElementTextsAppend(own + FindAll(Prune(cs, stop), sel), FindAll(rest, sel));
          ElementTextsAppend(own, FindAll(Prune(cs, stop), sel));
        }
    }
  }

  /** The joined text is empty exactly when no element was selected. */
  lemma {:induction false} ElementTextsEmpty(es: seq<Node>)
    ensures ElementTexts(es) == "" <==> es == []
    ensures es != [] ==> ElementTexts(es)[|ElementTexts(es)| - 1] == '\n'
  {
    if es != [] {
      var t := ElementTexts(es[1..]);
      if t == "" {
        assert ElementTexts(es) == NodeText(es[0]) + "\n";
      } else {
        ElementTextsEmpty(es[1..]);
      }
    }
  }

  /**
    The joined text is the plain concatenation of the element texts with one
    extra "\n" per element: |es| more characters and |es| more "\n"s.
   */
  lemma {:induction false} ElementTextsTerminators(es: seq<Node>)
    ensures |ElementTexts(es)| == |ForestText(es)| + |es|
    ensures Count('\n', ElementTexts(es)) == Count('\n', ForestText(es)) + |es|
  {
    if es != [] {
      ElementTextsTerminators(es[1..]);
      var t := NodeText(es[0]);
      CountAppend('\n', t + "\n", ElementTexts(es[1..]));
      CountAppend('\n', t, "\n");
      CountAppend('\n', t, ForestText(es[1..]));
      assert Count('\n', "\n") == 1;
    }
  }
}
