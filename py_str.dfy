/**
  The Python string built-ins the text pipeline relies on: `str.isspace`,
  `str.splitlines`, `str.strip` and `str.join`, over `string` as a sequence of
  Unicode scalar values.
 */
module PyStr {
  import opened Seqs

  /** `c.isspace()` in Python 3: the characters `str.strip()` removes. */
  predicate IsSpace(c: char)
  {
    var n := c as int;
    || (9 <= n <= 13) || (28 <= n <= 32) || n == 0x85 || n == 0xA0 || n == 0x1680
    || (0x2000 <= n <= 0x200A) || n == 0x2028 || n == 0x2029 || n == 0x202F
    || n == 0x205F || n == 0x3000
  }

  /** The line boundaries of `str.splitlines()` (a `\r\n` pair is one boundary). */
  predicate IsLineBreak(c: char)
  {
    var n := c as int;
    || (10 <= n <= 13) || (28 <= n <= 30) || n == 0x85 || n == 0x2028 || n == 0x2029
  }

  predicate NoLineBreak(s: string)
  {
    forall k :: 0 <= k < |s| ==> !IsLineBreak(s[k])
  }

  predicate AllSpace(s: string)
  {
    forall k :: 0 <= k < |s| ==> IsSpace(s[k])
  }

  /** A line that `strip()` leaves as it is and that is not dropped as empty. */
  predicate IsStrippedLine(s: string)
  {
    s != [] && !IsSpace(s[0]) && !IsSpace(s[|s| - 1])
  }

  /** The index of the first line boundary of `s`, or `|s|` when there is none. */
  function FirstBreak(s: string): (i: nat)
    ensures i <= |s|
    ensures i < |s| ==> IsLineBreak(s[i])
    ensures forall k :: 0 <= k < i ==> !IsLineBreak(s[k])
  {
    if s == [] || IsLineBreak(s[0]) then 0 else 1 + FirstBreak(s[1..])
  }

  /** The index just after the line boundary at `i`, which spans two characters for "\r\n". */
  function BreakEnd(s: string, i: nat): (next: nat)
    requires i < |s|
    ensures i < next <= |s|
    ensures IsLineBreak(s[i]) ==> forall k :: i <= k < next ==> IsLineBreak(s[k]) && IsSpace(s[k])
  {
    if s[i] == '\r' && i + 1 < |s| && s[i + 1] == '\n' then i + 2 else i + 1
  }

  /**
    `s.splitlines()`: the pieces between line boundaries, without the
    boundaries; no trailing empty piece after a final boundary, and `[]` for "".
    Joining the pieces with "\n", and adding a "\n" when `s` ends with a
    boundary, gives back `s` with each boundary written as one "\n"; as the
    pieces hold no boundary, this fixes every cut.
   */
  function SplitLines(s: string): (lines: seq<string>)
    ensures forall k :: 0 <= k < |lines| ==> NoLineBreak(lines[k])
    ensures Join("\n", lines) + (if EndsWithBreak(s) then "\n" else "") == OneNewline(s)
    ensures Flatten(lines) == Unbroken(s)
    ensures s == [] <==> lines == []
    decreases |s|
  {
    if s == [] then []
    else
      var i := FirstBreak(s);
      if i == |s| then
        UnbrokenPlain(s);
        OneNewlinePlain(s);
        assert Flatten([s]) == s + Flatten([]);
        [s]
      else
        var next := BreakEnd(s, i);
        var rest := SplitLines(s[next..]);
        UnbrokenAround(s, i, next);
        SplitStep(s, i, rest);
        assert ([s[..i]] + rest)[1..] == rest;
        [s[..i]] + rest
  }

  /** `s` has a line boundary as its last character. */
  predicate EndsWithBreak(s: string)
  {
    s != [] && IsLineBreak(s[|s| - 1])
  }

  /** `s` with every line boundary, a "\r\n" pair counting as one, written as "\n". */
  function OneNewline(s: string): string
  {
    if s == [] then []
    else if s[0] == '\r' && |s| > 1 && s[1] == '\n' then "\n" + OneNewline(s[2..])
    else if IsLineBreak(s[0]) then "\n" + OneNewline(s[1..])
    else [s[0]] + OneNewline(s[1..])
  }

  /**
    One step of `SplitLines`: when the pieces after the first boundary rejoin
    to the rest of the text, the first piece followed by them rejoins to all of it.
   */
  lemma {:induction false} SplitStep(s: string, i: nat, rest: seq<string>)
    requires i < |s| && IsLineBreak(s[i])
    requires forall k :: 0 <= k < i ==> !IsLineBreak(s[k])
    requires var after := s[BreakEnd(s, i)..];
      && (after == [] <==> rest == [])
      && Join("\n", rest) + (if EndsWithBreak(after) then "\n" else "") == OneNewline(after)
    ensures Join("\n", [s[..i]] + rest) + (if EndsWithBreak(s) then "\n" else "") == OneNewline(s)
  {
    var next := BreakEnd(s, i);
    OneNewlineAround(s, i);
    if rest == [] {
      assert next == |s|;
      assert EndsWithBreak(s);
    } else {
      assert ([s[..i]] + rest)[1..] == rest;
      assert s[|s| - 1] == s[next..][|s[next..]| - 1];
    }
  }

  /** A text without line boundaries is left as it is. */
  lemma {:induction false} OneNewlinePlain(s: string)
    requires NoLineBreak(s)
    ensures OneNewline(s) == s
  {
    if s != [] {
      OneNewlinePlain(s[1..]);
    }
  }

  /** The first boundary of `s` becomes its first "\n". */
  lemma {:induction false} OneNewlineAround(s: string, i: nat)
    requires i < |s| && IsLineBreak(s[i])
    requires forall k :: 0 <= k < i ==> !IsLineBreak(s[k])
    ensures OneNewline(s) == s[..i] + "\n" + OneNewline(s[BreakEnd(s, i)..])
  {
    if i == 0 {
      OneNewlineAtBreak(s);
      assert s[..0] == [];
    } else {
      var t := s[1..];
      OneNewlineAtPlain(s);
      OneNewlineAround(t, i - 1);
      var next := BreakEnd(s, i);
      BreakEndShift(s, i);
      assert t[next - 1..] == s[next..];
      assert [s[0]] + t[..i - 1] == s[..i];
    }
  }

  /** Dropping the first character moves the end of a later boundary back by one. */
  lemma {:induction false} BreakEndShift(s: string, i: nat)
    requires 0 < i < |s|
    ensures BreakEnd(s[1..], i - 1) == BreakEnd(s, i) - 1
  {
    var t := s[1..];
    assert t[i - 1] == s[i];
    assert i < |t| ==> t[i] == s[i + 1];
  }

  /** A text that starts with a boundary starts with "\n" once written out. */
  lemma {:induction false} OneNewlineAtBreak(s: string)
    requires s != [] && IsLineBreak(s[0])
    ensures OneNewline(s) == "\n" + OneNewline(s[BreakEnd(s, 0)..])
  {
  }

  /** A text that starts with another character keeps it. */
  lemma {:induction false} OneNewlineAtPlain(s: string)
    requires s != [] && !IsLineBreak(s[0])
    ensures OneNewline(s) == [s[0]] + OneNewline(s[1..])
  {
    assert s[0] != '\r';
  }

  /** The characters of `s` that are not line boundaries, in order. */
  function Unbroken(s: string): string
  {
    if s == [] then [] else (if IsLineBreak(s[0]) then [] else [s[0]]) + Unbroken(s[1..])
  }

  lemma {:induction false} UnbrokenAppend(a: string, b: string)
    ensures Unbroken(a + b) == Unbroken(a) + Unbroken(b)
  {
    if a == [] {
      assert a + b == b;
    } else {
      assert (a + b)[0] == a[0];
      assert (a + b)[1..] == a[1..] + b;
      UnbrokenAppend(a[1..], b);
    }
  }

  /** A text without line boundaries keeps all its characters. */
  lemma {:induction false} UnbrokenPlain(s: string)
    requires NoLineBreak(s)
    ensures Unbroken(s) == s
  {
    if s != [] {
      UnbrokenPlain(s[1..]);
    }
  }

  /** Cutting a text around the boundary `s[i..next]` that follows a boundary-free prefix. */
  lemma {:induction false} UnbrokenAround(s: string, i: nat, next: nat)
    requires i < next <= |s|
    requires forall k :: 0 <= k < i ==> !IsLineBreak(s[k])
    requires forall k :: i <= k < next ==> IsLineBreak(s[k])
    ensures Unbroken(s) == s[..i] + Unbroken(s[next..])
  {
    var head, run := s[..i], s[i..next];
    assert Unbroken(s) == Unbroken(head + run) + Unbroken(s[next..]) by {
      assert s == (head + run) + s[next..];
      UnbrokenAppend(head + run, s[next..]);
    }
    assert Unbroken(head + run) == head by {
      UnbrokenAppend(head, run);
      UnbrokenPlain(head);
      UnbrokenOfBreaks(run);
    }
  }

  /** A run of line boundaries contributes nothing. */
  lemma {:induction false} UnbrokenOfBreaks(s: string)
    requires forall k :: 0 <= k < |s| ==> IsLineBreak(s[k])
    ensures Unbroken(s) == []
  {
    if s != [] {
      UnbrokenOfBreaks(s[1..]);
    }
  }

  /** The number of leading whitespace characters of `s`. */
  function LeadingSpaces(s: string): (a: nat)
    ensures a <= |s|
    ensures forall k :: 0 <= k < a ==> IsSpace(s[k])
    ensures a < |s| ==> !IsSpace(s[a])
  {
    if s != [] && IsSpace(s[0]) then 1 + LeadingSpaces(s[1..]) else 0
  }

  /** The length of `s` once its trailing whitespace is cut off. */
  function TrailingStart(s: string): (b: nat)
    ensures b <= |s|
    ensures forall k :: b <= k < |s| ==> IsSpace(s[k])
    ensures 0 < b ==> !IsSpace(s[b - 1])
  {
    if s != [] && IsSpace(s[|s| - 1]) then TrailingStart(s[..|s| - 1]) else |s|
  }

  /** `s.strip()`: `s` without its leading and trailing whitespace. */
  function Strip(s: string): (r: string)
    ensures LeadingSpaces(s) + |r| <= |s|
    ensures r == s[LeadingSpaces(s)..LeadingSpaces(s) + |r|]
    ensures AllSpace(s[..LeadingSpaces(s)]) && AllSpace(s[LeadingSpaces(s) + |r|..])
    ensures r == [] <==> AllSpace(s)
    ensures r != [] ==> IsStrippedLine(r)
    ensures NoLineBreak(s) ==> NoLineBreak(r)
  {
    var a := LeadingSpaces(s);
    var b := a + TrailingStart(s[a..]);
    StripBounds(s, a, b);
    assert forall k :: 0 <= k < b - a ==> s[a..b][k] == s[a + k];
    s[a..b]
  }

  /** What the two cuts of `Strip` leave: the middle of `s`, between its whitespace runs. */
  lemma {:induction false} StripBounds(s: string, a: nat, b: nat)
    requires a == LeadingSpaces(s) && b == a + TrailingStart(s[a..])
    ensures a <= b <= |s|
    ensures a == b <==> AllSpace(s)
    ensures a < b ==> !IsSpace(s[a]) && !IsSpace(s[b - 1])
  {
    var t := s[a..];
    var c := TrailingStart(t);
    if a == |s| {
      assert t == [];
    } else {
      assert t[0] == s[a] && !IsSpace(s[a]);
      assert !AllSpace(s);
      assert 0 < c;
      assert t[c - 1] == s[b - 1];
    }
  }

  /** `sep.join(parts)`. */
  function Join(sep: string, parts: seq<string>): (r: string)
    ensures parts == [] ==> r == []
    ensures |parts| == 1 ==> r == parts[0]
    ensures parts != [] ==> |r| == SumLengths(parts) + (|parts| - 1) * |sep|
    ensures parts != [] ==> r[..|parts[0]|] == parts[0]
  {
    if parts == [] then ""
    else if |parts| == 1 then parts[0]
    else parts[0] + sep + Join(sep, parts[1..])
  }

  /**
    Joining two non-empty lists of parts is joining each and putting one
    separator between; with `Join(sep, [x]) == x` this determines `Join`.
   */
  lemma {:induction false} JoinAppend(sep: string, a: seq<string>, b: seq<string>)
    requires a != [] && b != []
    ensures Join(sep, a + b) == Join(sep, a) + sep + Join(sep, b)
  {
    assert (a + b)[0] == a[0];
    if |a| == 1 {
      assert (a + b)[1..] == b;
    } else {
      assert (a + b)[1..] == a[1..] + b;
      JoinAppend(sep, a[1..], b);
    }
  }

  /** A stripped, non-empty line is left unchanged by `strip()`. */
  lemma {:induction false} StripStrippedLine(s: string)
    requires IsStrippedLine(s)
    ensures Strip(s) == s
  {
    assert LeadingSpaces(s) == 0;
    assert s[0..] == s;
    assert TrailingStart(s) == |s|;
  }

  /** A joined sequence of non-empty lines is empty only when there are no lines. */
  lemma {:induction false} JoinEmpty(sep: string, parts: seq<string>)
    requires forall k :: 0 <= k < |parts| ==> parts[k] != []
    ensures Join(sep, parts) == [] <==> parts == []
  {
    if |parts| > 1 {
      assert |Join(sep, parts)| >= |parts[0]|;
    }
  }

  /**
    Joining lines that are non-empty and free of line boundaries with "\n" and
    splitting the result again gives back the same lines.
   */
  lemma {:induction false} SplitLinesOfJoin(lines: seq<string>)
    requires forall k :: 0 <= k < |lines| ==> lines[k] != [] && NoLineBreak(lines[k])
    ensures SplitLines(Join("\n", lines)) == lines
  {
    if lines == [] {
    } else if |lines| == 1 {
      var s := lines[0];
      assert FirstBreak(s) == |s|;
    } else {
      var x := lines[0];
      var rest := Join("\n", lines[1..]);
      var s := x + "\n" + rest;
      assert Join("\n", lines) == s;
      assert forall k :: 0 <= k < |x| ==> s[k] == x[k];
      assert s[|x|] == '\n';
      assert FirstBreak(s) == |x|;
      assert s[..|x|] == x;
      assert s[|x| + 1..] == rest;
      SplitLinesOfJoin(lines[1..]);
    }
  }

  /** A join of non-empty parts starts like its first part and ends like its last part. */
  lemma {:induction false} JoinEnds(sep: string, parts: seq<string>)
    requires parts != []
    requires forall k :: 0 <= k < |parts| ==> parts[k] != []
    ensures |Join(sep, parts)| >= |parts[0]|
    ensures Join(sep, parts)[0] == parts[0][0]
    ensures Join(sep, parts)[|Join(sep, parts)| - 1] == parts[|parts| - 1][|parts[|parts| - 1]| - 1]
  {
    if |parts| > 1 {
      var rest := Join(sep, parts[1..]);
      JoinEnds(sep, parts[1..]);
      assert Join(sep, parts) == parts[0] + sep + rest;
      assert parts[1..][|parts[1..]| - 1] == parts[|parts| - 1];
    }
  }

  /**
    `r` neither starts nor ends with whitespace, and each of its line
    boundaries is a single "\n" with a non-whitespace character on either side.
   */
  predicate Shaped(r: string)
  {
    && (r == [] || (!IsSpace(r[0]) && !IsSpace(r[|r| - 1])))
    && forall i :: 0 <= i < |r| && IsLineBreak(r[i]) ==>
         r[i] == '\n' && 0 < i < |r| - 1 && !IsSpace(r[i - 1]) && !IsSpace(r[i + 1])
  }

  /**
    When stripped, non-empty lines free of line boundaries are joined with "\n",
    every line boundary of the result is one of the joining "\n"s: never first
    or last, and with a non-whitespace character on either side.
   */
  lemma {:induction false} JoinedLinesShape(lines: seq<string>)
    requires forall k :: 0 <= k < |lines| ==> IsStrippedLine(lines[k]) && NoLineBreak(lines[k])
    ensures Shaped(Join("\n", lines))
  {
    if |lines| > 1 {
      var rest := Join("\n", lines[1..]);
      assert Join("\n", lines) == lines[0] + "\n" + rest;
      JoinedLinesShape(lines[1..]);
      JoinEnds("\n", lines[1..]);
      ShapedStep(lines[0], rest);
    }
  }

  /** A stripped, boundary-free line, a "\n" and a shaped non-empty text make a shaped text. */
  lemma {:induction false} ShapedStep(x: string, rest: string)
    requires IsStrippedLine(x) && NoLineBreak(x)
    requires rest != [] && Shaped(rest)
    ensures Shaped(x + "\n" + rest)
  {
    var r := x + "\n" + rest;
    assert forall i :: 0 <= i < |x| ==> r[i] == x[i];
    assert r[|x|] == '\n' && r[|x| + 1] == rest[0] && r[|r| - 1] == rest[|rest| - 1];
    forall i | |x| + 1 < i < |r| && IsLineBreak(r[i])
      ensures r[i] == '\n' && 0 < i < |r| - 1 && !IsSpace(r[i - 1]) && !IsSpace(r[i + 1])
    {
      assert r[i] == rest[i - |x| - 1];
      assert r[i - 1] == rest[i - |x| - 2];
      assert r[i + 1] == rest[i - |x|];
    }
  }

  /** Cutting out a run of whitespace does not change whether a string is all whitespace. */
  lemma {:induction false} AllSpaceAround(s: string, i: nat, j: nat)
    requires i <= j <= |s|
    requires forall k :: i <= k < j ==> IsSpace(s[k])
    ensures AllSpace(s) <==> AllSpace(s[..i]) && AllSpace(s[j..])
  {
    assert forall k :: 0 <= k < i ==> s[..i][k] == s[k];
    assert forall k :: j <= k < |s| ==> s[j..][k - j] == s[k];
  }

  /** Every line of `lines` is whitespace only. */
  predicate EveryLineSpace(lines: seq<string>)
  {
    forall k :: 0 <= k < |lines| ==> AllSpace(lines[k])
  }

  lemma {:induction false} EveryLineSpaceCons(x: string, rest: seq<string>)
    ensures EveryLineSpace([x] + rest) <==> AllSpace(x) && EveryLineSpace(rest)
  {
    var lines := [x] + rest;
    assert lines[0] == x;
    assert forall k :: 0 <= k < |rest| ==> rest[k] == lines[k + 1];
  }

  /** A string is whitespace only exactly when each of its lines is. */
  lemma {:induction false} SplitLinesAllSpace(s: string)
    ensures AllSpace(s) <==> EveryLineSpace(SplitLines(s))
    decreases |s|
  {
    if s != [] {
      var i := FirstBreak(s);
      if i < |s| {
        var next := BreakEnd(s, i);
        var rest := SplitLines(s[next..]);
        assert SplitLines(s) == [s[..i]] + rest;
        SplitLinesAllSpace(s[next..]);
        AllSpaceAround(s, i, next);
        EveryLineSpaceCons(s[..i], rest);
      } else {
        assert SplitLines(s) == [s];
        EveryLineSpaceCons(s, []);
      }
    }
  }
}
