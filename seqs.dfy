/**
  Sequence helpers shared by the extraction and batching modules: flattening a
  sequence of sequences (list concatenation in a loop, `str +=` over pages,
  `list.append` over nested loops) and counting occurrences.
 */
module Seqs {

  /** The concatenation, in order, of every inner sequence. */
  function Flatten<T>(xss: seq<seq<T>>): seq<T>
  {
    if xss == [] then [] else xss[0] + Flatten(xss[1..])
  }

  /** The total number of elements held by the inner sequences. */
  function SumLengths<T>(xss: seq<seq<T>>): nat
  {
    if xss == [] then 0 else |xss[0]| + SumLengths(xss[1..])
  }

  /** The number of positions of `s` that hold `x`. */
  function Count<T(==)>(x: T, s: seq<T>): nat
  {
    if s == [] then 0 else (if s[0] == x then 1 else 0) + Count(x, s[1..])
  }

  lemma {:induction false} FlattenAppend<T>(a: seq<seq<T>>, b: seq<seq<T>>)
    ensures Flatten(a + b) == Flatten(a) + Flatten(b)
  {
    if a != [] {
      assert (a + b)[0] == a[0];
      assert (a + b)[1..] == a[1..] + b;
      FlattenAppend(a[1..], b);
    } else {
      assert a + b == b;
    }
  }

  /** Appending one more inner sequence appends its elements. */
  lemma {:induction false} FlattenSnoc<T>(xss: seq<seq<T>>, k: nat)
    requires k < |xss|
    ensures Flatten(xss[..k + 1]) == Flatten(xss[..k]) + xss[k]
  {
    assert xss[..k + 1] == xss[..k] + [xss[k]];
    FlattenAppend(xss[..k], [xss[k]]);
    assert Flatten([xss[k]]) == xss[k] + Flatten([]);
  }

  lemma {:induction false} FlattenLength<T>(xss: seq<seq<T>>)
    ensures |Flatten(xss)| == SumLengths(xss)
  {
    if xss != [] {
      FlattenLength(xss[1..]);
    }
  }

  /**
    The k-th inner sequence occupies the slice of the flattening that starts
    after all elements of the inner sequences before it.
   */
  lemma {:induction false} FlattenSlice<T>(xss: seq<seq<T>>, k: nat)
    requires k < |xss|
    ensures SumLengths(xss[..k]) + |xss[k]| <= |Flatten(xss)|
    ensures Flatten(xss)[SumLengths(xss[..k])..SumLengths(xss[..k]) + |xss[k]|] == xss[k]
  {
    FlattenLength(xss[1..]);
    if k == 0 {
      assert xss[..0] == [];
    } else {
      FlattenSlice(xss[1..], k - 1);
      assert xss[..k][0] == xss[0];
      assert xss[..k][1..] == xss[1..][..k - 1];
      var rest := Flatten(xss[1..]);
      var off := SumLengths(xss[1..][..k - 1]);
      assert Flatten(xss) == xss[0] + rest;
      assert (xss[0] + rest)[|xss[0]| + off..|xss[0]| + off + |xss[k]|] == rest[off..off + |xss[k]|];
    }
  }

  /** Two sequences of sequences whose inner lengths agree have the same total length. */
  lemma {:induction false} SameLengths<T, U>(xss: seq<seq<T>>, yss: seq<seq<U>>)
    requires |xss| == |yss|
    requires forall k :: 0 <= k < |xss| ==> |xss[k]| == |yss[k]|
    ensures SumLengths(xss) == SumLengths(yss)
  {
    if xss != [] {
      SameLengths(xss[1..], yss[1..]);
    }
  }

  lemma {:induction false} CountAppend<T>(x: T, a: seq<T>, b: seq<T>)
    ensures Count(x, a + b) == Count(x, a) + Count(x, b)
  {
    if a != [] {
      assert (a + b)[0] == a[0];
      assert (a + b)[1..] == a[1..] + b;
      CountAppend(x, a[1..], b);
    } else {
      assert a + b == b;
    }
  }
}
