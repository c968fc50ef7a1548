/** Value-level specification of the list: the sequences that the forward and
    backward traversals produce, and the operations that the list's mutators
    perform on them. */
module Sequences {

  /** The elements of `s` from last to first: what a tail-to-head walk yields. */
  function Reverse<T>(s: seq<T>): (r: seq<T>)
    ensures |r| == |s|
  {
    if s == [] then [] else Reverse(s[1..]) + [s[0]]
  }

  /** `t` in source order, or tail-to-head when `reverse` is set: the order in
      which a bulk append from another list adds that list's values. */
  function InOrder<T>(t: seq<T>, reverse: bool): (r: seq<T>)
    ensures |r| == |t|
  {
    if reverse then Reverse(t) else t
  }

  /** `s` with `x` placed at position `i`, everything from `i` on moving one
      place towards the tail: the effect of inserting before the element at `i`. */
  function Insert<T>(s: seq<T>, i: nat, x: T): (r: seq<T>)
    requires i <= |s|
    ensures |r| == |s| + 1
  {
    s[..i] + [x] + s[i..]
  }

  /** Position of the first occurrence of `x` in `s`: where a head-to-tail scan stops. */
  function FirstIndex<T(==)>(s: seq<T>, x: T): (i: nat)
    requires x in s
    ensures i < |s| && s[i] == x
    ensures forall k :: 0 <= k < i ==> s[k] != x
  {
    if s[0] == x then 0 else 1 + FirstIndex(s[1..], x)
  }

  /** A position at which `x` occurs in `s`. */
  ghost function IndexOf<T>(s: seq<T>, x: T): (i: nat)
    requires x in s
    ensures i < |s| && s[i] == x
  {
    var i :| 0 <= i < |s| && s[i] == x; i
  }

  /** Element `k` of the reversal is element `|s| - 1 - k` of the original. */
  lemma {:induction false} ReverseAt<T>(s: seq<T>, k: nat)
    requires k < |s|
    ensures Reverse(s)[k] == s[|s| - 1 - k]
  {
    if k < |s| - 1 {
      ReverseAt(s[1..], k);
    }
  }

  /** Reversing twice gives the original back: the forward traversal is the
      reverse of the backward one. */
  lemma ReverseReverse<T>(s: seq<T>)
    ensures Reverse(Reverse(s)) == s
  {
    forall k | 0 <= k < |s|
      ensures Reverse(Reverse(s))[k] == s[k]
    {
      ReverseAt(Reverse(s), k);
      ReverseAt(s, |s| - 1 - k);
    }
  }

  /** Reversal turns a concatenation around. */
  lemma ReverseConcat<T>(a: seq<T>, b: seq<T>)
    ensures Reverse(a + b) == Reverse(b) + Reverse(a)
  {
    forall k | 0 <= k < |a| + |b|
      ensures Reverse(a + b)[k] == (Reverse(b) + Reverse(a))[k]
    {
      ReverseAt(a + b, k);
      if k < |b| {
        ReverseAt(b, k);
      } else {
        ReverseAt(a, k - |b|);
      }
    }
  }

  /** Reversing the suffix that starts one place earlier adds that element at the end. */
  lemma ReverseSuffixStep<T>(s: seq<T>, i: nat)
    requires 0 < i <= |s|
    ensures Reverse(s[i - 1..]) == Reverse(s[i..]) + [s[i - 1]]
  {
  }

  /** The bulk-append orders are each other's reverse. */
  lemma InOrderFlip<T>(t: seq<T>, reverse: bool)
    ensures Reverse(InOrder(t, reverse)) == InOrder(t, !reverse)
  {
    if reverse {
      ReverseReverse(t);
    }
  }

  /** What the backward traversal yields after a bulk append: the appended
      values in the opposite order, then the old backward traversal. */
  lemma BackwardAfterAppend<T>(s: seq<T>, t: seq<T>, reverse: bool)
    ensures Reverse(s + InOrder(t, reverse)) == InOrder(t, !reverse) + Reverse(s)
  {
    ReverseConcat(s, InOrder(t, reverse));
    InOrderFlip(t, reverse);
  }

  /** Reversal around a single pivot element keeps the pivot in the middle. */
  lemma ReversePivot<T>(a: seq<T>, x: T, b: seq<T>)
    ensures Reverse(a + [x] + b) == Reverse(b) + [x] + Reverse(a)
  {
    assert Reverse([x]) == [x];
    ReverseConcat(a, [x]);
    ReverseConcat(a + [x], b);
  }

  /** What the backward traversal yields after inserting before position `i`:
      the new element lands right after the anchor's mirror position. */
  lemma ReverseInsert<T>(s: seq<T>, i: nat, x: T)
    requires i <= |s|
    ensures Reverse(Insert(s, i, x)) == Insert(Reverse(s), |s| - i, x)
  {
    var a, b := s[..i], s[i..];
    assert s == a + b;
    ReverseConcat(a, b);
    ReversePivot(a, x, b);
    var r := Reverse(s);
    assert r[..|b|] == Reverse(b) && r[|b|..] == Reverse(a);
  }

  /** Reversal only reorders: it keeps every element with its multiplicity. */
  lemma {:induction false} ReverseMultiset<T>(s: seq<T>)
    ensures multiset(Reverse(s)) == multiset(s)
  {
    if s != [] {
      ReverseMultiset(s[1..]);
      assert s == [s[0]] + s[1..];
    }
  }
}
