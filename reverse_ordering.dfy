/** The reverse ordering strategy of the selection subsystem: it reverses a
    list of selection entries in place and reports that it could run. */
module ReverseOrdering {

  /** The reference definition of a reversed sequence. */
  function Reversed<E>(s: seq<E>): (r: seq<E>)
    ensures |r| == |s|
  {
    if s == [] then [] else Reversed(s[1..]) + [s[0]]
  }

  /** Position k of the reversed sequence holds the mirrored element. */
  lemma {:induction false} ReversedAt<E>(s: seq<E>, k: nat)
    requires k < |s|
    ensures Reversed(s)[k] == s[|s| - 1 - k]
  {
    if k < |s| - 1 {
      ReversedAt(s[1..], k);
    }
  }

  /** Reversal neither adds nor removes elements. */
  lemma {:induction false} ReversedMultiset<E>(s: seq<E>)
    ensures multiset(Reversed(s)) == multiset(s)
  {
    if s != [] {
      ReversedMultiset(s[1..]);
      assert s == [s[0]] + s[1..];
    }
  }

  /** Reversing twice restores the original order. */
  lemma ReversedInvolution<E>(s: seq<E>)
    ensures Reversed(Reversed(s)) == s
  {
    var r := Reversed(s);
    forall k | 0 <= k < |s|
      ensures Reversed(r)[k] == s[k]
    {
      ReversedAt(r, k);
      ReversedAt(s, |s| - 1 - k);
    }
  }

  /** Empty and one-element sequences are their own reversal. */
  lemma ReversedShort<E>(s: seq<E>)
    requires |s| <= 1
    ensures Reversed(s) == s
  {
    if |s| == 1 {
      assert s[1..] == [];
    }
  }

  /** Reversal of a concatenation reverses and swaps the two parts. */
  lemma {:induction false} ReversedAppend<E>(a: seq<E>, b: seq<E>)
    ensures Reversed(a + b) == Reversed(b) + Reversed(a)
  {
    if a == [] {
      assert a + b == b;
    } else {
      assert (a + b)[1..] == a[1..] + b;
      ReversedAppend(a[1..], b);
    }
  }

  /** A sequence that holds the mirrored element at every position is the
      reversal, and so has the same elements. */
  lemma MirroredIsReversed<E>(a: seq<E>, b: seq<E>)
    requires |a| == |b|
    requires forall k {:trigger a[k]} :: 0 <= k < |a| ==> a[k] == b[|b| - 1 - k]
    ensures a == Reversed(b) && multiset(a) == multiset(b)
  {
    forall k | 0 <= k < |a|
      ensures a[k] == Reversed(b)[k]
    {
      ReversedAt(b, k);
    }
    ReversedMultiset(b);
  }

  /** ReverseOrdering.order: reverses the entries in place, swapping the
      outermost unswapped pair at each step, and always reports success. */
  method Order<E>(elements: array<E>) returns (ok: bool)
    modifies elements
    ensures ok
    ensures elements[..] == Reversed(old(elements[..]))
    ensures multiset(elements[..]) == multiset(old(elements[..]))
  {
    ghost var was := elements[..];
    var n := elements.Length;
    var i, j := 0, n - 1;
    while i < j
      invariant 0 <= i <= j + 1 && j == n - 1 - i
      invariant forall k {:trigger elements[k]} :: 0 <= k < i || n - i <= k < n ==> elements[k] == was[n - 1 - k]
      invariant forall k :: i <= k < n - i ==> elements[k] == was[k]
    {
      elements[i], elements[j] := elements[j], elements[i];
      i, j := i + 1, j - 1;
    }
    assert forall k {:trigger elements[k]} :: 0 <= k < n ==> elements[k] == was[n - 1 - k];
    MirroredIsReversed(elements[..], was);
    ok := true;
  }
}
