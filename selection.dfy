/** The terminal operators of the selection pipeline, as values: a pipeline is
    built from a source list, optionally excludes some elements, and yields
    the first or last n of what remains, as a new list. The source is a value,
    so no selection can alter it. */
module Selection {
  import opened ReverseOrdering

  /** r occurs in s with its elements in the same relative order. */
  ghost predicate IsSubsequence<E>(r: seq<E>, s: seq<E>)
    decreases |s|
  {
    if r == [] then true
    else if s == [] then false
    else (r[0] == s[0] && IsSubsequence(r[1..], s[1..])) || IsSubsequence(r, s[1..])
  }

  lemma {:induction false} SubsequenceReflexive<E>(s: seq<E>)
    ensures IsSubsequence(s, s)
    decreases |s|
  {
    if s != [] {
      SubsequenceReflexive(s[1..]);
    }
  }

  lemma {:induction false} SubsequenceTransitive<E>(a: seq<E>, b: seq<E>, c: seq<E>)
    requires IsSubsequence(a, b) && IsSubsequence(b, c)
    ensures IsSubsequence(a, c)
    decreases |c|
  {
    if a != [] && c != [] {
      if b[0] == c[0] && IsSubsequence(b[1..], c[1..]) {
        if a[0] == b[0] && IsSubsequence(a[1..], b[1..]) {
          SubsequenceTransitive(a[1..], b[1..], c[1..]);
        } else {
          SubsequenceTransitive(a, b[1..], c[1..]);
        }
      } else {
        SubsequenceTransitive(a, b, c[1..]);
      }
    }
  }

  /** first(n): the leading n elements, in source order. */
  function First<E>(s: seq<E>, n: nat): (r: seq<E>)
    requires n <= |s|
    ensures |r| == n
    ensures forall i :: 0 <= i < n ==> r[i] == s[i]
  {
    s[..n]
  }

  /** last(n): the trailing n elements, in source order. */
  function Last<E>(s: seq<E>, n: nat): (r: seq<E>)
    requires n <= |s|
    ensures |r| == n
    ensures forall i :: 0 <= i < n ==> r[i] == s[|s| - n + i]
  {
    s[|s| - n..]
  }

  lemma {:induction false} FirstIsSubsequence<E>(s: seq<E>, n: nat)
    requires n <= |s|
    ensures IsSubsequence(First(s, n), s)
    decreases |s|
  {
    if n == 0 {
    } else {
      assert First(s, n)[1..] == First(s[1..], n - 1);
      FirstIsSubsequence(s[1..], n - 1);
    }
  }

  lemma {:induction false} LastIsSubsequence<E>(s: seq<E>, n: nat)
    requires n <= |s|
    ensures IsSubsequence(Last(s, n), s)
    decreases |s|
  {
    if n == |s| {
      assert Last(s, n) == s;
      SubsequenceReflexive(s);
    } else {
      assert Last(s, n) == Last(s[1..], n);
      LastIsSubsequence(s[1..], n);
    }
  }

  /** A later, shorter first(m) agrees with an earlier first(n) of the same
      source: the first selection did not disturb the source order. */
  lemma FirstOfFirst<E>(s: seq<E>, n: nat, m: nat)
    requires m <= n <= |s|
    ensures First(First(s, n), m) == First(s, m)
  {
  }

  /** Likewise for last(m) after last(n). */
  lemma LastOfLast<E>(s: seq<E>, n: nat, m: nat)
    requires m <= n <= |s|
    ensures Last(Last(s, n), m) == Last(s, m)
  {
  }

  /** Ordering the working list by ReverseOrdering and taking the first n
      gives the last n in reverse. */
  lemma LastIsReversedFirstOfReversed<E>(s: seq<E>, n: nat)
    requires n <= |s|
    ensures Last(s, n) == Reversed(First(Reversed(s), n))
  {
    var front, back := s[..|s| - n], s[|s| - n..];
    assert s == front + back;
    ReversedAppend(front, back);
    assert First(Reversed(s), n) == Reversed(back);
    ReversedInvolution(back);
  }

  /** exclude(X): drops every element equal to a member of X; what it keeps
      is stated by ExcludeMembers, ExcludeCount and ExcludeIsSubsequence. */
  function Exclude<E(==)>(s: seq<E>, excluded: seq<E>): (r: seq<E>)
    ensures |r| <= |s|
    decreases |s|
  {
    if s == [] then []
    else
      var rest := Exclude(s[1..], excluded);
      if s[0] in excluded then rest else [s[0]] + rest
  }

  /** An element survives exclude(X) exactly when the source has it and X
      does not. */
  lemma {:induction false} ExcludeMembers<E>(s: seq<E>, excluded: seq<E>, e: E)
    ensures e in Exclude(s, excluded) <==> e in s && e !in excluded
  {
    if s != [] {
      ExcludeMembers(s[1..], excluded, e);
      assert s == [s[0]] + s[1..];
    }
  }

  /** The survivors of exclude(X) keep their relative order. */
  lemma {:induction false} ExcludeIsSubsequence<E>(s: seq<E>, excluded: seq<E>)
    ensures IsSubsequence(Exclude(s, excluded), s)
    decreases |s|
  {
    if s != [] {
      var rest := Exclude(s[1..], excluded);
      ExcludeIsSubsequence(s[1..], excluded);
      if s[0] in excluded {
        if rest != [] {
          ExcludeMembers(s[1..], excluded, rest[0]);
        }
      } else {
        assert ([s[0]] + rest)[1..] == rest;
      }
    }
  }

  /** Each survivor keeps its number of occurrences; excluded values have none. */
  lemma {:induction false} ExcludeCount<E>(s: seq<E>, excluded: seq<E>, e: E)
    ensures multiset(Exclude(s, excluded))[e] == if e in excluded then 0 else multiset(s)[e]
  {
    if s != [] {
      ExcludeCount(s[1..], excluded, e);
      assert s == [s[0]] + s[1..];
    }
  }

  /** One step of exclusion: the head survives exactly when it is not excluded.
      The concrete scenarios unfold Exclude through this lemma, one element at
      a time, because unfolding it on literal lists runs out of resource. */
  lemma ExcludeStep<E>(s: seq<E>, excluded: seq<E>)
    requires s != []
    ensures Exclude(s, excluded) == if s[0] in excluded then Exclude(s[1..], excluded) else [s[0]] + Exclude(s[1..], excluded)
  {
  }

  /** Excluding nothing keeps the whole source. */
  lemma {:induction false} ExcludeNothing<E>(s: seq<E>)
    ensures Exclude(s, []) == s
  {
    if s != [] {
      ExcludeNothing(s[1..]);
      assert s == [s[0]] + s[1..];
    }
  }

  /** Excluding the same set again changes nothing. */
  lemma {:induction false} ExcludeIdempotent<E>(s: seq<E>, excluded: seq<E>)
    ensures Exclude(Exclude(s, excluded), excluded) == Exclude(s, excluded)
  {
    if s != [] {
      ExcludeIdempotent(s[1..], excluded);
      if s[0] !in excluded {
        assert ([s[0]] + Exclude(s[1..], excluded))[1..] == Exclude(s[1..], excluded);
      }
    }
  }

  lemma {:induction false} ExcludeAppend<E>(a: seq<E>, b: seq<E>, excluded: seq<E>)
    ensures Exclude(a + b, excluded) == Exclude(a, excluded) + Exclude(b, excluded)
  {
    if a == [] {
      assert a + b == b;
    } else {
      assert (a + b)[1..] == a[1..] + b;
      ExcludeAppend(a[1..], b, excluded);
    }
  }

  /** Exclusion removes the same elements whether or not the working list was
      first put in reverse order. */
  lemma {:induction false} ExcludeCommutesWithReverse<E>(s: seq<E>, excluded: seq<E>)
    ensures Exclude(Reversed(s), excluded) == Reversed(Exclude(s, excluded))
  {
    if s != [] {
      var head, tail := [s[0]], s[1..];
      assert s == head + tail;
      ExcludeCommutesWithReverse(tail, excluded);
      ExcludeAppend(Reversed(tail), head, excluded);
      ExcludeAppend(head, tail, excluded);
      ReversedAppend(Exclude(head, excluded), Exclude(tail, excluded));
      ReversedShort(Exclude(head, excluded));
    }
  }

  /** The terminal operation a pipeline was configured with; first() and
      last() without a count are TakeFirst(1) and TakeLast(1). */
  datatype Selector = TakeFirst(n: nat) | TakeLast(n: nat)

  /** from(source).exclude(excluded).<selector>.select() */
  function Select<E(==)>(source: seq<E>, excluded: seq<E>, selector: Selector): (r: seq<E>)
    requires selector.n <= |Exclude(source, excluded)|
    ensures |r| == selector.n
  {
    var working := Exclude(source, excluded);
    match selector
    case TakeFirst(n) => First(working, n)
    case TakeLast(n) => Last(working, n)
  }

  /** A selection holds only source elements that were not excluded. */
  lemma SelectMembers<E>(source: seq<E>, excluded: seq<E>, selector: Selector, e: E)
    requires selector.n <= |Exclude(source, excluded)|
    ensures e in Select(source, excluded, selector) ==> e in source && e !in excluded
  {
    ExcludeMembers(source, excluded, e);
  }

  /** A selection lists its elements in the order the source has them. */
  lemma SelectIsSubsequence<E>(source: seq<E>, excluded: seq<E>, selector: Selector)
    requires selector.n <= |Exclude(source, excluded)|
    ensures IsSubsequence(Select(source, excluded, selector), source)
  {
    var working := Exclude(source, excluded);
    ExcludeIsSubsequence(source, excluded);
    match selector
    case TakeFirst(n) =>
      FirstIsSubsequence(working, n);
      SubsequenceTransitive(First(working, n), working, source);
    case TakeLast(n) =>
      LastIsSubsequence(working, n);
      SubsequenceTransitive(Last(working, n), working, source);
  }
}
