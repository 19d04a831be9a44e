/** The random terminal operation of a unique selection: the working list is
    shuffled by the random ordering and the first n entries are kept. The
    generator is outside the model; its draws are a parameter. */
module UniqueSelection {
  import opened Selection

  /** No element occurs at two positions. */
  ghost predicate Unique<E>(s: seq<E>)
  {
    forall i, j :: 0 <= i < |s| && 0 <= j < |s| && i != j ==> s[i] != s[j]
  }

  /** The generator's answers for one shuffle of n entries: draws[p] is the
      value of nextInt(p + 1) asked for position p, so it lies in [0, p]. */
  ghost predicate ValidDraws(draws: seq<nat>, n: nat)
  {
    |draws| == n && forall p :: 0 <= p < n ==> draws[p] <= p
  }

  /** Exchange the entries at positions i and j. */
  function Swap<E>(s: seq<E>, i: nat, j: nat): (r: seq<E>)
    requires i < |s| && j < |s|
    ensures |r| == |s| && multiset(r) == multiset(s)
    ensures r[i] == s[j] && r[j] == s[i]
    ensures forall k :: 0 <= k < |s| && k != i && k != j ==> r[k] == s[k]
  {
    s[i := s[j]][j := s[i]]
  }

  lemma SwapKeepsUnique<E>(s: seq<E>, i: nat, j: nat)
    requires i < |s| && j < |s| && Unique(s)
    ensures Unique(Swap(s, i, j))
  {
  }

  /** The random ordering, from the last unvisited position p - 1 down to
      position 1: each position is swapped with the earlier-or-equal position
      the generator drew for it. */
  function Shuffle<E>(s: seq<E>, draws: seq<nat>, p: nat): (r: seq<E>)
    requires p <= |s| && ValidDraws(draws, |s|)
    ensures |r| == |s| && multiset(r) == multiset(s)
    decreases p
  {
    if p <= 1 then s else Shuffle(Swap(s, p - 1, draws[p - 1]), draws, p - 1)
  }

  /** A shuffle of a list without duplicates has no duplicates. */
  lemma {:induction false} ShuffleKeepsUnique<E>(s: seq<E>, draws: seq<nat>, p: nat)
    requires p <= |s| && ValidDraws(draws, |s|) && Unique(s)
    ensures Unique(Shuffle(s, draws, p))
    decreases p
  {
    if p > 1 {
      SwapKeepsUnique(s, p - 1, draws[p - 1]);
      ShuffleKeepsUnique(Swap(s, p - 1, draws[p - 1]), draws, p - 1);
    }
  }

  /** random(generator, n): the first n entries of the shuffled list. */
  function Random<E>(s: seq<E>, draws: seq<nat>, n: nat): (r: seq<E>)
    requires n <= |s| && ValidDraws(draws, |s|)
    ensures |r| == n
    ensures multiset(r) <= multiset(s)
    ensures n == |s| ==> multiset(r) == multiset(s)
  {
    var shuffled := Shuffle(s, draws, |s|);
    assert shuffled == First(shuffled, n) + shuffled[n..];
    First(shuffled, n)
  }

  /** A unique selection from a list without duplicates never returns an
      element twice. */
  lemma RandomKeepsUnique<E>(s: seq<E>, draws: seq<nat>, n: nat)
    requires n <= |s| && ValidDraws(draws, |s|) && Unique(s)
    ensures Unique(Random(s, draws, n))
  {
    ShuffleKeepsUnique(s, draws, |s|);
  }
}
