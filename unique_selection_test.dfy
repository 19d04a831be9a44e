/** The concrete selections asserted by UniqueSelectionTest, stated over the
    model. */
module UniqueSelectionTest {
  import opened Selection
  import opened UniqueSelection

  /** lastSelection: last(3) gives 7, 8 and 9; last() gives 9 alone; the
      second selection from the same source agrees with the first. */
  lemma LastSelection(elements: seq<int>)
    requires elements == [1, 2, 3, 4, 5, 6, 7, 8, 9]
    ensures Exclude(elements, []) == elements
    ensures Select(elements, [], TakeLast(3)) == [7, 8, 9]
    ensures Select(elements, [], TakeLast(1)) == [9]
    ensures Select(elements, [], TakeLast(1)) == Last(Select(elements, [], TakeLast(3)), 1)
  {
    ExcludeNothing(elements);
    assert Last(elements, 3) == [7, 8, 9];
    assert Last(elements, 1) == [9];
  }

  /** firstSelection: first(3) gives [1, 2, 3]; first() gives [1]. */
  lemma FirstSelection(elements: seq<int>)
    requires elements == [1, 2, 3, 4, 5, 6, 7, 8, 9]
    ensures Exclude(elements, []) == elements
    ensures Select(elements, [], TakeFirst(3)) == [1, 2, 3]
    ensures Select(elements, [], TakeFirst(1)) == [1]
    ensures Select(elements, [], TakeFirst(1)) == First(Select(elements, [], TakeFirst(3)), 1)
  {
    ExcludeNothing(elements);
    assert First(elements, 3) == [1, 2, 3];
    assert First(elements, 1) == [1];
  }

  /** exclusionSelection: excluding 1, 2, 4 and 6 from [1..7] and taking
      first(3) gives [3, 5, 7]. */
  lemma ExclusionSelection(elements: seq<int>, exclusion: seq<int>)
    requires elements == [1, 2, 3, 4, 5, 6, 7] && exclusion == [1, 2, 4, 6]
    ensures Exclude(elements, exclusion) == [3, 5, 7]
    ensures Select(elements, exclusion, TakeFirst(3)) == [3, 5, 7]
  {
    ExclusionOfTail(elements, exclusion);
    assert elements[2..][0] == 3 && elements[2..][1..] == elements[3..];
    ExcludeStep(elements[2..], exclusion);
    assert Exclude(elements[2..], exclusion) == [3, 5, 7];
    assert elements[1..][0] == 2 && elements[1..][1..] == elements[2..];
    ExcludeStep(elements[1..], exclusion);
    assert Exclude(elements[1..], exclusion) == [3, 5, 7];
    ExcludeStep(elements, exclusion);
  }

  /** The last four elements of the exclusion scenario leave [5, 7]. */
  lemma ExclusionOfTail(elements: seq<int>, exclusion: seq<int>)
    requires elements == [1, 2, 3, 4, 5, 6, 7] && exclusion == [1, 2, 4, 6]
    ensures Exclude(elements[3..], exclusion) == [5, 7]
  {
    assert elements[6..][0] == 7 && elements[6..][1..] == elements[7..];
    ExcludeStep(elements[6..], exclusion);
    assert Exclude(elements[6..], exclusion) == [7];
    assert elements[5..][0] == 6 && elements[5..][1..] == elements[6..];
    ExcludeStep(elements[5..], exclusion);
    assert Exclude(elements[5..], exclusion) == [7];
    assert elements[4..][0] == 5 && elements[4..][1..] == elements[5..];
    ExcludeStep(elements[4..], exclusion);
    assert Exclude(elements[4..], exclusion) == [5, 7];
    assert elements[3..][0] == 4 && elements[3..][1..] == elements[4..];
    ExcludeStep(elements[3..], exclusion);
  }

  /** randomSelection, as far as it does not depend on the generator: a
      unique random selection of 4 from 4 distinct elements returns 4
      distinct elements, each of the source once. */
  lemma RandomSelection(draws: seq<nat>)
    requires ValidDraws(draws, 4)
    ensures |Random([1, 2, 3, 4], draws, 4)| == 4
    ensures multiset(Random([1, 2, 3, 4], draws, 4)) == multiset{1, 2, 3, 4}
    ensures Unique(Random([1, 2, 3, 4], draws, 4))
  {
    RandomKeepsUnique([1, 2, 3, 4], draws, 4);
  }
}
