# Selection and ordering core of CIlib, in Dafny

This project models two parts of the selection subsystem of CIlib, a Java
library for computational intelligence.

- `ReverseOrdering.order` is an ordering strategy. It reverses a list of
  selection entries in place and returns `true`. The model is the method
  `ReverseOrdering.Order`. It works on an `array<E>` with the same two-index
  swapping loop that `Collections.reverse` runs. It is proved against the
  reference function `Reversed`.
- The `first`, `last` and `exclude` operators of the fluent
  `Selection.from(list)...select()` pipeline are modelled as pure functions
  over `seq<E>`. The same goes for the size guarantees of
  `UniqueSelection.random`. The operators are defined by CIlib's `Selection`
  class, which is not part of this model. Their behaviour here is taken from
  what `UniqueSelectionTest` asserts, read as prefix, suffix and filter:
  - `first(n)` is a prefix and `last(n)` is a suffix in source order. The
    test checks the order of `first(3)` but only the members of `last(3)`.
  - `first()` and `last()` are the `n = 1` case.
  - `exclude(X)` removes every element equal to a member of `X` and keeps
    the survivors in their source order.
  - A random selection is a shuffle followed by `first(n)`.
  The test's concrete scenarios are lemmas in module `UniqueSelectionTest`.

The source list is a value here, so no selection can change it. Two
selections from the same source therefore see the same order.
`FirstOfFirst` and `LastOfLast` state that a later, shorter selection agrees
with an earlier one.

Modules:
- `ReverseOrdering` (`reverse_ordering.dfy`): `Reversed`, its lemmas, and
  the in-place `Order`.
- `Selection` (`selection.dfy`): `First`, `Last`, `Exclude`, the `Select`
  terminal operation and the order-preservation predicate `IsSubsequence`.
- `UniqueSelection` (`unique_selection.dfy`): the generator-driven shuffle
  and `Random`.
- `UniqueSelectionTest` (`unique_selection_test.dfy`): the scenarios of the
  Java test class.

## Model

| member | source | states |
|---|---|---|
| `ReverseOrdering.Order` | src/main/java/net/sourceforge/cilib/util/selection/ordering/ReverseOrdering.java:38-42 | order always returns true. Afterwards the array holds the reversal of its old contents, and the multiset of entries is unchanged. |
| `ReverseOrdering.Reversed` | src/main/java/net/sourceforge/cilib/util/selection/ordering/ReverseOrdering.java:40 | Reversal keeps the length of the list. |
| `ReverseOrdering.ReversedAt` | src/main/java/net/sourceforge/cilib/util/selection/ordering/ReverseOrdering.java:36-40 | After reversal, position k holds the element that was at position n-1-k. |
| `ReverseOrdering.ReversedMultiset` | src/main/java/net/sourceforge/cilib/util/selection/ordering/ReverseOrdering.java:40 | Reversal neither adds nor removes entries: the multiset is unchanged. |
| `ReverseOrdering.ReversedInvolution` | src/main/java/net/sourceforge/cilib/util/selection/ordering/ReverseOrdering.java:36-41 | Reversing twice restores the original list. |
| `ReverseOrdering.ReversedShort` | src/main/java/net/sourceforge/cilib/util/selection/ordering/ReverseOrdering.java:40 | Empty and one-element lists are left unchanged. |
| `Selection.First` | src/test/java/net/sourceforge/cilib/util/selection/UniqueSelectionTest.java:54-59 | first(n) has exactly n elements, and element i is source element i. |
| `Selection.Last` | src/test/java/net/sourceforge/cilib/util/selection/UniqueSelectionTest.java:39-44 | last(n) has exactly n elements: the final n of the source, in source order. |
| `Selection.FirstIsSubsequence` | src/test/java/net/sourceforge/cilib/util/selection/UniqueSelectionTest.java:54-59 | first(n) lists source elements in their source order. |
| `Selection.LastIsSubsequence` | src/test/java/net/sourceforge/cilib/util/selection/UniqueSelectionTest.java:39-44 | last(n) lists source elements in their source order. |
| `Selection.FirstOfFirst` | src/test/java/net/sourceforge/cilib/util/selection/UniqueSelectionTest.java:51-64 | A later first(m) from the same source agrees with the first m elements of an earlier first(n), for m <= n. |
| `Selection.LastOfLast` | src/test/java/net/sourceforge/cilib/util/selection/UniqueSelectionTest.java:37-49 | A later last(m) from the same source agrees with the last m elements of an earlier last(n), for m <= n. |
| `Selection.LastIsReversedFirstOfReversed` | src/main/java/net/sourceforge/cilib/util/selection/ordering/ReverseOrdering.java:36-41 | Reverse-ordering the list and taking first(n) gives last(n) in reverse. |
| `Selection.Exclude` | src/test/java/net/sourceforge/cilib/util/selection/UniqueSelectionTest.java:70 | Exclusion never lengthens the list. |
| `Selection.ExcludeMembers` | src/test/java/net/sourceforge/cilib/util/selection/UniqueSelectionTest.java:68-74 | An element survives exclude(X) if and only if the source has it and X does not. |
| `Selection.ExcludeCount` | src/test/java/net/sourceforge/cilib/util/selection/UniqueSelectionTest.java:68-74 | Each surviving value keeps its number of occurrences. Excluded values have none. |
| `Selection.ExcludeIsSubsequence` | src/test/java/net/sourceforge/cilib/util/selection/UniqueSelectionTest.java:70-74 | The survivors keep their relative source order. |
| `Selection.ExcludeNothing` | src/test/java/net/sourceforge/cilib/util/selection/UniqueSelectionTest.java:39 | A pipeline without exclude works on the whole source. |
| `Selection.ExcludeIdempotent` | src/test/java/net/sourceforge/cilib/util/selection/UniqueSelectionTest.java:70 | Excluding the same elements a second time changes nothing. |
| `Selection.ExcludeAppend` | src/test/java/net/sourceforge/cilib/util/selection/UniqueSelectionTest.java:70 | Exclusion acts on each element on its own: it distributes over concatenation. |
| `Selection.ExcludeCommutesWithReverse` | src/test/java/net/sourceforge/cilib/util/selection/UniqueSelectionTest.java:70 | Exclusion removes the same elements, in mirrored order, whether or not the list was reverse-ordered first. |
| `Selection.Select` | src/test/java/net/sourceforge/cilib/util/selection/UniqueSelectionTest.java:39 | from(source).exclude(X).first(n) or .last(n) selects exactly n elements. |
| `Selection.SelectMembers` | src/test/java/net/sourceforge/cilib/util/selection/UniqueSelectionTest.java:70-74 | Every selected element is a source element that was not excluded. |
| `Selection.SelectIsSubsequence` | src/test/java/net/sourceforge/cilib/util/selection/UniqueSelectionTest.java:54-59 | A selection lists its elements in source order. |
| `UniqueSelection.Shuffle` | src/test/java/net/sourceforge/cilib/util/selection/UniqueSelectionTest.java:84 | The random ordering is a permutation: same length, same multiset. |
| `UniqueSelection.ShuffleKeepsUnique` | src/test/java/net/sourceforge/cilib/util/selection/UniqueSelectionTest.java:84 | Shuffling a list of distinct elements keeps them distinct. |
| `UniqueSelection.Random` | src/test/java/net/sourceforge/cilib/util/selection/UniqueSelectionTest.java:84-85 | random(gen, n) returns exactly n elements, all taken from the source. When n is the source size, they are a permutation of it. |
| `UniqueSelection.RandomKeepsUnique` | src/test/java/net/sourceforge/cilib/util/selection/UniqueSelectionTest.java:84-85 | From a source of distinct elements, random(gen, n) never returns an element twice. |
| `UniqueSelectionTest.LastSelection` | src/test/java/net/sourceforge/cilib/util/selection/UniqueSelectionTest.java:37-49 | On [1..9], last(3) is [7, 8, 9] and last() is [9]. This agrees with the earlier last(3). |
| `UniqueSelectionTest.FirstSelection` | src/test/java/net/sourceforge/cilib/util/selection/UniqueSelectionTest.java:51-64 | On [1..9], first(3) is [1, 2, 3] and first() is [1]. This agrees with the earlier first(3). |
| `UniqueSelectionTest.ExclusionSelection` | src/test/java/net/sourceforge/cilib/util/selection/UniqueSelectionTest.java:66-75 | On [1..7], excluding [1, 2, 4, 6] leaves [3, 5, 7], and first(3) of that is [3, 5, 7]. |
| `UniqueSelectionTest.RandomSelection` | src/test/java/net/sourceforge/cilib/util/selection/UniqueSelectionTest.java:83-85 | For every admissible generator output, random(gen, 4) on [1, 2, 3, 4] returns 4 distinct elements, each source element exactly once. |

## Left out

- `Selection`, `SelectionSyntax.Entry` and `UniqueSelection` are not part of this model. Their behaviour is taken only from what `UniqueSelectionTest` asserts. Entries are modelled as the elements they wrap.
- `First`: requires `n <= |s|`. The model does not include `Selection`'s own code, and `UniqueSelectionTest` never asks for more elements than the list holds. Negative counts cannot be written with `nat`.
- `Last`: requires `n <= |s|`, for the same reason.
- `Last`: the order of `last(n)` is assumed to be source order. `UniqueSelectionTest` checks only the size of `last(3)` and that it contains 7, 8 and 9, so the order in `Last`'s contract and the `[7, 8, 9]` in `LastSelection` come from the suffix reading.
- `Select`: requires the count to be at most the number of elements left after exclusion. The model does not include `Selection`'s own code, so clamping and errors for larger or negative counts are not modelled. `UniqueSelectionTest` never asks for more elements than remain.
- `Random`: the generator (`MersenneTwister`) and the process-wide `Seeder` strategy are not part of this model. The generator's answers are the parameter `draws`. The only constraint on them is the range of `nextInt(bound)`.
- `Shuffle`: the random ordering's code is not part of this model. It is modelled as the usual Fisher–Yates pass: for each position p from the last down to 1, swap p with a drawn position in [0, p].
- The exact permutation [4, 1, 3, 2] that randomSelection expects for seed 0 is not modelled, because it is fixed by the generator's output.
- The seeder swap and restore in randomSelection's `try`/`finally` (global mutable state) is not modelled.
- `RandomKeepsUnique`: states "no element twice" only for a source without duplicates. The de-duplication that `UniqueSelection` may perform on its source is not part of this model.
- `Order`: works on a fixed-length array rather than a `java.util.List`. `Collections.reverse` does not change the list's length, and its iterator-based variant for non-random-access lists produces the same result.
- The `orderBy` registration of orderings in the pipeline is not modelled. Reverse ordering is related to the pipeline only by the lemmas `LastIsReversedFirstOfReversed` and `ExcludeCommutesWithReverse`.
- `QuarticTest` (a floating-point benchmark function) lies outside the selection subsystem and is not modelled.
