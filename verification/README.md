# TechCore catalog filter and sampler, in Dafny

This project models the one piece of logic in the TechCore store page
(`App.tsx`) that is more than layout: the product showcase. The page keeps a
selection made of an active category and an active sub-category, both
starting at `'TODOS'`. From that selection and the fixed product list, it
computes the products to show:

- **`TODOS`**: a random sample of at most 8 products, drawn with the
  Fisher-Yates shuffle `shuffleArray`.
- **Any other category**: the products of that category, in catalog order.
- **`PERIFERICOS` with sub-category `TODOS`**: a random sample of at most 8
  peripherals.
- **`PERIFERICOS` with a concrete sub-category**: the peripherals of that
  sub-category, in catalog order.

The header links, the category buttons and the sub-category buttons change
the selection.

The model has four modules:

- **`Sequences`** holds the list vocabulary.
  - `Filter` models `Array.prototype.filter` and `Take` models `slice(0, n)`.
  - `SelectsExactly` is an independent description of "the in-order
    selection of the accepted elements". Its parts are subsequence,
    membership and exact multiplicities.
  - `FilterUnique` proves that this description determines `Filter`'s result.
- **`Shuffling`** holds `shuffleArray` and the size-8 sample.
  - Randomness is a parameter. A `Chooser` answers, for step `i`, the index
    in `[0, i]` that the source computes as
    `Math.floor(Math.random() * (i + 1))`.
  - `Shuffle` is the reference definition. `ShuffleArray` is the array loop,
    proved equal to it.
  - The lemmas show that the shuffle returns a permutation (`ShufflePermutes`).
  - Every permutation is produced by some draws (`ChooserFor`).
  - On a duplicate-free input, different draws give different permutations
    (`ShuffleInjective`). Draws and permutations are therefore in one-to-one
    correspondence.
  - Every ordered choice of `min(8, n)` of the candidates is a possible sample
    (`SampleReachesEverySelection`).
- **`Catalog`** holds the `Product` record, the `Selection` pair and
  `FilteredProducts`, which is the `filteredProducts` memo.
  - `Eligible` is an independent description of which products a selection
    is about.
  - The lemmas connect the memo's four branches to that description.
- **`Navigation`** holds the selection state machine.
  - It covers `handleNavigation`, the category buttons and the sub-category
    buttons.
  - Its lemmas cover resets, the last-click-wins rule, the set of states the
    buttons can reach, and the sub-category's irrelevance outside
    `PERIFERICOS`.

Design decisions:

- **String labels.** Categories and sub-categories are kept as strings, as
  the source types them.
- **Optional sub-category.** The optional `subCategory?` field becomes an
  `Option<string>`. The source's `p.subCategory === sub` becomes
  `p.subCategory == Some(sub)`, so an entry without a sub-category never
  matches.
- **Unguarded sub-category buttons.** The page shows the sub-category
  buttons only while the category is `PERIFERICOS`, but it hides them only by
  collapsing them with CSS (App.tsx:718); their click handler (App.tsx:722)
  has no guard. The model lets every sub-category click through.
  `SubCategoryIgnoredOutsidePeripherals` and
  `HiddenSubCategoriesChangeNothing` prove that, for the same random draws,
  such a click never changes what is shown. Under `TODOS` it does re-run the
  memo, which draws a new sample; see "Left out".
- **Redundant category test.** In the memo, the second test
  `activeCategory !== 'TODOS'` always holds after the first branch has
  returned. `FilteredProducts` therefore applies the category filter
  unconditionally.

## Model

| member | source | states |
|---|---|---|
| `Shuffling.Draw` | App.tsx:34 | the index drawn at step `i` lies in `[0, i]`, so the swap never leaves the array |
| `Shuffling.Swap` | App.tsx:35 | the destructuring swap exchanges the elements at `i` and `j`, leaves every other position as it was and keeps the length |
| `Shuffling.SwapPermutes` | App.tsx:35 | a swap keeps the multiset of elements |
| `Shuffling.ShuffleFrom` | App.tsx:33-36 | the loop from step `i` down to 1 keeps the length; its other properties are in the lemmas below |
| `Shuffling.Shuffle` | App.tsx:31-38 | the result of `shuffleArray` for given draws has the input's length |
| `Shuffling.ShuffleArray` | App.tsx:31-38 | the in-place loop over a fresh copy returns exactly `Shuffle(input, pick)`, and a permutation of the input |
| `Shuffling.CopyToArray` | App.tsx:32 | `[...array]` is a fresh array holding the input's elements, so the input is never modified |
| `Shuffling.ShuffleFromPermutes` | App.tsx:33-36 | the loop from any step keeps the multiset of elements |
| `Shuffling.ShufflePermutes` | App.tsx:31-38 | `shuffleArray` returns a permutation of its input |
| `Shuffling.ShuffleFromFixesTail` | App.tsx:33-36 | steps `i` and below leave positions after `i` alone, and step `i` puts the drawn element at `i` |
| `Shuffling.ShuffleUsesOnlyItsSteps` | App.tsx:33-36 | the loop from step `i` depends only on the draws for steps `0..i` |
| `Shuffling.ChooserFor` | App.tsx:31-38 | every permutation of the input is the output for some draws |
| `Shuffling.ChooserFrom` | App.tsx:33-36 | draws exist that turn `s` into any `t` agreeing after step `i` and holding the same elements up to it |
| `Shuffling.PlaceStep` | App.tsx:35 | after step `i` swaps the wanted element into place, the two sequences agree from `i` on and hold the same elements before it |
| `Shuffling.ShuffleInjective` | App.tsx:31-38 | on a duplicate-free input, two draws giving the same output agree on every step, so draws and permutations correspond one to one |
| `Shuffling.ShuffleFromInjective` | App.tsx:33-36 | on an input without repeated values, equal outputs of the loop from step `i` force equal draws at steps `0..i` |
| `Shuffling.Sample` | App.tsx:616 | `shuffleArray(c).slice(0, 8)` has `min(8, n)` elements of the `n` candidates, none taken more often than it occurs among them |
| `Shuffling.SampleDistinct` | App.tsx:616 | a sample of duplicate-free candidates has no duplicates |
| `Shuffling.SampleReachesEverySelection` | App.tsx:616 | every ordered choice of `min(8, n)` of the `n` candidates is the sample for some draws |
| `Sequences.Filter` | App.tsx:622 | `filter` keeps only accepted elements of the input and is no longer than it |
| `Sequences.FilterSelects` | App.tsx:622 | `filter` returns an in-order subsequence holding every accepted element exactly as often as the input does, and nothing else |
| `Sequences.FilterIsSubsequence` | App.tsx:622 | `filter` keeps the input's order |
| `Sequences.FilterCounts` | App.tsx:622 | `filter` keeps each accepted value exactly as often as it occurs, and drops every rejected value |
| `Sequences.FilterShrinks` | App.tsx:622 | `filter` takes each value at most as often as it occurs |
| `Sequences.FilterUnique` | App.tsx:622 | any sequence that is the in-order exact selection of the accepted elements equals `filter`'s result |
| `Sequences.FilterTwice` | App.tsx:621-629 | filtering by category and then by sub-category is the exact in-order selection by both tests |
| `Sequences.Take` | App.tsx:616 | `slice(0, n)` yields the first `n` elements of `s`, or all of `s` when it is shorter |
| `Catalog.InCategory` | App.tsx:622 | the category test accepts exactly the products of the given category |
| `Catalog.InSubCategory` | App.tsx:629 | the sub-category test accepts exactly the products whose sub-category is the given one, so never one without a sub-category |
| `Catalog.FilteredProducts` | App.tsx:614-634 | the shown products are taken from the catalog without repetition beyond the catalog's own, and a sampled view has at most 8 |
| `Catalog.ShowsEligible` | App.tsx:614-634 | an unsampled view is exactly the in-order list of eligible products; a sampled view shows `min(8, n)` of the `n` eligible products |
| `Catalog.ShowsOnlyEligible` | App.tsx:614-634 | every product shown is eligible for the selection |
| `Catalog.AllEligible` | App.tsx:615-617 | for `TODOS` every product is eligible |
| `Catalog.CategoryEligible` | App.tsx:619-633 | for another category the eligible products are the category filter, narrowed by the sub-category filter only under `PERIFERICOS` with a concrete sub-category |
| `Catalog.AllShowsSample` | App.tsx:615-617 | `TODOS` shows `min(8, n)` of the `n` products of the catalog, whatever the sub-category |
| `Catalog.AllReachesEverySelection` | App.tsx:615-617 | under `TODOS` every ordered choice of `min(8, n)` of the `n` products is shown for some draws |
| `Catalog.CategoryShowsFilter` | App.tsx:619-633 | a category other than `TODOS` and `PERIFERICOS` shows exactly its products in catalog order, uncapped, independent of the draws and of the sub-category |
| `Catalog.PeripheralsShowSample` | App.tsx:625-627 | `PERIFERICOS` with `TODOS` shows `min(8, n)` of the `n` peripherals, only peripherals, none more often than it occurs |
| `Catalog.PeripheralsReachEverySelection` | App.tsx:625-627 | under `PERIFERICOS` with `TODOS` every ordered choice of `min(8, n)` peripherals is shown for some draws |
| `Catalog.SubCategoryShowsFilter` | App.tsx:621-633 | `PERIFERICOS` with a concrete sub-category shows exactly the products matching both, in catalog order, uncapped and independent of the draws |
| `Catalog.WellFormedSubCategoryView` | App.tsx:628-629 | when only peripherals carry a sub-category, the sub-category view is the sub-category filter alone |
| `Catalog.SubCategoryIgnoredOutsidePeripherals` | App.tsx:625-633 | outside `PERIFERICOS`, for the same random draws, the sub-category does not change what is shown |
| `Catalog.EmptyExactlyWhenNoneEligible` | App.tsx:742 | the empty-state message shows exactly when no product is eligible for the selection |
| `Catalog.EmptyCatalog` | App.tsx:614-634 | an empty catalog shows nothing for every selection, without error |
| `Catalog.ShowsNoDuplicates` | App.tsx:614-634 | a catalog without repeated entries never shows an entry twice |
| `Navigation.Label` | App.tsx:28 | every navigation target other than `INICIO` names one of the category buttons' labels, and `INICIO` names none |
| `Navigation.Step` | App.tsx:645-722 | a link or category click resets the sub-category, a category click sets its category, and a sub-category click sets only the sub-category |
| `Navigation.Run` | App.tsx:645-722 | no events leave the state as it was; otherwise the last event decides the sub-category: `TODOS` after a link or category click, the clicked value after a sub-category click |
| `Navigation.HandleNavigation` | App.tsx:645-660 | `INICIO` yields `('TODOS', 'TODOS')`; any other target `t` yields `(t, 'TODOS')`; either way the category is one the category buttons show |
| `Navigation.ClickCategory` | App.tsx:702-705 | a category button yields `(cat, 'TODOS')` for its category `cat`, an offered state when `cat` is one of the buttons' labels |
| `Navigation.ClickSubCategory` | App.tsx:722 | a sub-category button never changes the category, and a button's own value keeps the state offered |
| `Navigation.InitialOffered` | App.tsx:234-235 | the initial `('TODOS', 'TODOS')` state is one the buttons offer |
| `Navigation.NavigationIsCategoryClick` | App.tsx:645-660 | `INICIO` yields `('TODOS', 'TODOS')`, the same state as `TODOS`; every other target acts as the category button of its name |
| `Navigation.CategoryClickForgets` | App.tsx:702-705 | a category click discards the previous selection and any earlier sub-category choice, and repeating it changes nothing |
| `Navigation.LastSubCategoryClickWins` | App.tsx:722 | of two sub-category clicks the later wins, and clicking the active one changes nothing |
| `Navigation.RunStaysOffered` | App.tsx:636-643 | events from the page's own links and buttons keep category and sub-category within the labels the buttons show |
| `Navigation.ResetForgetsHistory` | App.tsx:702-705 | after a navigation or category click the state no longer depends on earlier events |
| `Navigation.SubCategoryClicksKeepCategory` | App.tsx:722 | sub-category clicks keep the category, and the last of them sets the sub-category |
| `Navigation.HiddenSubCategoriesChangeNothing` | App.tsx:718-722 | after choosing a category other than `PERIFERICOS`, clicks on the hidden sub-category buttons leave the showcase unchanged for the same random draws |
| `Navigation.PeripheralsOpenWithSample` | App.tsx:652-653 | opening `PERIFERICOS` by link or button yields `('PERIFERICOS', 'TODOS')`, which shows the sample view |

## Left out

- The literal product data (App.tsx:237-612) is data entry. The model works on
  any catalog.
- The floating-point arithmetic of `Math.random` and `Math.floor` is not
  modelled. The random source is an injected `Chooser` that answers an index
  in `[0, i]`.
- Uniformity of the shuffle is a probabilistic claim and is not stated.
  Only its combinatorial basis is proved: a one-to-one correspondence between
  draws and permutations, and the reachability of every sample.
- React state, `useMemo` and `useCallback` are UI plumbing and are not
  modelled. In particular, the memo re-draws its sample only when the
  selection changes. The model takes the draws as a parameter of each
  computation instead.
- `e.preventDefault()`, `window.scrollTo` and the `setTimeout` call to
  `scrollIntoView` in `handleNavigation` are DOM effects with no bearing on
  the selection, and are not modelled.
- JSX rendering, CSS classes, the header and its mobile menu, the scroll
  listener, body-scroll locking and the Mercado Livre link are layout and
  browser plumbing, and are not modelled.
- Navigation.HiddenSubCategoriesChangeNothing: holds for the same random
  draws only. `activeSubCategory` is a dependency of the memo (App.tsx:634),
  so under `TODOS` a click on a collapsed sub-category button re-runs
  `shuffleArray` and shows a fresh sample. The model takes the draws as a
  parameter and does not model when the memo re-runs.
- Catalog.SubCategoryIgnoredOutsidePeripherals: holds for the same random
  draws only, for the same reason; a change of sub-category under `TODOS`
  re-draws the sample.
- The empty-state message is modelled only through the condition that shows
  it (App.tsx:742), not as rendering.
