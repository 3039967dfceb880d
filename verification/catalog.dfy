/** The product catalog and the showcase the page renders from it: the
    `filteredProducts` computation of App.tsx, which maps the selected
    category and sub-category to the visible products. */
module Catalog {
  import opened Sequences
  import opened Shuffling

  datatype Option<T> = None | Some(value: T)

  /** A catalog entry. Categories are plain strings, as in the source; the
      optional `subCategory?` field is `None` when the entry has none. */
  datatype Product = Product(
    image: string,
    title: string,
    desc: string,
    price: string,
    category: string,
    subCategory: Option<string>)

  /** The label `'TODOS'`, which selects every category or every
      sub-category. */
  const All: string := "TODOS"

  /** The label `'PERIFERICOS'`, the only category with sub-category
      filters. */
  const Peripherals: string := "PERIFERICOS"

  /** The pair `(activeCategory, activeSubCategory)` of the page state. */
  datatype Selection = Selection(category: string, subCategory: string)

  /** `p => p.category === category` */
  function InCategory(category: string): (r: Product -> bool)
    ensures forall p :: r(p) <==> p.category == category
  {
    (p: Product) => p.category == category
  }

  /** `p => p.subCategory === sub`: an entry without a sub-category never
      matches, since `undefined` equals no string. */
  function InSubCategory(sub: string): (r: Product -> bool)
    ensures forall p :: r(p) ==> p.subCategory.Some?
    ensures forall p :: r(p) <==> p.subCategory == Some(sub)
  {
    (p: Product) => p.subCategory == Some(sub)
  }

  /** Whether a selection shows a random sample rather than a filtered list. */
  predicate Sampled(sel: Selection) {
    sel.category == All || (sel.category == Peripherals && sel.subCategory == All)
  }

  /** Which products a selection is about, independently of how many are
      shown and in what order: every product for `TODOS`, otherwise the ones
      of the category, narrowed to the sub-category when the category is
      `PERIFERICOS` and a concrete sub-category is chosen. */
  predicate Eligible(sel: Selection, p: Product) {
    if sel.category == All then true
    else
      && p.category == sel.category
      && (sel.category == Peripherals && sel.subCategory != All ==> p.subCategory == Some(sel.subCategory))
  }

  /** Models the `filteredProducts` memo: `pick` stands for the random draws
      of `shuffleArray`. The source filters by category under a second test
      `activeCategory !== 'TODOS'`, which always holds once the first branch
      has returned, so the filter is applied unconditionally here. */
  function FilteredProducts(products: seq<Product>, sel: Selection, pick: Chooser): (r: seq<Product>)
    ensures multiset(r) <= multiset(products)
    ensures Sampled(sel) ==> |r| <= SampleSize
  {
    if sel.category == All then
      Sample(products, pick)
    else
      var result := Filter(products, InCategory(sel.category));
      FilterShrinks(products, InCategory(sel.category));
      if sel.category == Peripherals then
        if sel.subCategory == All then
          Sample(result, pick)
        else
          var narrowed := Filter(result, InSubCategory(sel.subCategory));
          FilterShrinks(result, InSubCategory(sel.subCategory));
          narrowed
      else
        result
  }

  /** A filter that accepts every element returns its input. */
  lemma {:induction false} FilterKeepsAll<T>(s: seq<T>, keep: T -> bool)
    requires forall x | x in s :: keep(x)
    ensures Filter(s, keep) == s
    decreases |s|
  {
    if |s| > 0 {
      assert forall x | x in s[1..] :: x in s;
      FilterKeepsAll(s[1..], keep);
      assert s == [s[0]] + s[1..];
    }
  }

  /** `Filter(s, keep)`, for the test `keep` that `Eligible(sel, _)` is. */
  function EligibleIn(products: seq<Product>, sel: Selection): (r: seq<Product>)
    ensures SelectsExactly(r, products, (p: Product) => Eligible(sel, p))
  {
    FilterSelects(products, (p: Product) => Eligible(sel, p));
    Filter(products, (p: Product) => Eligible(sel, p))
  }

  /** The eligible products of `TODOS` are the whole catalog. */
  lemma AllEligible(products: seq<Product>, sub: string)
    ensures EligibleIn(products, Selection(All, sub)) == products
  {
    FilterKeepsAll(products, (p: Product) => Eligible(Selection(All, sub), p));
  }

  /** The eligible products of a category other than `TODOS` are the
      category filter, narrowed by the sub-category filter exactly when the
      category is `PERIFERICOS` and the sub-category is not `TODOS`. */
  lemma {:induction false} CategoryEligible(products: seq<Product>, sel: Selection)
    requires sel.category != All
    ensures sel.category == Peripherals && sel.subCategory != All ==>
      EligibleIn(products, sel) == Filter(Filter(products, InCategory(sel.category)), InSubCategory(sel.subCategory))
    ensures !(sel.category == Peripherals && sel.subCategory != All) ==>
      EligibleIn(products, sel) == Filter(products, InCategory(sel.category))
  {
    var eligible := (p: Product) => Eligible(sel, p);
    var byCategory := Filter(products, InCategory(sel.category));
    if sel.category == Peripherals && sel.subCategory != All {
      FilterTwice(products, InCategory(sel.category), InSubCategory(sel.subCategory), eligible);
      FilterUnique(Filter(byCategory, InSubCategory(sel.subCategory)), products, eligible);
    } else {
      FilterSelects(products, InCategory(sel.category));
      assert forall p :: eligible(p) == InCategory(sel.category)(p);
      FilterUnique(byCategory, products, eligible);
    }
  }

  /** The showcase shows exactly the eligible products, in catalog order,
      when it does not sample; when it samples, it shows `min(8, n)` of the
      `n` eligible products, each at most as often as it is eligible. */
  lemma {:induction false} ShowsEligible(products: seq<Product>, sel: Selection, pick: Chooser)
    ensures !Sampled(sel) ==> FilteredProducts(products, sel, pick) == EligibleIn(products, sel)
    ensures Sampled(sel) ==>
      && |FilteredProducts(products, sel, pick)| == Min(SampleSize, |EligibleIn(products, sel)|)
      && multiset(FilteredProducts(products, sel, pick)) <= multiset(EligibleIn(products, sel))
  {
    if sel.category == All {
      AllEligible(products, sel.subCategory);
    } else {
      CategoryEligible(products, sel);
    }
  }

  /** With category `TODOS`, the showcase is a sample of `min(8, n)` of the
      `n` products, and the sub-category plays no part. */
  lemma AllShowsSample(products: seq<Product>, sub: string, other: string, pick: Chooser)
    ensures |FilteredProducts(products, Selection(All, sub), pick)| == Min(SampleSize, |products|)
    ensures multiset(FilteredProducts(products, Selection(All, sub), pick)) <= multiset(products)
    ensures FilteredProducts(products, Selection(All, sub), pick) == FilteredProducts(products, Selection(All, other), pick)
  {
  }

  /** With category `TODOS`, any ordered choice of `min(8, n)` of the `n`
      products is shown for some random draws. */
  lemma AllReachesEverySelection(products: seq<Product>, sub: string, t: seq<Product>)
    requires |t| == Min(SampleSize, |products|)
    requires multiset(t) <= multiset(products)
    ensures exists pick: Chooser :: FilteredProducts(products, Selection(All, sub), pick) == t
  {
    SampleReachesEverySelection(products, t);
    var pick: Chooser :| Sample(products, pick) == t;
    assert FilteredProducts(products, Selection(All, sub), pick) == t;
  }

  /** A category other than `TODOS` and `PERIFERICOS` shows exactly the
      products of that category, in catalog order, without a cap, whatever
      the random draws and the sub-category. */
  lemma CategoryShowsFilter(products: seq<Product>, category: string, sub: string, other: string, pick: Chooser, another: Chooser)
    requires category != All && category != Peripherals
    ensures SelectsExactly(FilteredProducts(products, Selection(category, sub), pick), products, InCategory(category))
    ensures FilteredProducts(products, Selection(category, sub), pick) == FilteredProducts(products, Selection(category, other), another)
  {
    FilterSelects(products, InCategory(category));
  }

  /** `PERIFERICOS` with sub-category `TODOS` shows a sample of `min(8, n)`
      of the `n` peripherals, all of them peripherals. */
  lemma {:induction false} PeripheralsShowSample(products: seq<Product>, pick: Chooser)
    ensures var peripherals := Filter(products, InCategory(Peripherals));
      var r := FilteredProducts(products, Selection(Peripherals, All), pick);
      && |r| == Min(SampleSize, |peripherals|)
      && (forall p | p in r :: p.category == Peripherals)
      && multiset(r) <= multiset(peripherals)
  {
    var peripherals := Filter(products, InCategory(Peripherals));
    var r := FilteredProducts(products, Selection(Peripherals, All), pick);
    assert r == Sample(peripherals, pick);
    forall p | p in r ensures p.category == Peripherals {
      assert p in multiset(peripherals);
      assert InCategory(Peripherals)(p);
    }
  }

  /** `PERIFERICOS` with sub-category `TODOS`: any ordered choice of
      `min(8, n)` of the `n` peripherals is shown for some random draws. */
  lemma PeripheralsReachEverySelection(products: seq<Product>, t: seq<Product>)
    requires var peripherals := Filter(products, InCategory(Peripherals));
      |t| == Min(SampleSize, |peripherals|) && multiset(t) <= multiset(peripherals)
    ensures exists pick: Chooser :: FilteredProducts(products, Selection(Peripherals, All), pick) == t
  {
    var peripherals := Filter(products, InCategory(Peripherals));
    SampleReachesEverySelection(peripherals, t);
    var pick: Chooser :| Sample(peripherals, pick) == t;
    assert FilteredProducts(products, Selection(Peripherals, All), pick) == t;
  }

  /** `PERIFERICOS` with a concrete sub-category shows exactly the products
      of both that category and that sub-category, in catalog order, without
      a cap and whatever the random draws. */
  lemma {:induction false} SubCategoryShowsFilter(products: seq<Product>, sub: string, pick: Chooser, another: Chooser)
    requires sub != All
    ensures SelectsExactly(FilteredProducts(products, Selection(Peripherals, sub), pick), products, InPeripheralSubCategory(sub))
    ensures FilteredProducts(products, Selection(Peripherals, sub), pick) == FilteredProducts(products, Selection(Peripherals, sub), another)
  {
    FilterTwice(products, InCategory(Peripherals), InSubCategory(sub), InPeripheralSubCategory(sub));
  }

  /** Both tests of the `PERIFERICOS` sub-category view at once. */
  function InPeripheralSubCategory(sub: string): Product -> bool {
    (p: Product) => p.category == Peripherals && p.subCategory == Some(sub)
  }

  /** The catalog's own convention: exactly the peripherals carry a
      sub-category. The source does not check it. */
  predicate WellFormed(products: seq<Product>) {
    forall p | p in products :: p.category == Peripherals <==> p.subCategory.Some?
  }

  /** In a catalog that keeps its convention, the category test of the
      sub-category view is redundant: the view is the sub-category filter
      alone. */
  lemma {:induction false} WellFormedSubCategoryView(products: seq<Product>, sub: string, pick: Chooser)
    requires WellFormed(products)
    requires sub != All
    ensures FilteredProducts(products, Selection(Peripherals, sub), pick) == Filter(products, InSubCategory(sub))
  {
    var both := InPeripheralSubCategory(sub);
    var alone := Filter(products, InSubCategory(sub));
    SubCategoryShowsFilter(products, sub, pick, pick);
    FilterUnique(FilteredProducts(products, Selection(Peripherals, sub), pick), products, both);
    FilterSelects(products, InSubCategory(sub));
    assert forall p | p in products :: InSubCategory(sub)(p) == both(p);
    FilterUnique(alone, products, both);
  }

  /** Every product shown is eligible for the selection. */
  lemma ShowsOnlyEligible(products: seq<Product>, sel: Selection, pick: Chooser)
    ensures forall p | p in FilteredProducts(products, sel, pick) :: Eligible(sel, p)
  {
    var r := FilteredProducts(products, sel, pick);
    ShowsEligible(products, sel, pick);
    forall p | p in r ensures Eligible(sel, p) {
      assert p in multiset(EligibleIn(products, sel));
    }
  }

  /** Outside `PERIFERICOS` the sub-category changes nothing, for the same
      random draws. */
  lemma SubCategoryIgnoredOutsidePeripherals(products: seq<Product>, category: string, sub: string, other: string, pick: Chooser)
    requires category != Peripherals
    ensures FilteredProducts(products, Selection(category, sub), pick) == FilteredProducts(products, Selection(category, other), pick)
  {
  }

  /** The empty-state message appears exactly when no product is eligible:
      the showcase is empty if and only if the selection matches nothing. */
  lemma EmptyExactlyWhenNoneEligible(products: seq<Product>, sel: Selection, pick: Chooser)
    ensures FilteredProducts(products, sel, pick) == [] <==> forall p | p in products :: !Eligible(sel, p)
  {
    var eligible := EligibleIn(products, sel);
    ShowsEligible(products, sel, pick);
    if forall p | p in products :: !Eligible(sel, p) {
      FilterKeepsNone(products, (p: Product) => Eligible(sel, p));
    } else {
      var p :| p in products && Eligible(sel, p);
      assert multiset(eligible)[p] == multiset(products)[p] > 0;
      assert |eligible| > 0;
    }
  }

  /** A filter that accepts nothing returns nothing. */
  lemma {:induction false} FilterKeepsNone<T>(s: seq<T>, keep: T -> bool)
    requires forall x | x in s :: !keep(x)
    ensures Filter(s, keep) == []
    decreases |s|
  {
    if |s| > 0 {
      assert forall x | x in s[1..] :: x in s;
      FilterKeepsNone(s[1..], keep);
    }
  }

  /** An empty catalog shows nothing, for every selection. */
  lemma EmptyCatalog(sel: Selection, pick: Chooser)
    ensures FilteredProducts([], sel, pick) == []
  {
  }

  /** A catalog without repeated entries shows no entry twice. */
  lemma ShowsNoDuplicates(products: seq<Product>, sel: Selection, pick: Chooser)
    requires Distinct(products)
    ensures Distinct(FilteredProducts(products, sel, pick))
  {
    DistinctSubMultiset(FilteredProducts(products, sel, pick), products);
  }
}
