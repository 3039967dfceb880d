/** The selection state of the page and the events that change it: the
    header and hero links (`handleNavigation`), the category buttons and the
    sub-category buttons of the product grid. */
module Navigation {
  import opened Catalog
  import opened Shuffling

  /** The targets of the navigation links. */
  datatype NavTarget = Todos | Notebooks | Computadores | Perifericos | Inicio

  /** The category label a target names; `INICIO` names none of the
      categories. */
  function Label(t: NavTarget): (r: string)
    ensures r in Categories <==> t != Inicio
  {
    match t
    case Todos => "TODOS"
    case Notebooks => "NOTEBOOKS"
    case Computadores => "COMPUTADORES"
    case Perifericos => "PERIFERICOS"
    case Inicio => "INICIO"
  }

  /** The labels of the category buttons. */
  const Categories: seq<string> := ["TODOS", "NOTEBOOKS", "COMPUTADORES", "PERIFERICOS"]

  /** The values the sub-category buttons set. */
  const SubCategories: seq<string> := ["TODOS", "MOUSE", "TECLADO", "MONITOR", "PLACA DE VIDEO"]

  /** A state the buttons can show as active: a category of the category
      buttons and a value of the sub-category buttons. */
  predicate Offered(sel: Selection) {
    sel.category in Categories && sel.subCategory in SubCategories
  }

  /** The state before any event: both fields start as `'TODOS'`. */
  const Initial: Selection := Selection(All, All)

  /** Models `handleNavigation`: `INICIO` resets both fields; any other target
      becomes the category and resets the sub-category. Scrolling is left
      out. */
  function HandleNavigation(sel: Selection, t: NavTarget): (r: Selection)
    ensures r.subCategory == All
    ensures r.category in Categories
    ensures t == Inicio ==> r == Initial
    ensures t != Inicio ==> r.category == Label(t)
  {
    if t == Inicio then Selection(All, All) else Selection(Label(t), All)
  }

  /** Models the category buttons: the clicked category, sub-category
      reset. */
  function ClickCategory(sel: Selection, category: string): (r: Selection)
    ensures r.category == category
    ensures r.subCategory == All
    ensures category in Categories ==> Offered(r)
  {
    Selection(category, All)
  }

  /** Models the sub-category buttons, which set the sub-category whatever the
      category is; outside `PERIFERICOS` they are only hidden. */
  function ClickSubCategory(sel: Selection, sub: string): (r: Selection)
    ensures r.category == sel.category
    ensures Offered(sel) && sub in SubCategories ==> Offered(r)
  {
    Selection(sel.category, sub)
  }

  /** What the user does. */
  datatype Event = Navigated(target: NavTarget) | CategoryClicked(category: string) | SubCategoryClicked(sub: string)

  /** Dispatches an event to the handler of the link or button it comes
      from. */
  function Step(sel: Selection, e: Event): (r: Selection)
    ensures Resets(e) ==> r.subCategory == All
    ensures e.SubCategoryClicked? ==> r == Selection(sel.category, e.sub)
    ensures e.CategoryClicked? ==> r.category == e.category
  {
    match e
    case Navigated(t) => HandleNavigation(sel, t)
    case CategoryClicked(c) => ClickCategory(sel, c)
    case SubCategoryClicked(v) => ClickSubCategory(sel, v)
  }

  /** The state after a sequence of events, oldest first. */
  function Run(sel: Selection, events: seq<Event>): (r: Selection)
    ensures |events| == 0 ==> r == sel
    ensures |events| > 0 && Resets(events[|events| - 1]) ==> r.subCategory == All
    ensures |events| > 0 && events[|events| - 1].SubCategoryClicked? ==> r.subCategory == events[|events| - 1].sub
    decreases |events|
  {
    if |events| == 0 then sel else Run(Step(sel, events[0]), events[1..])
  }

  /** An event some button or link on the page can produce. */
  predicate OnPage(e: Event) {
    match e
    case Navigated(_) => true
    case CategoryClicked(c) => c in Categories
    case SubCategoryClicked(v) => v in SubCategories
  }

  /** Events that set the sub-category back to `'TODOS'`, whatever came
      before. */
  predicate Resets(e: Event) {
    !e.SubCategoryClicked?
  }

  /** The initial state is one the buttons offer. */
  lemma InitialOffered()
    ensures Offered(Initial)
  {
  }

  /** `INICIO` and `TODOS` lead to the same state (they differ only in where
      the page scrolls), and every other target acts as a click on the
      category button of the same name. */
  lemma NavigationIsCategoryClick(sel: Selection, t: NavTarget)
    ensures HandleNavigation(sel, Inicio) == Initial
    ensures t != Inicio ==> HandleNavigation(sel, t) == ClickCategory(sel, Label(t))
    ensures HandleNavigation(sel, Inicio) == HandleNavigation(sel, Todos)
  {
  }

  /** A category click discards the previous selection, including any
      sub-category chosen before it, and repeating it changes nothing. */
  lemma CategoryClickForgets(sel: Selection, other: Selection, category: string, sub: string)
    ensures ClickCategory(sel, category) == ClickCategory(other, category)
    ensures ClickCategory(ClickSubCategory(sel, sub), category) == ClickCategory(sel, category)
    ensures ClickCategory(ClickCategory(sel, category), category) == ClickCategory(sel, category)
  {
  }

  /** Of two sub-category clicks the later one wins, and clicking the active
      sub-category changes nothing. */
  lemma LastSubCategoryClickWins(sel: Selection, first: string, second: string)
    ensures ClickSubCategory(ClickSubCategory(sel, first), second) == ClickSubCategory(sel, second)
    ensures ClickSubCategory(sel, sel.subCategory) == sel
  {
  }

  /** Running two sequences of events runs the first, then the second. */
  lemma {:induction false} RunAppend(sel: Selection, first: seq<Event>, second: seq<Event>)
    ensures Run(sel, first + second) == Run(Run(sel, first), second)
    decreases |first|
  {
    if |first| > 0 {
      assert (first + second)[0] == first[0];
      assert (first + second)[1..] == first[1..] + second;
      RunAppend(Step(sel, first[0]), first[1..], second);
    } else {
      assert first + second == second;
    }
  }

  /** Events from the page's own buttons and links keep the state one the
      buttons offer. */
  lemma {:induction false} RunStaysOffered(sel: Selection, events: seq<Event>)
    requires Offered(sel)
    requires forall k :: 0 <= k < |events| ==> OnPage(events[k])
    ensures Offered(Run(sel, events))
    decreases |events|
  {
    if |events| > 0 {
      assert OnPage(events[0]);
      RunStaysOffered(Step(sel, events[0]), events[1..]);
    }
  }

  /** After a navigation or a category click, the state no longer depends on
      anything that happened before it. */
  lemma ResetForgetsHistory(sel: Selection, other: Selection, before: seq<Event>, earlier: seq<Event>, e: Event, after: seq<Event>)
    requires Resets(e)
    ensures Run(sel, before + [e] + after) == Run(other, earlier + [e] + after)
  {
    var tail := [e] + after;
    assert before + [e] + after == before + tail;
    assert earlier + [e] + after == earlier + tail;
    RunAppend(sel, before, tail);
    RunAppend(other, earlier, tail);
    assert tail[0] == e && tail[1..] == after;
    assert Step(Run(sel, before), e) == Step(Run(other, earlier), e);
  }

  /** Sub-category clicks never change the category, and the last of them
      sets the sub-category. */
  lemma {:induction false} SubCategoryClicksKeepCategory(sel: Selection, events: seq<Event>)
    requires forall k :: 0 <= k < |events| ==> events[k].SubCategoryClicked?
    ensures Run(sel, events).category == sel.category
    ensures |events| > 0 ==> Run(sel, events).subCategory == events[|events| - 1].sub
    decreases |events|
  {
    if |events| > 0 {
      SubCategoryClicksKeepCategory(Step(sel, events[0]), events[1..]);
    }
  }

  /** For the same random draws, the sub-category buttons, hidden outside
      `PERIFERICOS`, cannot change what is shown there: after choosing any
      other category, later sub-category clicks leave the showcase as it
      was. */
  lemma {:induction false} HiddenSubCategoriesChangeNothing(products: seq<Product>, sel: Selection, category: string, clicks: seq<Event>, pick: Chooser)
    requires category != Peripherals
    requires forall k :: 0 <= k < |clicks| ==> clicks[k].SubCategoryClicked?
    ensures FilteredProducts(products, Run(sel, [CategoryClicked(category)] + clicks), pick)
      == FilteredProducts(products, ClickCategory(sel, category), pick)
  {
    RunAppend(sel, [CategoryClicked(category)], clicks);
    SubCategoryClicksKeepCategory(ClickCategory(sel, category), clicks);
    var after := Run(sel, [CategoryClicked(category)] + clicks);
    SubCategoryIgnoredOutsidePeripherals(products, category, after.subCategory, All, pick);
  }

  /** Choosing `PERIFERICOS`, by link or by button, selects it with the
      sub-category reset, so it always opens on the sample of the
      peripherals, never on an earlier sub-category's list. */
  lemma PeripheralsOpenWithSample(sel: Selection)
    ensures HandleNavigation(sel, Perifericos) == Selection(Peripherals, All)
    ensures ClickCategory(sel, Peripherals) == Selection(Peripherals, All)
    ensures Sampled(HandleNavigation(sel, Perifericos))
  {
  }
}
