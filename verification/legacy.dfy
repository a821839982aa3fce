/**
 * The older all-in-one `CountrySelector` (country-selector.tsx). It keeps the
 * selected country itself and resolves it from `value` or `defaultValue` in two
 * effects, groups search results by letter, and closes without selecting on an
 * outside click. Its blur timer is the same stale-closure pattern as the
 * composable widget's and is not repeated here.
 */
module Legacy {
  import opened Options
  import opened Text
  import opened Countries
  import opened CountryUtils
  import opened Matching
  import Store
  import Sorting

  /** The props it reads; `placeholder` "" stands for no placeholder. */
  datatype Props = Props(
    mode: Mode,
    value: Option<string>,
    defaultValue: Option<string>,
    placeholder: string,
    disabled: bool,
    catalog: Catalog)

  datatype State = State(isOpen: bool, search: string, selected: Option<Country>)

  datatype Outcome = Outcome(state: State, notified: Option<Country>)

  datatype Event =
    | ButtonClick
    | SearchInput(text: string)
    | SearchKey(key: Store.Key)
    | ListKey(key: Store.Key)
    | ClearIconClick
    | ItemClick(country: Country)
    | OutsideMouseDown
    | ValueProp(value: Option<string>)

  /**
   * The `defaultValue` effect: without a `value`, a non-empty default that some
   * catalog country carries selects the first such country; otherwise the selection stays.
   */
  function SyncDefault(p: Props, s: State): (r: State)
    ensures r.isOpen == s.isOpen && r.search == s.search
    ensures r.selected != s.selected ==>
      && p.value.None? && p.defaultValue.Some? && p.defaultValue.value != ""
      && r.selected == Find(p.catalog.Combined(), p.defaultValue.value) && r.selected.Some?
    ensures (p.value.None? && p.defaultValue.Some? && p.defaultValue.value != ""
      && Find(p.catalog.Combined(), p.defaultValue.value).Some?) ==>
      r.selected == Find(p.catalog.Combined(), p.defaultValue.value)
  {
    if p.value.Some? then s
    else match p.defaultValue
      case None => s
      case Some(d) =>
        if d != "" && |p.catalog.Combined()| > 0 then
          match Find(p.catalog.Combined(), d)
          case Some(c) => s.(selected := Some(c))
          case None => s
        else s
  }

  /** The `value` effect: a given `value` selects the first catalog country carrying it, or nothing. */
  function SyncValue(p: Props, s: State): (r: State)
    ensures r.isOpen == s.isOpen && r.search == s.search
    ensures p.value.Some? && |p.catalog.Combined()| > 0 ==> r.selected == Find(p.catalog.Combined(), p.value.value)
    ensures p.value.None? || |p.catalog.Combined()| == 0 ==> r == s
  {
    if p.value.Some? && |p.catalog.Combined()| > 0 then s.(selected := Find(p.catalog.Combined(), p.value.value))
    else s
  }

  /** Both effects, in declaration order: they run on mount and whenever `value` changes. */
  function Sync(p: Props, s: State): State {
    SyncValue(p, SyncDefault(p, s))
  }

  /**
   * After the effects, a controlled widget shows the first catalog country
   * carrying its value, whatever was selected before and whatever the default.
   */
  lemma ControlledSyncFollowsValue(p: Props, s: State)
    requires p.value.Some? && |p.catalog.Combined()| > 0
    ensures Sync(p, s).selected == Find(p.catalog.Combined(), p.value.value)
    ensures Sync(p, s).selected.Some? ==>
      Sync(p, s).selected.value in p.catalog.Combined() && Identifies(Sync(p, s).selected.value, p.value.value)
  {
  }

  /** An uncontrolled widget takes its default when a catalog country carries it and keeps its selection otherwise. */
  lemma UncontrolledSyncUsesDefault(p: Props, s: State)
    requires p.value.None?
    ensures var r := Sync(p, s).selected;
      r == s.selected || (r.Some? && r.value in p.catalog.Combined() && Identifies(r.value, p.defaultValue.value))
    ensures p.defaultValue.None? ==> Sync(p, s) == s
    ensures (p.defaultValue.Some? && p.defaultValue.value != ""
      && Find(p.catalog.Combined(), p.defaultValue.value).Some?) ==>
      Sync(p, s).selected == Find(p.catalog.Combined(), p.defaultValue.value)
  {
  }

  function Mount(p: Props): State {
    Sync(p, State(false, "", None))
  }

  function Display(p: Props, s: State): seq<Group> {
    LegacyDisplayCountries(p.catalog.normalList, s.search)
  }

  function First(p: Props, s: State): Option<Country> {
    FirstCountry(Display(p, s))
  }

  /**
   * `renderConfig`: the hot list and the letter headings only without a search;
   * the empty-result line exactly when a non-blank search matches nothing, the
   * same flags the composable widget computes from its single bucket.
   */
  function Render(p: Props, s: State): (r: Store.RenderConfig)
    ensures r.showHotList <==> IsBlank(s.search)
    ensures r.showGroupLetter <==> IsBlank(s.search)
    ensures r.showNoResult <==> (!IsBlank(s.search)
      && forall c | c in p.catalog.normalList :: !FieldContains(c, s.search))
  {
    var hasSearch := !IsBlank(s.search);
    var hasResult := |Display(p, s)| > 0;
    if hasSearch then
      LegacyNoGroupsIffNoMatch(p.catalog.normalList, s.search);
      Store.RenderConfig(false, false, !hasResult)
    else Store.RenderConfig(true, true, false)
  }

  /** The button text: the selected country's label, else the `placeholder`, else the prompt. */
  function DisplayText(p: Props, s: State): (t: string)
    ensures s.selected.Some? ==> t == Store.CountryLabel(p.mode, s.selected.value)
    ensures s.selected.None? && p.placeholder != "" ==> t == p.placeholder
    ensures s.selected.None? && p.placeholder == "" ==> t == Store.PromptText(p.mode)
  {
    match s.selected
    case Some(c) => Store.CountryLabel(p.mode, c)
    case None => if p.placeholder != "" then p.placeholder else Store.PromptText(p.mode)
  }

  /** For a non-blank search, the first country of the grouped view is one of the matches. */
  lemma FirstIsMatch(p: Props, s: State)
    requires !IsBlank(s.search)
    ensures First(p, s).Some? ==> First(p, s).value in p.catalog.normalList && FieldContains(First(p, s).value, s.search)
    ensures First(p, s).None? <==> forall c | c in p.catalog.normalList :: !FieldContains(c, s.search)
  {
    var cs := p.catalog.normalList;
    var gs := Display(p, s);
    FirstCountryIsMember(gs);
    LegacySearchGroupsTiered(cs, s.search);
    LegacyNoGroupsIffNoMatch(cs, s.search);
    if First(p, s).Some? {
      assert First(p, s).value in multiset(Flatten(gs));
    }
    if |gs| > 0 {
      SearchResultsNamed(cs, s.search);
      assert forall a | 0 <= a < |gs| :: |gs[a].members| > 0;
      FirstOfNonEmpty(gs);
    }
  }

  /** Groups that are all non-empty always have a first country. */
  lemma FirstOfNonEmpty(gs: seq<Group>)
    requires |gs| > 0 && forall a | 0 <= a < |gs| :: |gs[a].members| > 0
    ensures FirstCountry(gs).Some?
  {
    var keys := Sorting.Sort(gs, LetterOf);
    assert gs[0] in multiset(keys);
    assert keys[0] in multiset(gs);
  }

  /**
   * The search box's keys: Enter selects the first country of a non-blank
   * search (if any), closes and clears; Escape clears and closes, keeping the selection.
   */
  function KeyDown(p: Props, s: State, key: Store.Key): (r: Outcome)
    ensures key == Store.Enter && r.notified.Some? ==>
      r.notified == First(p, s) && r.state == State(false, "", r.notified)
    ensures key == Store.Enter && r.notified.None? ==> r.state == s
    ensures key == Store.Enter && IsBlank(s.search) ==> r == Outcome(s, None)
    ensures key == Store.Enter && !IsBlank(s.search) ==>
      (r.notified.Some? <==> exists c | c in p.catalog.normalList :: FieldContains(c, s.search))
    ensures key == Store.Escape ==> r == Outcome(State(false, "", s.selected), None)
    ensures key == Store.OtherKey ==> r == Outcome(s, None)
  {
    if key == Store.Enter && !IsBlank(s.search) then
      FirstIsMatch(p, s);
      if First(p, s).Some? then Outcome(State(false, "", First(p, s)), First(p, s)) else Outcome(s, None)
    else if key == Store.Escape then Outcome(State(false, "", s.selected), None)
    else Outcome(s, None)
  }

  /** The list's own key handler: Escape closes and clears. */
  function ListKeyDown(s: State, key: Store.Key): (r: State)
    ensures key == Store.Escape ==> r == State(false, "", s.selected)
    ensures key != Store.Escape ==> r == s
  {
    if key == Store.Escape then State(false, "", s.selected) else s
  }

  datatype Body =
    | LoadingText
    | NoResult
    | Lists(hot: seq<Country>, groups: seq<Group>, showLetters: bool)

  /** The list body: a loading line for an empty catalog, else the no-result line, else the lists. */
  function ListBody(p: Props, s: State): (b: Body)
    ensures b.LoadingText? <==> |p.catalog.Combined()| == 0
    ensures b.NoResult? <==> |p.catalog.Combined()| > 0 && !IsBlank(s.search) && |Display(p, s)| == 0
    ensures b.Lists? ==> b.hot == (if IsBlank(s.search) then p.catalog.hotList else [])
    ensures b.Lists? ==> Sorting.Sorted(b.groups, LetterOf) && multiset(b.groups) == multiset(Display(p, s))
  {
    var gs := Display(p, s);
    if |p.catalog.Combined()| == 0 then LoadingText
    else if IsBlank(s.search) then Lists(p.catalog.hotList, Sorting.Sort(gs, LetterOf), true)
    else if |gs| == 0 then NoResult
    else Lists([], Sorting.Sort(gs, LetterOf), false)
  }

  predicate Offered(p: Props, s: State, c: Country) {
    && s.isOpen
    && match ListBody(p, s)
       case Lists(hot, groups, _) => c in hot || c in Flatten(groups)
       case _ => false
  }

  /** Every country shown in the grouped view belongs to the full list. */
  lemma DisplayMembers(p: Props, s: State, c: Country)
    requires c in Flatten(Display(p, s))
    ensures c in p.catalog.normalList
  {
    var cs := p.catalog.normalList;
    var gs := Display(p, s);
    if IsBlank(s.search) {
      var sorted := SortCountries(cs);
      PermutationKeepsNamed(cs, sorted);
      assert c in multiset(Flatten(gs));
    } else {
      LegacySearchGroupsTiered(cs, s.search);
      assert c in multiset(Flatten(gs));
      assert c in SearchResults(cs, s.search);
    }
  }

  lemma OfferedIsCatalogCountry(p: Props, s: State, c: Country)
    requires Offered(p, s, c)
    ensures c in p.catalog.Combined()
  {
    var b := ListBody(p, s);
    if c !in b.hot {
      FlattenOfPermutation(b.groups, Display(p, s), c);
      DisplayMembers(p, s, c);
    }
  }

  /** A click on an offered item selects it and closes the menu, but keeps the search text. */
  function ClickItem(p: Props, s: State, c: Country): (r: Outcome)
    ensures Offered(p, s, c) ==> r == Outcome(State(false, s.search, Some(c)), Some(c))
    ensures !Offered(p, s, c) ==> r == Outcome(s, None)
  {
    if Offered(p, s, c) then Outcome(s.(selected := Some(c), isOpen := false), Some(c)) else Outcome(s, None)
  }

  /** One event. A click on an item selects it and closes the menu but keeps the search text. */
  function Step(p: Props, s: State, e: Event): (Props, Outcome) {
    match e
    case ButtonClick => (p, Outcome(if p.disabled then s else s.(isOpen := !s.isOpen), None))
    case SearchInput(t) => (p, Outcome(if s.isOpen then s.(search := t) else s, None))
    case SearchKey(k) => (p, if s.isOpen then KeyDown(p, s, k) else Outcome(s, None))
    case ListKey(k) => (p, Outcome(if s.isOpen then ListKeyDown(s, k) else s, None))
    case ClearIconClick => (p, Outcome(if s.isOpen then s.(search := "") else s, None))
    case ItemClick(c) => (p, ClickItem(p, s, c))
    case OutsideMouseDown => (p, Outcome(if s.isOpen then s.(isOpen := false, search := "") else s, None))
    case ValueProp(v) =>
      var p' := p.(value := v);
      (p', Outcome(if v != p.value then Sync(p', s) else s, None))
  }

  /** The selection is always nothing or a catalog country. */
  predicate SelectionFromCatalog(p: Props, s: State) {
    s.selected.Some? ==> s.selected.value in p.catalog.Combined()
  }

  lemma MountSelectionFromCatalog(p: Props)
    ensures SelectionFromCatalog(p, Mount(p))
  {
  }

  lemma StepSelectionFromCatalog(p: Props, s: State, e: Event)
    requires SelectionFromCatalog(p, s)
    ensures SelectionFromCatalog(Step(p, s, e).0, Step(p, s, e).1.state)
    ensures Step(p, s, e).1.notified.Some? ==> Step(p, s, e).1.notified.value in p.catalog.Combined()
    ensures Step(p, s, e).0.catalog == p.catalog
  {
    match e
    case SearchKey(k) =>
      if s.isOpen && k == Store.Enter && !IsBlank(s.search) {
        FirstIsMatch(p, s);
      }
    case ItemClick(c) =>
      if Offered(p, s, c) {
        OfferedIsCatalogCountry(p, s, c);
      }
    case _ =>
  }

  /** An outside click closes and clears but never selects or reports anything. */
  lemma OutsideClickNeverSelects(p: Props, s: State)
    ensures Step(p, s, OutsideMouseDown).1.notified.None?
    ensures Step(p, s, OutsideMouseDown).1.state.selected == s.selected
    ensures !Step(p, s, OutsideMouseDown).1.state.isOpen
    ensures s.isOpen ==> Step(p, s, OutsideMouseDown).1.state.search == ""
  {
  }

  /**
   * In controlled mode a click still replaces the shown selection with the
   * clicked country, so the widget shows a country its `value` does not name
   * until the parent passes a different `value`.
   */
  lemma ControlledClickOverridesValue(p: Props, s: State, c: Country)
    requires p.value.Some? && Offered(p, s, c)
    requires !Identifies(c, p.value.value)
    ensures var r := ClickItem(p, s, c).state;
      r.selected == Some(c) && !Identifies(r.selected.value, p.value.value) && r.search == s.search
    ensures ClickItem(p, s, c).notified == Some(c)
  {
  }
}
