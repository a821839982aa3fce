/**
 * `Dropdown` (components/Dropdown.tsx): the panel under or over the trigger.
 * It renders nothing while the menu is closed; otherwise a hidden form field,
 * the search box, and one of three list bodies: skeleton rows while loading,
 * the no-result line, or the hot list and the letter groups. Its search box
 * handles Enter, Escape, the clear icon, item clicks and blur.
 */
module Dropdown {
  import opened Options
  import opened Text
  import opened Countries
  import opened CountryUtils
  import opened Matching
  import opened Store
  import Sorting

  datatype Width = Long | Short

  datatype Body =
    | Skeleton(widths: seq<Width>)
    | NoResult
    | Lists(hot: seq<Country>, groups: seq<Group>, showLetters: bool)

  /** The rendered panel: the hidden field (only with a `name`), the search box's placeholder, the hint, the list body. */
  datatype Panel = Panel(hiddenValue: Option<string>, searchPlaceholder: string, hint: string, body: Body)

  /** `Math.min(10, Math.max(1, n || 5))`: how many skeleton rows stand in for `n` results. */
  function SkeletonCount(n: nat): (k: nat)
    ensures 1 <= k <= 10
    ensures n == 0 ==> k == 5
    ensures 0 < n <= 10 ==> k == n
    ensures n > 10 ==> k == 10
  {
    var wanted := if n == 0 then 5 else n;
    var atLeast := if wanted < 1 then 1 else wanted;
    if atLeast < 10 then atLeast else 10
  }

  /** The skeleton rows' widths: long at even indices, short at odd ones. */
  function SkeletonWidths(k: nat): (r: seq<Width>)
    ensures |r| == k
    ensures forall i | 0 <= i < k :: r[i] == Long <==> i % 2 == 0
  {
    seq(k, i => if i % 2 == 0 then Long else Short)
  }

  /** Neighbouring skeleton rows never share a width. */
  lemma SkeletonAlternates(k: nat)
    ensures forall i | 0 <= i < k - 1 :: SkeletonWidths(k)[i] != SkeletonWidths(k)[i + 1]
  {
    var r := SkeletonWidths(k);
    forall i | 0 <= i < k - 1 ensures r[i] != r[i + 1] {
      assert (i % 2 == 0) != ((i + 1) % 2 == 0);
    }
  }

  /** The hidden field's value: the selected country's stored form, or "" with no selection. */
  function HiddenValue(p: Props, s: State): (v: string)
    ensures SelectedCountry(p, s).None? ==> v == ""
    ensures SelectedCountry(p, s).Some? ==> Identifies(SelectedCountry(p, s).value, v)
    ensures SelectedCountry(p, s).Some? ==> v == ModeValue(p.mode, SelectedCountry(p, s).value)
  {
    match SelectedCountry(p, s)
    case None => ""
    case Some(c) => ModeValue(p.mode, c)
  }

  /**
   * After an uncontrolled selection of a country whose stored value is
   * non-empty and unique in the catalog, the form submits exactly that value.
   */
  lemma HiddenValueAfterSelect(p: Props, s: State, c: Country)
    requires !IsControlled(p) && c in p.catalog.Combined()
    requires ModeValue(p.mode, c) != ""
    requires forall d | d in p.catalog.Combined() && Identifies(d, ModeValue(p.mode, c)) :: d == c
    ensures HiddenValue(p, Select(p, s, Some(c)).state) == ModeValue(p.mode, c)
  {
    UncontrolledSelectRoundTrip(p, s, c);
  }

  /** `'請輸入國家/國碼'` or `'請輸入國家'`. */
  function DefaultSearchPlaceholder(mode: Mode): string {
    match mode
    case DialCode => "請輸入國家/國碼"
    case Nationality => "請輸入國家"
  }

  /** The list body: skeletons while loading, else the no-result line, else the lists. */
  function ListBody(p: Props, s: State): (b: Body)
    ensures b.Skeleton? <==> EffectiveLoading(p, s)
    ensures b.Skeleton? ==> b.widths == SkeletonWidths(SkeletonCount(|Flatten(View(p, s))|))
    ensures b.NoResult? <==> !EffectiveLoading(p, s) && Render(p, s).showNoResult
    ensures b.Lists? ==> b.hot == (if IsBlank(s.search) then p.catalog.hotList else [])
    ensures b.Lists? ==> b.showLetters == IsBlank(s.search)
    ensures b.Lists? ==> Sorting.Sorted(b.groups, LetterOf) && multiset(b.groups) == multiset(View(p, s))
  {
    var config := Render(p, s);
    if EffectiveLoading(p, s) then Skeleton(SkeletonWidths(SkeletonCount(|Flatten(View(p, s))|)))
    else if config.showNoResult then NoResult
    else
      Lists(if config.showHotList then p.catalog.hotList else [],
            Sorting.Sort(View(p, s), LetterOf),
            config.showGroupLetter)
  }

  /**
   * What the dropdown renders: nothing while closed; otherwise the panel, whose
   * hidden field exists only when the widget has a `name`, and whose search
   * placeholder and hint default when not given.
   */
  function Show(p: Props, s: State, name: string, hint: string, searchPlaceholder: string): (r: Option<Panel>)
    ensures r.None? <==> !s.isOpen
    ensures r.Some? ==> (r.value.hiddenValue.Some? <==> name != "")
    ensures r.Some? && name != "" ==> r.value.hiddenValue == Some(HiddenValue(p, s))
    ensures r.Some? ==> r.value.searchPlaceholder != ""
    ensures r.Some? && searchPlaceholder != "" ==> r.value.searchPlaceholder == searchPlaceholder
    ensures r.Some? ==> r.value.hint == hint && r.value.body == ListBody(p, s)
  {
    if !s.isOpen then None
    else
      Some(Panel(
        if name != "" then Some(HiddenValue(p, s)) else None,
        if searchPlaceholder != "" then searchPlaceholder else DefaultSearchPlaceholder(p.mode),
        hint,
        ListBody(p, s)))
  }

  /** The search box's key handler: Enter commits the first match of a non-blank search; Escape only clears. */
  function KeyDown(p: Props, s: State, key: Key): (r: Outcome)
    ensures key == Enter && !IsBlank(s.search) ==>
      (r.notified.Some? <==> exists c | c in p.catalog.normalList :: FieldContains(c, s.search))
    ensures key == Enter && r.notified.Some? ==>
      r == Select(p, s, r.notified) && r.notified == First(p, s) && r.notified.value in p.catalog.normalList
    ensures key == Enter && r.notified.None? ==> r.state == s
    ensures key == Enter && IsBlank(s.search) ==> r == Outcome(s, None)
    ensures key == Escape ==> r.notified.None? && r.state == SetSearch(p, s, "")
    ensures key == Escape ==> r.state.isOpen == s.isOpen && r.state.search == ""
    ensures key == OtherKey ==> r == Outcome(s, None)
  {
    FirstIsBestMatch(p, s);
    match key
    case Enter => if !IsBlank(s.search) && First(p, s).Some? then Select(p, s, First(p, s)) else Outcome(s, None)
    case Escape => Outcome(SetSearch(p, s, ""), None)
    case OtherKey => Outcome(s, None)
  }

  /** The clear icon empties the search and leaves the menu as it is. */
  function ClearClick(p: Props, s: State): (r: State)
    ensures r.search == "" && r.isOpen == s.isOpen && r.internalValue == s.internalValue
  {
    SetSearch(p, s, "")
  }

  /** `c` is on screen as a clickable item: the menu is open and the lists show it. */
  predicate Offered(p: Props, s: State, c: Country) {
    && s.isOpen
    && match ListBody(p, s)
       case Lists(hot, groups, _) => c in hot || c in Flatten(groups)
       case _ => false
  }

  /** Only catalog countries are ever offered. */
  lemma OfferedIsCatalogCountry(p: Props, s: State, c: Country)
    requires Offered(p, s, c)
    ensures c in p.catalog.Combined()
  {
    var b := ListBody(p, s);
    if c !in b.hot {
      FlattenOfPermutation(b.groups, View(p, s), c);
      ViewMembers(p, s, c);
    }
  }

  /** A click on an offered item selects it; a click can reach nothing else. */
  function ItemClick(p: Props, s: State, c: Country): (r: Outcome)
    ensures Offered(p, s, c) ==> r == Select(p, s, Some(c))
    ensures !Offered(p, s, c) ==> r == Outcome(s, None)
  {
    if Offered(p, s, c) then Select(p, s, Some(c)) else Outcome(s, None)
  }
}
