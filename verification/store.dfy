/**
 * The state that `Root` (components/Root.tsx) keeps and shares with `Trigger`
 * and `Dropdown`: whether the menu is open, the search text, the internal
 * value of an uncontrolled widget, the simulated loading flag with its timer,
 * and the blur grace timers `Dropdown` and `Trigger` start. Every handler is a
 * function from a state to an `Outcome`: the next state and the country
 * `onChange` was called with, if any. Timers are explicit events.
 */
module Store {
  import opened Options
  import opened Text
  import opened Countries
  import opened CountryUtils
  import opened Matching

  /** The props `Root` reads. `None` stands for `undefined`. */
  datatype Props = Props(
    mode: Mode,
    value: Option<string>,
    defaultValue: Option<string>,
    loading: Option<bool>,
    disabled: bool,
    catalog: Catalog)

  /**
   * A pending 200 ms blur timer: the number of selections made when it was
   * started, and the search text and first match its callback closed over.
   */
  datatype BlurTimer = BlurTimer(selections: nat, search: string, first: Option<Country>)

  datatype State = State(
    isOpen: bool,
    search: string,
    internalValue: Option<string>,
    internalLoading: bool,
    loadingTimer: bool,
    blurTimers: seq<BlurTimer>,
    selections: nat)

  /** The keys the search inputs react to. */
  datatype Key = Enter | Escape | OtherKey

  /** What a handler leaves behind: the next state and the `onChange` argument, if it was called. */
  datatype Outcome = Outcome(state: State, notified: Option<Country>)

  /** The first render: closed, no search, the internal value seeded from `defaultValue`. */
  function Init(p: Props): State {
    State(false, "", p.defaultValue, false, false, [], 0)
  }

  /** `value !== undefined`. */
  predicate IsControlled(p: Props) {
    p.value.Some?
  }

  /** `selectedValue`: the `value` prop when controlled, the internal value otherwise. */
  function ResolvedValue(p: Props, s: State): Option<string> {
    if IsControlled(p) then p.value else s.internalValue
  }

  /**
   * `selectedCountry`: nothing for a missing or empty value, otherwise the
   * first country of `hotList ++ normalList` whose code or short name is the value.
   */
  function SelectedCountry(p: Props, s: State): (r: Option<Country>)
    ensures r.None? <==> (ResolvedValue(p, s).None? || ResolvedValue(p, s).value == ""
      || forall c | c in p.catalog.Combined() :: !Identifies(c, ResolvedValue(p, s).value))
    ensures r.Some? ==> var v := ResolvedValue(p, s).value; var cs := p.catalog.Combined();
      exists i | 0 <= i < |cs| :: cs[i] == r.value && Identifies(r.value, v)
        && forall j | 0 <= j < i :: !Identifies(cs[j], v)
  {
    match ResolvedValue(p, s)
    case None => None
    case Some(v) => if v == "" then None else Find(p.catalog.Combined(), v)
  }

  /** `displayCountries`: what the list shows for the current search. */
  function View(p: Props, s: State): seq<Group> {
    DisplayCountries(p.catalog.normalList, s.search)
  }

  /** `getFirstCountry()` for the current search. */
  function First(p: Props, s: State): Option<Country> {
    FirstCountry(View(p, s))
  }

  /**
   * The first match is always a country of the full list; for a non-blank
   * search it exists exactly when some country matches, and it is ordered
   * before every other match (exact before partial, then by short name).
   */
  lemma FirstIsBestMatch(p: Props, s: State)
    ensures First(p, s).Some? ==> First(p, s).value in p.catalog.normalList
    ensures !IsBlank(s.search) ==>
      (First(p, s).None? <==> forall c | c in p.catalog.normalList :: !FieldContains(c, s.search))
    ensures !IsBlank(s.search) && First(p, s).Some? ==>
      FieldContains(First(p, s).value, s.search)
      && forall e | e in p.catalog.normalList && FieldContains(e, s.search) :: InOrder(First(p, s).value, e, s.search)
  {
    var cs := p.catalog.normalList;
    var q := s.search;
    var gs := View(p, s);
    FirstCountryIsMember(gs);
    if IsBlank(q) {
      var sorted := SortCountries(cs);
      PermutationKeepsNamed(cs, sorted);
      if First(p, s).Some? {
        assert First(p, s).value in multiset(Flatten(gs));
      }
    } else {
      SearchBucket(cs, q);
      var r := SearchResults(cs, q);
      assert Flatten(gs) == r by {
        assert gs[1..] == [];
      }
      if exists e :: e in cs && FieldContains(e, q) {
        var e :| e in cs && FieldContains(e, q);
        FirstMatchPrefersExact(cs, q, e);
        forall e' | e' in cs && FieldContains(e', q) ensures InOrder(First(p, s).value, e', q) {
          FirstMatchPrefersExact(cs, q, e');
        }
      }
    }
  }

  /** Every country the list shows belongs to the full list. */
  lemma ViewMembers(p: Props, s: State, c: Country)
    requires c in Flatten(View(p, s))
    ensures c in p.catalog.normalList
  {
    var cs := p.catalog.normalList;
    var gs := View(p, s);
    if IsBlank(s.search) {
      var sorted := SortCountries(cs);
      PermutationKeepsNamed(cs, sorted);
      assert c in multiset(Flatten(gs));
    } else {
      SearchBucket(cs, s.search);
      assert Flatten(gs) == SearchResults(cs, s.search) by {
        assert gs[1..] == [];
      }
    }
  }

  datatype RenderConfig = RenderConfig(showHotList: bool, showGroupLetter: bool, showNoResult: bool)

  /**
   * `renderConfig`: the hot list and the letter headings only without a search;
   * the empty-result line exactly when a non-blank search matches nothing.
   */
  function Render(p: Props, s: State): (r: RenderConfig)
    ensures r.showHotList <==> IsBlank(s.search)
    ensures r.showGroupLetter <==> IsBlank(s.search)
    ensures r.showNoResult <==> (!IsBlank(s.search)
      && forall c | c in p.catalog.normalList :: !FieldContains(c, s.search))
  {
    var hasSearch := !IsBlank(s.search);
    var hasResult := AnyMember(View(p, s));
    if hasSearch then NoMemberIffNoMatch(p.catalog.normalList, s.search); RenderConfig(false, false, !hasResult)
    else RenderConfig(true, true, false)
  }

  /** The trigger's wording when nothing is selected. */
  function PromptText(mode: Mode): string {
    match mode
    case DialCode => "請選擇國碼"
    case Nationality => "請選擇國籍"
  }

  /** How a selected country is written on the trigger. */
  function CountryLabel(mode: Mode, c: Country): string {
    match mode
    case DialCode => "+" + c.code
    case Nationality => c.zhName + " " + c.enName + " (" + c.shortName + ")"
  }

  /** `displayTriggerText`: the selected country's label, or the prompt. */
  function TriggerText(p: Props, s: State): (t: string)
    ensures SelectedCountry(p, s).None? ==> t == PromptText(p.mode)
    ensures SelectedCountry(p, s).Some? ==> t == CountryLabel(p.mode, SelectedCountry(p, s).value)
  {
    match SelectedCountry(p, s)
    case None => PromptText(p.mode)
    case Some(c) => CountryLabel(p.mode, c)
  }

  /** No country's label reads like a prompt: a dial label starts with '+', a nationality label ends with ')'. */
  lemma LabelIsNotPrompt(mode: Mode, c: Country)
    ensures CountryLabel(mode, c) != PromptText(mode)
  {
    var shown := CountryLabel(mode, c);
    var prompt := PromptText(mode);
    match mode
    case DialCode =>
      assert shown[0] == '+' && prompt[0] != '+';
    case Nationality =>
      assert shown[|shown| - 1] == ')' && prompt[|prompt| - 1] != ')';
  }

  /**
   * The trigger shows the prompt exactly when nothing is selected, so the
   * placeholder styling, which tests for a selection, matches the text shown.
   */
  lemma PromptIffNoSelection(p: Props, s: State)
    ensures TriggerText(p, s) == PromptText(p.mode) <==> SelectedCountry(p, s).None?
  {
    if SelectedCountry(p, s).Some? {
      LabelIsNotPrompt(p.mode, SelectedCountry(p, s).value);
    }
  }

  /**
   * `setSearchInput(q)` followed by the loading effect, which runs only when the
   * search actually changed: with no `loading` prop, a non-blank search raises
   * the internal flag and (re)starts its 500 ms timer and a blank one lowers it;
   * with a `loading` prop, only the old timer is cleared.
   */
  function SetSearch(p: Props, s: State, q: string): (r: State)
    ensures r.search == q
    ensures r.isOpen == s.isOpen && r.internalValue == s.internalValue
    ensures r.blurTimers == s.blurTimers && r.selections == s.selections
    ensures q == s.search ==> r == s
    ensures q != s.search && p.loading.None? ==> r.internalLoading == !IsBlank(q) && r.loadingTimer == !IsBlank(q)
    ensures p.loading.Some? ==> r.internalLoading == s.internalLoading
    ensures q != s.search && p.loading.Some? ==> !r.loadingTimer
  {
    if q == s.search then s
    else if p.loading.None? then s.(search := q, internalLoading := !IsBlank(q), loadingTimer := !IsBlank(q))
    else s.(search := q, loadingTimer := false)
  }

  /** The 500 ms timer fires: the internal loading flag drops. */
  function LoadingTimerFired(s: State): (r: State)
    ensures !r.loadingTimer
    ensures s.loadingTimer ==> !r.internalLoading && r.search == s.search
    ensures !s.loadingTimer ==> r == s
  {
    if s.loadingTimer then s.(internalLoading := false, loadingTimer := false) else s
  }

  /** `isLoading`: the `loading` prop when given, the internal flag otherwise. */
  function EffectiveLoading(p: Props, s: State): bool {
    match p.loading
    case Some(b) => b
    case None => s.internalLoading
  }

  /**
   * The loading bookkeeping is consistent: the internal flag is up exactly
   * while its timer runs, and only for a non-blank search without a `loading` prop.
   */
  predicate Valid(p: Props, s: State) {
    && s.internalLoading == s.loadingTimer
    && (s.loadingTimer ==> p.loading.None? && !IsBlank(s.search))
    && (forall t | t in s.blurTimers :: t.selections <= s.selections)
    && (forall t | t in s.blurTimers :: t.first.Some? ==> t.first.value in p.catalog.normalList)
  }

  lemma InitValid(p: Props)
    ensures Valid(p, Init(p))
  {
  }

  lemma SetSearchValid(p: Props, s: State, q: string)
    requires Valid(p, s)
    ensures Valid(p, SetSearch(p, s, q))
  {
  }

  /** The simulated spinner shows only for a non-blank search, and a fired timer stops it. */
  lemma LoadingFollowsSearch(p: Props, s: State)
    requires Valid(p, s) && p.loading.None?
    ensures EffectiveLoading(p, s) ==> !IsBlank(s.search)
    ensures !EffectiveLoading(p, LoadingTimerFired(s))
  {
  }

  /** Typing a new non-blank search without a `loading` prop shows the spinner until the timer fires. */
  lemma TypingStartsLoading(p: Props, s: State, q: string)
    requires p.loading.None? && q != s.search && !IsBlank(q)
    ensures EffectiveLoading(p, SetSearch(p, s, q))
    ensures SetSearch(p, s, q).loadingTimer
  {
  }

  /** A `loading` prop decides the flag whatever the search does. */
  lemma LoadingPropWins(p: Props, s: State, q: string)
    requires p.loading.Some?
    ensures EffectiveLoading(p, SetSearch(p, s, q)) == p.loading.value
    ensures EffectiveLoading(p, LoadingTimerFired(s)) == p.loading.value
  {
  }

  /**
   * `handleSelectCountry(c)`: for a country, store its value when uncontrolled
   * and call `onChange`; in every case close the menu and clear the search.
   */
  function Select(p: Props, s: State, c: Option<Country>): (r: Outcome)
    ensures !r.state.isOpen && r.state.search == ""
    ensures r.notified == c
    ensures IsControlled(p) || c.None? ==> r.state.internalValue == s.internalValue
    ensures !IsControlled(p) && c.Some? ==> r.state.internalValue == Some(ModeValue(p.mode, c.value))
    ensures r.state.blurTimers == s.blurTimers && r.state.selections == s.selections + 1
  {
    var value := if c.Some? && !IsControlled(p) then Some(ModeValue(p.mode, c.value)) else s.internalValue;
    var closed := s.(isOpen := false, internalValue := value, selections := s.selections + 1);
    Outcome(SetSearch(p, closed, ""), c)
  }

  lemma SelectValid(p: Props, s: State, c: Option<Country>)
    requires Valid(p, s)
    ensures Valid(p, Select(p, s, c).state)
  {
    var r := Select(p, s, c).state;
    forall t | t in r.blurTimers ensures t.selections <= r.selections {
    }
  }

  /** In controlled mode a selection only reports the country; the shown value stays the prop's. */
  lemma ControlledSelectKeepsValue(p: Props, s: State, c: Option<Country>)
    requires IsControlled(p)
    ensures ResolvedValue(p, Select(p, s, c).state) == ResolvedValue(p, s)
    ensures SelectedCountry(p, Select(p, s, c).state) == SelectedCountry(p, s)
  {
  }

  /**
   * In uncontrolled mode, selecting a catalog country stores its code or short
   * name, and that value resolves back to the same country whenever it is
   * non-empty and no other catalog country carries it.
   */
  lemma UncontrolledSelectRoundTrip(p: Props, s: State, c: Country)
    requires !IsControlled(p) && c in p.catalog.Combined()
    requires ModeValue(p.mode, c) != ""
    requires forall d | d in p.catalog.Combined() && Identifies(d, ModeValue(p.mode, c)) :: d == c
    ensures SelectedCountry(p, Select(p, s, Some(c)).state) == Some(c)
  {
    FindUnique(p.catalog.Combined(), ModeValue(p.mode, c), c);
  }

  /** Selecting nothing never calls `onChange` and leaves the value alone. */
  lemma SelectNothing(p: Props, s: State)
    ensures Select(p, s, None).notified.None?
    ensures ResolvedValue(p, Select(p, s, None).state) == ResolvedValue(p, s)
  {
  }

  /**
   * A mouse-down outside the open widget: a non-blank search commits the first
   * match, if any; then the menu closes and the search clears. While the menu
   * is closed no listener is attached and nothing happens.
   */
  function OutsideClick(p: Props, s: State): (r: Outcome)
    ensures !s.isOpen ==> r == Outcome(s, None)
    ensures s.isOpen ==> !r.state.isOpen && r.state.search == ""
    ensures s.isOpen ==> r.notified == (if IsBlank(s.search) then None else First(p, s))
    ensures r.state.blurTimers == s.blurTimers
    ensures r.notified.None? ==> r.state.internalValue == s.internalValue
  {
    if !s.isOpen then Outcome(s, None)
    else if !IsBlank(s.search) && First(p, s).Some? then Select(p, s, First(p, s))
    else Outcome(SetSearch(p, s.(isOpen := false), ""), None)
  }

  lemma OutsideClickValid(p: Props, s: State)
    requires Valid(p, s)
    ensures Valid(p, OutsideClick(p, s).state)
  {
    if s.isOpen && !IsBlank(s.search) && First(p, s).Some? {
      SelectValid(p, s, First(p, s));
    }
  }

  /** A blur of the search input starts a 200 ms timer that closes over the current search and first match. */
  function ScheduleBlur(p: Props, s: State): (r: State)
    ensures r.(blurTimers := s.blurTimers) == s
    ensures |r.blurTimers| == |s.blurTimers| + 1 && r.blurTimers[..|s.blurTimers|] == s.blurTimers
    ensures var t := r.blurTimers[|s.blurTimers|]; t.search == s.search && t.first == First(p, s) && t.selections == s.selections
  {
    s.(blurTimers := s.blurTimers + [BlurTimer(s.selections, s.search, First(p, s))])
  }

  lemma ScheduleBlurValid(p: Props, s: State)
    requires Valid(p, s)
    ensures Valid(p, ScheduleBlur(p, s))
  {
    FirstIsBestMatch(p, s);
    var t := BlurTimer(s.selections, s.search, First(p, s));
    var r := ScheduleBlur(p, s);
    forall u | u in r.blurTimers
      ensures u.selections <= r.selections
      ensures u.first.Some? ==> u.first.value in p.catalog.normalList
    {
      if u !in s.blurTimers {
        assert u == t;
      }
    }
  }

  function Without(ts: seq<BlurTimer>, i: nat): (r: seq<BlurTimer>)
    requires i < |ts|
    ensures |r| == |ts| - 1 && forall t | t in r :: t in ts
  {
    ts[..i] + ts[i + 1..]
  }

  /**
   * The blur timer's callback as written: it commits the first match it
   * captured whenever the captured search was non-blank, whatever happened in
   * the meantime.
   */
  function BlurFiredAsWritten(p: Props, s: State, i: nat): (r: Outcome)
    ensures i >= |s.blurTimers| ==> r == Outcome(s, None)
    ensures i < |s.blurTimers| ==>
      r.notified == (if IsBlank(s.blurTimers[i].search) then None else s.blurTimers[i].first)
  {
    if i >= |s.blurTimers| then Outcome(s, None)
    else
      var t := s.blurTimers[i];
      var rest := s.(blurTimers := Without(s.blurTimers, i));
      if !IsBlank(t.search) && t.first.Some? then Select(p, rest, t.first) else Outcome(rest, None)
  }

  /**
   * The blur timer's callback with the grace period honoured: it commits only
   * if no selection was made since the blur, so a click on a list item during
   * the grace period is not overridden.
   */
  function BlurFired(p: Props, s: State, i: nat): (r: Outcome)
    ensures i >= |s.blurTimers| ==> r == Outcome(s, None)
    ensures i < |s.blurTimers| && s.blurTimers[i].selections != s.selections ==>
      r == Outcome(s.(blurTimers := Without(s.blurTimers, i)), None)
    ensures i < |s.blurTimers| && s.blurTimers[i].selections == s.selections ==>
      r == BlurFiredAsWritten(p, s, i)
  {
    if i >= |s.blurTimers| then Outcome(s, None)
    else if s.blurTimers[i].selections != s.selections then Outcome(s.(blurTimers := Without(s.blurTimers, i)), None)
    else BlurFiredAsWritten(p, s, i)
  }

  lemma BlurFiredValid(p: Props, s: State, i: nat)
    requires Valid(p, s)
    ensures Valid(p, BlurFiredAsWritten(p, s, i).state)
    ensures Valid(p, BlurFired(p, s, i).state)
  {
    if i < |s.blurTimers| {
      var t := s.blurTimers[i];
      var rest := s.(blurTimers := Without(s.blurTimers, i));
      assert Valid(p, rest);
      SelectValid(p, rest, t.first);
    }
  }

  /**
   * As written, a click on a list item during the grace period is undone: the
   * blur timer then commits the first match it captured, replacing the stored
   * value and calling `onChange` a second time.
   */
  lemma ClickDuringGraceOverridden(p: Props, s: State, c: Country, f: Country)
    requires !IsControlled(p) && !IsBlank(s.search) && First(p, s) == Some(f)
    ensures var s1 := ScheduleBlur(p, s);
      var s2 := Select(p, s1, Some(c)).state;
      var r := BlurFiredAsWritten(p, s2, |s.blurTimers|);
      r.notified == Some(f) && r.state.internalValue == Some(ModeValue(p.mode, f))
  {
    var s1 := ScheduleBlur(p, s);
    var s2 := Select(p, s1, Some(c)).state;
    assert s2.blurTimers[|s.blurTimers|] == BlurTimer(s.selections, s.search, Some(f));
  }

  /** With the grace period honoured, the clicked country stays selected and no second `onChange` follows. */
  lemma ClickDuringGraceKept(p: Props, s: State, c: Country)
    requires !IsControlled(p)
    ensures var s1 := ScheduleBlur(p, s);
      var s2 := Select(p, s1, Some(c)).state;
      var r := BlurFired(p, s2, |s.blurTimers|);
      r.notified.None? && r.state.internalValue == Some(ModeValue(p.mode, c))
  {
    var s1 := ScheduleBlur(p, s);
    var s2 := Select(p, s1, Some(c)).state;
    assert s2.blurTimers[|s.blurTimers|].selections == s.selections;
  }

  /** Left alone, a blur with a non-blank search commits its first match once the timer fires. */
  lemma BlurCommitsFirstMatch(p: Props, s: State)
    requires !IsBlank(s.search) && First(p, s).Some?
    ensures var s1 := ScheduleBlur(p, s);
      BlurFired(p, s1, |s.blurTimers|) == Select(p, s1.(blurTimers := s.blurTimers), First(p, s))
  {
    var s1 := ScheduleBlur(p, s);
    assert s1.blurTimers[|s.blurTimers|] == BlurTimer(s.selections, s.search, First(p, s));
    assert Without(s1.blurTimers, |s.blurTimers|) == s.blurTimers;
  }
}
