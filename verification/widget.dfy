/**
 * The composed widget: `Root` holding the state, `Trigger` and `Dropdown`
 * reacting to the user, timers firing, and the parent re-rendering with a new
 * `value`. Each event is one handler run to completion; the dropdown's own
 * events can only happen while it is rendered, that is, while the menu is open.
 * A widget carries which blur-timer callback it runs: the one the code has
 * (`AsWritten`) or the one that honours the grace period (`GraceHonoured`).
 * The lemmas below hold for both.
 */
module Widget {
  import opened Options
  import opened Text
  import opened Countries
  import opened CountryUtils
  import opened Matching
  import opened Store
  import Dropdown
  import Trigger

  datatype Event =
    | TriggerFocus
    | TriggerClick
    | TriggerInput(text: string)
    | TriggerKey(key: Key)
    | TriggerBlur
    | SearchInput(text: string)
    | SearchKey(key: Key)
    | SearchBlur
    | ClearIconClick
    | ItemClick(country: Country)
    | BlurTimerFires(index: nat)
    | LoadingTimerFires
    | OutsideMouseDown
    | ValueProp(value: Option<string>)

  /** Which blur-timer callback runs: the code's, or the corrected one. */
  datatype Timers = AsWritten | GraceHonoured

  datatype Widget = Widget(props: Props, state: State, timers: Timers)

  datatype Stepped = Stepped(widget: Widget, notified: Option<Country>)

  function Quiet(w: Widget, s: State): Stepped {
    Stepped(w.(state := s), None)
  }

  function Loud(w: Widget, o: Outcome): Stepped {
    Stepped(w.(state := o.state), o.notified)
  }

  function Fire(t: Timers, p: Props, s: State, i: nat): Outcome {
    match t
    case AsWritten => BlurFiredAsWritten(p, s, i)
    case GraceHonoured => BlurFired(p, s, i)
  }

  /**
   * One event, dispatched to the handler that receives it. Only the parent's
   * new `value` touches the props, and nothing changes the timer callback.
   */
  function Step(w: Widget, e: Event): (r: Stepped)
    ensures r.widget.timers == w.timers && r.widget.props.catalog == w.props.catalog
    ensures !e.ValueProp? ==> r.widget.props == w.props
  {
    var p := w.props;
    var s := w.state;
    match e
    case TriggerFocus => Quiet(w, Trigger.Focus(p, s))
    case TriggerClick => Quiet(w, Trigger.Click(p, s))
    case TriggerInput(t) => Quiet(w, SetSearch(p, s, t))
    case TriggerKey(k) => Loud(w, Trigger.KeyDown(p, s, k))
    case TriggerBlur => Quiet(w, ScheduleBlur(p, s))
    case SearchInput(t) => if s.isOpen then Quiet(w, SetSearch(p, s, t)) else Quiet(w, s)
    case SearchKey(k) => if s.isOpen then Loud(w, Dropdown.KeyDown(p, s, k)) else Quiet(w, s)
    case SearchBlur => if s.isOpen then Quiet(w, ScheduleBlur(p, s)) else Quiet(w, s)
    case ClearIconClick => if s.isOpen then Quiet(w, Dropdown.ClearClick(p, s)) else Quiet(w, s)
    case ItemClick(c) => Loud(w, Dropdown.ItemClick(p, s, c))
    case BlurTimerFires(i) => Loud(w, Fire(w.timers, p, s, i))
    case LoadingTimerFires => Quiet(w, LoadingTimerFired(s))
    case OutsideMouseDown => Loud(w, OutsideClick(p, s))
    case ValueProp(v) => Stepped(w.(props := p.(value := v)), None)
  }

  predicate WidgetValid(w: Widget) {
    Valid(w.props, w.state)
  }

  /** Every event keeps the loading bookkeeping and the pending blur timers consistent. */
  lemma StepValid(w: Widget, e: Event)
    requires WidgetValid(w)
    ensures WidgetValid(Step(w, e).widget)
  {
    var p := w.props;
    var s := w.state;
    match e
    case TriggerInput(t) => SetSearchValid(p, s, t);
    case TriggerKey(k) =>
      if k == Enter && !IsBlank(s.search) && First(p, s).Some? {
        SelectValid(p, s, First(p, s));
        var o := Select(p, s, First(p, s));
        SetSearchValid(p, o.state.(isOpen := false), "");
      } else if k == Escape {
        SetSearchValid(p, s, "");
      }
    case TriggerBlur => ScheduleBlurValid(p, s);
    case SearchInput(t) => SetSearchValid(p, s, t);
    case SearchKey(k) =>
      if k == Enter && !IsBlank(s.search) && First(p, s).Some? {
        SelectValid(p, s, First(p, s));
      } else if k == Escape {
        SetSearchValid(p, s, "");
      }
    case SearchBlur => ScheduleBlurValid(p, s);
    case ClearIconClick => SetSearchValid(p, s, "");
    case ItemClick(c) => SelectValid(p, s, Some(c));
    case BlurTimerFires(i) => BlurFiredValid(p, s, i);
    case OutsideMouseDown => OutsideClickValid(p, s);
    case _ =>
  }

  lemma FirstInCatalog(p: Props, s: State)
    ensures First(p, s).Some? ==> First(p, s).value in p.catalog.Combined()
  {
    FirstIsBestMatch(p, s);
  }

  /** The handlers that can call `onChange` report only catalog countries. */
  lemma KeyNotifiedFromCatalog(p: Props, s: State, k: Key)
    ensures Trigger.KeyDown(p, s, k).notified.Some? ==> Trigger.KeyDown(p, s, k).notified.value in p.catalog.Combined()
    ensures Dropdown.KeyDown(p, s, k).notified.Some? ==> Dropdown.KeyDown(p, s, k).notified.value in p.catalog.Combined()
  {
    FirstInCatalog(p, s);
  }

  lemma OutsideNotifiedFromCatalog(p: Props, s: State)
    ensures OutsideClick(p, s).notified.Some? ==> OutsideClick(p, s).notified.value in p.catalog.Combined()
  {
    FirstInCatalog(p, s);
  }

  lemma ClickNotifiedFromCatalog(p: Props, s: State, c: Country)
    ensures Dropdown.ItemClick(p, s, c).notified.Some? ==> Dropdown.ItemClick(p, s, c).notified.value in p.catalog.Combined()
  {
    if Dropdown.Offered(p, s, c) {
      Dropdown.OfferedIsCatalogCountry(p, s, c);
    }
  }

  lemma BlurNotifiedFromCatalog(t: Timers, p: Props, s: State, i: nat)
    requires Valid(p, s)
    ensures Fire(t, p, s, i).notified.Some? ==> Fire(t, p, s, i).notified.value in p.catalog.Combined()
  {
    if i < |s.blurTimers| {
      assert s.blurTimers[i] in s.blurTimers;
    }
  }

  /** Every country reported to `onChange` is a catalog country. */
  lemma NotifiedFromCatalog(w: Widget, e: Event)
    requires WidgetValid(w)
    ensures Step(w, e).notified.Some? ==> Step(w, e).notified.value in w.props.catalog.Combined()
  {
    var p := w.props;
    var s := w.state;
    match e
    case TriggerKey(k) => KeyNotifiedFromCatalog(p, s, k);
    case SearchKey(k) => KeyNotifiedFromCatalog(p, s, k);
    case OutsideMouseDown => OutsideNotifiedFromCatalog(p, s);
    case ItemClick(c) => ClickNotifiedFromCatalog(p, s, c);
    case BlurTimerFires(i) => BlurNotifiedFromCatalog(w.timers, p, s, i);
    case _ =>
  }

  /** In controlled mode only the parent moves the value: no event of the widget's own changes it. */
  lemma ControlledValueOnlyFromParent(w: Widget, e: Event)
    requires IsControlled(w.props) && !e.ValueProp?
    ensures Step(w, e).widget.props == w.props
    ensures ResolvedValue(w.props, Step(w, e).widget.state) == ResolvedValue(w.props, w.state)
    ensures SelectedCountry(w.props, Step(w, e).widget.state) == SelectedCountry(w.props, w.state)
  {
  }

  /** A disabled widget whose menu is closed keeps it closed, whatever happens. */
  lemma DisabledStaysClosed(w: Widget, e: Event)
    requires w.props.disabled && !w.state.isOpen
    ensures !Step(w, e).widget.state.isOpen
  {
    match e
    case BlurTimerFires(i) =>
    case _ =>
  }

  /** A run of events: the final widget and every country reported to `onChange`, in order. */
  function Run(w: Widget, events: seq<Event>): (Widget, seq<Country>)
    decreases |events|
  {
    if |events| == 0 then (w, [])
    else
      var st := Step(w, events[0]);
      var (last, rest) := Run(st.widget, events[1..]);
      (last, Reported(st) + rest)
  }

  function Reported(st: Stepped): seq<Country> {
    if st.notified.Some? then [st.notified.value] else []
  }

  lemma RunCons(w: Widget, events: seq<Event>)
    requires |events| > 0
    ensures var st := Step(w, events[0]);
      && Run(w, events).0 == Run(st.widget, events[1..]).0
      && Run(w, events).1 == Reported(st) + Run(st.widget, events[1..]).1
  {
  }


  /**
   * From the first render on, whatever the user, the timers and the parent do,
   * the state stays consistent, the catalog never changes, and every reported
   * country is a catalog country.
   */
  lemma {:induction false} RunFromValid(w: Widget, events: seq<Event>)
    requires WidgetValid(w)
    ensures WidgetValid(Run(w, events).0)
    ensures Run(w, events).0.props.catalog == w.props.catalog
    ensures forall c | c in Run(w, events).1 :: c in w.props.catalog.Combined()
    decreases |events|
  {
    if |events| > 0 {
      var st := Step(w, events[0]);
      StepValid(w, events[0]);
      NotifiedFromCatalog(w, events[0]);
      RunFromValid(st.widget, events[1..]);
      RunCons(w, events);
      forall c | c in Run(w, events).1
        ensures c in w.props.catalog.Combined()
      {
        if c !in Run(st.widget, events[1..]).1 {
          assert c in Reported(st);
        }
      }
    }
  }

  lemma RunFromInit(p: Props, t: Timers, events: seq<Event>)
    ensures WidgetValid(Run(Widget(p, Init(p), t), events).0)
    ensures forall c | c in Run(Widget(p, Init(p), t), events).1 :: c in p.catalog.Combined()
  {
    InitValid(p);
    RunFromValid(Widget(p, Init(p), t), events);
  }

  /** In controlled mode, a run without a new `value` from the parent ends on the value it began with. */
  lemma {:induction false} ControlledRunKeepsValue(w: Widget, events: seq<Event>)
    requires IsControlled(w.props)
    requires forall k | 0 <= k < |events| :: !events[k].ValueProp?
    ensures Run(w, events).0.props == w.props
    ensures SelectedCountry(w.props, Run(w, events).0.state) == SelectedCountry(w.props, w.state)
    decreases |events|
  {
    if |events| > 0 {
      ControlledValueOnlyFromParent(w, events[0]);
      ControlledRunKeepsValue(Step(w, events[0]).widget, events[1..]);
    }
  }

  /** A run of a disabled widget that starts closed never opens the menu. */
  lemma {:induction false} DisabledRunStaysClosed(w: Widget, events: seq<Event>)
    requires w.props.disabled && !w.state.isOpen
    ensures !Run(w, events).0.state.isOpen
    decreases |events|
  {
    if |events| > 0 {
      DisabledStaysClosed(w, events[0]);
      DisabledRunStaysClosed(Step(w, events[0]).widget, events[1..]);
    }
  }

  lemma GraceView(p: Props, s: State)
    requires p.catalog.normalList == [Argentina, India] && s.search == "in"
    ensures !IsBlank(s.search) && View(p, s) == [Group("", [India, Argentina])]
  {
    SampleBucket(p.catalog.normalList, s.search);
  }

  /** Two countries and a search for which the first match is the exact one, India. */
  lemma GraceFirst(p: Props, s: State)
    requires p.catalog.normalList == [Argentina, India] && s.search == "in"
    ensures First(p, s) == Some(India) && !IsBlank(s.search)
  {
    GraceView(p, s);
    FirstOfOneBucket(View(p, s), [India, Argentina]);
  }

  /**
   * The blur grace timer as written, on the example: the user types "in",
   * leaves the box by clicking Argentina; 200 ms later the timer commits India
   * anyway. With the grace period honoured, Argentina stays.
   */
  lemma GraceOverrideExample(p: Props, s: State)
    requires p.mode == DialCode && p.value.None?
    requires p.catalog.normalList == [Argentina, India] && s.search == "in"
    ensures var s1 := ScheduleBlur(p, s);
      var s2 := Select(p, s1, Some(Argentina)).state;
      && s2.internalValue == Some("54")
      && BlurFiredAsWritten(p, s2, |s.blurTimers|).state.internalValue == Some("91")
      && BlurFired(p, s2, |s.blurTimers|).state.internalValue == Some("54")
  {
    GraceFirst(p, s);
    ClickDuringGraceOverridden(p, s, Argentina, India);
    ClickDuringGraceKept(p, s, Argentina);
  }
}
