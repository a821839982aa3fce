/**
 * `Trigger` (components/Trigger.tsx): either a default button that toggles the
 * menu, or a custom input child into which the value, focus, blur, typing and
 * key handlers are injected.
 */
module Trigger {
  import opened Options
  import opened Text
  import opened Countries
  import opened Matching
  import opened Store
  import Dropdown
  import Legacy

  /** The custom input's value: the search while the menu is open and being typed into, the trigger text otherwise. */
  function DisplayValue(p: Props, s: State): (v: string)
    ensures s.isOpen && s.search != "" ==> v == s.search
    ensures !s.isOpen || s.search == "" ==> v == TriggerText(p, s)
  {
    if s.isOpen && s.search != "" then s.search else TriggerText(p, s)
  }

  /** Typing into the open menu's input shows what was typed. */
  lemma InputShowsTyping(p: Props, s: State, q: string)
    requires s.isOpen && q != ""
    ensures DisplayValue(p, SetSearch(p, s, q)) == q
  {
  }

  /** Escape in the custom input puts the selection's text back in place of the search. */
  lemma EscapeShowsSelection(p: Props, s: State)
    ensures DisplayValue(p, KeyDown(p, s, Escape).state) == TriggerText(p, s)
  {
  }

  /**
   * The default button's text: the selected country's label; with no selection
   * the `placeholder` when one is given, else the prompt for the mode.
   */
  function ButtonText(p: Props, s: State, placeholder: string): (v: string)
    ensures SelectedCountry(p, s).Some? ==> v == CountryLabel(p.mode, SelectedCountry(p, s).value)
    ensures SelectedCountry(p, s).None? && placeholder != "" ==> v == placeholder
    ensures SelectedCountry(p, s).None? && placeholder == "" ==> v == PromptText(p.mode)
  {
    if SelectedCountry(p, s).Some? then TriggerText(p, s)
    else if placeholder != "" then placeholder
    else TriggerText(p, s)
  }

  /** Focusing the custom input opens the menu unless the widget is disabled. */
  function Focus(p: Props, s: State): (r: State)
    ensures p.disabled ==> r == s
    ensures !p.disabled ==> r.isOpen && r == s.(isOpen := true)
  {
    if p.disabled then s else s.(isOpen := true)
  }

  /** A click on the default button toggles the menu unless the widget is disabled. */
  function Click(p: Props, s: State): (r: State)
    ensures p.disabled ==> r == s
    ensures !p.disabled ==> r.isOpen == !s.isOpen && r == s.(isOpen := r.isOpen)
  {
    if p.disabled then s else s.(isOpen := !s.isOpen)
  }

  /**
   * The custom input's key handler: Enter commits the first match of a non-blank
   * search, then closes and clears; Escape clears the search and closes the menu.
   */
  function KeyDown(p: Props, s: State, key: Key): (r: Outcome)
    ensures key == Enter && r.notified.Some? ==> r.notified == First(p, s) && !r.state.isOpen && r.state.search == ""
    ensures key == Enter && r.notified.None? ==> r.state == s
    ensures key == Enter && IsBlank(s.search) ==> r == Outcome(s, None)
    ensures key == Enter && !IsBlank(s.search) ==>
      (r.notified.Some? <==> exists c | c in p.catalog.normalList :: FieldContains(c, s.search))
    ensures key == Escape ==> r.notified.None? && !r.state.isOpen && r.state.search == ""
    ensures key == Escape ==> r.state.internalValue == s.internalValue
    ensures key == OtherKey ==> r == Outcome(s, None)
  {
    FirstIsBestMatch(p, s);
    match key
    case Enter =>
      if !IsBlank(s.search) && First(p, s).Some? then
        var o := Select(p, s, First(p, s));
        Outcome(SetSearch(p, o.state.(isOpen := false), ""), o.notified)
      else Outcome(s, None)
    case Escape => Outcome(SetSearch(p, s, "").(isOpen := false), None)
    case OtherKey => Outcome(s, None)
  }

  /**
   * Enter does the same in the custom input as in the dropdown's search box;
   * Escape differs only in also closing the menu.
   */
  lemma KeysAgreeWithDropdown(p: Props, s: State)
    ensures KeyDown(p, s, Enter) == Dropdown.KeyDown(p, s, Enter)
    ensures KeyDown(p, s, Escape).state == Dropdown.KeyDown(p, s, Escape).state.(isOpen := false)
  {
  }

  /**
   * The default button says what the all-in-one component's button says for
   * the same mode, placeholder and selection.
   */
  lemma ButtonAgreesWithLegacy(p: Props, s: State, lp: Legacy.Props, ls: Legacy.State)
    requires lp.mode == p.mode && ls.selected == SelectedCountry(p, s)
    ensures ButtonText(p, s, lp.placeholder) == Legacy.DisplayText(lp, ls)
  {
  }

  /** The default button shows the placeholder styling exactly when its text is not a country label. */
  lemma ButtonLabelIffSelected(p: Props, s: State, placeholder: string)
    requires forall c: Country :: placeholder != CountryLabel(p.mode, c)
    ensures (exists c: Country :: ButtonText(p, s, placeholder) == CountryLabel(p.mode, c)) <==> SelectedCountry(p, s).Some?
  {
    if SelectedCountry(p, s).None? {
      if placeholder == "" {
        forall c: Country ensures PromptText(p.mode) != CountryLabel(p.mode, c) {
          LabelIsNotPrompt(p.mode, c);
        }
      }
    } else {
      var c := SelectedCountry(p, s).value;
      assert ButtonText(p, s, placeholder) == CountryLabel(p.mode, c);
    }
  }
}
