# country-selector, modelled in Dafny

A model of the core of the `country-selector` React widget and proofs about it.
The widget picks a country, by dial code or by nationality, from a catalog made of a
hot list and a full list. It has two variants:

- **The composable widget.** `Root` holds the state. `Trigger` is a button or a custom
  input. `Dropdown` is the panel with its search box and the lists. A layout hook places
  the panel below or above the trigger. The event machine carries which blur-timer callback it runs:
  `AsWritten`, the callback the code has, or `GraceHonoured`, the corrected one from the
  second finding. Every `Widget` lemma holds for both, so each holds for the program as
  written.
- **The older all-in-one `CountrySelector`.**

The model is pure: every handler is a function from the current state (and the props it
reads) to the next state and the country passed to `onChange`, if any. React's
re-rendering, effects and timers become explicit events.

| module | file | models |
|---|---|---|
| `Options` | options.dfy | `undefined`/`null` as `Option` |
| `Text` | text.dfy | lower-casing, `trim()` blankness, `includes`/`indexOf`, character order |
| `Sorting` | sorting.dfy | a stable sort by a string key |
| `Countries` | countries.dfy | `Country`, the catalog, value lookup (`find` by code or short name) |
| `CountryUtils` | country_utils.dfy | `sortCountries`, `groupCountriesByLetter`, `getFirstCountry` |
| `Matching` | matching.dfy | search: exact and partial matches, the displayed groups of both variants |
| `Highlight` | highlight.dfy | `highlightMatch` |
| `Placement` | placement.dfy | `useDropdownPosition` |
| `Store` | store.dfy | `Root`: value resolution, selection, loading, outside click, blur timers |
| `Dropdown` | dropdown.dfy | `Dropdown`: panel, skeletons, keys, clear icon, item clicks |
| `Trigger` | trigger.dfy | `Trigger`: display value, focus, click, keys |
| `Widget` | widget.dfy | the composed widget as an event machine, and runs of events |
| `Legacy` | legacy.dfy | the all-in-one `CountrySelector` |

Source cells give paths from the repository root.

## Model

| member | source | states |
|---|---|---|
| `Countries.Find` | src/components/country-selector/components/Root.tsx:86-90 | The lookup returns the earliest country in list order whose code or short name equals the value; it returns nothing exactly when no country carries the value. |
| `Countries.FindUnique` | src/components/country-selector/components/Root.tsx:86-90 | When exactly one country carries a value, the lookup finds that country. |
| `Countries.ModeValue` | src/components/country-selector/components/Root.tsx:141 | The value stored for a country (its dial code or its short name, by mode) identifies that country again. |
| `Sorting.Sort` | src/components/country-selector/utils/countryUtils.tsx:9-11 | Sorting returns a permutation of its input, of the same length, non-decreasing by the key. |
| `Sorting.SortIsStable` | src/components/country-selector/utils/countryUtils.tsx:10 | For each key, the sorted output lists the elements with that key in their input order, as ECMAScript's stable `Array.prototype.sort` does. |
| `Sorting.SortOfSorted` | src/components/country-selector/utils/countryUtils.tsx:9-11 | Sorting an already sorted list changes nothing. |
| `Sorting.SortIdempotent` | src/components/country-selector/utils/countryUtils.tsx:9-11 | Sorting twice gives the same as sorting once. |
| `Text.LexLeTotal` | src/components/country-selector/utils/countryUtils.tsx:10 | The order that stands in for `localeCompare` relates every pair of names. |
| `Text.LexLeTransitive` | src/components/country-selector/utils/countryUtils.tsx:10 | That order is transitive, so a sort by it is well defined. |
| `Text.LexLeAntisymmetric` | src/components/country-selector/utils/countryUtils.tsx:10 | Two names that sort no later than each other are equal. |
| `Text.IndexOf` | src/components/country-selector/utils/countryUtils.tsx:42-43 | The search returns the leftmost occurrence, and returns nothing exactly when the pattern does not occur. |
| `CountryUtils.SortCountries` | src/components/country-selector/utils/countryUtils.tsx:9-11 | The result is a permutation of the countries, ordered by `shortName`, and keeps the input order among equal short names. |
| `CountryUtils.SortCountriesIdempotent` | src/components/country-selector/utils/countryUtils.tsx:9-11 | Sorting sorted countries again leaves them unchanged. |
| `CountryUtils.GroupCountriesByLetter` | src/components/country-selector/utils/countryUtils.tsx:18-31 | There is one group per upper-cased first letter that occurs, and the letters are distinct. Each group holds exactly the countries with its letter, in input order. Together the groups hold every input country exactly once. |
| `CountryUtils.AddToGroupKeepsWellGrouped` | src/components/country-selector/utils/countryUtils.tsx:21-28 | Each iteration of the `forEach` keeps the groups a correct grouping of the prefix read so far. This is the loop invariant. |
| `CountryUtils.GroupEmptyIffInputEmpty` | src/components/country-selector/utils/countryUtils.tsx:18-31 | Grouping yields no group exactly when there are no countries. |
| `CountryUtils.GroupSizesSum` | src/components/country-selector/utils/countryUtils.tsx:18-31 | The group sizes add up to the number of countries grouped. |
| `CountryUtils.CountryInExactlyOneGroup` | src/components/country-selector/utils/countryUtils.tsx:22-27 | A country lies in a group if and only if that group's letter is the country's first letter. |
| `CountryUtils.CountryHasGroup` | src/components/country-selector/utils/countryUtils.tsx:24-26 | Every country's letter has a group. |
| `CountryUtils.InLetterKeepsOrder` | src/components/country-selector/utils/countryUtils.tsx:21-28 | A group keeps every pairwise order its input had, for example sorted order or exact-before-partial order. |
| `CountryUtils.FirstCountry` | src/components/country-selector/components/Root.tsx:131-135 | With no groups there is no first country. Otherwise the result is the head of a group whose letter sorts no later than every other letter. |
| `CountryUtils.FirstCountryOfSmallestKey` | src/components/country-selector/components/Root.tsx:131-135 | When the letters are distinct and no group is empty, the first country is the head of the group with the smallest letter. |
| `CountryUtils.FirstCountryIsMember` | src/components/country-selector/components/Root.tsx:131-135 | The first country is always one of the grouped countries. |
| `Matching.Classify` | src/components/country-selector/country-selector.tsx:63-81 | A country is classed exact if and only if its code equals the search or a lower-cased name equals it. It is classed as a match at all if and only if some field contains the search. |
| `Matching.ExactImpliesContains` | src/components/country-selector/country-selector.tsx:63-81 | An exact match is also a partial one, so the `else if` loses nothing. |
| `Matching.OfKindMembers` | src/components/country-selector/country-selector.tsx:61-82 | The exact list and the partial list hold exactly the countries of that kind. |
| `Matching.KindsPartition` | src/components/country-selector/country-selector.tsx:61-82 | Every country falls into exactly one of the kinds exact, partial and no match. |
| `Matching.SearchResults` | src/components/country-selector/country-selector.tsx:85 | The results are exactly the countries with some field containing the search, each once. Exact matches never follow partial ones, and each kind is ordered by `shortName`. |
| `Matching.LegacyDisplayCountries` | src/components/country-selector/country-selector.tsx:53-91 | The all-in-one component's list: a blank search gives the whole sorted list grouped by letter; a non-blank one gives the tiered results grouped by letter. `Matching.BlankSearchGroupsWholeList`, `Matching.LegacySearchGroupsTiered` and `Matching.LegacyNoGroupsIffNoMatch` state its contract. |
| `Matching.DisplayCountries` | src/components/country-selector/components/Root.tsx:94-97 | The composable widget's list, under the single-bucket assumption listed under "Left out": a blank search is grouped as in the all-in-one component; a non-blank one gives the tiered results in one bucket. `Matching.SearchBucket`, `Matching.NoMemberIffNoMatch` and `Matching.FirstMatchPrefersExact` state its contract. |
| `Matching.BlankSearchGroupsWholeList` | src/components/country-selector/country-selector.tsx:89-90 | A blank search shows the whole list grouped by letter, each group sorted by short name, and both variants agree on it. |
| `Matching.LegacySearchGroupsTiered` | src/components/country-selector/country-selector.tsx:58-86 | The all-in-one component's search groups hold exactly the matches. Within each letter, exact matches come first. |
| `Matching.SearchBucket` | src/components/country-selector/components/Root.tsx:94-97 | In the composable widget, a non-blank search yields a single bucket keyed "" that holds the tiered results. |
| `Matching.NoResultsIffNoMatch` | src/components/country-selector/country-selector.tsx:58-86 | There are no results exactly when no field of any country contains the search. |
| `Matching.LegacyNoGroupsIffNoMatch` | src/components/country-selector/country-selector.tsx:96 | The all-in-one component has no groups exactly when nothing matches. |
| `Matching.NoMemberIffNoMatch` | src/components/country-selector/components/Root.tsx:103 | The composable widget's bucket is empty exactly when nothing matches. |
| `Matching.FirstMatchPrefersExact` | src/components/country-selector/components/Root.tsx:131-135 | In the single-bucket view the first country is a match. It comes before every other match: exact before partial, then by `shortName`. |
| `Matching.LegacyFirstCanBePartial` | src/components/country-selector/country-selector.tsx:178-182 | As written, the search "in" over Argentina and India picks Argentina, a partial match, although India is an exact match. |
| `Highlight.SplitParts` | src/components/country-selector/utils/countryUtils.tsx:42-43 | The parts join back to the text. There is an odd number of parts. Each odd part equals the term, ignoring case. No even part contains the term. |
| `Highlight.HighlightMatch` | src/components/country-selector/utils/countryUtils.tsx:36-58 | The pieces join back to the text. A blank term gives the text as one plain piece. Otherwise a piece is marked exactly at the odd indices, a marked piece equals the term ignoring case, and an unmarked piece does not contain it. |
| `Highlight.NothingMarkedIffNoOccurrence` | src/components/country-selector/utils/countryUtils.tsx:45-57 | For a non-blank term, nothing is marked exactly when the term does not occur, and then the text is the single plain piece. |
| `Placement.HeightFor` | src/components/country-selector/hook/useDropdownPosition.ts:31 | The height is the room minus 20, clamped to [200, 600], case by case. |
| `Placement.Compute` | src/components/country-selector/hook/useDropdownPosition.ts:17-36 | The panel opens below if and only if there are at least 600 pixels below or no less room below than above. Its height is the clamp of the room on the chosen side, and it fits that room whenever the room allows 200 pixels. |
| `Placement.OnRender` | src/components/country-selector/hook/useDropdownPosition.ts:15-38 | A render measures only when the menu is open and the container is mounted; otherwise it keeps the last position. |
| `Placement.HeightAlwaysInRange` | src/components/country-selector/hook/useDropdownPosition.ts:15-38 | Once in [200, 600], the maximum height stays in that range through any sequence of renders. |
| `Placement.FromInitialInRange` | src/components/country-selector/hook/useDropdownPosition.ts:12-13 | From the initial state (below, 300), every later maximum height lies in [200, 600]. |
| `Placement.ClosedKeepsPosition` | src/components/country-selector/hook/useDropdownPosition.ts:16 | While the menu stays closed, the position never changes. |
| `Store.SelectedCountry` | src/components/country-selector/components/Root.tsx:80-91 | The selected country is absent exactly when the resolved value (the prop when controlled, the internal value otherwise) is missing, empty, or carried by no catalog country. Otherwise it is the first hot-then-full-list country carrying that value. |
| `Store.FirstIsBestMatch` | src/components/country-selector/components/Root.tsx:131-135 | The first country is always from the full list. For a non-blank search it exists if and only if something matches, and it is a match ordered before every other match. |
| `Store.ViewMembers` | src/components/country-selector/components/Root.tsx:94-97 | Every country the list shows is from the full list. |
| `Store.Render` | src/components/country-selector/components/Root.tsx:100-110 | The hot list and the letter headings show if and only if the search is blank. The no-result line shows if and only if a non-blank search matches nothing. |
| `Store.TriggerText` | src/components/country-selector/components/Root.tsx:115-122 | The trigger shows the selected country's label by mode, or the mode's prompt when nothing is selected. |
| `Store.LabelIsNotPrompt` | src/components/country-selector/components/Root.tsx:115-122 | No country's label equals the prompt of the same mode: a dial label starts with "+", and a nationality label ends with ")". |
| `Store.PromptIffNoSelection` | src/components/country-selector/components/Trigger.tsx:143-146 | The trigger text is the prompt exactly when no country is selected, so the placeholder styling matches the text shown. |
| `Store.SetSearch` | src/components/country-selector/components/Root.tsx:155-167 | Typing sets the search and nothing else the user sees. Without a `loading` prop, a changed search raises the spinner and its timer if and only if it is non-blank. With the prop, only the old timer is cleared. |
| `Store.LoadingTimerFired` | src/components/country-selector/components/Root.tsx:159-161 | The timer lowers the internal flag and leaves the search alone; with no timer pending it changes nothing. |
| `Store.SetSearchValid` | src/components/country-selector/components/Root.tsx:155-167 | Typing keeps the loading bookkeeping consistent: the flag is up exactly while its timer runs, and only for a non-blank search. |
| `Store.LoadingFollowsSearch` | src/components/country-selector/components/Root.tsx:155-172 | Without a `loading` prop the spinner shows only for a non-blank search, and a fired timer stops it. |
| `Store.TypingStartsLoading` | src/components/country-selector/components/Root.tsx:156-162 | A new non-blank search without a `loading` prop shows the spinner and starts its timer. |
| `Store.LoadingPropWins` | src/components/country-selector/components/Root.tsx:170-172 | A given `loading` prop decides the spinner whatever the search or the timer does. |
| `Store.EffectiveLoading` | src/components/country-selector/components/Root.tsx:169-172 | `isLoading` is the `loading` prop when one is given, and the internal flag otherwise. `Store.LoadingPropWins` and `Store.LoadingFollowsSearch` state its contract. |
| `Store.Select` | src/components/country-selector/components/Root.tsx:137-149 | A selection always closes the menu and clears the search. It reports the country. It stores the country's value only when uncontrolled and a country was given, and leaves the stored value alone otherwise. |
| `Store.SelectValid` | src/components/country-selector/components/Root.tsx:137-149 | A selection keeps the state consistent. |
| `Store.ControlledSelectKeepsValue` | src/components/country-selector/components/Root.tsx:140 | In controlled mode a selection leaves the resolved value and the shown country unchanged. |
| `Store.UncontrolledSelectRoundTrip` | src/components/country-selector/components/Root.tsx:141 | In uncontrolled mode, selecting a catalog country whose stored value is non-empty and unique makes that country the selected one. |
| `Store.SelectNothing` | src/components/country-selector/components/Root.tsx:139-144 | Selecting nothing never calls `onChange` and leaves the value alone. |
| `Store.OutsideClick` | src/components/country-selector/components/Root.tsx:185-206 | With the menu closed, nothing happens. Otherwise the menu closes and the search clears, and a non-blank search commits its first match. The value changes only when something is reported. |
| `Store.OutsideClickValid` | src/components/country-selector/components/Root.tsx:185-206 | An outside click keeps the state consistent. |
| `Store.ScheduleBlur` | src/components/country-selector/components/Dropdown.tsx:65-74 | A blur changes nothing but the pending timers. It appends one timer that captures the current search, the current first match and the count of selections so far. |
| `Store.ScheduleBlurValid` | src/components/country-selector/components/Dropdown.tsx:65-74 | Starting a blur timer keeps the state consistent. A timer remembers only a full-list country. |
| `Store.BlurFiredAsWritten` | src/components/country-selector/components/Dropdown.tsx:65-74 | As written, a firing timer reports the first match it captured whenever its captured search was non-blank, whatever happened since. |
| `Store.BlurFired` | src/components/country-selector/components/Dropdown.tsx:65-74 | With the grace period honoured, a timer whose blur was followed by a selection is dropped and does nothing. Otherwise it acts as written. |
| `Store.BlurFiredValid` | src/components/country-selector/components/Dropdown.tsx:65-74 | Both firings keep the state consistent. |
| `Store.ClickDuringGraceOverridden` | src/components/country-selector/components/Dropdown.tsx:66-72 | As written, a blur, then a click on another country, then the timer firing end with the blur's first match stored and reported a second time. |
| `Store.ClickDuringGraceKept` | src/components/country-selector/components/Dropdown.tsx:65-74 | With the grace period honoured, the clicked country stays stored and no second report follows. |
| `Store.BlurCommitsFirstMatch` | src/components/country-selector/components/Trigger.tsx:70-78 | Left alone, a blur with a non-blank search commits its first match when the timer fires. |
| `Dropdown.SkeletonCount` | src/components/country-selector/components/Dropdown.tsx:149-153 | There are between 1 and 10 skeleton rows: 5 with no results, otherwise the result count capped at 10. |
| `Dropdown.SkeletonWidths` | src/components/country-selector/components/Dropdown.tsx:154-156 | There is one width per skeleton row: long at even indices and short at odd ones. |
| `Dropdown.SkeletonAlternates` | src/components/country-selector/components/Dropdown.tsx:154-156 | Neighbouring skeleton rows never share a width. |
| `Dropdown.HiddenValue` | src/components/country-selector/components/Dropdown.tsx:79-90 | The hidden field holds "" with no selection, else a value that identifies the selected country. |
| `Dropdown.HiddenValueAfterSelect` | src/components/country-selector/components/Dropdown.tsx:79-90 | After an uncontrolled selection of a country with a unique non-empty value, the form submits exactly that value. |
| `Dropdown.ListBody` | src/components/country-selector/components/Dropdown.tsx:146-221 | Skeletons show if and only if loading. The no-result line shows if and only if not loading and the no-result flag is set. Otherwise the lists show: the hot list only for a blank search, and the groups sorted by letter as a permutation of the view. |
| `Dropdown.Show` | src/components/country-selector/components/Dropdown.tsx:43-49 | Nothing renders if and only if the menu is closed. The hidden field exists if and only if there is a name. The search placeholder is never empty and defaults by mode. |
| `Dropdown.KeyDown` | src/components/country-selector/components/Dropdown.tsx:52-63 | Enter on a non-blank search reports something if and only if some country matches, and then it selects the first match, which is from the full list. Escape only clears the search and keeps the menu open. Enter on a blank search changes nothing. |
| `Dropdown.ClearClick` | src/components/country-selector/components/Dropdown.tsx:124-131 | The clear icon empties the search and keeps the menu and the value. |
| `Dropdown.OfferedIsCatalogCountry` | src/components/country-selector/components/Dropdown.tsx:176-219 | Every clickable item is a catalog country. |
| `Dropdown.ItemClick` | src/components/country-selector/components/Dropdown.tsx:210 | A click on an offered item selects it; a click on anything else does nothing. |
| `Trigger.ButtonText` | src/components/country-selector/components/Trigger.tsx:113 | The button shows the selected country's label. With no selection it shows the `placeholder` when one is given, else the mode's prompt. |
| `Trigger.Focus` | src/components/country-selector/components/Trigger.tsx:62-69 | Focus opens the menu and changes nothing else, unless the widget is disabled. |
| `Trigger.Click` | src/components/country-selector/components/Trigger.tsx:136 | A click toggles the menu and changes nothing else, unless the widget is disabled. |
| `Trigger.DisplayValue` | src/components/country-selector/components/Trigger.tsx:48-51 | The custom input shows the search while the menu is open with a non-empty search, and the trigger text otherwise. |
| `Trigger.InputShowsTyping` | src/components/country-selector/components/Trigger.tsx:51-56 | Typing a non-empty text into the open menu's input shows exactly that text. |
| `Trigger.EscapeShowsSelection` | src/components/country-selector/components/Trigger.tsx:93-96 | After Escape in the custom input, the input shows the selection's text in place of the search. |
| `Trigger.KeyDown` | src/components/country-selector/components/Trigger.tsx:83-96 | Enter commits the first match and then closes and clears; with no match it changes nothing. Escape clears and closes and keeps the value. Enter on a blank search changes nothing; on a non-blank one it reports something if and only if some country matches. |
| `Trigger.KeysAgreeWithDropdown` | src/components/country-selector/components/Trigger.tsx:83-96 | Enter behaves the same in the custom input as in the search box. Escape differs only in also closing the menu. |
| `Trigger.ButtonAgreesWithLegacy` | src/components/country-selector/components/Trigger.tsx:110-113 | The default button shows the same text as the all-in-one component's button, given the same mode, placeholder and selection. |
| `Trigger.ButtonLabelIffSelected` | src/components/country-selector/components/Trigger.tsx:143-148 | When the placeholder is not itself a country label, the button shows a country label exactly when a country is selected. This is the condition the placeholder styling tests. |
| `Widget.Step` | src/components/country-selector/components/Root.tsx:137-206 | Each event goes to the handler that receives it, and the timer callback is the one the widget carries. Only a new `value` from the parent changes the props, and no event changes the catalog or the callback. |
| `Widget.StepValid` | src/components/country-selector/components/Root.tsx:137-206 | Every event, whether from the user, a timer or the parent, keeps the state consistent. It holds for either timer callback, the code's included. |
| `Widget.NotifiedFromCatalog` | src/components/country-selector/components/Root.tsx:143 | Every country passed to `onChange` is a catalog country. It holds for either timer callback, the code's included. |
| `Widget.ControlledValueOnlyFromParent` | src/components/country-selector/components/Root.tsx:80-82 | In controlled mode no event of the widget's own changes the resolved value or the shown country. It holds for either timer callback, the code's included. |
| `Widget.DisabledStaysClosed` | src/components/country-selector/components/Trigger.tsx:62-69 | A disabled widget with a closed menu keeps it closed, whatever event comes. It holds for either timer callback, the code's included. |
| `Widget.RunFromValid` | src/components/country-selector/components/Root.tsx:137-206 | Over any run of events, the state stays consistent, the catalog never changes, and every reported country is a catalog country. It holds for either timer callback, the code's included. |
| `Widget.RunFromInit` | src/components/country-selector/components/Root.tsx:80-81 | The same holds for every run from the first render. It holds for either timer callback, the code's included. |
| `Widget.ControlledRunKeepsValue` | src/components/country-selector/components/Root.tsx:80-82 | In controlled mode, a run without a new `value` ends on the country it began with. It holds for either timer callback, the code's included. |
| `Widget.DisabledRunStaysClosed` | src/components/country-selector/components/Trigger.tsx:136 | A disabled widget that starts closed never opens, over any run. It holds for either timer callback, the code's included. |
| `Widget.GraceOverrideExample` | src/components/country-selector/components/Trigger.tsx:70-78 | On the sample catalog, a blur then a click on Argentina stores "54". The timer as written then stores "91"; with the grace period honoured, "54" stays. |
| `Legacy.SyncDefault` | src/components/country-selector/country-selector.tsx:106-123 | The default effect changes the selection only without a `value` and only for a non-empty default. When some catalog country carries such a default, the selection becomes the first such country. |
| `Legacy.SyncValue` | src/components/country-selector/country-selector.tsx:126-133 | With a `value` and a non-empty catalog, the selection becomes the country found for the value, or nothing. Otherwise nothing changes. |
| `Legacy.ControlledSyncFollowsValue` | src/components/country-selector/country-selector.tsx:126-133 | After both effects, a controlled widget shows the first catalog country carrying its value, whatever it showed before. |
| `Legacy.UncontrolledSyncUsesDefault` | src/components/country-selector/country-selector.tsx:106-123 | An uncontrolled widget keeps its selection or takes a catalog country carrying the default. When a catalog country carries a non-empty default, the widget shows the first such country. Without a default, nothing changes. |
| `Legacy.MountSelectionFromCatalog` | src/components/country-selector/country-selector.tsx:106-133 | The first selection is nothing or a catalog country. |
| `Legacy.Render` | src/components/country-selector/country-selector.tsx:94-103 | The hot list and the headings show if and only if the search is blank. The no-result line shows if and only if a non-blank search matches nothing. |
| `Legacy.DisplayText` | src/components/country-selector/country-selector.tsx:147-157 | The button shows the selected country's label, else the `placeholder`, else the mode's prompt. |
| `Legacy.FirstIsMatch` | src/components/country-selector/country-selector.tsx:178-182 | For a non-blank search the first country is a full-list match, and it is absent exactly when nothing matches. |
| `Legacy.KeyDown` | src/components/country-selector/country-selector.tsx:185-201 | Enter on a non-blank search reports something if and only if some country matches, and then it selects the first country, closes and clears. Escape clears and closes and keeps the selection. Enter on a blank search changes nothing. |
| `Legacy.ListKeyDown` | src/components/country-selector/country-selector.tsx:318-323 | Escape on the list closes and clears; other keys change nothing. |
| `Legacy.ListBody` | src/components/country-selector/country-selector.tsx:325-331 | The loading line shows if and only if the catalog is empty. The no-result line shows if and only if a non-blank search has no groups. Otherwise the lists show the groups sorted by letter. |
| `Legacy.OfferedIsCatalogCountry` | src/components/country-selector/country-selector.tsx:350-353 | Every clickable item is a catalog country. |
| `Legacy.ClickItem` | src/components/country-selector/country-selector.tsx:402-405 | A click on an offered item selects and reports it and closes the menu, but keeps the search. Anything else does nothing. |
| `Legacy.Step` | src/components/country-selector/country-selector.tsx:172-224 | Each event of the all-in-one component goes to its handler. `Legacy.StepSelectionFromCatalog` states its contract. |
| `Legacy.StepSelectionFromCatalog` | src/components/country-selector/country-selector.tsx:172-175 | Every event keeps the selection nothing or a catalog country, reports only catalog countries, and keeps the catalog. |
| `Legacy.OutsideClickNeverSelects` | src/components/country-selector/country-selector.tsx:218-224 | An outside click closes the menu, and clears the search when open, but never selects or reports anything. |
| `Legacy.ControlledClickOverridesValue` | src/components/country-selector/country-selector.tsx:172-175 | In controlled mode a click still replaces the shown selection with a country the `value` does not name. |

## Left out

- Regular expressions: `highlightMatch` builds a `RegExp` from the search term. The model
  treats the term as a literal string, so a term with metacharacters (`.`, `(`, `+`) is not
  modelled, nor is the exception an unbalanced `(` throws.
- Unicode: `toLowerCase` and `toUpperCase` are modelled on ASCII letters only.
  `localeCompare` is modelled as character order; locale collation is not modelled.
- An empty `shortName`: `groupCountriesByLetter` throws on it (`shortName[0]` is
  undefined). The model requires every full-list country to have a non-empty short name
  (`Countries.NamedList`) instead of modelling the exception.
- JSX, CSS classes, icons, `aria-*` attributes, labels, `scrollIntoView` and the hot-list
  and group titles: presentation only.
- Timers run as explicit events (`BlurTimerFires`, `LoadingTimerFires`), so their 200 ms
  and 500 ms delays are not modelled as durations.
- Placement: the geometry is in whole pixels (the browser's values are floating point), and
  the hook's `containerRef.current` check becomes an optional measurement.
- The all-in-one component's blur timer (country-selector.tsx:204-215) has the same stale
  capture as the composable widget's timer, which the second finding covers; it is not
  repeated in `Legacy`.
- `filterAndGroupCountries`, which `Root` calls (Root.tsx:94-97), is not defined in
  `countryUtils.tsx`. The model assumes the following for it: a blank search groups the
  sorted list by letter, and a non-blank one returns the tiered results in one bucket keyed
  "". Its `type` argument is ignored, since both matching and grouping are the same for
  either mode. For a non-blank search
  that matches nothing, this bucket is present but empty; `Root`'s `renderConfig` counts only
  non-empty buckets, so nothing the user sees depends on the difference.
- `isLoading` in `Root` is copied from the flags by an effect, one render later. The model
  reads the flags directly.
- The all-in-one component's hint and search-placeholder texts are not modelled.
- The composable widget's disabled custom input: the browser suppresses events on a
  `disabled` input, and the model does not model that suppression. Only the handlers' own
  `disabled` guards are modelled.
- Props other than `value` stay fixed during a run. A changing `type`, catalog,
  `defaultValue` or `loading` is not modelled.
- `Store.OutsideClick`: "outside" is an input of the model. The DOM containment test is not
  modelled.
- Escape in the search box: `Dropdown`'s handler only clears the search
  (Dropdown.tsx:60-62). `Trigger`'s handler (Trigger.tsx:93-95) and the all-in-one
  component's also close the menu.
- Store.FirstIsBestMatch: this rests on the single-bucket assumption for
  `filterAndGroupCountries`. If that function grouped the results by letter, as the
  all-in-one component does, then `Root`'s Enter, outside click and blur would commit the
  head of the smallest letter. The first finding would then apply to `Root` too.
- Matching.FirstMatchPrefersExact: rests on the same single-bucket assumption.
- Store.ViewMembers: rests on the same single-bucket assumption.
- Characters: a Dafny `char` is a Unicode scalar value, while JavaScript compares strings by
  UTF-16 code unit. Names with characters outside the Basic Multilingual Plane may
  therefore order differently in the model than in the browser.

## Findings

| source | as written | input that shows it | evidently intended | confidence | as-written member | corrected member |
|---|---|---|---|---|---|---|
| src/components/country-selector/country-selector.tsx:84-86, 178-182 | The tiered results (exact first) are regrouped by letter, and Enter takes the head of the smallest letter. An exact match in a later letter loses to a partial match in an earlier one. | full list [Argentina (AR, "54"), India (IN, "91")], search "in": Enter commits Argentina | The exact match comes first (the comment at line 84 says exact matches take priority); India should be committed | not executed | `Matching.LegacyFirstCanBePartial` | `Matching.DisplayCountries`, with `Matching.FirstMatchPrefersExact` and `Store.FirstIsBestMatch` |
| src/components/country-selector/components/Dropdown.tsx:65-74 | The 200 ms blur timer captures the search and the first match at blur time. It commits them even if a list item was clicked in the meantime. | uncontrolled dial-code widget, full list [Argentina, India], search "in": blur, click Argentina, timer fires; value ends "91", and `onChange` is called twice | The delay exists to let a click win (the comment at country-selector.tsx:205 says so); the clicked country should stay | not executed | `Store.BlurFiredAsWritten`, with `Store.ClickDuringGraceOverridden` and `Widget.GraceOverrideExample` | `Store.BlurFired`, with `Store.ClickDuringGraceKept` |
