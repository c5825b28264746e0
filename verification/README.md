# Language dashboard selection model

A Dafny model of the language-selection screen of a small mobile dictionary
app (`index.js`, component `LanguageDashboard`). The screen shows a fixed
catalogue of nine languages. A search bar filters the catalogue by a
case-insensitive substring match on the name. Tapping a card toggles that
language in an ordered selection keyed by identifier, capped at four
entries. A "Go to Dictionary" button either raises an alert or opens the
`/dictionary` route.

Modules:

- `Text`: ASCII lower-casing (`toLowerCase`) and the substring test (`includes`), with a proof that the recursive test means "occurs at some index".
- `Catalog`: the `Language` record, the nine catalogue entries, and the search filter.
- `Effects`: the two alert kinds (with their titles and messages), the outcomes a handler can have, the route, and the cap of four.
- `Selection`: `find` by identifier, removal by identifier, and the toggle handler `handleLanguageSelect`.
- `Navigation`: the navigate-button guard `handleNavigate`.
- `Dashboard`: the screen as a state machine over search, clear, card-tap and navigate events, with the reachable-state invariant.
- `Wrappers` and `Seqs`: `Option` and the subsequence relation.

Each handler is a pure function. It returns the new selection together with an
outcome: `Alert(kind)`, `Navigate(route)` or `NoEffect`.

The cap check runs before the membership check. So with four languages
selected, tapping one of them does not deselect it. The tap raises the
"Limit Reached" alert and leaves the selection unchanged
(`Selection.CannotDeselectAtCap`). Tapping a selected language removes it
only below the cap.

From at most two entries, a double tap on an unselected language restores
the selection (`Selection.ToggleTwiceRestores`). From three, the first tap
reaches four and the second is refused with the limit alert
(`Selection.ToggleTwiceFromThree`). A double tap on a selected
language always restores the identifiers. The first tap removes the language
and the second appends it at the end (`Selection.ToggleTwiceMovesToEnd`). So
the order changes only when the language was not already last
(`Selection.ToggleTwiceOnLastRestores`, `Selection.ToggleTwiceReorders`).
With four selected, both taps are refused and the selection stays as it is
(`Selection.CannotDeselectAtCap`).

## Model

| member | source | states |
|---|---|---|
| `Text.LowerChar` | index.js:35 | an ASCII capital maps to the letter 32 code points above it; every other character is unchanged; the result is never an ASCII capital |
| `Text.Lower` | index.js:35 | lower-casing keeps the length, changes only ASCII capitals, and leaves no ASCII capital behind |
| `Text.LowerIdempotent` | index.js:35 | lower-casing a lower-cased string changes nothing |
| `Text.IncludesIffOccurs` | index.js:35 | `includes` holds exactly when the needle occurs at some index of the haystack |
| `Text.IncludesEmpty` | index.js:35 | every string includes the empty string |
| `Text.IncludesNotLonger` | index.js:35 | a string never includes a longer one |
| `Text.MissingFirstCharNotIncluded` | index.js:35 | a string lacking the needle's first character does not include the needle |
| `Catalog.CatalogueIds` | index.js:22-32 | the catalogue has nine entries whose identifiers are 1 to 9 in order, so all distinct |
| `Catalog.FilterLanguages` | index.js:34-36 | the filter keeps exactly the entries whose lower-cased name includes the lower-cased query, as an order-preserving subsequence no longer than its input |
| `Catalog.Visible` | index.js:34-36 | exactly the catalogue entries that match the query are shown, in catalogue order; at most nine are shown |
| `Catalog.FilterAppend` | index.js:34-36 | filtering distributes over concatenation, so relative order is kept |
| `Catalog.FilterAllMatch` | index.js:34-36 | when every entry matches, the filter returns its input unchanged |
| `Catalog.FilterNoneMatch` | index.js:34-36 | when no entry matches, the filter returns nothing |
| `Catalog.EmptyQueryShowsAll` | index.js:22-36 | the empty query shows all nine languages in catalogue order |
| `Catalog.FilterIgnoresQueryCase` | index.js:34-36 | the result for a query equals the result for its lower-cased form |
| `Catalog.LongQueryShowsNothing` | index.js:34-36 | a query longer than every name shows nothing |
| `Catalog.SearchJapanese` | index.js:22-36 | the query "JAP" shows exactly Japanese |
| `Selection.FindById` | index.js:40 | `find` succeeds exactly when the identifier is selected, and returns the first entry carrying it |
| `Selection.RemoveId` | index.js:42 | no entry with the identifier survives; removal shrinks the selection when the identifier is present and returns it unchanged otherwise |
| `Selection.RemoveIdMembers` | index.js:42 | removal keeps exactly the entries carrying another identifier |
| `Selection.RemoveIdSubsequence` | index.js:42 | the kept entries stay in their original relative order |
| `Selection.RemoveIdIds` | index.js:42 | removal takes exactly that identifier out of the selection's identifiers |
| `Selection.RemoveIdUnique` | index.js:42 | removal keeps identifiers unique |
| `Selection.RemoveIdAppend` | index.js:42 | removal distributes over concatenation |
| `Selection.Select` | index.js:38-49 | below the cap the identifier set is toggled (removed if present, added if absent) with no alert; at or over the cap the selection is unchanged and the limit alert is raised; at most four stays at most four; unique identifiers stay unique; old and new selections are subsequences of one another |
| `Selection.IsSelected` | index.js:62 | a card is marked selected exactly when some selected entry has its identifier |
| `Selection.SelectAppendsWhenAbsent` | index.js:39-44 | below the cap an unselected language is appended after all previous entries, which keep their order |
| `Selection.SelectRemovesWhenPresent` | index.js:39-42 | below the cap a selected language's entries, and only those, are dropped and the rest keep their order |
| `Selection.CannotDeselectAtCap` | index.js:39-48 | with four selected, tapping a selected language leaves it selected and raises the limit alert |
| `Selection.ToggleTwiceRestores` | index.js:39-45 | from at most two entries, tapping an unselected language twice gives back the original selection |
| `Selection.ToggleTwiceFromThree` | index.js:39-48 | from three entries, the first tap of an unselected language reaches four and the second is refused with the limit alert |
| `Selection.ToggleTwiceMovesToEnd` | index.js:40-44 | tapping a selected language twice restores the identifiers but moves that language to the end |
| `Selection.ToggleTwiceOnLastRestores` | index.js:39-45 | a double tap on the last entry, whose identifier no other entry has, gives back the original selection |
| `Selection.ToggleTwiceReorders` | index.js:40-44 | concretely, Japanese then German becomes German then Japanese after a double tap on Japanese |
| `Navigation.HandleNavigate` | index.js:51-59 | the selection-required alert exactly for an empty selection, the limit alert exactly above four, navigation to `/dictionary` exactly for one to four, and never no effect |
| `Dashboard.Handle` | index.js:61-148 | one screen event keeps the invariant (at most four, unique identifiers, catalogue entries only); search and clear change only the query; only taps change the selection; a navigate press in a reachable state never raises the limit alert |
| `Dashboard.Run` | index.js:61-148 | a run yields one outcome per event |
| `Dashboard.RunPreservesInv` | index.js:38-59 | the invariant holds after any sequence of events from a state satisfying it |
| `Dashboard.NavigateOutcomes` | index.js:51-59 | in any run from a reachable state, each navigate press either asks for a selection or opens the dictionary |
| `Dashboard.NavigateFromInitial` | index.js:17-59 | from the initial screen, no navigate press ever takes the more-than-four branch |
| `Dashboard.SelectionBoundedFromInitial` | index.js:17-49 | from the initial screen the selection never holds more than four entries and never repeats an identifier |

## Left out

- Rendering, styles and icons (index.js:61-257) are not modelled. Two parts of that range are modelled: the check-mark decision at index.js:62 (`Selection.IsSelected`) and the event wiring at index.js:71, 109, 112, 139 and 145 (`Dashboard.Handle`). The unused `isDarkMode` and `isDropdownVisible` state (index.js:19-20) is also left out. None of these affects the selection.
- `Alert.alert` and `router.push` are framework calls. They appear only as `Outcome` values.
- Text.Lower: lower-cases ASCII letters only and leaves every other character as is. JavaScript's `toLowerCase` follows full Unicode case mapping. All nine names are ASCII. A non-ASCII query character lower-cases either to text that still holds a non-ASCII character, which no name contains, or (the Kelvin sign) to `k`, which no name contains either. So the languages shown should be the same for every query.
- Text.Includes: works on Unicode scalar values, not UTF-16 code units. This only matters for non-ASCII queries, which match no name under either reading.
- Dashboard.Handle: a tap at a position with no shown card has no effect. The screen cannot produce such a tap.
- The "Selected: n/4" counter text (index.js:127) is rendering and is not modelled.
- The flag emoji and the progress field are carried in `Language`, but the model never reads them. The app renders the flag on each card (index.js:74) and never uses progress.
- `dictonary.js` renders fixed text and a remote image, with no logic. It is not part of this model.
- `appnavigation.jsx` is a fixed route table for a navigation library. It is not part of this model.
