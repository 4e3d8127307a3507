# Pick selection for the March Madness pool

This project models the pick page of a knockout-style March Madness pool in Dafny.
Each tournament day, the user selects a fixed number of teams. A team once
picked can never be picked again. The page keeps its state at module level
(`app.js:21-26`):

- the team catalogue;
- the teams still on offer;
- the teams selected for the pick being prepared;
- the picks already submitted;
- the required pick count (2) and the current day ("Thursday").

Six handlers change that state:

- loading the catalogue (`loadTeamsData`);
- loading the submitted picks from browser storage (`fetchPreviousPicks`, left out, see below);
- recomputing the offered teams (`fetchAvailableTeams`);
- clicking a team, which toggles it in the selection (`toggleTeamSelection`);
- the Remove button (`removeTeam`);
- submitting the pick (`handleSubmitPicks`).

All but `fetchPreviousPicks` are modelled.

The server stores whatever it is sent, so these rules exist only on this page.

The model is split into four modules:

- `Records` (`records.dfy`): the team and pick records, and the sixteen-team catalogue that the page hard-codes.
- `Eligibility` (`eligibility.dfy`): the eligibility filter as pure functions over sequences.
   - The used identifiers are a flat list over all picks, like the source's `flatMap`.
   - The offered teams are the catalogue filtered by that list, like its `filter`.
   - Its lemmas show the filter is sound, complete and order-preserving.
   - They also show how the filter changes when one pick is added.
- `Selection` (`selection.dfy`): the selection list as values.
   - `FindIndex` is the source's `findIndex`, with -1 for "absent".
   - `Toggled` is the click rule.
   - `WithoutId` is the Remove button's `filter`.
   - Under the invariant, the lemmas prove three things. The selection never exceeds the required count. Its identifiers stay distinct. Removing the first match equals removing every match.
- `App` (`app.dfy`): class `AppState`. Its fields are the page's module state. Its methods are the handlers, each specified against the functions above.

Submitting has three outcomes, following the source's branches:

- **WrongCount**: the count is not exactly `requiredPicks`. Nothing changes. This is the same test that disables the submit button.
- **Submitted**: the pick is appended, the selection is cleared, and the offered teams are recomputed.
- **StoreFailed**: writing the picks to browser storage throws. The source appends the pick before that write and handles the exception afterwards. So the pick stays appended in memory, but the selection is not cleared and the offered teams are not recomputed.

The rule "a team picked once is gone for good" is the predicate `AppState.OfferedUnused`: no offered team carries the identifier of a team in a submitted pick. Loading the catalogue for a signed-in user, recomputing the offered teams and a successful submit establish it. Every other handler keeps it, except a submit that ends in StoreFailed. In that case the just-submitted teams stay selected and offered, and the submit button stays enabled. A second submit then records the same teams again. The model states this behaviour as written. `ResubmitAfterStoreFailure` proves the whole sequence from any state that offers two distinct teams.

The page has no server-side validation, per-day team availability, one-pick-per-day rule, pick editing or deletion, or admin settings; the model follows the code. `requiredPicks` and `currentDay` are fixed at their initial values, because no handler reassigns them.

## Model

| member | source | states |
|---|---|---|
| Records.Catalogue | app.js:114-131 | the catalogue has sixteen teams with identifiers 1..16 in order, all distinct |
| Eligibility.Ids | app.js:145 | the identifier list has one entry per team, its i-th entry is the i-th team's identifier, and an identifier occurs in it exactly when some team carries it |
| Eligibility.UsedTeamIds | app.js:145 | an identifier is in the flattened used list exactly when some pick, on any day, lists a team with it |
| Eligibility.Unused | app.js:146 | the filtered list holds exactly the teams whose identifier is not used, in their original order |
| Eligibility.UnusedCounts | app.js:146 | the filter keeps each team with an unused identifier exactly as often as it occurs and drops every team with a used one |
| Eligibility.Available | app.js:145-146 | offered teams are catalogue teams in catalogue order, none of them used by any earlier pick, and every unused catalogue team is offered |
| Eligibility.UsedTeamIdsAppend | app.js:145 | one more pick appends exactly that pick's identifiers to the used list |
| Eligibility.UnusedTwice | app.js:146 | filtering by two used lists at once equals filtering by one and then by the other |
| Eligibility.AvailableWithoutPicks | app.js:145-146 | with no earlier picks the whole catalogue is offered, unchanged |
| Eligibility.AvailableAfterPick | app.js:304-316 | after one more pick, the offered teams are the previous ones minus that pick's teams: nothing comes back, and no submitted team stays offered |
| Eligibility.CatalogueAfterFirstPick | app.js:114-146 | on the real catalogue, a first pick of Duke and Alabama leaves the other fourteen teams offered in catalogue order |
| Selection.FindIndex | app.js:270 | the result is the first index whose team has the identifier, or -1 exactly when no selected team has it |
| Selection.RemoveAt | app.js:274 | splicing out index i leaves one entry fewer: the entries before i unchanged, the entries after it moved down by one, and exactly one copy of the spliced team gone |
| Selection.Toggled | app.js:269-285 | a click shortens the selection by one exactly when the team's identifier is selected, lengthens it by one exactly when it is not selected and fewer than the required count are selected, adds nothing but the clicked team, and never pushes it past the required count |
| Selection.WithoutId | app.js:289 | no remaining entry carries the identifier, every other entry stays, in order, and distinct identifiers stay distinct |
| Selection.WithoutIdCounts | app.js:289 | Remove keeps each entry without the identifier exactly as often as it occurs and drops every entry with it |
| Selection.WithoutAbsentId | app.js:289 | removing an identifier that is not selected leaves the selection unchanged |
| Selection.WithoutIdIdempotent | app.js:289 | removing the same team twice equals removing it once |
| Selection.WithoutIdWellFormed | app.js:288-291 | Remove keeps the selection within the required count and free of repeated identifiers |
| Selection.RemoveFirstIsWithoutId | app.js:270-274 | with distinct identifiers, splicing out the first match is the same as dropping every entry with that identifier |
| Selection.ToggledSpec | app.js:269-285 | a click removes a selected team (one fewer, the rest in order), appends an unselected one exactly when fewer than the required count are selected, leaves a full selection alone, and keeps the invariant |
| Selection.ToggleRoundTrip | app.js:269-285 | clicking an unselected team twice, with room for it, restores the selection |
| Selection.ToggleTwiceMovesToEnd | app.js:269-285 | clicking a selected team twice moves it to the end of the selection |
| App.AppState.constructor | app.js:21-26 | the page starts with empty lists, two required picks and day "Thursday", satisfying the invariant, with no offered team used |
| App.AppState.SubmitDisabled | app.js:229 | under the invariant, the submit button is disabled exactly while fewer than the required number of teams are selected |
| App.AppState.LoadTeamsData | app.js:110-139 | the catalogue is installed; offered teams are recomputed only for a signed-in user, which establishes that no offered team is used; otherwise that property is kept |
| App.AppState.FetchAvailableTeams | app.js:141-151 | offered teams become the eligibility filter's result: in catalogue order, none used by any pick (the gone-for-good property), every unused team present |
| App.AppState.ToggleTeamSelection | app.js:269-285 | the selection becomes the toggle of the old one; the reported outcome is Removed exactly for a selected team and Added exactly for an unselected team with room; the invariant and the gone-for-good property are kept and nothing else changes |
| App.AppState.RemoveTeam | app.js:288-291 | every entry with the identifier is dropped, the others keep their order, the invariant and the gone-for-good property are kept and nothing else changes |
| App.AppState.HandleSubmitPicks | app.js:293-320 | a submit changes nothing exactly when the submit button is disabled, i.e. the count is not the required one, and it then keeps the gone-for-good property; otherwise exactly one pick (current day, given date, the prior selection) is appended; on success the selection is emptied and no submitted team is offered any more; on a storage failure selection and offered teams are left as they were |
| App.ResubmitAfterStoreFailure | app.js:293-320 | from any state offering two distinct teams with two picks required and nothing selected: after selecting both, a submit whose storage write fails records the pick while both teams stay offered; a second, successful submit records the same two teams again |

## Left out

- The server (`api/index.js`) is not part of this model: HTTP routing, CORS headers, the database connection, token signing and password hashing. It accepts any pick it is sent, so it adds no pick rule.
- Rendering, alerts and event wiring (`app.js:1-13`, `31-53`, `167-266`) are left out. The alert at `app.js:280` is the `SelectionFull` outcome, and the alert at `app.js:297` is the `WrongCount` outcome.
- Login, registration, logout and the profile fetch (`app.js:56-108`) are network and token handling. Only whether a token is present enters the model, as the `signedIn` parameter of `LoadTeamsData`.
- The load of picks from browser storage (`fetchPreviousPicks`, `app.js:153-164`) is left out. `previousPicks` is given state.
- The JSON write to browser storage (`app.js:311`) becomes the `stored` parameter of `HandleSubmitPicks`. That parameter also covers a missing signed-in user, whose `email` lookup throws at the same point.
- The submission time (`app.js:306`) is read from the clock in the source. Here it is an opaque `Timestamp` parameter.
- App.AppState.HandleSubmitPicks: shares no storage between objects. In the source, the appended pick's team list is the same array as `selectedTeams`. After a storage failure, later clicks (`splice`/`push`) also edit that recorded pick. The model copies values, so the recorded pick keeps the teams it was submitted with.
- The handlers are `async`, but the modelled parts do not await anything. Each handler is modelled as one atomic step.
- Team identifiers are compared as numbers in the source (`===`, `includes`). Here they are integers; non-numeric identifiers are not considered.
