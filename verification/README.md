# Seismic dashboard: a Dafny model of its state logic

The seismic dashboard is a browser page. It subscribes to a live feed of
earthquake reports and keeps the 200 most recent events, newest first. It
keeps running statistics: the event count, the largest magnitude seen, and the
time of the last event. It also tracks the connection status. The events are
shown in a sortable, paginated table, and the page sits behind a stub login.

This project models that logic as pure functions over immutable records and
proves properties about it:

- `prelude.dfy` (`Prelude`): the JavaScript semantics that the rest relies on.
  This covers `Array.prototype.slice` (negative indices and clamping
  included), the `<` operator on strings (lexicographic, with a proper prefix
  first), and proofs that this order is irreflexive, transitive and total.
- `types.dfy` (`Types`): the feed message as parsed and the flat event record.
  Numbers are `real`.
- `dashboard.dfy` (`Dashboard`): the live-event reducer.
  - Normalisation only accepts a `'create'` frame.
  - The buffer is prepended to and cut to 200 events.
  - The statistics are updated.
  - The three-state connection status changes on open, close and error.
  - `handleLogout` is modelled here.
  - `Run` folds a whole input history from the initial state.
    `RunReflectsHistory` proves that the final state depends only on the
    accepted events: the buffer is their newest-first window of 200, the total
    is their count, the maximum is the largest of 0 and their magnitudes, and
    the last-event time is the latest one's.
- `mui_events_table.dfy` (`MuiEventsTable`): the sortable table.
  - The header-click rule and the comparator. The comparator is proved
    consistent: antisymmetric and transitive.
  - The sorted copy is proved to be a permutation of the events, ordered by
    the comparator.
  - The visible page of rows, the reset to page 0 when the page size changes,
    and the magnitude colour bands.
- `events_table.dfy` (`EventsTable`): the older table.
  - 1-based pages of ten events, with `totalPages = ceil(n / 10)`.
  - The pages concatenate back to the events.
  - The guarded next/previous buttons and the unchecked page-number buttons.
  - The "Showing" line and the magnitude colour.
- `session.dfy`, `auth_wrapper.dfy`, `login_page.dfy` (`Session`,
  `AuthWrapper`, `LoginPage`): the `isAuthenticated` storage flag, the route
  guard that admits only the exact string `'true'`, and the login handler that
  checks an exact-match allowlist.
- `session_cycle.dfy` (`SessionCycle`): a login followed by a logout, as the
  route guard sees the flag in between and afterwards.

The login form starts with empty fields (`LoginPage.InitialForm`). The
dashboard starts disconnected, with no events and zeroed statistics
(`Dashboard.Initial`).

`onopen` sets the status to connected from every state, including connected
(src/pages/Dashboard.tsx:71), and `Dashboard.OnSignal` does the same.

## Model

| member | source | states |
|---|---|---|
| `Dashboard.Normalize` | src/pages/Dashboard.tsx:76-90 | A frame becomes an event iff it parsed, its action is `'create'`, and it has `data` and `properties`. The event's `id`, `time`, `lat`, `lon`, `depth`, `mag`, `magtype` and `auth` are copied one-to-one, and `region` comes from `flynn_region`. Any other action is ignored. Every other frame throws inside the `try` and is dropped. |
| `Dashboard.Push` | src/pages/Dashboard.tsx:92-95 | The new event is at index 0. The length becomes `min(old + 1, 200)`. Every surviving old event moves down exactly one place. |
| `Dashboard.PushFullDropsOldest` | src/pages/Dashboard.tsx:93-94 | On a full buffer, only the oldest (last) event is dropped, and the rest keep their order behind the new one. |
| `Dashboard.UpdateStats` | src/pages/Dashboard.tsx:97-101 | The total goes up by exactly one. The new maximum is the larger of the old maximum and the event's magnitude. The last-event time is the event's time, locale-formatted. |
| `Dashboard.OnFrame` | src/pages/Dashboard.tsx:75-106 | A created event updates the buffer and the statistics together. An ignored, unparseable or malformed frame leaves the whole state unchanged. The status is never touched. |
| `Dashboard.OnSignal` | src/pages/Dashboard.tsx:71-73 | From any state, open gives connected, close gives disconnected and error gives errored. The events and statistics are never touched. |
| `Dashboard.InitialInvariant` | src/pages/Dashboard.tsx:54-60 | The initial state is disconnected, with no events and a zero total, and it satisfies the invariant. |
| `Dashboard.StepPreservesInvariant` | src/pages/Dashboard.tsx:71-106 | Every input keeps the invariant: at most 200 events, total ≥ buffer length, maximum ≥ 0 and ≥ every buffered magnitude. The total and the maximum never decrease. |
| `Dashboard.RunKeepsInvariant` | src/pages/Dashboard.tsx:54-106 | Every state reachable from the initial one satisfies the invariant. |
| `Dashboard.PushExtendsWindow` | src/pages/Dashboard.tsx:92-95 | Prepending and cutting the newest-first window of a history gives the window of the history extended by the new event. |
| `Dashboard.RunReflectsHistory` | src/pages/Dashboard.tsx:54-106 | After any input sequence, the buffer is the newest-first window of the accepted events. The total is their number, and it is not cut at 200. The buffer length is `min(total, 200)`. The maximum is the largest of 0 and their magnitudes. The last-event time is that of the latest one, or empty if there is none. |
| `Dashboard.HandleLogout` | src/pages/Dashboard.tsx:63-66 | Logout stores `'false'` and navigates to the login route. |
| `SessionCycle.LoginLogoutCycle` | src/pages/Dashboard.tsx:63-66 | After a successful login the guard admits. After a following logout the guard redirects to the login route. |
| `AuthWrapper.Guard` | src/AuthWrapper.tsx:4-7 | The guard admits iff the stored flag is exactly `'true'`. Every other value, including an absent flag and `'false'`, redirects to the login route. |
| `LoginPage.FindUser` | src/pages/LoginPage.tsx:31-34 | The result is none iff no entry matches on both fields. Otherwise it is the first entry whose user name and password both match. |
| `LoginPage.HandleLogin` | src/pages/LoginPage.tsx:27-42 | A submission navigates iff the (user name, password) pair is in the allowlist. On success the flag becomes `'true'`, the route is the dashboard and the error is empty. On failure the flag is unchanged, there is no navigation and the error is the fixed message. The typed fields are kept. |
| `LoginPage.CrossedCredentialsRejected` | src/pages/LoginPage.tsx:22-34 | `admin`/`user123` is refused because both fields must match the same entry, and `admin`/`admin123` is accepted. |
| `LoginPage.PreviousErrorForgotten` | src/pages/LoginPage.tsx:29 | The error is cleared first, so the outcome of a submission does not depend on an earlier error. |
| `LoginPage.LoginOpensGuard` | src/pages/LoginPage.tsx:36-38 | After a successful submission the route guard admits. |
| `MuiEventsTable.RequestSort` | src/components/MuiEventsTable.tsx:46-50 | The clicked column becomes the sort column. The direction is descending iff that column was already sorted ascending, and ascending otherwise. The page and page size are kept. |
| `MuiEventsTable.RepeatedClicksAlternate` | src/components/MuiEventsTable.tsx:46-50 | Clicking the same header again always flips the direction, with period two. Clicking a new column always starts ascending. |
| `MuiEventsTable.LessIsStrictOrder` | src/components/MuiEventsTable.tsx:54-60 | The `<` used by the comparator is irreflexive, asymmetric and transitive on every column. |
| `MuiEventsTable.IncomparableAreAlike` | src/components/MuiEventsTable.tsx:54-60 | Two events unordered by `<` in a column compare alike with every third event. |
| `MuiEventsTable.Compare` | src/components/MuiEventsTable.tsx:53-61 | The comparator returns -1, 0 or 1. It is negative iff the first event comes earlier in the chosen direction: strictly `<` in the column when ascending, strictly `>` when descending. It is 0 iff neither event is `<` the other in the column. |
| `MuiEventsTable.CompareIsConsistent` | src/components/MuiEventsTable.tsx:53-61 | The comparator is antisymmetric (swapping the arguments negates it), and "goes no later" is transitive. |
| `MuiEventsTable.SortEvents` | src/components/MuiEventsTable.tsx:52-62 | The sorted copy is a permutation of the events, and every pair in it is in the comparator's order. |
| `MuiEventsTable.SortedByColumn` | src/components/MuiEventsTable.tsx:52-62 | Ascending order makes the column's values non-decreasing down the table. Descending order makes them non-increasing. |
| `MuiEventsTable.ChangePage` | src/components/MuiEventsTable.tsx:64-66 | Only the page changes. |
| `MuiEventsTable.ChangeRowsPerPage` | src/components/MuiEventsTable.tsx:68-71 | A new page size always resets the page to 0 and keeps the sort. |
| `MuiEventsTable.VisibleRows` | src/components/MuiEventsTable.tsx:79-82 | The visible rows are the sorted events from `page * rowsPerPage` on. There are `min(rowsPerPage, max(0, n - page * rowsPerPage))` of them, never more than `rowsPerPage`, and each is one of the sorted events. |
| `MuiEventsTable.DisplayedRows` | src/components/MuiEventsTable.tsx:79-82 | The table body shows `min(rowsPerPage, max(0, n - page * rowsPerPage))` rows of the sorted copy, and every one of them is one of the events. |
| `MuiEventsTable.ResizeShowsFirstPage` | src/components/MuiEventsTable.tsx:68-71 | After the page size changes, the table shows the first `min(size, n)` sorted events, whatever page it was on. |
| `MuiEventsTable.InitialShowsLatestTen` | src/components/MuiEventsTable.tsx:40-43 | Initially the table shows `min(10, n)` rows with their times non-increasing, in descending string order of `time`. |
| `MuiEventsTable.MagnitudeColor` | src/components/MuiEventsTable.tsx:73-77 | The colour is error iff `mag > 5`, warning iff `3 < mag <= 5`, and success iff `mag <= 3`. The boundaries 5 and 3 fall into the lower band. |
| `MuiEventsTable.MagnitudeColorMonotone` | src/components/MuiEventsTable.tsx:73-77 | A larger magnitude never gets a milder colour. |
| `EventsTable.CurrentEvents` | src/components/EventsTable.tsx:8-10 | For page `p ≥ 1` the rows are exactly `events[(p-1)*10 .. p*10]`, cut at the length. There are never more than 10 rows. |
| `EventsTable.TotalPages` | src/components/EventsTable.tsx:11 | The result is `ceil(n / 10)`: the least `t` with `n <= 10 t`. It is zero iff there are no events. |
| `EventsTable.PagesArePrefix` | src/components/EventsTable.tsx:8-11 | Pages `1..k` laid end to end are the first `min(10 k, n)` events. |
| `EventsTable.PagesCoverEvents` | src/components/EventsTable.tsx:8-11 | Pages `1..totalPages` laid end to end are exactly the events. |
| `EventsTable.EventOnOnePage` | src/components/EventsTable.tsx:8-11 | The event at index `i` is row `i % 10` of page `i / 10 + 1`, and no other page's window contains `i`. |
| `EventsTable.NextPage` | src/components/EventsTable.tsx:15-19 | The page advances by one iff it is below the page count. Otherwise it stays. |
| `EventsTable.PrevPage` | src/components/EventsTable.tsx:21-25 | The page goes back by one iff it is above 1. Otherwise it stays. |
| `EventsTable.Paginate` | src/components/EventsTable.tsx:13 | The page becomes the requested number, with no bounds check. |
| `EventsTable.NavigationStaysInRange` | src/components/EventsTable.tsx:15-25 | From a page in `1..max(1, totalPages)`, next and previous stay in that range. With no events, next does nothing. |
| `EventsTable.PastLastPageIsEmpty` | src/components/EventsTable.tsx:10-13 | A page past the last one shows no rows. |
| `EventsTable.ClicksStayInRange` | src/components/EventsTable.tsx:5-25 | Start from page 1 and press any sequence of previous, next and rendered page-number buttons. The page stays in range, and it has rows whenever there are events. |
| `EventsTable.ShowingRange` | src/components/EventsTable.tsx:31 | The upper bound shown, `min(p*10, n)`, never exceeds `n`. |
| `EventsTable.ShowingMatchesRows` | src/components/EventsTable.tsx:31 | On a page with events, the "Showing" line counts exactly the rows displayed. |
| `EventsTable.MagnitudeColor` | src/components/EventsTable.tsx:48-49 | The colour is red iff `mag > 5`, amber iff `3 < mag <= 5`, and green iff `mag <= 3`. |
| `EventsTable.SameBandsAsSortableTable` | src/components/EventsTable.tsx:48-49 | Two magnitudes share a colour in this table iff they share one in the sortable table. |

## Left out

- The push transport: opening the SockJS connection (src/pages/Dashboard.tsx:69) and closing it on unmount (src/pages/Dashboard.tsx:108-110) are network I/O. The callbacks are modelled as inputs, and teardown is not modelled.
- `JSON.parse` is represented by its outcome, `ParseOk(message)` or `ParseFail`. Logging the caught error to the console is not modelled.
- Dashboard.UpdateStats: `toLocaleTimeString` depends on locale and time zone. It is the parameter `localeTime`, so the model says only that the stored text is that function of the event's time.
- Floating point: magnitudes, depths and coordinates are reals. NaN, infinities, `toFixed`, and NaN propagation through `Math.max` are not modelled.
- Dashboard.Normalize: a `'create'` frame whose `data` or `properties` object is missing is dropped, as the source's `try` does. Individual fields missing inside `properties` (which the source passes through as `undefined`) are not modelled, because the parsed fields are typed.
- Prelude.StrLess: JavaScript compares strings by UTF-16 code unit. The model compares Dafny characters, which are Unicode scalar values. The two orders differ only for characters outside the Basic Multilingual Plane.
- MuiEventsTable.SortEvents: the sort is specified by its result (an ordered permutation). Stability and the engine's algorithm are not modelled. The copy-before-sort is implicit, because sequences are values.
- MuiEventsTable.ChangeRowsPerPage: `parseInt` of the selected option is not modelled. The option arrives as a natural number.
- React state batching: each frame is one atomic step that updates the buffer and the statistics together.
- `localStorage` is the single `isAuthenticated` entry, either absent or a string. Navigation is the target route only; react-router's history handling is not modelled.
- The login form's `onChange` setters are plain field assignments. They are covered by the `Form` argument of `HandleLogin`.
- Rendering is not modelled: the stat cards, the status chip colours, the loading skeleton rows of the sortable table, the map, the charts (whose colour band repeats the tables'), the theme in `index.tsx`, and the route table in `App.tsx`.
