# Task manager core, modelled in Dafny

This project models the logic of a small to-do application: a Django server
that stores each user's tasks and answers JSON requests, and a React front end
that lists the tasks and lets the user complete or delete them from cards.

The model is split into one Dafny module per part of the application:

- `Model` (`model.dfy`) holds the persisted records: a user, and a task row with
  its nullable columns, its defaults, its string form and its default newest-first
  ordering.
- `Views` (`views.dfy`) holds the JSON endpoints as pure operations on a store of
  rows: list, create, toggle, update and delete. Each operation takes the
  requester, the HTTP verb, the task id, the parsed body and the time. It returns
  the new store and the response. Ownership is checked the way the views check
  it: a foreign task is the same 404 as a missing one.
- `Cookies` (`cookies.dfy`) holds `getCookie` and `getCSRFToken`. The cookie
  string is cut at `;`, each piece is trimmed, and the first piece that begins
  with `name=` decides the value.
- `TaskCard` (`task_card.dfy`) holds the card. It covers the three-source token
  lookup, the toggle and delete handlers as pure transitions over the outcome of
  their request, and the 12-hour time formatter.
- `TaskList` (`task_list.dfy`) holds the list. It covers the counts, the
  hide-completed filter, the updates reported by cards, and which screen is shown
  (spinner, error, one of the two empty screens, or the grid with its banner).
- `Flows` (`flows.dfy`) connects the pieces. A card's request is answered by the
  endpoint, the card reacts, and the list applies the card's report. The list the
  browser then holds equals the list the server would send.
- `Wire` holds the JSON answers and what the browser observes of them. `Text`
  holds the JavaScript string functions the code relies on: `split`, `trim`,
  `startsWith`, `parseInt` and `String(n)`. `Wrappers` holds `Option`.

Three behaviours of the code are easy to misread; the model follows the code:

- A reader might expect the toggle to flip the card's status at once and revert
  it on failure. The code does not flip the status before the answer arrives
  (`TaskCard.js:178`). It shows the new status only when the server confirms,
  and the old one on every other path. Only the completion pulse starts at once.
- A reader might expect a missing anti-forgery token to get its own message,
  since the handlers raise an "Authentication error" for it. That error is
  caught by the generic handler (`TaskCard.js:116-117`, `142-144`). So a missing
  token shows the same "Network error. Please try again." toast as a failed
  request. The toggle likewise shows its generic "Network error" toast
  (`TaskCard.js:164`, `193-195`).
- `api_tasks` is defined twice in `task/views.py`. The second definition
  replaces the first, so only the second is modelled.

Some environment pieces become parameters:

- `decodeURIComponent` is the function parameter `decode`.
- `document.cookie` is a string argument.
- The global accessor and the meta tag are optional arguments.
- Each `fetch` is its outcome: it rejects, or it answers with a status and a
  body. A body that is not JSON makes `response.json()` throw, so it takes the
  exception path.
- The clock is an integer argument `now`.

## Model

| member | source | states |
|---|---|---|
| Model.NewTask | task/models.py:7-14 | a new row is owned by the creator, not completed, has no scheduled time, and both timestamps are the insertion time |
| Model.Touch | task/models.py:14 | saving moves only the update time; every other column is kept |
| Model.Describe | task/models.py:16-17 | the string form is the title, then " - ", then the owner's username, each at its exact position |
| Views.Get | task/views.py:199-200 | reading a body key gives the default when the key is missing, null when it is null, and the string otherwise |
| Views.Serialize | task/views.py:229-237 | the JSON form of a task carries its id, title, description, creation time and status |
| Views.ToggleTask | task/views.py:218-242 | PUT, PATCH or POST on an owned task flips only that row's status and answers 200 with the saved task; a missing or foreign task gives 404; any other verb gives 400; on both errors the store is unchanged |
| Views.DeleteTask | task/views.py:177-188 | DELETE on an owned task removes exactly that id and keeps every other row; a missing or foreign task gives 404 and any other verb 400, with the store unchanged |
| Views.UpdateTask | task/views.py:191-215 | PUT or PATCH on an owned task replaces the title and description only for keys present in the body; owner, status and creation time stay; a missing or foreign task gives 404 whatever the body; an unparseable body or a null title gives a server error with the store unchanged; other verbs give 400 |
| Views.ApiTasks | task/views.py:245-282 | GET answers the requester's listing and changes nothing; POST adds one row under the next id, owned by the requester and not completed, with missing fields read as ""; every other row is kept; an unparseable body, a null title or another verb is a server error with the store unchanged |
| Views.OwnedRows | task/views.py:251 | the requester's rows in increasing id order, and every owned row is among them |
| Views.InsertNewest | task/views.py:251 | inserting into a newest-first sequence keeps it newest first and adds exactly that row |
| Views.SortNewest | task/views.py:251 | the result is newest first and a permutation of the input |
| Views.OwnListing | task/views.py:251 | the listing rows are newest first and are exactly the requester's rows, each as many times as there |
| Views.SerializeAll | task/views.py:254-262 | one JSON task per row, in the same order |
| Views.EndpointsPreserveValid | task/views.py:177-282 | no endpoint breaks the store's id discipline: ids stay positive, below the next id, and each row sits under its own id |
| Views.ToggleTwiceRestores | task/views.py:226-227 | toggling an owned task twice gives back the original store, except for that row's update time |
| Views.ListingIsOwnRowsNewestFirst | task/views.py:249-264 | a listing is newest first and holds exactly the requester's rows, each once |
| Views.CreateThenList | task/views.py:247-282 | after a successful create, the listing gains exactly one entry, the new row, and keeps every entry it had |
| Cookies.Pieces | task/static/task/js/utils/csrf.js:5-7 | one trimmed piece for each `;`-separated part of the cookie string |
| Cookies.FirstMatch | task/static/task/js/utils/csrf.js:6-12 | the index of the first piece that starts with `name=`, with no earlier piece matching; none when no piece matches |
| Cookies.CookieValue | task/static/task/js/utils/csrf.js:5-13 | no value iff no piece is the cookie; otherwise some piece is exactly `name=` followed by the value, and no earlier piece matches |
| Cookies.GetCookie | task/static/task/js/utils/csrf.js:2-16 | an empty cookie string gives null; otherwise the result is the decoded value of the first matching cookie, or null when none matches |
| Cookies.NoCookiesNoValue | task/static/task/js/utils/csrf.js:4 | an empty cookie string holds no cookie of any name |
| Cookies.GetCSRFToken | task/static/task/js/utils/csrf.js:19-21 | the CSRF token is the cookie named `csrftoken` |
| Cookies.LongerNameDoesNotMatch | task/static/task/js/utils/csrf.js:9 | a piece whose name continues past the wanted name with a character other than `=` is not that cookie |
| Cookies.FirstPieceDecides | task/static/task/js/utils/csrf.js:6-12 | a matching first piece decides the value and later pieces are ignored; a non-matching first piece leaves the answer to the rest of the string |
| Cookies.ExtendedNameIsSkipped | task/static/task/js/utils/csrf.js:9-10 | in `csrftokenX=a; csrftoken=b` the `csrftokenX` cookie is skipped and the token is the decoded `b` |
| Text.Split | task/static/task/js/utils/csrf.js:5 | splitting always gives at least one piece, and no piece contains the separator |
| Text.JoinSplit | task/static/task/js/utils/csrf.js:5 | joining the pieces back with the separator gives the original string |
| Text.SplitJoin | task/static/task/js/utils/csrf.js:5 | splitting a join of separator-free pieces gives the pieces back |
| Text.Trim | task/static/task/js/utils/csrf.js:7 | the trimmed string neither starts nor ends with whitespace and is no longer than the input |
| Text.TrimIsFactor | task/static/task/js/utils/csrf.js:7 | the input is whitespace, then the trimmed string, then whitespace |
| Text.NatToString | task/static/task/js/components/TaskList.js:110 | a number prints as decimal digits with no leading zero, and those digits denote the number |
| Text.ParseInt | task/static/task/js/components/TaskCard.js:224 | `parseInt` gives NaN iff no digit follows the leading whitespace, the optional sign and the optional `0x`; a leading `-` gives a value at most 0, otherwise at least 0 |
| Text.MagnitudeOfDigits | task/static/task/js/components/TaskCard.js:224 | `parseInt` reads a whole run of decimal digits as the number it denotes |
| Text.ParseIntOfIntToString | task/static/task/js/components/TaskCard.js:224 | `parseInt` of a printed integer gives the integer back |
| TaskCard.LookupToken | task/static/task/js/components/TaskCard.js:87-108 | the token comes from the first source that yields one: a non-empty accessor result, else the first `csrftoken=` cookie's raw text, else the meta content, else "" |
| TaskCard.TokenPresentIff | task/static/task/js/components/TaskCard.js:87-108 | a usable token is found iff the accessor gives one, or the cookie has a non-empty value, or (no cookie at all) the meta tag has non-empty content |
| TaskCard.ToastDuration | task/static/task/js/components/TaskCard.js:65 | a success toast stays 2000 ms and an error toast 4000 ms |
| TaskCard.DefaultAccessorAgreesWithCookieScan | task/static/task/js/components/TaskCard.js:88-99 | with the accessor installed by the cookie module, the card uses the decoded cookie value when decoding leaves something, the raw value when decoding leaves "", and the meta tag when there is no `csrftoken` cookie; when decoding leaves the value unchanged, both routes agree |
| TaskCard.ToastRemoval | task/static/task/js/components/TaskCard.js:65-76 | a toast's element is removed half a second after its display time ends |
| TaskCard.InitialCard | task/static/task/js/components/TaskCard.js:81-83 | a card starts with its task's status and neither request in flight |
| TaskCard.ToggleResult | task/static/task/js/components/TaskCard.js:160-199 | the requested status is kept iff a token was found and the server confirmed; the request goes out iff a token was found; the parent is told iff the toggle succeeded; exactly one toast is shown, as the last effect |
| TaskCard.ToggleErrorMessage | task/static/task/js/components/TaskCard.js:185-195 | a failed toggle says "Network error" iff no token was found, the request rejected or a 2xx answer was not JSON; otherwise "Failed to update task" |
| TaskCard.ToggleErrorMessageSources | task/static/task/js/components/TaskCard.js:160-196 | the toggle's error message path by path: missing token, rejection or non-JSON 2xx give "Network error"; a non-2xx answer or a JSON answer without `success` true gives "Failed to update task" |
| TaskCard.ToggleResultToasts | task/static/task/js/components/TaskCard.js:176-196 | exactly one toast: "Task completed" or "Task marked as pending" on success, otherwise the error toast with that path's message |
| TaskCard.HandleToggle | task/static/task/js/components/TaskCard.js:149-200 | a click during a toggle does nothing; otherwise the status flips iff the server confirms, the busy flag ends cleared, the pulse plays iff the task becomes completed, and one toast is shown: the phrase for the new status on success, the path's error message otherwise |
| TaskCard.ConfirmedToggle | task/static/task/js/components/TaskCard.js:176-184 | a confirmed toggle from an idle card flips the status, leaves the card idle, and its toast names the status reached |
| TaskCard.ToggleTwiceOppositePhrases | task/static/task/js/components/TaskCard.js:178-184 | two confirmed toggles restore the card's status, and their toasts are the two opposite phrases "Task completed" and "Task marked as pending" |
| TaskCard.DeleteResult | task/static/task/js/components/TaskCard.js:113-146 | the card stays marked as removed iff a token was found, the server confirmed and a callback exists; the parent is told exactly then; the request goes out iff a token was found |
| TaskCard.DeleteResultToasts | task/static/task/js/components/TaskCard.js:131-145 | a delete shows exactly one toast: "Task deleted successfully" on success, the path's error message otherwise |
| TaskCard.HandleDelete | task/static/task/js/components/TaskCard.js:110-147 | a delete leaves status and toggle flag alone, keeps the removed mark only on success, and shows the success toast or the path's error toast |
| TaskCard.ControlsSettle | task/static/task/js/components/TaskCard.js:253 | controls disabled during a request are usable again after a toggle settles, and after a delete exactly when it failed |
| TaskCard.DeleteErrorMessage | task/static/task/js/components/TaskCard.js:131-145 | a failed delete says the network message iff no token was found, the request rejected or a 2xx answer was not JSON; "Failed to delete task" for a non-2xx answer; for a 2xx JSON answer the body's error, else "Delete failed"; never the success text |
| TaskCard.MissingTokenLooksLikeNetworkFailure | task/static/task/js/components/TaskCard.js:114-145 | a delete with no token ends exactly like a rejected request, with "Network error. Please try again." and no request sent |
| TaskCard.MissingTokenOnToggleLooksLikeNetworkFailure | task/static/task/js/components/TaskCard.js:161-196 | a toggle with no token ends exactly like a rejected request: the status is unchanged and the toast is "Network error" |
| TaskCard.DeleteErrorMessageSources | task/static/task/js/components/TaskCard.js:131-145 | the delete error message is the network message for no token, a rejection or a 2xx answer that is not JSON; the status message for a non-2xx answer; for a 2xx JSON answer, the body's error or else "Delete failed"; no authentication message exists |
| TaskCard.JsRemainder12 | task/static/task/js/components/TaskCard.js:226 | the remainder of JavaScript's `% 12` is below 12 in size, differs from the dividend by a multiple of 12, and takes the dividend's sign |
| TaskCard.DisplayHour | task/static/task/js/components/TaskCard.js:226 | NaN shows as 12; a non-negative hour shows as a value from 1 to 12 that agrees with it modulo 12 |
| TaskCard.Meridiem | task/static/task/js/components/TaskCard.js:225 | the suffix is "PM" iff the hour is a number of at least 12, and "AM" otherwise, NaN included |
| TaskCard.TwelveHourClockRoundTrip | task/static/task/js/components/TaskCard.js:225-226 | for an hour from 0 to 23 the displayed hour and the suffix give the hour back |
| TaskCard.FormatTime | task/static/task/js/components/TaskCard.js:219-231 | the result is null iff the time is missing or empty |
| TaskCard.FormatClockTime | task/static/task/js/components/TaskCard.js:222-227 | `HH:MM` or `HH:MM:SS` with HH from 00 to 23 shows as HH mod 12 (12 for 0), the minutes as written, and PM iff HH is at least 12 |
| TaskList.Filter | task/static/task/js/components/TaskList.js:100 | filtering keeps exactly the tasks that pass, each as many times as in the input, in their original order; it keeps the whole list when all pass |
| TaskList.CompletedCount | task/static/task/js/components/TaskList.js:56 | the completed count is the number of tasks whose status is true; it is 0 iff no task is completed, and the length iff all are |
| TaskList.ActiveTasks | task/static/task/js/components/TaskList.js:20 | exactly the tasks not completed, each as many times as in the list, in their original order |
| TaskList.ActivePlusCompleted | task/static/task/js/components/TaskList.js:54-60 | active tasks plus completed tasks make up the whole list |
| TaskList.ComputeStats | task/static/task/js/components/TaskList.js:54-60 | total is the length, completed is the completed count, and active + completed = total |
| TaskList.Visible | task/static/task/js/components/TaskList.js:18-23 | when hiding, exactly the uncompleted tasks, each as many times as in the list, in order; otherwise the whole list |
| TaskList.RemoveTask | task/static/task/js/components/TaskList.js:62-64 | every task with the id goes, every other stays with its multiplicity and in order, and an absent id changes nothing |
| TaskList.SetStatus | task/static/task/js/components/TaskList.js:66-70 | same length and order; tasks with the id get the new status and keep their other fields; other tasks are untouched |
| TaskList.SetStatusCount | task/static/task/js/components/TaskList.js:54-70 | with unique ids, setting one task's status moves the completed count by exactly that task's change |
| TaskList.ChooseEmptyState | task/static/task/js/components/TaskList.js:126-140 | the empty screen says "All tasks are completed!" with its congratulation iff completed tasks are hidden and there is at least one; otherwise "No tasks yet" with the invitation to create one |
| TaskList.MakeHeader | task/static/task/js/components/TaskList.js:109-121 | the hide/show control is offered iff some task is completed, labelled "Show Completed" while hiding and "Hide Completed" otherwise |
| TaskList.HiddenBannerOne | task/static/task/js/components/TaskList.js:187 | with one completed task the banner reads "1 completed task is hidden." |
| TaskList.HiddenBannerMany | task/static/task/js/components/TaskList.js:187 | with N > 1 completed tasks the banner reads "N completed tasks are hidden." |
| TaskList.Apply | task/static/task/js/components/TaskList.js:29-74 | a fetch shows the spinner and clears the error; a good answer replaces the tasks; any failure keeps the tasks and records the load error; card reports delete or restatus in place; the control flips the filter |
| TaskList.Render | task/static/task/js/components/TaskList.js:76-102 | loading shows the spinner; an error shows the error panel; otherwise the list or an empty screen |
| TaskList.CountsIgnoreFilter | task/static/task/js/components/TaskList.js:18-27 | the counts shown are those of the full list whatever the filter, and the cards are the visible subset |
| TaskList.EmptyStatesDistinct | task/static/task/js/components/TaskList.js:99-140 | the empty screen appears iff nothing is visible; with no tasks it is "No tasks yet"; with tasks, all are completed and hidden and it says so |
| TaskList.BannerShownIff | task/static/task/js/components/TaskList.js:183-187 | the banner under the cards appears iff completed tasks are hidden and there is one, and gives their number |
| TaskList.HideTwiceRestores | task/static/task/js/components/TaskList.js:72-74 | flipping the filter twice gives back the same state |
| TaskList.HiddenBanner | task/static/task/js/components/TaskList.js:187 | the banner is the count, then " completed task is hidden." for one task and " completed tasks are hidden." for more |
| TaskList.TasksField | task/static/task/js/components/TaskList.js:40 | the `tasks` of a listing answer, or the empty list when the answer has none |
| TaskList.FilterExample | task/static/task/js/components/TaskList.js:100 | of three tasks with two completed, hiding leaves only the active one while the counts stay 3, 2, 1 |
| Flows.ServerList | task/views.py:247-264 | the list sent to the requester is the body of the GET answer |
| Flows.SortCommutesWithMap | task/views.py:251 | changing rows without moving their creation time commutes with the newest-first sort |
| Flows.SortCommutesWithDrop | task/views.py:251 | dropping a row commutes with the newest-first sort |
| Flows.FetchLoadsServerList | task/static/task/js/components/TaskList.js:29-52 | after loading, the list holds exactly the server's listing, with no spinner and no error |
| Flows.ToggleKeepsListInSync | task/static/task/js/components/TaskCard.js:167-184 | a confirmed toggle makes the card show the row's new status and report it; the list then equals the server's new listing |
| Flows.ToggleConfirmed | task/static/task/js/components/TaskCard.js:176-182 | the toggle endpoint's answer for an owned task is one the card accepts, so the card shows and reports the flipped status |
| Flows.ToggleSyncsRows | task/static/task/js/components/TaskList.js:66-70 | setting a task's status in the browser's list matches the server's listing after the row changed |
| Flows.DeleteKeepsListInSync | task/static/task/js/components/TaskCard.js:120-133 | a confirmed delete removes the row, keeps the card marked as removed and tells the list; the list then equals the server's new listing |
| Flows.DeleteSyncsRows | task/static/task/js/components/TaskList.js:62-64 | removing a task from the browser's list matches the server's listing after the row was deleted |
| Flows.MissingTaskToggle | task/views.py:239-240 | toggling a task the requester does not own: the endpoint answers 404 and changes nothing; the card keeps its status, shows "Failed to update task" and tells the list nothing |
| Flows.MissingTaskDelete | task/views.py:185-186 | deleting a task the requester does not own: the endpoint answers 404 and changes nothing; the card clears its removed mark, shows "Failed to delete task" and tells the list nothing |

## Left out

- Rendering details are not modelled: the JSX markup, CSS, icons, the style injection and the toast components. Only the texts and the choices between screens are kept.
- Timers, the DOM work behind toasts and the completion pulse are not modelled. Toasts and the pulse are recorded as effects. Their durations are kept as constants.
- React effect timing is not modelled. In the component, the counts are state refreshed by an effect after `tasks` changes. The model recomputes them from `tasks`, which is what the component shows once the effect has run.
- A handler is one sequential transition. Two handlers interleaving on the same card is not modelled, because the code makes no promise about it.
- `formatDate` is not modelled, because it depends on `Date` and locale formatting.
- `decodeURIComponent` is a parameter. Its `URIError` on malformed escapes is not modelled.
- `parseInt` is exact on unbounded integers. Floating-point rounding of very long digit runs is not modelled. The remainder in `formatTime` is computed on these integers.
- `TaskCard.FormatTime`: the server never sends a `task_time` field, so the card always receives no time. Its contract is stated for whatever string it is given.
- `task/static/task/js/utils/api.js`, `TaskForm.js`, `app.js` and `ToastNotification.js` are not part of this model. They are fetch wrappers and mount glue.
- `task/urls.py` is not part of this model. It only names the endpoints.
- Django authentication and the HTML views are not part of this model. This covers register, login, logout, the task pages and `login_required`: the requester is always an authenticated user.
- The CSRF middleware's own check of the token is not modelled. Whatever token the card sends is accepted.
- The first `api_tasks` definition is not modelled, because the second definition replaces it.
- The database is a map from id to row with an auto-increment counter. Rows created at the same instant keep increasing id order in a listing. The real database leaves that order unspecified.
- The 200-character limit of the `title` column is not modelled. The endpoints do not check it, and what the database does with a longer title depends on the backend.
- Request bodies are narrowed to what the endpoints read: each of `title` and `description` is missing, `null` or a string. A JSON number, boolean, array or object in those keys is not modelled. Django would store its string form while the answer echoes the original value (`task/views.py:199-203`, `268-281`).
- A request body that is valid JSON but not an object fails at `data.get` with a 500. The model folds it into the unparseable body, which gets the same 500.
- A title the database rejects, or a body that is not JSON, is answered with a bare 500 server error. The error page itself is not modelled.
