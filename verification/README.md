# Admin console core, modelled in Dafny

This project models the logic inside a React admin console for a training
school. The console signs staff in, lists courses, exam projects, students
and question banks, and uploads media to object storage. The pieces modelled
are:

- **The HTTP client.** It attaches the bearer token and unwraps the
  `{code, message, timestamp, data}` envelope. It turns every failure into
  exactly one toast and a rejection. On a 401 it clears the token and
  schedules a redirect to `/sign-in`. It also rewrites upload URLs to the
  `/proxyOss` proxy and computes upload percentages.
- **The two persisted stores.** The user store holds the token and the user
  record. The table-settings store holds column visibility per table.
- **The entity pickers.** The course, project, student and question-bank
  pickers are one generic resolver (`Resolver`), instantiated four times.
  The resolver searches remotely and resolves an externally supplied id. It
  looks in the candidates first and then issues an unfiltered fallback fetch.
  The question-bank instance also drops a bank that belongs to another
  course, and filters by name locally.
- **The data-table toolbar.** Its search box reaches the owner only after
  300 ms without typing. Its filters have an "all" entry.
- **The file-upload control.** It checks the extension and size, keeps its
  upload state, and classifies files for preview.
- **The media thumbnail, the avatar menu's texts, and the phone, ID-card and
  e-mail validators.**

Everything is immutable data and pure functions. A store or component is a
record. Each handler or React effect is a function from the old record to
the new one plus a list of *effects* (toasts, requests, callback calls,
scheduled redirects). The outside world answers through further events: a
search response, a fallback response, an upload result. Time in the toolbar
is a logical millisecond counter. Strings are sequences of characters, and
case mapping is ASCII only.

Modules: `Common` (optional values, JavaScript truthiness of optional
strings), `Text` (case mapping, `split(sep).pop()`, substring search, decimal
numerals), `UserStore`, `TableSettings`, `Request`, `Resolver`,
`CourseSelector`, `ProjectSelector`, `StudentSelector`,
`QuestionBankSelector`, `Toolbar`, `FileUpload`, `MediaPreview`, `Profile`,
`Regulars`.

Behaviours of the code worth stating plainly:

- **A search that fails** leaves the picker's candidates as they were
  (`Resolver.SearchFailed`); the list is not emptied.
- **The 401 path and sign-out are different operations.** The 401 path
  calls `clearToken`, which keeps the user record
  (`Request.OnlyUnauthorizedClearsToken`). Sign-out (`logout`) drops it too
  (`UserStore.ClearTokenProperties`).
- **Every 401 schedules its own redirect.** Each failed call carries one
  redirect effect of its own (`Request.FailuresAreReportedOnce`); nothing
  merges the redirects of 401s that arrive together.
- **A URL or file name without a dot.** `getMediaType` and `isVideoFile` take
  the whole name as the extension, so a bare `mp4` is a video
  (`FileUpload.DotlessNameIsVideo`).
- **The pickers' value effect re-runs on every change** of `value`, of the
  candidates or of the selection (`Resolver.Reconcile`). So a pick in a
  picker whose owner passes no `value` is undone at once
  (`Resolver.UncontrolledPickIsUndone`), and while a `value` is unresolved,
  each successful search either resolves it or asks for the fallback record
  again (`Resolver.EachSearchAnswerRetriesValue`).

Two consequences of the code, stated as proved lemmas:

- `getFileType` looks at the URL's extension only inside conditions that the
  accept list already settles. So with automatic detection the preview type
  depends on the accept list alone. With an empty list nothing is previewable
  (`FileUpload.FileTypeFollowsAccept`).
- The thumbnail's video list includes `flv`, but the upload control's list
  does not (`MediaPreview.UploadVideoIsPreviewVideo`).

## Model

| member | source | states |
|---|---|---|
| Text.LastIndexOf | src/components/media-preview/index.tsx:34 | the result is -1 or the position of a separator, and no separator follows it |
| Text.AfterLast | src/components/media-preview/index.tsx:34 | the result has no separator, is a suffix of the input, and is preceded by the separator unless it is the whole input; this is exactly the last `split` segment |
| Text.AfterLastOfFree | src/components/file-upload/index.tsx:96 | a text without the separator is its own last segment |
| Text.AfterLastOfJoined | src/components/file-upload/index.tsx:96 | whatever precedes the last separator never changes the last segment |
| Text.ContainsIsOccurrence | src/components/question-bank-selector/index.tsx:131 | the scanning `includes` holds iff the needle occurs at some index of the text |
| Text.NatToStringRoundTrip | src/lib/request.ts:108 | the decimal text of a status code reads back as that status code |
| UserStore.SetToken | src/stores/user-store.ts:42-44 | the token becomes the given one and the user record is unchanged |
| UserStore.GetToken | src/stores/user-store.ts:48-50 | storing back the token just read leaves the store as it was |
| UserStore.SetUserInfo | src/stores/user-store.ts:56-58 | the user record becomes the given one and the token is unchanged |
| UserStore.GetUserInfo | src/stores/user-store.ts:63-65 | storing back the user record just read leaves the store as it was |
| UserStore.Login | src/stores/user-store.ts:70-75 | token and user record are both replaced; an absent record is stored as none |
| UserStore.Logout | src/stores/user-store.ts:80-85 | the state after sign-out is the initial state |
| UserStore.ClearToken | src/stores/user-store.ts:97-99 | the token becomes empty and the user record is kept |
| UserStore.IsLoggedIn | src/stores/user-store.ts:90-92 | signed in iff clearing the token would change the store, that is iff the token is non-empty |
| UserStore.InitialIsLoggedOut | src/stores/user-store.ts:26-29 | the initial state is signed out and has no user record |
| UserStore.SetTokenThenGet | src/stores/user-store.ts:42-51 | `getToken` after `setToken(t)` gives t, and the user record is untouched |
| UserStore.LoginLogout | src/stores/user-store.ts:70-92 | after login one is signed in iff the token is non-empty; logout is idempotent and always signs out |
| UserStore.ClearTokenProperties | src/stores/user-store.ts:90-99 | clearToken is idempotent, signs out, keeps the user record, and equals logout iff there was no user record |
| TableSettings.GetColumnVisibility | src/stores/table-settings-store.ts:28-30 | a table with no stored settings reads as the empty map; a stored one reads as what, stored back, leaves the state unchanged |
| TableSettings.SetColumnVisibility | src/stores/table-settings-store.ts:37-44 | the table's map reads back as given; every other table's map and the key set apart from this table stay the same |
| TableSettings.ToggleColumnVisibility | src/stores/table-settings-store.ts:52-63 | the table's map gains or changes the one column; other tables are unchanged |
| TableSettings.ResetColumnVisibility | src/stores/table-settings-store.ts:69-72 | the table's key is gone, so reading it gives the empty map; other tables are unchanged |
| TableSettings.ToggleReadBack | src/stores/table-settings-store.ts:52-63 | after a toggle the column reads as set, other columns keep their values, and toggling on an absent table gives exactly `{column: value}` |
| TableSettings.ToggleIdempotent | src/stores/table-settings-store.ts:52-63 | toggling twice with the same arguments equals toggling once |
| TableSettings.ResetForgetsSet | src/stores/table-settings-store.ts:37-72 | resetting after a set of the same table gives the same state as resetting alone |
| TableSettings.TogglesOnDistinctTablesCommute | src/stores/table-settings-store.ts:52-63 | toggles on different tables can be applied in either order |
| Request.AttachToken | src/lib/request.ts:55-63 | the bearer header is present iff the token is non-empty and then carries it; no other header changes |
| Request.OnDelivered | src/lib/request.ts:71-82 | code 0 resolves with the envelope unchanged and shows nothing; any other code rejects with the message (or the generic text) and shows that same text once |
| Request.OnFailed | src/lib/request.ts:83-117 | a 401 clears the token, shows the session-expired text and schedules one redirect; any other failure only shows its text; every failure rejects with the original error |
| Request.FailureText | src/lib/request.ts:98-114 | the failure text is never empty; an error raised before sending shows its own message or the generic text; another status with a body message shows that message |
| Request.Dispatch | src/lib/request.ts:70-117 | resolves, with the envelope unchanged and no effects, iff the envelope arrived with code 0; every rejection has effects; the store is either unchanged or has only lost its token |
| Request.Prepare | src/lib/request.ts:45-63 | verb and URL as given, the JSON content type, the bearer header iff signed in, and no other header |
| Request.Call | src/lib/request.ts:123-168 | a call resolves iff the envelope arrived with code 0, and then with its `data` exactly |
| Request.GetFullResponse | src/lib/request.ts:173-183 | a GET that resolves iff the code is 0, and then with the whole envelope |
| Request.BearerIffLoggedIn | src/lib/request.ts:56-61 | an outgoing request carries the bearer header iff the store is signed in, and it holds the stored token |
| Request.FailuresAreReportedOnce | src/lib/request.ts:70-117 | a rejected call shows exactly one toast, a resolved call shows none, and a redirect is scheduled exactly once for a 401 and never otherwise |
| Request.RejectionMatchesToast | src/lib/request.ts:75-79 | an envelope with a non-zero code rejects with the same text the toast shows |
| Request.OnlyUnauthorizedClearsToken | src/lib/request.ts:88-97 | only a 401 changes the store; it signs out, keeps the user record, and a second 401 changes nothing more |
| Request.FixedFailureTexts | src/lib/request.ts:98-114 | 403, 404 and 500 show their fixed texts whatever the body says; no response shows the network text; a local error shows its message or the generic text; none touches the store |
| Request.OtherStatusText | src/lib/request.ts:107-108 | any other status shows the server's message, or the generic text followed by the status number in parentheses |
| Request.ProxyTarget | src/lib/request.ts:201-202 | the target is the proxy prefix, then the path, then the query of the pre-signed URL |
| Request.ProxyTargetIgnoresOrigin | src/lib/request.ts:198-202 | scheme and host never influence the proxied target |
| Request.UploadRequest | src/lib/request.ts:204-207 | the upload is a PUT to the proxied target carrying exactly the supplied headers, never the bearer token |
| Request.Percent | src/lib/request.ts:208-212 | progress is reported iff the total is known and someone listens, as 100·loaded/total rounded half up |
| Request.PercentInRange | src/lib/request.ts:208-212 | with loaded ≤ total the percentage lies in 0..100, is 0 at the start and 100 at the end |
| Resolver.Find | src/components/course-selector/index.tsx:79 | the result is the first element carrying the id, or none when no element does |
| Resolver.SearchQuery | src/components/course-selector/index.tsx:53-59 | the request carries the keyword iff the picker searches by keyword and the keyword is non-empty, and the course iff it is scoped and the course is non-empty |
| Resolver.SetOpen | src/components/course-selector/index.tsx:68-73 | opening a closed popover starts one search with the current text; nothing else fetches |
| Resolver.SetSearch | src/components/course-selector/index.tsx:68-73 | a changed text starts one search while a keyword picker is open, and otherwise nothing |
| Resolver.SetScope | src/components/question-bank-selector/index.tsx:56-77 | a changed course starts one search while a scoped picker is open, and otherwise nothing |
| Resolver.SearchSucceeded | src/components/course-selector/index.tsx:60-65 | the candidates become the returned list (empty when missing), loading ends, nothing else changes |
| Resolver.SearchFailed | src/components/course-selector/index.tsx:61-65 | the candidates stay, loading ends, nothing else changes |
| Resolver.Reconcile | src/components/course-selector/index.tsx:76-94 | with a value and no selection the first candidate with that id is selected, else one fallback fetch of 100 is asked for; with a selection nothing happens; without a value the selection is dropped |
| Resolver.FallbackArrived | src/components/course-selector/index.tsx:84-89 | only the first entity with the awaited id can become the selection; without one nothing changes |
| Resolver.Select | src/components/course-selector/index.tsx:97-104 | the entity becomes the selection, the popover closes, and the owner hears its id and the entity |
| Resolver.Clear | src/components/course-selector/index.tsx:107-114 | the selection is dropped and the owner hears `(undefined, undefined)` |
| Resolver.EnforceScope | src/components/question-bank-selector/index.tsx:79-85 | a selection of another, non-empty course is dropped and reported; otherwise nothing changes; what remains selected belongs to the course |
| Resolver.SearchCycle | src/components/course-selector/index.tsx:53-73 | a search started by typing ends loading on either answer: success shows exactly the returned list, failure keeps the earlier candidates, the selection is untouched |
| Resolver.ResolvedThroughFallback | src/components/course-selector/index.tsx:76-89 | an id missing from the candidates but present in the fallback page resolves to that page's first matching entity |
| Resolver.UnresolvedStaysEmpty | src/components/course-selector/index.tsx:76-89 | an id found nowhere leaves the selection empty |
| Resolver.SelectionSticksAgainstValue | src/components/course-selector/index.tsx:77-104 | after a pick, a new value does not replace the selection |
| Resolver.ClearThenReconcileReselects | src/components/course-selector/index.tsx:76-114 | clearing while the owner keeps its value lets the value effect select that id again |
| Resolver.UncontrolledPickIsUndone | src/components/course-selector/index.tsx:76-104 | without a value, a pick is reported to the owner and the value effect, re-run because the selection changed, drops it again |
| Resolver.EachSearchAnswerRetriesValue | src/components/course-selector/index.tsx:60-94 | while a value is unresolved, each successful search either selects the first candidate with that id or asks for the fallback page again |
| Resolver.ResolutionNeverFabricates | src/components/course-selector/index.tsx:76-94 | the value effect and the fallback only ever select an entity carrying the supplied id |
| CourseSelector.SearchRequest | src/components/course-selector/index.tsx:53-59 | 20 per page, the keyword as filter unless it is empty |
| CourseSelector.SearchOnOpenAndType | src/components/course-selector/index.tsx:68-73 | opening searches with the current text; typing while open searches with the new text; typing while closed fetches nothing |
| CourseSelector.SelectReportsCourse | src/components/course-selector/index.tsx:97-104 | a pick reports the course's id and the course, selects it and closes the popover |
| CourseSelector.Label | src/components/course-selector/index.tsx:42-128 | the trigger shows the selected course's name; without a selection, the owner's `placeholder`, or "选择课程..." when none is passed |
| ProjectSelector.SearchRequest | src/components/project-selector/index.tsx:53-58 | 20 per page, the keyword as filter unless it is empty |
| ProjectSelector.SearchOnOpenAndType | src/components/project-selector/index.tsx:69-73 | opening and typing while open each start one search with the current text |
| ProjectSelector.ValueLookup | src/components/project-selector/index.tsx:76-93 | an unknown project id asks for an unfiltered page of 100; with a selection in place nothing happens |
| ProjectSelector.SelectReportsProject | src/components/project-selector/index.tsx:97-104 | a pick reports the project's id and the project and closes the popover |
| ProjectSelector.Label | src/components/project-selector/index.tsx:42-128 | the trigger shows the selected project's name; without a selection, the owner's `placeholder`, or "选择报考项目..." when none is passed |
| StudentSelector.SearchRequest | src/components/student-selector/index.tsx:56-61 | 20 per page, the keyword as filter unless it is empty |
| StudentSelector.SearchOnOpenAndType | src/components/student-selector/index.tsx:56-76 | opening and typing while open each start one search; a failed search keeps the list and ends loading |
| StudentSelector.SelectAndClear | src/components/student-selector/index.tsx:100-115 | a pick reports the student and closes the popover; clearing reports `(undefined, undefined)` and drops the selection |
| StudentSelector.Label | src/components/student-selector/index.tsx:44-131 | the trigger shows the name, or the phone when the name is empty; without a selection, the owner's `placeholder`, or "选择学员..." when none is passed |
| QuestionBankSelector.FetchRequest | src/components/question-bank-selector/index.tsx:56-63 | the request never carries the search text: 50 active banks of the course, or of all courses |
| QuestionBankSelector.FetchTriggers | src/components/question-bank-selector/index.tsx:70-77 | opening fetches, a course change while open fetches, typing never fetches, a closed picker never fetches |
| QuestionBankSelector.CourseChanged | src/components/question-bank-selector/index.tsx:79-85 | after a course change any remaining selection belongs to the course (or the course is empty), and a dropped selection is reported |
| QuestionBankSelector.SwitchingCourseClearsBank | src/components/question-bank-selector/index.tsx:79-85 | a picked bank is dropped and reported when the course changes to one it does not belong to |
| QuestionBankSelector.EmptyCourseNeverClears | src/components/question-bank-selector/index.tsx:80-85 | removing the course filter never clears the selection |
| QuestionBankSelector.FallbackOutsideCourseIsDropped | src/components/question-bank-selector/index.tsx:88-101 | the fallback ignores the course, so it can select a bank of another course, which the consistency rule then drops |
| QuestionBankSelector.FilterByName | src/components/question-bank-selector/index.tsx:129-132 | the result keeps the order and holds each matching bank exactly as many times as the input does and no other bank; it is all banks when all match |
| QuestionBankSelector.Filtered | src/components/question-bank-selector/index.tsx:129-133 | an empty search shows all banks; otherwise the banks whose name contains the search text, in order, each as many times as in the input |
| QuestionBankSelector.MatchIgnoresCase | src/components/question-bank-selector/index.tsx:131 | a name matches when some part of it equals the search text up to ASCII case |
| Toolbar.Apply | src/components/data-table/toolbar.tsx:50-94 | time never goes back and only passed callbacks are called; teardown cancels the timer and changes nothing else; a new `searchValue` replaces the text and leaves the timer alone |
| Toolbar.AdvanceTo | src/components/data-table/toolbar.tsx:64-66 | a timer that has come due fires once with its value and is gone; otherwise nothing fires and the timer stays |
| Toolbar.InputChanged | src/components/data-table/toolbar.tsx:55-67 | the text is shown at once and exactly one timer is pending, due 300 ms later with that value |
| Toolbar.Reset | src/components/data-table/toolbar.tsx:87-94 | the text is cleared and no timer remains; `onReset` is called iff passed, on every reset; the only possible search call is a timer that had already come due, with its own value |
| Toolbar.BurstStaysPending | src/components/data-table/toolbar.tsx:55-67 | during keystrokes less than 300 ms apart nothing is searched, and one timer with the last value stays pending |
| Toolbar.BurstSearchesOnce | src/components/data-table/toolbar.tsx:59-66 | a burst followed by 300 ms of quiet calls `onSearch` exactly once, with the last value |
| Toolbar.QuietGapSendsPrevious | src/components/data-table/toolbar.tsx:59-66 | a keystroke 300 ms or more after the previous one finds the previous value already sent |
| Toolbar.CancelledTimerNeverFires | src/components/data-table/toolbar.tsx:69-94 | after a reset or a teardown, no waiting ever leads to an `onSearch` call |
| Toolbar.RunCallsOnlyPassed | src/components/data-table/toolbar.tsx:55-94 | over any sequence of events time never goes back and only the callbacks the owner passed are called |
| Toolbar.RunAppend | src/components/data-table/toolbar.tsx:55-94 | running two sequences of events one after the other is running their concatenation |
| Toolbar.AnyFilterSet | src/components/data-table/toolbar.tsx:84 | holds iff some filter has a non-empty value |
| Toolbar.IsFiltered | src/components/data-table/toolbar.tsx:84 | holds iff there is a search box with non-empty text, or some filter has a value |
| Toolbar.Visible | src/components/data-table/toolbar.tsx:97-99 | the toolbar shows iff it has a search box or at least one filter (filters alone suffice; neither renders nothing), and a hidden toolbar is never filtered |
| Toolbar.Shown | src/components/data-table/toolbar.tsx:117 | the select shows the filter's value when it is non-empty and "all" otherwise; never an empty entry |
| Toolbar.Chosen | src/components/data-table/toolbar.tsx:118 | choosing "all" reports no value; any other choice is reported unchanged |
| Toolbar.ShownThenChosen | src/components/data-table/toolbar.tsx:117-118 | re-choosing the shown entry gives back the filter's value, except that an empty value and the value "all" both come back as none |
| Toolbar.HiddenIsNeverFiltered | src/components/data-table/toolbar.tsx:84-99 | a toolbar with no search box and no filters is never filtered |
| FileUpload.Extension | src/components/file-upload/index.tsx:175 | a dot followed by the lower-cased text after the last dot of the name (all of it when there is none), itself dot-free |
| FileUpload.IsVideoFile | src/components/file-upload/index.tsx:95-98 | a video file's extension has four or five characters with its dot, so its name has at least three |
| FileUpload.VideoByLastSegment | src/components/file-upload/index.tsx:95-98 | whether a name is a video file depends only on its last dot-segment, compared in lower case |
| FileUpload.DotlessNameIsVideo | src/components/file-upload/index.tsx:95-98 | a name without a dot is its own extension, so a bare "mp4" counts as a video file |
| FileUpload.GetFileType | src/components/file-upload/index.tsx:81-92 | never "none"; image only when the accept list names an image extension, video only when it names a video extension |
| FileUpload.FileTypeFollowsAccept | src/components/file-upload/index.tsx:81-92 | the detected type is image iff the accept list names an image extension, else video iff it names a video extension, else other; always other for an empty list |
| FileUpload.CurrentFileType | src/components/file-upload/index.tsx:251-252 | a fixed preview type wins; automatic detection never yields "none", and yields image iff the accept list names an image extension |
| FileUpload.CanPreview | src/components/file-upload/index.tsx:255-258 | preview needs preview enabled, a file, and an image or video type; with detection, iff the accept list names an image or video extension |
| FileUpload.FileChosen | src/components/file-upload/index.tsx:169-196 | no file: nothing; unlisted extension or oversize: one toast and no upload; otherwise uploading from 0 % and one upload-URL request for the dot-free extension |
| FileUpload.DefaultLimitIsInclusive | src/components/file-upload/index.tsx:137-184 | with the default 500 MB limit a file of exactly 500 MiB starts an upload and one byte more is refused with a toast |
| FileUpload.ProgressReported | src/components/file-upload/index.tsx:203 | only the progress changes |
| FileUpload.UploadFinished | src/components/file-upload/index.tsx:191-237 | uploading ends; success stores and reports the new URL and the file's name; failure keeps them, reports the error (or "上传失败") and shows its message or "文件上传失败" |
| FileUpload.Clear | src/components/file-upload/index.tsx:158-166 | URL, name and progress are reset and `onClear` is called |
| FileUpload.UploadThenClear | src/components/file-upload/index.tsx:217-258 | a successful upload is previewable iff preview is on and the type is image or video; after clearing nothing is previewable |
| MediaPreview.GetMediaType | src/components/media-preview/index.tsx:33-37 | video iff the lower-cased last dot-segment is one of the six video extensions, image otherwise |
| MediaPreview.LastSegmentDecides | src/components/media-preview/index.tsx:34-36 | nothing before the last dot changes the guessed type |
| MediaPreview.CaseInsensitive | src/components/media-preview/index.tsx:34 | the extension's case never changes the guessed type |
| MediaPreview.UploadVideoIsPreviewVideo | src/components/media-preview/index.tsx:35 | every upload video file shows as a video; any name ending in ".flv" shows as a video but is not an upload video file |
| MediaPreview.Render | src/components/media-preview/index.tsx:50-69 | no source iff placeholder (the caller's when given); otherwise a thumbnail of the source, typed as the prop says or as guessed |
| Profile.HasCjk | src/components/profile-dropdown.tsx:31 | holds iff some character lies in U+4E00..U+9FA5 |
| Profile.Abbreviation | src/components/profile-dropdown.tsx:28-36 | "U" without a name; the last two characters (or the whole short name) of a name holding a CJK character; else one non-lower-case character equal to the first up to case; length always 1 or 2 |
| Profile.DisplayName | src/components/profile-dropdown.tsx:61 | the user's name when present and non-empty, else "未设置姓名"; never empty |
| Profile.DisplayRole | src/components/profile-dropdown.tsx:41-62 | 管理员 iff the role is "10" or "admin", 教师 iff "20" or "teacher", 学生 iff "30" or "student", else 用户 |
| Profile.Subtitle | src/components/profile-dropdown.tsx:81 | the role label, a middle dot, then the phone number when there is one and the no-phone placeholder otherwise |
| Profile.SignedOutShowsDefaults | src/components/profile-dropdown.tsx:61-81 | after sign-out the menu shows the default name, role, initial and phone placeholder |
| Profile.SignedInShowsUser | src/components/profile-dropdown.tsx:61-63 | after sign-in the menu shows the user's name, and a CJK name is abbreviated to its last two characters |
| Regulars.IsValidPhone | src/lib/regulars.ts:10 | a valid phone number is eleven characters, all of them digits |
| Regulars.PhoneRange | src/lib/regulars.ts:10 | an eleven-digit string is a valid phone iff its number lies in 13 000 000 000 .. 19 999 999 999 |
| Regulars.PhoneExamples | src/lib/regulars.ts:26-28 | "13812345678" is valid; a second digit of 2 or a length of ten is not |
| Regulars.IsValidIdCard | src/lib/regulars.ts:16 | a valid number has 15 or 18 characters and ends with a digit or an X of either case |
| Regulars.IdCardByLength | src/lib/regulars.ts:16 | valid iff 15 digits, or 17 digits and a digit or X of either case; the length is 15 or 18 |
| Regulars.IsValidEmail | src/lib/regulars.ts:21 | a valid address has at least six characters and contains an '@' and a '.' |
| Regulars.EmailDecision | src/lib/regulars.ts:21 | the search-free decision holds iff the pattern matches with some split |
| Regulars.SplitIsDecided | src/lib/regulars.ts:21 | every way of matching the pattern is found by the decision |
| Regulars.ValidEmailHasOneAt | src/lib/regulars.ts:21 | a valid address contains exactly one '@' |
| Regulars.EmailExample | src/lib/regulars.ts:40-42 | "a.b@example.com" is valid |

## Left out

- The axios transport, the 30 s timeout, toast rendering, the 100 ms `setTimeout` and `window.location` are not modelled. Toasts, the token clearing and the scheduled redirect appear only as effect values. A timeout counts as "no response".
- The base URL `/api` and the JSON content type are constants; joining the base URL with a path is not modelled.
- `createPersistStore` and its storage are not part of this model. `set` is taken to be a shallow merge, and `src/lib/hydration.ts` is left out for the same reason.
- Overlapping search and fallback responses, their arrival order, and responses arriving after unmount are not modelled. Each response is one event.
- A failing fallback fetch rejects without a handler in the source and changes no state; the model has no event for it.
- `new URL(...)` parsing is not modelled; the path and query are inputs.
- Request.Percent: uses exact integer rounding half up in place of floating-point `Math.round` of `loaded / total * 100`.
- FileUpload.UploadFinished: the video-duration probe (`getVideoDuration`, a DOM video element and a float duration) is not modelled, so `onSuccess` carries no duration.
- FileUpload.FileChosen: `maxSize` is a whole number of MiB.
- The upload control's `onSuccess`, `onError` and `onClear` and the pickers' `onChange` (the `Changed` effect) appear as effects whether or not the owner passed them; the model does not track which optional callbacks exist. The toolbar's `onSearch` and `onReset` are different: the `Props` flags say whether they were passed, and the toolbar calls only those.
- The file input's reset, the `getFileUrl` handle, and every dialog, popover and preview-open flag are not modelled; they are UI chrome.
- Profile.Abbreviation: case mapping is ASCII only, so a non-ASCII first letter is kept as it is. Characters are code points, not UTF-16 units.
- Text.Lower: ASCII only, standing in for full Unicode `toLowerCase`.
- Profile.DisplayRole: only the table's own keys are looked up; inherited object keys such as "constructor" are not.
- The question-bank picker's `courseId` is a string, and "" stands for `undefined`. A change between the two does not re-fetch in the model.
- `src/components/rich-text-editor/index.tsx`, `src/components/layout/data/sidebar-data.ts`, `src/features/settings/profile/index.tsx`, `src/tanstack-table.d.ts` and `src/components/sign-out-dialog.tsx` are not modelled: they hold rendering, static configuration or type declarations only.
- `src/components/file-upload/upload.ts` is a one-line GET, and `src/components/data-table/pagination.tsx` depends on a page-number helper that is not part of this model.
- `src/components/data-table/view-options.tsx` only forwards to `toggleColumnVisibility`, which `TableSettings` models.
