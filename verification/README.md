# A verified model of a calendar todo list and journal

The application keeps, per user and per calendar date, a todo list and a
journal of chat-like messages. The user can ask an AI service for a reply
to the journal entries written since its last reply. This project models
the decision logic of that application in Dafny and proves properties of
the model:

- **State**: the client store's pure update functions over the two
  per-date mappings. These are add / toggle / edit / delete of todos and
  append / set / clear of messages.
- **DayKey**: the `YYYY-MM-DD` key that every mapping is indexed by.
- **TodoView**: the todo view's rules. These are the Enter-to-add guard
  and drag-over reordering, which includes the `splice` arithmetic
  JavaScript performs.
- **JournalView**: the journal view's rules. These are sending a message,
  choosing the date key, and the AI summary. The summary covers the
  "tail" of user messages after the last AI reply, the request body, and
  what happens on each kind of response.
- **RegisterForm**: the registration form. It covers the username and
  password patterns as character classes, the three tri-state indicators
  (`None` = unknown), the terms checkboxes and their invariant, the
  duplicate-name check, and the ordered submit gate.
- **DataRoute**: the server's per-user data routes over a map from user
  id to document. A read creates a missing document; a save replaces both
  maps.
- **AuthRoute**: the server's register / login / name-check routes over a
  map from trimmed user name to account. Password hashing and comparison
  are parameters.
- **Text**: the JavaScript string operations the rest relies on: `trim`,
  `join`, `String(n)` and `padStart`.
- **Common**: the `Option` type and the "every other key unchanged"
  predicate shared by the keyed stores.

Inputs the program takes from its environment are parameters of the model
functions. These are clock readings (for ids, times and today's date),
network replies, and the password hash.

## Model

| member | source | states |
|---|---|---|
| Text.Trim | src/utils/state.js:12 | the trimmed text is no longer than the input and neither starts nor ends with white space |
| Text.TrimIsSlice | src/utils/state.js:12 | the trimmed text is a contiguous slice of the input, and everything cut on either side is white space |
| Text.BlankIffAllSpace | src/utils/state.js:12-13 | a text is refused as empty after trimming exactly when every character is white space |
| Text.TrimIdempotent | src/components/MyJournal.jsx:112 | trimming an already trimmed text changes nothing |
| Text.TrimPadded | server/models/User.js:12 | padding a name with white space on both sides does not change the stored (trimmed) name |
| Text.Join | src/components/MyJournal.jsx:152 | the joined text has the total length of the parts plus one separator between each pair, and starts with the first part |
| Text.JoinEmptyIff | src/components/MyJournal.jsx:152-154 | with a non-empty separator the join is empty iff there are no parts or a single empty part |
| Text.JoinNotBlank | src/components/MyJournal.jsx:152 | a join whose first part has a non-space character is not blank |
| Text.NatToString | src/utils/date.js:13-14 | `String(n)` prints decimal digits with no leading zero |
| Text.NatToStringLength | src/utils/date.js:12-14 | numbers of one to four digits print with that many characters |
| Text.ParseNatToString | src/utils/date.js:13-14 | reading the printed digits back gives the number |
| Text.IntToString | src/utils/date.js:12 | a negative year prints as a minus sign before its digits |
| Text.PadStart | src/utils/date.js:13-14 | `padStart` keeps the text as its suffix, fills only with the fill character, and reaches the width when the text is shorter |
| State.KindOf | src/components/MyJournal.jsx:142-148 | a stored `type` string is read as AI exactly when it is "ai" and as user exactly when it is "user" |
| State.TypeOf | src/components/MyJournal.jsx:183 | a well-formed kind is written as "ai" exactly when it is AI and as "user" exactly when it is user |
| State.KindRoundTrip | src/components/MyJournal.jsx:142-148 | reading a written kind, or writing a read `type`, gives it back |
| State.InitialUserState | src/utils/state.js:2-7 | the start state has no user id, no user name, and both mappings empty |
| State.AddTodo | src/utils/state.js:11-17 | a missing or blank text changes nothing; otherwise only the date's list grows, by one undone item with the trimmed text at the end |
| State.FirstAddOnInitialState | src/utils/state.js:2-17 | the first add after start-up gives a mapping with exactly that date holding exactly that item |
| State.AddKeepsNoEmptyLists | src/utils/state.js:11-17 | adding never creates a date key with an empty list |
| State.ToggleList | src/utils/state.js:20-22 | the list keeps its length; items with the id have `done` flipped and every other item is unchanged |
| State.ToggleTodo | src/utils/state.js:19-24 | the date's list is toggled, a date with no list gets an empty list, and other dates are unchanged |
| State.ToggleListTwice | src/utils/state.js:20-22 | toggling the same id twice restores the list |
| State.ToggleTodoTwice | src/utils/state.js:19-24 | on a date with a list, toggling twice restores the whole mapping |
| State.EditList | src/utils/state.js:27-29 | the list keeps its length; items with the id get the new text, as given, and every other item is unchanged |
| State.EditTodo | src/utils/state.js:26-31 | the date's list is edited, a date with no list gets an empty list, and other dates are unchanged |
| State.EditTodoLastWins | src/utils/state.js:26-31 | of two edits of one id, the last one is what remains |
| State.ToggleAndEditIntroduceEmptyList | src/utils/state.js:19-31 | toggling or editing on a date with no list leaves an empty list under that date, unlike delete |
| State.RemoveId | src/utils/state.js:34 | filtering drops exactly the items carrying the id |
| State.RemoveIdMembers | src/utils/state.js:34 | an item survives the filter iff it was in the list and does not carry the id |
| State.RemoveIdAppend | src/utils/state.js:34 | the filter distributes over concatenation |
| State.RemoveIdAbsent | src/utils/state.js:34 | filtering an id that no item carries changes nothing |
| State.DeleteTodo | src/utils/state.js:33-38 | the date's list loses every item with the id; the key is removed iff nothing is left; other dates are unchanged |
| State.DeleteKeepsNoEmptyLists | src/utils/state.js:33-38 | deleting never leaves a date key with an empty list |
| State.AddThenDelete | src/utils/state.js:11-38 | deleting a freshly added todo by its new id gives back the original mapping |
| State.AddMessage | src/utils/state.js:45-48 | the message is appended, as given, to the date's list (created if missing); other dates are unchanged |
| State.AddMessageIsSetOfExtended | src/utils/state.js:45-53 | appending is storing the extended list |
| State.SetMessages | src/utils/state.js:50-53 | the date holds exactly the new list, even when it is empty; other dates are unchanged |
| State.SetMessagesLastWins | src/utils/state.js:50-53 | of two stores under one date, the last one wins |
| State.MessagesNeverPruned | src/utils/state.js:45-53 | appending or storing never removes a date key |
| State.EmptiedMessagesKeepKey | src/utils/state.js:50-53 | storing an empty message list keeps the key with an empty list |
| State.ClearMessages | src/utils/state.js:55-59 | the date's key is removed and every other key keeps its list |
| State.ClearMessagesIdempotent | src/utils/state.js:55-59 | clearing twice is clearing once, and clearing a missing key changes nothing |
| State.ClearAfterAdd | src/utils/state.js:45-59 | clearing a date forgets a message just appended to it |
| DayKey.Pad2 | src/utils/date.js:13-14 | a month or day number prints as two digits that read back as the number, with a leading zero below ten |
| DayKey.Layout | src/utils/date.js:16 | the key is the year, a dash, the two-digit month, a dash and the two-digit day, at those positions |
| DayKey.KeyOf | src/utils/date.js:12-16 | a key has dashes three and six places from its end, with the padded month and day between and after them, and is ten characters for four-digit years |
| DayKey.KeyOfYear | src/utils/date.js:12 | a four-digit year opens the key with its four digits |
| DayKey.ToDay | src/utils/date.js:7-17 | a valid Date gives its own key; anything else gives the key of the current date |
| DayKey.ParseKeyOf | src/utils/date.js:12-16 | for four-digit years, the key reads back as the date it was made from |
| DayKey.KeyOfInjective | src/utils/date.js:12-16 | for four-digit years, distinct dates have distinct keys |
| DayKey.JanuaryAndDecember | src/utils/date.js:13 | the 0-based month is shifted, so January prints as "01" and December as "12" |
| TodoView.Displayed | src/components/MyTodo.jsx:27 | the view shows the date's list, or an empty list for a date without a key |
| TodoView.AddEnter | src/components/MyTodo.jsx:36-42 | an add is attempted iff the key is Enter and the input is not blank; it then shows the trimmed item last; otherwise nothing changes |
| TodoView.AddEnterAgreesWithStore | src/components/MyTodo.jsx:37 | the view's guard and the store's guard agree, so an attempted add always adds |
| TodoView.FindIndex | src/components/MyTodo.jsx:64-65 | the result is -1 iff no item has the id, else the first index holding it |
| TodoView.RemoveAt | src/components/MyTodo.jsx:67 | removing one index shifts the later items down by one |
| TodoView.InsertAt | src/components/MyTodo.jsx:68 | inserting puts the item at the index and shifts the later items up by one |
| TodoView.RemoveInsertInverse | src/components/MyTodo.jsx:67-68 | removing what was just inserted gives back the list |
| TodoView.InsertRemoveMultiset | src/components/MyTodo.jsx:67-68 | taking an item out and putting it back elsewhere is a permutation |
| TodoView.Move | src/components/MyTodo.jsx:63-68 | a move is a permutation that puts the moved item at the target index and keeps the order of the rest |
| TodoView.SpliceStart | src/components/MyTodo.jsx:67 | a negative start counts from the end, -1 being the last index; starts are clamped to the list |
| TodoView.DragOverAsWritten | src/components/MyTodo.jsx:59-68 | as written: nothing happens iff the item is dragged over itself; otherwise the list is permuted |
| TodoView.DragOverAsWrittenLands | src/components/MyTodo.jsx:63-68 | as written, the item at the dragged index (the last item when the id is missing) lands at the target's index, and the others keep their order |
| TodoView.DragOverAsWrittenMissingTakesLast | src/components/MyTodo.jsx:64-67 | as written, when the dragged id is missing, the items other than the moved one are all but the last |
| TodoView.DragOverAsWrittenMovesLastItem | src/components/MyTodo.jsx:64-68 | with nothing being dragged, hovering A in [A, B, C] gives [C, A, B] |
| TodoView.DragOver | src/components/MyTodo.jsx:59-68 | corrected: nothing happens on a self-drag or when the dragged id is missing; otherwise the dragged item moves to the target's index and the rest keep their order |
| TodoView.DragOverAgreesWhenPresent | src/components/MyTodo.jsx:64-68 | whenever the dragged id is in the list, the corrected rule and the code agree |
| TodoView.MoveFirstToThird | src/components/MyTodo.jsx:67-68 | moving index 0 to index 2 in [a, b, c, d] gives [b, c, a, d] |
| TodoView.DragOverExample | src/components/MyTodo.jsx:59-68 | dragging A over C in [A, B, C, D] gives [B, C, A, D] |
| TodoView.DragOverForDate | src/components/MyTodo.jsx:59-70 | corrected store step: only the selected date's list changes, by the corrected reorder, and stays a permutation |
| TodoView.DragOverForDateAsWritten | src/components/MyTodo.jsx:59-70 | as-written store step: only the selected date's list changes, a self-drag changes nothing, and otherwise it holds the as-written reorder |
| TodoView.DragOverForDateAgreesWhenPresent | src/components/MyTodo.jsx:63-70 | the two store steps agree whenever the dragged id is in the displayed list |
| JournalView.CalendarSelection | src/components/MyCalendar.jsx:60 | picking a day stores that day's key string as the selected date |
| JournalView.JournalKeyAsWritten | src/components/MyJournal.jsx:95 | as written, the key handed a string falls back to today's key |
| JournalView.JournalKeyAsWrittenIgnoresSelection | src/components/MyJournal.jsx:95 | picking 2024-01-01 on 2024-01-02 shows the journal of 2024-01-02 |
| JournalView.JournalKeyFollowsCalendar | src/components/MyJournal.jsx:95 | with the corrected key, the journal reads the day picked in the calendar |
| JournalView.SendMessage | src/components/MyJournal.jsx:111-124 | a blank text stores nothing; otherwise exactly one user message with the trimmed text is appended to the key's list, and other dates are unchanged |
| JournalView.SentMessageIsTrimmed | src/components/MyJournal.jsx:112-119 | a sent message is a user message whose text is non-blank and already trimmed |
| JournalView.LastAiIndex | src/components/MyJournal.jsx:142 | the result is -1 or the index of an AI message |
| JournalView.LastAiIndexIsLast | src/components/MyJournal.jsx:142 | no AI message comes after the index found |
| JournalView.LastAiIndexUnique | src/components/MyJournal.jsx:142 | any index with those two properties is the one found |
| JournalView.UserTextsAppend | src/components/MyJournal.jsx:148-149 | collecting user texts distributes over concatenation |
| JournalView.TailOfNoAiIndex | src/components/MyJournal.jsx:145-149 | with no AI index the tail is every user text |
| JournalView.TailWithoutAi | src/components/MyJournal.jsx:145-149 | a list without AI messages has every user text, in order, as its tail |
| JournalView.CollectTail | src/components/MyJournal.jsx:145-149 | walking back from the end until an AI message collects exactly the tail |
| JournalView.SummaryRequest | src/components/MyJournal.jsx:152-157 | a request is made iff the joined tail is non-empty, and its body is that join |
| JournalView.SummaryRequestSkipped | src/components/MyJournal.jsx:152-157 | no request is made iff the tail is empty or is a single empty text |
| JournalView.SentTailIsAccepted | server/routes/ai.js:11 | a non-empty tail of non-blank texts is always sent and never refused by the server's blank check |
| JournalView.ReplyText | src/components/MyJournal.jsx:181 | the stored reply is never empty, and is the response text whenever that is non-empty |
| JournalView.AiReply | src/components/MyJournal.jsx:179-184 | the appended reply is an AI message with non-empty text |
| JournalView.SummaryComplete | src/components/MyJournal.jsx:170-188 | a non-OK or failed response changes nothing; an OK response appends one AI reply to the list as it is when the answer arrives |
| JournalView.AiSummary | src/components/MyJournal.jsx:139-192 | with nothing to summarize, or any response other than OK, the messages are unchanged |
| JournalView.AiSummaryAppendsReply | src/components/MyJournal.jsx:179-184 | after an OK response, exactly one AI reply is appended to the key's list and other dates are unchanged |
| JournalView.ReplyClosesTail | src/components/MyJournal.jsx:142-184 | after an OK response the tail is empty, whatever the list held |
| JournalView.SecondSummaryIsNoOp | src/components/MyJournal.jsx:154-157 | pressing summary again straight after a successful one sends nothing and changes nothing |
| JournalView.FailedSummaryChangesNothing | src/components/MyJournal.jsx:173-188 | a non-OK status or a thrown error leaves the messages alone |
| JournalView.MessageSentDuringSummaryIsSkipped | src/components/MyJournal.jsx:224-227 | a message sent while the request is pending ends up before the reply, so it is never summarized |
| RegisterForm.CheckPassword | src/components/Register.jsx:12 | a one-pass scan accepts exactly the passwords the pattern accepts |
| RegisterForm.PasswordExamples | src/components/Register.jsx:12 | "Abcdef1!" satisfies the pattern and "Abcdefg1", which lacks a special character, does not |
| RegisterForm.UsernameEffect | src/components/Register.jsx:207-224 | an empty name clears both indicators; otherwise validity is the pattern's verdict and availability is unknown for a valid name and false for an invalid one, never true |
| RegisterForm.PasswordEffect | src/components/Register.jsx:227-233 | the indicator is unknown iff the password is empty, else the pattern's verdict |
| RegisterForm.MatchEffect | src/components/Register.jsx:236-242 | the indicator is unknown iff the confirmation is empty, else whether the two are equal |
| RegisterForm.CheckAll | src/components/Register.jsx:286-293 | every box takes the new value, so "all" agrees with the two required boxes |
| RegisterForm.CheckTerm | src/components/Register.jsx:296-307 | the named box takes the new value, the other keeps its value, and "all" agrees with the two required boxes |
| RegisterForm.TermsStayCoherent | src/components/Register.jsx:286-307 | the terms invariant holds initially and after each handler; ticking both boxes ticks "all"; unticking one unticks it |
| RegisterForm.CheckDuplicate | src/components/Register.jsx:246-282 | the check is refused iff the name is not known valid; the name is available iff the reply is OK and says available |
| RegisterForm.SetUsername | src/components/Register.jsx:207-224 | editing the name keeps the indicators consistent and never leaves availability true |
| RegisterForm.SetPassword | src/components/Register.jsx:227-242 | editing the password keeps the indicators consistent |
| RegisterForm.SetConfirm | src/components/Register.jsx:236-242 | editing the confirmation keeps the indicators consistent |
| RegisterForm.DuplicateChecked | src/components/Register.jsx:246-282 | a duplicate check makes availability true only for a valid name with an OK, available reply, and keeps the indicators consistent |
| RegisterForm.TickAll | src/components/Register.jsx:286-293 | the check-all handler keeps the form consistent |
| RegisterForm.TickTerm | src/components/Register.jsx:296-307 | the single-box handler keeps the form consistent |
| RegisterForm.Submit | src/components/Register.jsx:315-328 | the gates are checked in order: input validity first, then the duplicate check, then the terms; a request is sent iff all three pass |
| RegisterForm.InitialFormConsistent | src/components/Register.jsx:186-204 | the empty form is consistent and refuses to submit |
| RegisterForm.SendOnlyValid | src/components/Register.jsx:315-328 | on a consistent form, a request is sent only with a valid name and password, a matching confirmation, and every box ticked |
| RegisterForm.UsernameChangeNeedsRecheck | src/components/Register.jsx:219-223 | after any edit of the name, submitting is refused until the name is checked again |
| RegisterForm.HappyPath | src/components/Register.jsx:315-328 | filling the form asks for the duplicate check, then for the terms, then sends |
| DataRoute.Get | server/routes/data.js:9-22 | a read answers the stored maps, storing an empty document first when there is none; other users are untouched |
| DataRoute.Post | server/routes/data.js:30-41 | a save stores exactly the given maps, creating the document if needed, answers it, and leaves other users untouched |
| DataRoute.GetTwice | server/routes/data.js:12-17 | two reads in a row answer the same; only the first can create a document, adding exactly one |
| DataRoute.PostThenGet | server/routes/data.js:35-39 | a read after a save answers exactly the saved maps |
| DataRoute.PostOverwrites | server/routes/data.js:35-39 | of two saves the last wins, and a save does not depend on what was stored before |
| DataRoute.UsersIsolated | server/routes/data.js:12-39 | one user's reads and saves do not change another user's reads |
| AuthRoute.Status | server/routes/auth.js:15-38 | a created account answers 201, a taken name exactly 400, a server error 500, a login refusal 401, and only a login or a name check 200 |
| AuthRoute.Register | server/routes/auth.js:11-26 | an account is created iff the trimmed name is free and passes the schema's length checks; a taken name answers 400; every failure leaves the accounts unchanged |
| AuthRoute.RegisterStores | server/routes/auth.js:17-21 | a created account answers 201 with the new id, and stores the new id and the hash of the password under the trimmed name, and nothing else changes; failures are 400 or 500 |
| AuthRoute.Login | server/routes/auth.js:29-43 | login succeeds iff the name is known and the password matches its hash, answering the account's id and name; otherwise 401; the accounts never change |
| AuthRoute.CheckUsername | server/routes/auth.js:46-54 | the name is available iff no account has it, and the accounts never change |
| AuthRoute.DuplicateRegisterRefused | server/routes/auth.js:14-15 | registering a taken name, padded with any white space, answers 400 and changes nothing |
| AuthRoute.RejectionsIndistinguishable | server/routes/auth.js:33-36 | an unknown name and a wrong password get exactly the same 401 reply |
| AuthRoute.RegisterThenLogin | server/routes/auth.js:11-43 | after registering, logging in with the same password succeeds with the new id, and the name is no longer available |
| AuthRoute.ShortPasswordAccepted | server/routes/auth.js:17-19 | a one-character password is accepted, since only the hash's length is checked |

## Left out

- Rendering, styling, scrolling, focus, context menus and the editing
  widgets are left out: they do not decide any data.
- The persistence calls the client makes after each action, and the
  login, logout and settings screens, are left out. They are I/O to the
  server routes modelled here, or a sign-in service outside this model.
  The components read their store actions from `useAppStore`, whose
  definition in src/stores/useAppStore.js:10-13 holds only the selected
  date; where the actions are bound is not part of this model. The
  actions `addTodo`, `toggleTodoDone`, `editTodo`, `deleteTodo` and
  `addMessage` (called at MyTodo.jsx:38, 102, 120, 55 and
  MyJournal.jsx:115, 179) are taken to be `State.AddTodo`, `ToggleTodo`,
  `EditTodo`, `DeleteTodo` and `AddMessage`. The store's `setTodosForDate`
  (MyTodo.jsx:70) is taken to store the list under the date key, which
  `TodoView.DragOverForDate` and `DragOverForDateAsWritten` write inline
  as a map update.
- `server/server.js`, the build configuration and the AI service call
  in `server/routes/ai.js` are left out. Only that route's blank-body
  guard is modelled, by `JournalView.SummaryRouteAccepts`.
- Network, JSON and clocks are parameters. Ids made from `Date.now()` are
  taken as given, so two actions in the same millisecond can produce
  equal ids; the model does not claim ids are unique. `formatTime` is
  left out: times are opaque strings.
- Strings are sequences of Unicode code points, whereas JavaScript
  strings are UTF-16 code units. Lengths and the pattern checks differ
  for characters outside the Basic Multilingual Plane. The patterns only
  admit ASCII, so their verdicts agree.
- The white-space set of `trim` is written out as the ECMAScript set,
  including the line terminators and the Unicode space separators.
- Hashing, salting and comparison are abstract functions. The database's
  unique index, concurrent requests and the race between a lookup and a
  save are left out. Faults of the database or of the hash library
  (500 answers other than the schema's length check) are left out, and so
  are request bodies with missing fields.
- A malformed user id makes the data routes' lookup fail with 500. This
  is left out: ids are opaque strings.
- React's effect scheduling is collapsed: every edit of a field runs its
  effects at once (`RegisterForm.SetUsername`, `SetPassword`,
  `SetConfirm`). The loading flags, alerts and error texts are left out.
  So is what happens after the registration request is sent.
- AuthRoute.Register: the name is trimmed in lookups as well as in the
  stored account. This follows the schema's `trim` setter, which the
  database library also applies to query values.
- AuthRoute.Register: the schema's minimum password length applies to
  the stored hash, so the route enforces no minimum on the password
  itself (`AuthRoute.ShortPasswordAccepted`).
- JournalView.AiSummary: models the button press with nothing else
  happening while the request is pending. The general case, where the
  list may change before the answer arrives, is `SummaryComplete`,
  illustrated by `MessageSentDuringSummaryIsSkipped`.
- TodoView.DragOverForDate: applies the corrected reorder, which does
  nothing when the dragged id is missing. The code as written is
  `TodoView.DragOverForDateAsWritten`; the two agree whenever the id is
  present (`DragOverForDateAgreesWhenPresent`).
- JournalView.JournalKey: the corrected key is the selected date itself.
  It carries no contract of its own; `JournalKeyFollowsCalendar` states
  its property.
- State.TypeOf: the round trip holds only for well-formed kinds. An
  `Other` kind holding "ai" or "user" is never produced by `KindOf`.
- DayKey.KeyOf: the length and round-trip facts are stated for
  four-digit years only. Other years print with fewer or more
  characters, or with a sign.
- RegisterForm.CheckDuplicate: the `available` field is read as a
  boolean or absent. Other truthy or falsy JSON values are not modelled.

## Findings

| source | as written | input that shows it | evidently intended | confidence | as-written member | corrected member |
|---|---|---|---|---|---|---|
| src/components/MyTodo.jsx:64-68 | when the dragged id is not in the displayed list, `findIndex` gives -1 and `splice(-1, 1)` takes out the last item, which is then inserted at the hovered item's index | list [A, B, C], nothing being dragged (`draggingId` null, e.g. a file dragged in from outside), hover over A: the list becomes [C, A, B] and is saved | leave the list alone when the dragged item is not in it | not executed | TodoView.DragOverAsWrittenMovesLastItem | TodoView.DragOverAgreesWhenPresent |
| src/components/MyJournal.jsx:95 | `toDay(selectedDate)` is given the selected date, which is always a `YYYY-MM-DD` string (src/stores/useAppStore.js:11, src/components/MyCalendar.jsx:60); a string is not a Date, so `toDay` falls back to the current date | pick 2024-01-01 in the calendar on 2024-01-02: the journal reads and writes the messages of 2024-01-02 | use the selected date string as the key | not executed | JournalView.JournalKeyAsWrittenIgnoresSelection | JournalView.JournalKeyFollowsCalendar |
