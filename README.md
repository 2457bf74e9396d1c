# Live Polling System — a verified model of its poll core

The Live Polling System lets a teacher run one poll at a time. Students answer it in real time. The server in this model keeps:

- polls and responses in a document store;
- socket handlers that create polls, take votes and end polls;
- a roster of connected users;
- timers that broadcast the remaining time and close each poll.

The browser side keeps a small reducer-based poll state and validates the teacher's form and the student's name. It also formats the countdown.

This project models that core in Dafny.

**Store and record shapes:**

- The store is a class over the Poll and Response collections. Its queries are loops, each proved against a recursive specification function.
- The handlers' effect on the store is three pure step functions: `Lifecycle.Create`, `Lifecycle.Vote` and `Lifecycle.End`. The create and end steps are shared by the REST and socket handlers as the store methods `Lifecycle.SaveNewPoll` and `Lifecycle.SaveEnded`, each proved to have exactly its step function's effect.
- The socket server (`Socket.SocketServer`) and the REST controller (`PollController`) are proved to have exactly those effects.
- The lemmas about the step functions state the intended behaviour: one active poll at a time, one vote per student and poll, tallies that match the responses. They also show where the code falls short of it:
  - ending twice overwrites `endedAt`;
  - a vote with an index outside the options saves the response but moves no tally.

**Roster, timers and client state:**

- The roster is an insertion-ordered sequence, because `removeStudent` depends on Map order.
- The runtime's timers are an abstract table of handles. A timer callback runs only when `Fire` is called.
- The client slice is a class whose reducers assign its fields.

**Representation choices:**

- Time is an integer number of milliseconds, passed as a parameter.
- Document ids are natural numbers, handed out in increasing order.
- Strings are `seq<char>`.
- `trim` strips the ECMAScript whitespace and line-terminator set.

Files:

| file | module | models |
|---|---|---|
| wrappers.dfy | Wrappers | `Option`, `Result` |
| text.dfy | Text | `trim`, integer `toString`, `padStart(2, "0")` |
| poll_model.dfy | PollModel | backend/models/Poll.js |
| response_model.dfy | ResponseModel | backend/models/Response.js |
| store.dfy | Store | the store's collections, queries and `save` |
| lifecycle.dfy | Lifecycle | create / vote / end as step functions, with their invariants, and the shared create and end steps on the store |
| history.dfy | History | the `getAllPolls` query (filter, sort, limit) |
| scheduler.dfy | Scheduler | the runtime's `setTimeout`/`setInterval` table |
| presence.dfy | Presence | the `connectedUsers` Map |
| socket_events.dfy | SocketEvents | remaining time, emitted events |
| socket.dfy | Socket | backend/socket.js handlers and `endPoll` |
| poll_controller.dfy | PollController | backend/controllers/pollController.js |
| poll_timer.dfy | PollTimer | backend/utils/pollTimer.js |
| poll_slice.dfy | PollSlice | frontend/src/features/poll/pollSlice.js |
| teacher_dashboard.dfy | TeacherDashboard | the option edits and checks of TeacherDashboard.jsx |
| student_join.dfy | StudentJoin | the name check of StudentJoin.jsx |
| timer_view.dfy | TimerView | `formatTime`, `getTimerColor`, time-up in Timer.jsx |

**Where the model follows the code rather than the intended behaviour:**

- A poll can be ended again. The second end overwrites `endedAt`.
- A vote whose `optionIndex` is outside the options has its response saved, and then the tally increment throws. The tallies then no longer add up to the response count.
- The REST `endPoll` does not clear the socket server's timers for that poll.
- `disconnect` leaves a `connectedStudents` entry whose name is the empty string, because its guard is the name's truthiness.
- The `ref` from a response to its poll is not checked by the store.
- The client's `pollEnded` reducer does not compare poll ids. It marks whichever poll is shown as ended.
- The REST `createPoll` checks only that the question is truthy and that there are at least two options. A blank question or an empty option text passes that check. The schema then rejects it, and the route answers 500, not 400.
- The REST `createPoll` (backend/controllers/pollController.js:9-57) neither emits `pollCreated` nor starts the poll's timers. The teacher dashboard creates polls through that route (frontend/src/components/TeacherDashboard.jsx:68-95). So a poll created from the dashboard is not announced to connected clients, and it never closes by itself when its duration runs out.

## Model

| member | source | states |
|---|---|---|
| PollModel.EffectiveDuration | backend/socket.js:43 | `duration \|\| 60`: an absent or zero duration becomes 60, any other value is kept; never 0 |
| PollModel.FreshOptions | backend/socket.js:42 | one option per text, in input order, each with 0 votes |
| PollModel.TextsOfFreshOptions | backend/controllers/pollController.js:39 | the option texts of a fresh option list are exactly the input texts |
| PollModel.NewPollDocument | backend/models/Poll.js:8-41 | a new poll has the trimmed question, the input texts with 0 votes, the defaulted duration, status active, `createdAt` now and no `endedAt` |
| PollModel.NewPollWellFormed | backend/models/Poll.js:8-34 | a new poll the schema accepts is well formed: trimmed non-empty question, non-empty option texts, non-negative tallies, no end time while active |
| PollModel.Increment | backend/socket.js:124 | `options[k].votes += 1` changes option k's votes by one and no other option |
| PollModel.IncrementWellFormed | backend/socket.js:124-125 | raising a tally keeps a poll well formed |
| PollModel.VoteSumIncrement | backend/socket.js:124 | raising one tally raises the sum of tallies by exactly one |
| PollModel.VoteSumFresh | backend/models/Poll.js:19-22 | a fresh option list sums to 0 votes |
| PollModel.VoteSumNonNegative | backend/models/Poll.js:19-22 | non-negative tallies have a non-negative sum |
| ResponseModel.NewResponse | backend/models/Response.js:8-25 | a response stores the poll id, the trimmed name, the option index and the submission time |
| ResponseModel.ResponseCount | backend/socket.js:128 | `countDocuments({ pollId })` is at most the number of responses |
| ResponseModel.CountAppend | backend/socket.js:121-128 | saving a response adds one to its own poll's count and nothing to any other poll's |
| ResponseModel.ResponseCountZero | backend/socket.js:128 | a poll's response count is 0 exactly when no response names it |
| ResponseModel.AppendKeepsUnique | backend/models/Response.js:29 | appending a response whose (pollId, studentName) key is new keeps all keys unique |
| ResponseModel.UniqueKeyDeterminesResponse | backend/models/Response.js:29 | under the unique index, one key identifies at most one response |
| Text.TrimStart | backend/models/Poll.js:11 | `trim`'s prefix step removes exactly a whitespace prefix, and the result does not start with whitespace |
| Text.TrimEnd | backend/models/Poll.js:11 | `trim`'s suffix step removes exactly a whitespace suffix, and the result does not end with whitespace |
| Text.Trim | backend/models/Response.js:16 | `trim` returns the infix that is left when the whitespace on both sides is removed; it neither starts nor ends with whitespace |
| Text.TrimFixesTrimmed | backend/models/Response.js:13-17 | `trim`'s result is trimmed, and a string is left alone by `trim` exactly when it is trimmed |
| Text.TrimIdempotent | frontend/src/components/StudentJoin.jsx:35 | trimming twice is trimming once |
| Text.TrimEmptyIffBlank | frontend/src/components/TeacherDashboard.jsx:48 | a string trims to empty exactly when all of its characters are whitespace |
| Text.NatToString | frontend/src/components/Timer.jsx:32 | the decimal form of a non-negative integer is digits only, with no leading zero, and is one character exactly below 10 |
| Text.PadStart2 | frontend/src/components/Timer.jsx:32 | `padStart(2, "0")` keeps the string as its suffix and has length at least 2 |
| Text.ParseNatToString | frontend/src/components/Timer.jsx:32 | reading the decimal form back gives the number |
| Text.Utf16Length | frontend/src/components/StudentJoin.jsx:29 | a string's JavaScript `length` counts UTF-16 code units: at least its number of code points and at most twice it |
| Text.Utf16LengthOfBmp | frontend/src/components/StudentJoin.jsx:29 | for a string with no code point above U+FFFF, `length` is the number of code points |
| Store.FirstActive | backend/socket.js:33 | `findOne({ status: "active" })`: the first active poll in store order, or none when no poll is active |
| Store.ById | backend/socket.js:98 | `findById`: the first poll with that id, or none when no poll has it |
| Store.OnlyActiveIsFirst | backend/socket.js:33-37 | with at most one active poll, the active poll is the one `findOne` returns |
| Store.ByIdOfIncreasing | backend/socket.js:306 | with increasing ids, looking a poll's id up finds that poll |
| Store.ByIdAfterReplace | backend/socket.js:309-311 | saving a poll under its own id leaves every id lookup unchanged |
| Store.ByIdAfterAppend | backend/socket.js:48 | inserting a poll leaves every lookup of an already stored id unchanged |
| Store.ReplaceKeepsValid | backend/socket.js:309-311 | saving a well-formed poll under its id keeps the store invariant (ordered ids, at most one active poll, well-formed polls, valid responses) |
| Store.AppendKeepsValid | backend/socket.js:40-48 | inserting a well-formed poll with the next id, active only when no other is, keeps the store invariant |
| Store.AppendResponseKeepsValid | backend/socket.js:115-121 | inserting a trimmed, non-empty response with a new key keeps the store invariant |
| Store.PollStore.FindActive | backend/socket.js:33 | the scan returns the first active poll, as `FirstActive` |
| Store.PollStore.FindById | backend/socket.js:98 | the scan returns the poll with that id, as `ById` |
| Store.PollStore.CountDocuments | backend/socket.js:128 | the scan counts the responses naming the poll, as `ResponseCount` |
| Store.PollStore.FindResponse | backend/socket.js:105-108 | a response is found exactly when one with that poll id and the trimmed name is stored |
| Store.PollStore.InsertPoll | backend/socket.js:48 | `save()` of a new poll stores it exactly when it passes the schema; otherwise nothing changes; the invariant holds |
| Store.PollStore.SavePoll | backend/socket.js:311 | `save()` of a changed poll replaces it in place and keeps the invariant |
| Store.PollStore.InsertResponse | backend/models/Response.js:8-29 | a response is rejected when its name is empty, refused under the unique index when its key exists, and otherwise appended |
| Lifecycle.Create | backend/socket.js:33-48 | refused, changing nothing, exactly while a poll is active; fails, changing nothing, exactly for a blank question or an empty text; otherwise appends an active poll with id `nextId`, the trimmed question, the texts in order at 0 votes, `duration \|\| 60`, `createdAt` now and no `endedAt` |
| Lifecycle.Vote | backend/socket.js:98-128 | refused, changing nothing, for a missing or non-active poll and for a name that already voted; recorded exactly when the poll is active, the trimmed name has no response on it yet, is not blank, and the index is inside the options; when recorded, exactly one response is added and only the chosen tally rises by one, and the reply carries the new tallies and the poll's response count; a failure keeps at most the saved response |
| Lifecycle.Record | backend/socket.js:115-128 | the saving half of a vote: a blank name fails and changes nothing; otherwise the response is saved, and with an index inside the options the chosen tally rises and the vote is recorded with the new tallies and the poll's response count, while with any other index the vote fails and only the response stays |
| Lifecycle.End | backend/socket.js:306-311 | a missing id changes nothing; otherwise only that poll changes, to status ended with `endedAt` now |
| Lifecycle.SaveNewPoll | backend/controllers/pollController.js:26-43 | the active-poll lookup, the new document and its save leave the store, and give the outcome, exactly as `Create`, keeping the store invariant |
| Lifecycle.SaveEnded | backend/socket.js:306-311 | the id lookup, the status change and the save leave the store exactly as `End`, keeping the store invariant; the position returned is the id lookup's |
| Lifecycle.CreateKeepsValid | backend/socket.js:33-48 | create keeps the store invariant, at most one active poll in particular |
| Lifecycle.CreateKeepsTally | backend/socket.js:40-48 | create keeps every poll's tally sum equal to its response count |
| Lifecycle.SecondCreateRefused | backend/socket.js:33-37 | after a create succeeds, every further create is refused and changes nothing |
| Lifecycle.VoteKeepsValid | backend/socket.js:98-125 | a vote, whatever its outcome, keeps the store invariant, unique response keys in particular |
| Lifecycle.RecordKeepsValid | backend/socket.js:115-125 | saving a vote by a name with no response on the poll keeps the store valid, whichever way the save and the increment end |
| Lifecycle.VoteKeepsTally | backend/socket.js:115-140 | a vote that is not a failure keeps every poll's tally sum equal to its response count, and the reported total equals the sum of the reported tallies |
| Lifecycle.OutOfRangeVoteBreaksTally | backend/socket.js:115-125 | an out-of-range index on an active poll, by a new non-blank name, fails yet saves the response, so the tallies lag the count by one |
| Lifecycle.SecondVoteRefused | backend/socket.js:105-112 | once a name's vote is recorded, a second vote from that name, up to surrounding whitespace, is refused and changes nothing |
| Lifecycle.EndKeepsValid | backend/socket.js:306-311 | ending keeps the store invariant |
| Lifecycle.EndKeepsTally | backend/socket.js:309-311 | ending moves no tally and no response |
| Lifecycle.EndActiveFreesSlot | backend/socket.js:306-311 | ending the active poll leaves no active poll |
| Lifecycle.EndTwiceOverwritesEndedAt | backend/socket.js:310 | a second end overwrites `endedAt` with its own time and changes nothing else |
| History.EndedPolls | backend/controllers/pollController.js:135 | `find({ status: "ended" })`: only ended polls from the store, and every ended poll of the store; a one-poll store gives that poll exactly when it is ended |
| History.EndedPollsSnoc | backend/controllers/pollController.js:135 | one more poll at the end of the store is kept or dropped on its own, after the others |
| History.EndedPollsAppend | backend/controllers/pollController.js:135 | the scan works poll by poll: the ended polls of two stores one after the other are those of the first, then those of the second; with the one-poll case, every ended poll appears once, in store order |
| History.InsertNewestFirst | backend/controllers/pollController.js:136 | inserting into a newest-first list keeps it newest first and adds exactly that poll |
| History.SortNewestFirst | backend/controllers/pollController.js:136 | `sort({ createdAt: -1 })`: newest first, and a permutation of its input |
| History.HistoryPage | backend/controllers/pollController.js:135-137 | the page holds `min(50, number of ended polls)` polls |
| History.HistoryProperties | backend/controllers/pollController.js:135-137 | the page holds only ended stored polls, newest first, none more often than it is stored; every ended poll left off is no newer than any poll on the page |
| Scheduler.Schedule | backend/socket.js:60-80 | `setTimeout`/`setInterval` register the job under a fresh handle and keep every other pending job |
| Scheduler.Cancel | backend/socket.js:316-317 | `clearTimeout`/`clearInterval` drop exactly that handle; a no-op for one that is not pending |
| Presence.Keys | backend/socket.js:6 | every roster entry's connection id is a key |
| Presence.IndexOfKey | backend/socket.js:278 | `connectedUsers.get` finds an entry for the id exactly when the id is a key |
| Presence.Delete | backend/socket.js:291 | `delete` never lengthens the roster |
| Presence.DeleteKeys | backend/socket.js:291 | `delete(sid)` removes exactly `sid` from the keys |
| Presence.KeysOfReplace | backend/socket.js:15-19 | `set` on a present id keeps the key set |
| Presence.PutProperties | backend/socket.js:15-19 | about `Presence.Put` (`connectedUsers.set`): `set` makes the new entry the one stored for its id, adds only that id, appends only for a new id, and keeps every other entry in place |
| Presence.DeleteAt | backend/socket.js:247 | deleting the id at position k removes exactly that entry and keeps the order of the rest |
| Presence.DeleteAbsent | backend/socket.js:291 | deleting an absent id changes nothing |
| Presence.DeleteKeepsUnique | backend/socket.js:247 | deleting keeps the connection ids distinct |
| Presence.FirstStudentNamed | backend/socket.js:238-239 | the first entry in Map order that is a student with that name, or none when there is none |
| Presence.RemoveStudentProperties | backend/socket.js:236-257 | removing a student deletes at most one entry, the first student with that name, and nothing when there is none; teachers and all other entries stay, in order |
| SocketEvents.RemainingTime | backend/socket.js:61-64 | the remaining time is never negative, is 0 exactly once `duration` seconds have passed, and is at most `duration` once the poll has started |
| SocketEvents.RemainingMonotone | backend/socket.js:160-163 | the remaining time never rises as the clock advances |
| SocketEvents.RemainingAfterSecond | backend/socket.js:60-64 | one second later the remaining time is one less, floored at 0 |
| SocketEvents.CreateEmissions | backend/socket.js:33-90 | one emission: on success `pollCreated` to everyone with the new poll's id, question, option texts, duration and start time; otherwise `pollError` to the caller only, with "A poll is already active" or "Failed to create poll" |
| SocketEvents.VoteEmissions | backend/socket.js:99-150 | one emission: for a recorded vote `voteSubmitted` to everyone with the poll id, the new tallies and the response count; otherwise `voteError` to the caller only, with the message of its outcome |
| SocketEvents.ActivePollReply | backend/socket.js:157-179 | `noActivePoll` exactly when no poll is active; else the active poll's id, question, texts, duration, tallies, response count, and `RemainingTime` for it at `now` (never negative, 0 exactly when it is due) |
| SocketEvents.PollResultsReply | backend/socket.js:188-202 | no reply for an unknown id; else the poll's question, tallies, status and response count |
| Socket.StartPollTimers | backend/socket.js:60-85 | `createPoll` schedules a `Tick` interval and then an `AutoClose` timeout due `duration` seconds later |
| Socket.TrackedAfterStart | backend/socket.js:82-85 | recording both new handles under a new poll id keeps the timer bookkeeping exact |
| Socket.TrackedAfterStop | backend/socket.js:314-319 | clearing both handles and deleting the entry keeps the bookkeeping exact and leaves no job for that poll |
| Socket.TrackedAfterCancel | backend/socket.js:71-72 | clearing a handle keeps the bookkeeping exact |
| Socket.PutKeepsPresence | backend/socket.js:14-19 | `set` on the roster (and on the students map) keeps ids distinct and every named student in the roster |
| Socket.DeleteKeepsPresence | backend/socket.js:280-291 | `delete` on the roster keeps the presence invariant once the id's student name is gone or empty |
| Socket.AppendKeepsStored | backend/socket.js:48-85 | a newly saved poll has no timer entry yet, and every timed poll stays stored |
| Socket.ReplaceKeepsStored | backend/socket.js:311 | saving a poll in place keeps every timed poll stored |
| Socket.StopPollTimers | backend/socket.js:314-319 | `endPoll` clears both of the poll's handles when it has an entry, else nothing |
| Socket.SocketServer.constructor | backend/socket.js:4-6 | the three maps, the timer table and the store start empty |
| Socket.SocketServer.StudentJoin | backend/socket.js:13-27 | the name is stored under the caller's id in both maps; the caller is confirmed and the roster is broadcast; timers are untouched |
| Socket.SocketServer.TeacherJoin | backend/socket.js:261-273 | the caller enters the roster only, as "Teacher", and the roster is broadcast |
| Socket.SocketServer.Disconnect | backend/socket.js:276-297 | the caller leaves the roster; its student entry is dropped only when its name is truthy; the roster is broadcast |
| Socket.SocketServer.GetParticipants | backend/socket.js:230-233 | the roster, in order, is sent to the caller, and nothing changes |
| Socket.SocketServer.RemoveStudent | backend/socket.js:236-258 | the loop stops at the first student with that name; that entry leaves both maps, its socket is notified and the roster is broadcast; no match changes nothing |
| Socket.SocketServer.RemoveEntry | backend/socket.js:240-254 | the loop body deletes the entry's id from both maps and emits the notice and the roster |
| Socket.SocketServer.CreatePoll | backend/socket.js:30-92 | the store changes as `Create`; the emissions are `CreateEmissions`; on success the poll's interval and timeout are scheduled and recorded under its id, else no timer changes |
| Socket.SocketServer.Launch | backend/socket.js:51-85 | starting a saved poll's two timers records them under its id and emits nothing |
| Socket.SocketServer.SubmitVote | backend/socket.js:95-152 | the store changes as `Vote`, and the emissions are `VoteEmissions`; timers and roster are untouched |
| Socket.SocketServer.SaveVote | backend/socket.js:98-128 | the poll lookup, the duplicate check and the save leave the store, and give the outcome, exactly as `Vote`, keeping the server invariant |
| Socket.SocketServer.RecordVote | backend/socket.js:114-128 | saving, incrementing and counting have exactly the effect and outcome of `Record` |
| Socket.SocketServer.GetActivePoll | backend/socket.js:155-183 | the caller is sent `ActivePollReply`, and nothing else changes |
| Socket.SocketServer.GetPollResults | backend/socket.js:186-206 | the caller is sent `PollResultsReply` when the poll exists, else nothing |
| Socket.SocketServer.EndPoll | backend/socket.js:304-338 | the store changes as `End`; for a found poll both timers are cleared, its entry is dropped, no job for it remains and `pollEnded` carries the final tallies and count; an unknown id changes nothing |
| Socket.SocketServer.StopTimers | backend/socket.js:313-319 | the poll's entry is dropped and its handles are cleared; no job for it remains |
| Socket.SocketServer.Fire | backend/socket.js:60-80 | a tick broadcasts the remaining time and clears its interval at 0; a due timeout clears itself and the interval and ends the poll as `endPoll` does: the store as `End`, the entry dropped, the exact timer table, no job left for the poll, and `pollEnded` with the final tallies and count broadcast |
| Socket.SocketServer.Tick | backend/socket.js:60-73 | the interval callback broadcasts `RemainingTime` for the poll and clears its own handle exactly when that is 0; nothing else changes |
| Socket.SocketServer.Report | backend/socket.js:66-73 | for a known remaining time `r`: `timerUpdate` with `r` to everyone, and the handle cleared exactly when `r <= 0` |
| Socket.SocketServer.AutoClose | backend/socket.js:77-80 | the timeout clears itself and the interval, then has `EndPoll`'s effect: ended in the store, timers of the poll cleared, `pollEnded` broadcast |
| PollController.CreateReply | backend/controllers/pollController.js:28-56 | 201 with the poll exactly when created; 400 with the active-poll message when one is active; 500 when the save fails |
| PollController.AcceptedBodyCanFailSchema | backend/controllers/pollController.js:14-43 | with no poll active, a body that passes the request check fails the save, and is answered 500, exactly when its question is blank or one of its option texts is empty |
| PollController.SchemaFailureExamples | backend/controllers/pollController.js:14-24 | both cases occur: a one-space question with two options, and a question with an empty second option, pass the request check and fail the save |
| PollController.CreatePoll | backend/controllers/pollController.js:9-57 | a body failing the request check gets 400 and changes nothing; otherwise the store changes as `Create` and the reply is `CreateReply` |
| PollController.GetActivePoll | backend/controllers/pollController.js:64-91 | 404 exactly when no poll is active; else 200 with the active poll and its response count |
| PollController.GetPollById | backend/controllers/pollController.js:98-125 | 404 exactly for an unknown id; else 200 with that poll and its response count |
| PollController.WithCounts | backend/controllers/pollController.js:140-148 | each page entry, in order, paired with its own response count |
| PollController.GetAllPolls | backend/controllers/pollController.js:132-161 | 200 with the history page, each poll with its response count |
| PollController.EndPoll | backend/controllers/pollController.js:168-194 | the store changes as `End`; 404 exactly for an unknown id, else 200 with the ended poll |
| PollController.CheckStudentVoted | backend/controllers/pollController.js:201-221 | 200, and `hasVoted` is true exactly when a response with that poll id and trimmed name is stored |
| PollTimer.Withdraw | backend/utils/pollTimer.js:16-18 | clearing a poll's registered timeout leaves registry and table agreeing without it and keeps every other poll's timeout |
| PollTimer.StartThenStop | backend/utils/pollTimer.js:14-40 | starting and then stopping a poll's timer leaves the same pending timeouts as clearing its earlier one alone |
| PollTimer.PollTimerRegistry.constructor | backend/utils/pollTimer.js:6 | the registry starts empty |
| PollTimer.PollTimerRegistry.IsTimerActive | backend/utils/pollTimer.js:47-49 | a poll is registered exactly when a timeout for it is pending |
| PollTimer.PollTimerRegistry.StartPollTimer | backend/utils/pollTimer.js:14-28 | the earlier timeout is cleared and a new one registered, `duration * 1000` ms away; exactly one entry for the id; `isTimerActive` holds afterwards |
| PollTimer.PollTimerRegistry.StopPollTimer | backend/utils/pollTimer.js:34-40 | only the id's timeout is cleared and its entry dropped; a no-op when absent |
| PollTimer.PollTimerRegistry.ClearAllTimers | backend/utils/pollTimer.js:54-58 | every registered timeout is cleared and the registry is empty |
| PollTimer.PollTimerRegistry.Fire | backend/utils/pollTimer.js:21-24 | the callback runs, then the id's entry is removed |
| PollSlice.StartingTime | frontend/src/features/poll/pollSlice.js:30-31 | `timeRemaining \|\| duration \|\| 0`: 0 exactly when both are absent or 0; a remaining time of 0 falls through to the duration |
| PollSlice.Decremented | frontend/src/features/poll/pollSlice.js:76-78 | a positive count goes down by one; a count of 0 or less stays |
| PollSlice.CountdownFloor | frontend/src/features/poll/pollSlice.js:75-79 | from `t >= 0`, n decrements leave `max(0, t - n)` |
| PollSlice.PollSliceStore.constructor | frontend/src/features/poll/pollSlice.js:6-15 | the initial state, with the stored name or "" |
| PollSlice.PollSliceStore.SetStudentName | frontend/src/features/poll/pollSlice.js:22-25 | only the name changes |
| PollSlice.PollSliceStore.SetCurrentPoll | frontend/src/features/poll/pollSlice.js:28-32 | the poll is set and the clock is `StartingTime`; nothing else changes |
| PollSlice.PollSliceStore.ClearCurrentPoll | frontend/src/features/poll/pollSlice.js:35-40 | poll, vote flag, selection and clock reset; nothing else changes |
| PollSlice.PollSliceStore.UpdatePollResults | frontend/src/features/poll/pollSlice.js:43-52 | only when a poll is shown and the payload names no poll or that one; then only its results and count change |
| PollSlice.PollSliceStore.SetPollHistory | frontend/src/features/poll/pollSlice.js:55-57 | only the history changes |
| PollSlice.PollSliceStore.SetHasVoted | frontend/src/features/poll/pollSlice.js:60-62 | only the vote flag changes |
| PollSlice.PollSliceStore.SetSelectedOption | frontend/src/features/poll/pollSlice.js:65-67 | only the selection changes |
| PollSlice.PollSliceStore.UpdateTimer | frontend/src/features/poll/pollSlice.js:70-72 | only the clock changes |
| PollSlice.PollSliceStore.DecrementTimer | frontend/src/features/poll/pollSlice.js:75-79 | only the clock changes, by one step of `Decremented` |
| PollSlice.PollSliceStore.SetLoading | frontend/src/features/poll/pollSlice.js:82-84 | only the loading flag changes |
| PollSlice.PollSliceStore.SetError | frontend/src/features/poll/pollSlice.js:87-89 | only the error changes |
| PollSlice.PollSliceStore.ClearError | frontend/src/features/poll/pollSlice.js:92-94 | only the error is cleared |
| PollSlice.PollSliceStore.PollEnded | frontend/src/features/poll/pollSlice.js:97-104 | the clock goes to 0; a shown poll is marked ended with the final results and count; with none shown nothing else changes |
| TeacherDashboard.AddOption | frontend/src/components/TeacherDashboard.jsx:16-22 | below six rows a blank row is appended, else a warning and no change |
| TeacherDashboard.WithoutIndex | frontend/src/components/TeacherDashboard.jsx:26 | `filter((_, i) => i !== index)` removes exactly row `index` and keeps the order; another index removes nothing |
| TeacherDashboard.RemoveOption | frontend/src/components/TeacherDashboard.jsx:24-30 | above two rows row `index` is removed, else a warning and no change |
| TeacherDashboard.OptionChange | frontend/src/components/TeacherDashboard.jsx:32-36 | only row `index`'s text changes |
| TeacherDashboard.CorrectChange | frontend/src/components/TeacherDashboard.jsx:38-42 | only row `index`'s flag changes |
| TeacherDashboard.ReplayKeepsBounds | frontend/src/components/TeacherDashboard.jsx:9-30 | from two to six rows, any sequence of calls of the add and remove handlers keeps between two and six (only the add handler is wired to a button) |
| TeacherDashboard.Filter | frontend/src/components/TeacherDashboard.jsx:53 | `filter` keeps exactly the elements its test accepts, is never longer than its input, and keeps a single element exactly when the test accepts it |
| TeacherDashboard.FilterSnoc | frontend/src/components/TeacherDashboard.jsx:53 | filtering a list with one more element at its end keeps or drops that element on its own, after the filtered list |
| TeacherDashboard.FilterAppend | frontend/src/components/TeacherDashboard.jsx:53 | `filter` works element by element: filtering two lists one after the other gives the two filtered lists one after the other; with the one-element case this fixes the result, its order and its repetitions |
| TeacherDashboard.ValidOptions | frontend/src/components/TeacherDashboard.jsx:53 | the kept rows are exactly the rows whose trimmed text is not empty; a single row is kept exactly when its trimmed text is not empty |
| TeacherDashboard.ValidOptionsAppend | frontend/src/components/TeacherDashboard.jsx:53 | the rows kept from two lists one after the other are the rows kept from the first followed by those kept from the second; with the one-row case of `ValidOptions` this fixes the kept rows, their order and their repetitions |
| TeacherDashboard.RepeatedRowsKept | frontend/src/components/TeacherDashboard.jsx:53-54 | two identical filled rows are both kept, so they count twice towards the two-option minimum |
| TeacherDashboard.OptionTexts | frontend/src/components/TeacherDashboard.jsx:68 | the posted texts are the rows' texts, untrimmed, in order |
| TeacherDashboard.ValidateCreate | frontend/src/components/TeacherDashboard.jsx:48-79 | each error appears exactly when its check is the first to fail; on success the request is the question as typed, the texts of the rows `ValidOptions` keeps, in order and with repetitions, and the duration, in [10, 300], with no flags |
| TeacherDashboard.AcceptedFormFields | frontend/src/components/TeacherDashboard.jsx:48-79 | a form that passes has a non-blank question, at least two non-empty texts and a duration in range |
| TeacherDashboard.CreateStores | backend/controllers/pollController.js:37-44 | with no poll active, a non-blank question, non-empty texts and a non-zero duration are stored with those texts and that duration |
| TeacherDashboard.AcceptedFormIsCreated | frontend/src/components/TeacherDashboard.jsx:75-79 | a form that passes the client's checks passes the route's check and, with no poll active, is stored with the posted texts and duration |
| StudentJoin.ValidateName | frontend/src/components/StudentJoin.jsx:24-32 | "Please enter your name" exactly for a blank name, "Name must be at least 2 characters" exactly when the trimmed name's JavaScript `length` (UTF-16 code units) is 1, otherwise the trimmed name |
| StudentJoin.HandleJoin | frontend/src/components/StudentJoin.jsx:21-46 | refused with the check's error, or the same trimmed name is stored, sent, passed to `onJoin` when given, and welcomed |
| StudentJoin.AcceptedNameIsStable | frontend/src/components/StudentJoin.jsx:35-43 | an accepted name is not empty, has a JavaScript `length` of at least 2, is already trimmed, and is saved unchanged by the response schema |
| StudentJoin.SingleCharacterName | frontend/src/components/StudentJoin.jsx:29-32 | a one-character name that is not whitespace is refused as too short exactly when the character is one UTF-16 code unit; a character above U+FFFF, such as an emoji, is accepted on its own |
| StudentJoin.SurroundingBlanksIgnored | frontend/src/components/StudentJoin.jsx:24-32 | names equal after trimming get the same verdict |
| TimerView.JsRem | frontend/src/components/Timer.jsx:31 | JavaScript `%`: the mathematical remainder for a non-negative dividend, and a non-positive one above `-b` for a negative dividend |
| TimerView.TwoDigits | frontend/src/components/Timer.jsx:32 | a seconds value below 100, padded, is exactly two digits that read back as it |
| TimerView.ClockRoundTrip | frontend/src/components/Timer.jsx:29-33 | the text for `m` minutes and `s < 60` seconds reads back as `m * 60 + s` |
| TimerView.FormatRoundTrip | frontend/src/components/Timer.jsx:29-33 | about `TimerView.FormatTime` (`formatTime`): for `s >= 0`, reading `formatTime(s)` back as minutes and seconds gives `s` |
| TimerView.FormatInjective | frontend/src/components/Timer.jsx:29-33 | two different non-negative counts never show the same text |
| TimerView.NegativeParts | frontend/src/components/Timer.jsx:30-31 | for a negative count the floored minutes are negative and the JavaScript remainder lies in (-60, 0]; it is 0 exactly for whole minutes, and otherwise the two fall a minute short of the count |
| TimerView.NegativeClock | frontend/src/components/Timer.jsx:32 | negative minutes with zero seconds show as "-m:00"; with negative seconds both halves carry a minus sign |
| TimerView.NegativeFormat | frontend/src/components/Timer.jsx:29-33 | a negative count shows negative minutes; the seconds show a minus sign unless the count is a whole number of minutes, when they show "00"; minutes times 60 plus the shown seconds is the count, or a minute less when the seconds are negative |
| TimerView.NegativeFormatExamples | frontend/src/components/Timer.jsx:29-33 | -5 shows as "-1:-5" and -60 as "-1:00" |
| TimerView.TimerColor | frontend/src/components/Timer.jsx:35-39 | red exactly up to 10, orange exactly from 11 to 30, the theme colour exactly above 30 |
| TimerView.ColorMonotone | frontend/src/components/Timer.jsx:35-39 | as the clock runs down, the colour never becomes less urgent |
| TimerView.TimeUpAfterCountdown | frontend/src/components/Timer.jsx:22-27 | from `t >= 0`, the time-up condition holds after n decrements exactly when `n >= t` |

## Left out

- The storage engine is not modelled: query planning, indexes as data structures, ObjectId casting and its CastError are all out. Ids are natural numbers, so an ill-formed id cannot reach a handler.
- Concurrency is not modelled. Every handler runs as one atomic step, so the check-then-create and check-then-vote races are out, and so are the races between a timer and a manual end.
- Real clocks and timers are parameters or explicit events. `Date.now` is the `now` argument, and a timer callback runs only when `Fire` is called.
- Transport is out. `io.emit` and `socket.emit` become an appended log of emissions, and payload field names are not modelled.
- The chat broadcast and the `console` logging are out, because they change no state.
- The `localStorage` writes in `setStudentName` and `StudentJoin` are left out (browser I/O). The stored name enters only as the slice constructor's argument.
- Floating-point displays are out: percentages, the progress-bar width in Timer.jsx, and PollQuestion.jsx's copy of the clock text.
- The REST vote route is not modelled. backend/routes/pollRoutes.js imports `submitVote` from the controller, which exports no such function. Voting is modelled from the socket handler.
- Route wiring in backend/routes/pollRoutes.js and server setup in backend/server.js are not part of this model.
- History.SortNewestFirst: polls with equal `createdAt` keep store order. The store's real tie order is unspecified, so the contract states only newest-first order and the permutation.
- Socket.SocketServer.RemoveStudent: the notified socket is assumed still connected. The forced `disconnect(true)` and the `disconnect` event that follows it are left to a separate `Disconnect` call.
- PollTimer.PollTimerRegistry.Fire: the callback is an opaque token. Its own effects are not modelled, and neither is a callback that throws or starts another timer.
- Values of an unexpected JSON type are out: a question or option that is not a string, a duration that is not an integer (NaN, fractions), and an `optionIndex` that is not an integer (a string, a fraction) in `submitVote` (backend/socket.js:124). Option texts are strings, and the duration and `optionIndex` are `int`s.
- React effect scheduling is out. `TimeUp` is the condition the effect tests; when the effect runs is not modelled.
- TeacherDashboard.OptionChange: requires an index inside the list, where the source would throw on a missing row. The in-place write through the shallow copy is modelled as a value update of that row.
- TeacherDashboard.CorrectChange: the same restriction and the same value update as `OptionChange`.
- The `required` attributes on the question and option inputs (frontend/src/components/TeacherDashboard.jsx:150, 172) are out: the browser refuses to submit a form with an empty question or an empty option row before `handleCreatePoll` runs. The model's `ValidateCreate` receives every form, so its empty-question and empty-row cases are reached in the page only through whitespace-only text.
- The event listeners in the page components (Teacher.jsx, Student.jsx, App.jsx) are not part of this model; what they dispatch is the slice's reducers.
