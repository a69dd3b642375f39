# Verification of the proxy node's bookkeeping

The node lets users of a proxy panel connect, limits how many devices and how much speed each may use,
and tells the panel what it sees. This project models the parts that keep books, in Dafny, and proves
what the books are for: that their redundant entries agree in every reachable state, that limits hold
over whole runs, that a report is left out only when the panel already knows, and that bytes and users
are neither lost nor invented, or exactly when they are.

`dafny verify dfyconfig.toml` checks everything.

## The parts

- **`LimiterModel`, `DeviceLimiter`, `LimiterRuns`, `LimiterAnswers`.** `LimiterModel.State` is the device limiter without
  any cached size, counter or shortcut: reference counts per user and device, cooldowns, kick throttle,
  dirty flag, the panel's device table, cached speed buckets. `DeviceLimiter.Limiter` is the class with
  all of those redundancies; every method is proved to do to the state what the model says, so each
  shortcut equals the full test. `LimiterRuns` puts the limiter beside the TCP connections it admitted and
  lets requests, ends, kicks, purges, updates and pushed tables come in any order: no leaked device slot,
  the device quota, the cooldown, the spacing of kicks, and coherent speed buckets hold over every run.
  `LimiterAnswers` says in both directions who is let in, who is kicked and when, what is reported, and what
  an update leaves, in terms of the tables and the steps before.
- **`DeviceHash`, `DeviceReport`.** The text a report is hashed from is undone by a parser, so equal texts
  mean equal reports and order does not matter. `DeviceReport.Controller` is the report task with its
  hash, and its runs interleave limiter steps, lost and regained connections and rounds whose message the
  queue takes or refuses: a round that sends nothing leaves a panel that shows exactly the present
  (user, device) pairs; and a round sends exactly when it has something to say that the panel does not hold.
- **`UserSync`.** Comparing two user lists and updating the limiter, against building the table anew;
  table agreement over runs of pulled lists, pushed additions and removals, and failures of the core; and
  the coherence of speed buckets over runs in which these come between the steps of the limiter.
- **`Traffic`, `Collection`.** Counters as objects that connections hold on to, collection, retry and the message to
  the panel; conservation of bytes over every run, told apart into those that a message carries and those
  that it hides behind another entry of the same number.
- **`Links`, `Dispatcher`.** The open connections of a user and the cutting of one device's; admission by
  the limiter, registration, and the end of a connection in every branch.
- **`TaskGuard`.** The periodic task's fields and the interleavings of its loops, bodies and timeouts.
- **`Json5`, `Json5Text`.** The in-place cleaner of commented JSON, loop by loop, with its cursor that may
  pass the end; and, for every byte string, exactly when it cleans it as a reader of commented JSON would.

Time is a parameter. A victim drawn at random, and the order in which a Go map is walked, are any choice.

## Where the code does less than its comments say

Each is a lemma with the exact condition, and most have a concrete input beside it.

- A user whom the panel removes and then restores is not brought back "within seconds": an addition brings
  a user into the limiter's table if and only if the list does not have the number
  (`UserSync.AddRestoresIff`), and a removal leaves the list as it is, so after it the removed users are
  missing, whoever is added (`UserSync.RemovedThenAdded`, `UserSync.RemovedIsNotRestored`). They are refused
  for as long as every list that is pulled with success has them exactly once, and no longer
  (`UserSync.RestoredUserStaysMissing`, `UserSync.RemovedThenPulled`).
- The device quota holds for the devices that the limiter counts (`LimiterRuns.RunWithinLimit`). Counts
  agree with the connections in all states of a run if and only if no user is deleted while a connection
  of that user lives (`LimiterRuns.RunExactIff`), and then the quota holds for the connected devices too
  (`LimiterRuns.LiveWithinLimit`); a user deleted and added back in between can have more connected
  (`LimiterRuns.DeletionAdmitsMore`).
- Bytes that failed to be reported are retried, but the message keeps one entry per user, the old one:
  what was counted since is taken off the counter and not sent. Over a run nothing is hidden so exactly
  when no number repeats in a message that the panel takes (`Traffic.RunHidesIff`), and one refused report
  is enough to lose bytes of any user (`Traffic.RefusedReportLoses`).
- The cleaner meets every string literal, blanks comments and trailing commas and leaves the rest exactly
  when every star in a block comment has a blank after it, and no comma that is not trailing is followed,
  after white space, comments and lone slashes that each take a byte with them, by a closing bracket or by
  a lone slash before a quote (`Json5Text.CleansIff`, `Json5Text.EveryTextCleanedIff`). In the latter cases
  the comma is blanked, or the string literal is not noticed, whatever the rest of the text
  (`Json5Text.SlashBlanksComma`, `Json5Text.SlashHidesQuote`).
- The periodic task closes its stop channel twice exactly when a body's error reaches its loop while the
  task is not running (`TaskGuard.CrashesIff`, `TaskGuard.ClosedWhileFailing`).
- A user who is added again with other limits, as when a list has the uuid twice, keeps the bucket of the
  old limit (`LimiterRuns.RepeatedUserKeepsOldBucket`); `LimiterRuns.CoherentAfterUpdateIff` says when that
  happens, and `UserSync.NodeStaysCoherent` that it does not when pulled lists repeat no uuid.

## Model

| member | source | states |
|---|---|---|
| Json5.ConsumeComment | common/json5/json5.go:21-46 | the comment scanner, in place on the buffer: its effect and its cursor are those of `Comment`, all indices in bounds though the cursor may pass the end |
| Json5.Prep | common/json5/json5.go:49-93 | the whole scan in place: terminates and leaves the buffer that `Scan` gives |
| Json5.ScanBlanks | common/json5/json5.go:49-93 | on every byte string: length is kept and each byte is unchanged or becomes a space |
| Json5.MetLiteralKept | common/json5/json5.go:49-93 | on every byte string: no byte of a string literal that the scanner meets is changed |
| Json5.StepAhead | common/json5/json5.go:49-93 | the bytes beyond the cursor are still those of the input, and so is the one at it, unless it is the blanked end of a comment |
| Json5Text.LexIs | common/json5/json5.go:21-93 | every byte string is a text of plain bytes, string literals, comments and trailing commas, in which literals and comments end where they first can and exactly the trailing commas count as such |
| Json5Text.LexIsOnly | common/json5/json5.go:21-93 | it is so in one way only |
| Json5Text.CleansIff | common/json5/json5.go:21-93 | the scanner meets every string literal, blanks exactly the decorations and changes nothing else if and only if stars are spaced and no comma is misled |
| Json5Text.EveryTextCleanedIff | common/json5/json5.go:21-93 | the same condition, for every byte string |
| Json5Text.ScanErases | common/json5/json5.go:49-93 | the result is the text with its decorations turned into spaces, all string literals being met, if and only if the condition holds with spaces after the stars |
| Json5Text.DecorationsErased | common/json5/json5.go:21-93 | under the condition the cleaned text equals the undecorated one up to white space outside strings |
| Json5Text.UnchangedIffUndecorated | common/json5/json5.go:49-93 | under the condition the scan leaves a text as it is exactly when it has no comment and no trailing comma |
| Json5Text.OnlyTrailingCommasErased | common/json5/json5.go:58-91 | a text without comments loses exactly its trailing commas if and only if no slash behind a comma misleads the scanner |
| Json5Text.BlockErasedIffStarsSpaced | common/json5/json5.go:28-45 | whatever follows it, a block comment becomes white space (or only spaces) if and only if white space (or a space) follows each of its stars |
| Json5Text.BlockRestLeaves | common/json5/json5.go:28-45 | with a star not so spaced, some byte of the comment stays |
| Json5Text.SlashHidesQuote | common/json5/json5.go:73-87 | wherever a comma is followed by white space, a slash and a quote, the quote is never met |
| Json5Text.SlashBlanksComma | common/json5/json5.go:73-87 | wherever it is followed by white space, a slash, a byte, white space and a closing bracket, the comma is blanked |
| Json5Text.StarLeavesAByte | common/json5/json5.go:28-45 | a concrete comment of which a byte stays |
| Json5Text.SlashAfterCommaHidesAQuote | common/json5/json5.go:73-87 | a concrete text whose string literal loses its inside |
| DeviceLimiter.Limiter.constructor | limiter/limiter.go:150-183 | a new limiter has the listed users and alive counts and nothing else |
| DeviceLimiter.Limiter.SetAliveList | limiter/limiter.go:201-205 | replaces the alive counts only |
| DeviceLimiter.Limiter.DropUser | limiter/limiter.go:231-254 | a deleted user leaves no entry in any table; the summed cooldown counter and the cached size stay right |
| DeviceLimiter.Limiter.DropDevices | limiter/limiter.go:236-243 | counts, panel devices and their cached size go together |
| DeviceLimiter.Limiter.DropCooldown | limiter/limiter.go:244-252 | the counter falls by the number of entries that go |
| DeviceLimiter.Limiter.ModifyUser | limiter/limiter.go:255-266 | new limits, same number, and the cached bucket goes |
| DeviceLimiter.Limiter.UpdateUser | limiter/limiter.go:230-279 | deletions, then modifications, then additions; the whole new state, with all redundant fields in agreement |
| DeviceLimiter.Limiter.UpdateGlobalDevices | limiter/limiter.go:350-373 | the pushed lists become sets, their cached sizes the sizes of these sets, stamped with the time |
| DeviceLimiter.Limiter.ConnOpened | limiter/limiter.go:583-595 | one connection more for one device, dirty |
| DeviceLimiter.Limiter.ConnClosed | limiter/limiter.go:598-618 | one connection less; a device or user without any leaves no row; nothing for an unknown user |
| DeviceLimiter.Limiter.InCooldown | limiter/limiter.go:566-580 | the shortcut on the counter and the lookup give the cooldown test |
| DeviceLimiter.Limiter.CheckDeviceGate | limiter/limiter.go:627-700 | the shortcut bounds decide exactly the test on the union of local and global devices, and the victim is a permitted choice |
| DeviceLimiter.Limiter.TryOpenConn | limiter/limiter.go:484-519 | admits exactly outside the cooldown when the gate does not reject, counts what it admits, and starts a kick at most once per second and shard |
| DeviceLimiter.Limiter.KickDevice | limiter/limiter.go:525-554 | the device is in the cooldown until 300 seconds later; the counter counts it once however often it is kicked |
| DeviceLimiter.Limiter.CheckLimit | limiter/limiter.go:281-331 | who is refused, what is counted, and which bucket is handed out; UDP is judged and not counted |
| DeviceLimiter.Limiter.DevicesDirty | limiter/limiter.go:433-438 | forgets expired cooldowns and says whether the report can have changed |
| DeviceLimiter.Limiter.ResetDevicesDirty | limiter/limiter.go:473-473 | clears the flag only |
| DeviceLimiter.Limiter.PurgeExpiredCooldowns | limiter/limiter.go:442-469 | exactly the expired entries go, the counter follows, dirty exactly when one went |
| DeviceLimiter.Limiter.LocalDeviceSnapshot | limiter/limiter.go:378-426 | lists without repetition exactly the counted devices and those in an unexpired cooldown |
| DeviceLimiter.MergeCooling | limiter/limiter.go:395-425 | adds to each user's list the cooling devices it lacks |
| DeviceLimiter.WithCooling | limiter/limiter.go:404-421 | one user's list with its cooling devices, each once |
| DeviceLimiter.PurgeTable | limiter/limiter.go:446-465 | the purge loop: the remaining table, its number of entries, and whether anything went |
| DeviceLimiter.PurgeRow | limiter/limiter.go:451-461 | one user's unexpired entries and the number of the others |
| DeviceLimiter.UnionCount | limiter/limiter.go:671-677 | counting only the panel's devices that are not local gives the size of the union |
| DeviceLimiter.Release | limiter/limiter.go:606-616 | counting down drops what reaches zero |
| DeviceLimiter.PickVictim | limiter/limiter.go:706-714 | a local device if there is any, else a panel device, else none |
| DeviceLimiter.DetermineSpeedLimit | limiter/limiter.go:717-735 | the smaller limit that is not zero |
| DeviceLimiter.PairsWithout | limiter/limiter.go:245-252 | removing a row takes as many pairs away as it had |
| DeviceLimiter.PairsPut | limiter/limiter.go:535-548 | putting an entry adds a pair exactly when it is new |
| DeviceLimiter.NoEntries | limiter/limiter.go:566-571 | a zero counter means that the cooldown table is empty |
| DeviceLimiter.UnionSize | limiter/limiter.go:658-670 | the bounds on the size of a union on which the gate's shortcuts rest |
| LimiterRuns.RunWellFormed | limiter/limiter.go:583-618 | in every reachable state stored counts are positive and no inner map is empty |
| LimiterRuns.RunNoLeak | limiter/limiter.go:583-618 | with stable numbers, no count ever exceeds the live connections behind it, through deletions and returns of users |
| LimiterRuns.NextExactIff | limiter/limiter.go:231-254 | a step keeps every count equal to the number of live connections if and only if it deletes no user that has one |
| LimiterRuns.RunExactIff | limiter/limiter.go:583-618 | so over runs: counts are exact in all states if and only if no user is deleted while a connection of that user lives |
| LimiterRuns.StartExact | limiter/limiter.go:150-183 | a new limiter without connections starts in such a state |
| LimiterRuns.AskCounts | core/xray/app/dispatcher/default.go:208-221 | an admitted TCP connection raises its count and the number of live connections together |
| LimiterRuns.EndCounts | core/xray/app/dispatcher/default.go:538-551 | an ended connection lowers them together |
| LimiterRuns.AdmittedWithinLimit | limiter/limiter.go:640-684 | a device admitted on a fresh table leaves at most the limit in the union of local and global devices |
| LimiterRuns.RunWithinLimit | limiter/limiter.go:484-519 | with a fixed positive limit no run makes the devices counted for a user here exceed it |
| LimiterRuns.NodesWithinLimit | limiter/limiter.go:484-519 | after any runs of any nodes, on each of which the user has that limit, all nodes together count at most their number times the limit |
| LimiterRuns.CountedAreLive | limiter/limiter.go:583-618 | counted devices have live connections, and all that have are counted when counts are exact |
| LimiterRuns.LiveWithinLimit | limiter/limiter.go:484-519 | the quota on devices with live connections, over runs that delete no user with one |
| LimiterRuns.DeletionAdmitsMore | limiter/limiter.go:231-254 | a run in which a user with a limit of one, deleted and added back, has two devices connected |
| LimiterRuns.KickedStaysOut | limiter/limiter.go:497-580 | after a kick every TCP request of that user and device is refused for 300 seconds, through any run that does not delete the user |
| LimiterRuns.RunSpaced | limiter/limiter.go:500-514 | two kicks started in the same shard are more than a second apart |
| LimiterRuns.KicksInWindow | limiter/limiter.go:500-514 | a window of a length holds at most that length divided by a second and a nanosecond, plus one |
| LimiterRuns.RunKicksInWindow | limiter/limiter.go:500-514 | so do the kicks that any run starts in one shard |
| LimiterRuns.EvictionChoice | limiter/limiter.go:658-714 | a victim is never the arriving device, is local if any local device exists, and exactly when none is named |
| LimiterRuns.EndsCount | limiter/limiter.go:598-618 | ending some connections of a device lowers its count by as many, down to zero, and no other |
| LimiterRuns.DeviceFreed | core/xray/app/dispatcher/default.go:538-551 | once all TCP connections of a device have ended, the user has exactly that device less, through deletions and returns before |
| LimiterRuns.CoherentAfterUpdateIff | limiter/limiter.go:255-278 | when exactly an update leaves all cached buckets at the present rates |
| LimiterRuns.CheckedCoherent | limiter/limiter.go:314-328 | a user who is let in gets the bucket of the present rate |
| LimiterRuns.RunCoherent | limiter/limiter.go:281-328 | so over every run in which no user of the table is added again |
| LimiterRuns.RepeatedUserKeepsOldBucket | limiter/limiter.go:266-278 | a concrete user who is added again with another limit keeps the bucket that a request before was given |
| LimiterAnswers.AdmitsIff | limiter/limiter.go:484-519 | a limited user's TCP connection is let in if and only if the device is connected or fits next to the others, and has no cooldown |
| LimiterAnswers.RejectsIff | limiter/limiter.go:627-700 | the gate rejects if and only if there is no room: the union of local and global devices with the new one, each counted once, or with a silent panel the local ones and the panel's last count |
| LimiterAnswers.RefusesIff | limiter/limiter.go:281-316 | who is refused altogether; a cooldown keeps TCP out and nothing else |
| LimiterAnswers.VictimsAre | limiter/limiter.go:658-714 | exactly which devices may be thrown out, and that want of room with a panel that speaks always names one |
| LimiterAnswers.EvictsIff | limiter/limiter.go:497-514 | a kick starts if and only if a device without cooldown finds no room, there is a victim, and the shard's last kick is more than a second ago |
| LimiterAnswers.KickStartsIff | limiter/limiter.go:500-514 | over every run the next request starts a kick if and only if it calls for one more than a second after the last of its shard |
| LimiterAnswers.CooldownIff | limiter/limiter.go:525-580 | after a kick the pair is in its cooldown for 300 seconds and not longer, through any run without another kick of it or a deletion |
| LimiterAnswers.PurgedAre | limiter/limiter.go:442-469 | a purge forgets exactly what is over, raises the flag exactly then, and changes nothing else |
| LimiterAnswers.PushedIs | limiter/limiter.go:350-373 | after a push the panel counts as heard for exactly a minute, and each user who is not deleted has the pushed devices |
| LimiterAnswers.ReportedIff | limiter/limiter.go:378-426 | a report lists a pair if and only if it is counted, which is connected when counts are exact, or in its cooldown |
| LimiterAnswers.DirtyIff | limiter/limiter.go:428-473 | which steps raise the dirty flag, and that no others do |
| LimiterAnswers.UserAfterUpdate | limiter/limiter.go:230-279 | who is in the table after an update and with which number and limits, with repeated entries too |
| LimiterAnswers.NumberAfterUpdate | limiter/limiter.go:230-254 | a deletion leaves no count, cooldown, panel device or panel count under the number; all else stays |
| LimiterAnswers.RateIs | limiter/limiter.go:717-735 | 125000 bytes per second for each megabit of the smaller limit that is set |
| DeviceHash.SortSorts | node/controller.go:427-430 | sorting keeps the elements and orders them |
| DeviceHash.SortedUnique | node/controller.go:427-430 | there is one sorted order |
| DeviceHash.EntryText | node/controller.go:429-437 | one user's part of the text |
| DeviceHash.DevicesText | node/controller.go:421-438 | the text is the print of the report's entries in sorted order, and reads back as them |
| DeviceHash.ItoaRead | node/controller.go:431-431 | a printed number reads back, negative ones included |
| DeviceHash.IpsRead | node/controller.go:433-437 | a printed device list reads back with the text after it |
| DeviceHash.PrintRead | node/controller.go:428-438 | reading undoes printing |
| DeviceHash.SameTextIffSameReport | node/controller.go:419-438 | two reports have the same text if and only if they list the same devices for the same users |
| DeviceHash.CommaMakesReportsAlike | node/controller.go:433-436 | a concrete device name with a comma that confuses two reports |
| DeviceReport.Controller.constructor | node/controller.go:244-253 | nothing was reported yet and there is no connection |
| DeviceReport.Controller.OnConnected | node/controller.go:196-204 | a connection that comes up clears the hash |
| DeviceReport.Controller.OnDisconnected | node/controller.go:196-204 | a connection that drops leaves a panel without this node's devices |
| DeviceReport.Controller.SendDeviceReport | api/panel/ws.go:371-399 | taken exactly when connected and the queue has room |
| DeviceReport.Controller.ReportDevicesTask | node/controller.go:244-309 | one round: which state, hash and panel it leaves, in every branch |
| DeviceReport.Controller.Evaluate | node/controller.go:268-308 | the part after the snapshot: what is sent, and that the dirty flag goes down exactly when nothing is left to do |
| DeviceReport.SkipShows | node/controller.go:253-263 | a round that ends early changes nothing and the panel shows the present pairs |
| DeviceReport.RoundShows | node/controller.go:265-308 | a round that sends nothing, or whose report is taken, leaves the panel showing the present pairs |
| DeviceReport.SameHashIff | node/controller.go:289-299 | the hash is unchanged if and only if the report is |
| DeviceReport.RoundsSendNews | node/controller.go:244-309 | over every run a round sends its snapshot if and only if it is connected, something was flagged or the panel holds nothing, and the snapshot is not what the panel holds; what it leaves in either case |
| DeviceReport.SameIsNotSent | node/controller.go:289-299 | a round whose snapshot the panel has already sends nothing, keeps hash and panel, and takes the flag down |
| DeviceReport.LocalQuiet | limiter/limiter.go:433-473 | a limiter step that leaves the flag down changed neither counts nor cooldowns |
| DeviceReport.StepsKeep | node/controller.go:196-309 | the invariant of hash, flag and panel in every reachable state |
| DeviceReport.ReportsAreSound | node/controller.go:244-309 | skipping is sound over every run of limiter steps, time, disconnects, reconnects and rounds |
| DeviceReport.RefusedStaysDue | node/controller.go:277-303 | a refused report is not lost: no later round skips until one is taken or finds the panel up to date |
| UserSync.CompareUserList | node/user.go:81-103 | added and modified users in order, deleted ones in any order |
| UserSync.ComparedIs | node/user.go:87-100 | who is left over and who is added, by uuid and number of occurrences |
| UserSync.ModifiedIff | node/user.go:90-96 | an old user is modified if and only if the first entry for it has another limit |
| UserSync.DiffNeeds | node/user.go:81-103 | something is left over if and only if a listed user is not in the new list, and something added if and only if a uuid is there more often than needed |
| UserSync.UpdateAt | limiter/limiter.go:230-279 | what an update with a comparison's outcome makes of one user's entry |
| UserSync.DiffThenUpdateIsRebuild | node/user.go:81-103 | diff and update give the rebuilt table if and only if every old user listed once keeps its number; any lists, repeated uuids included |
| UserSync.Controller.NodeInfoMonitor | node/task.go:92-286 | a round of the monitor in all its branches: it fails if and only if the core refuses a deletion that the two lists call for, or an addition, and then keeps table and list; else what becomes of table, list and alive counts |
| UserSync.Controller.Update | node/task.go:149-158 | the limiter is updated with the comparison's outcome |
| UserSync.Controller.RemoveUsersByIDs | node/controller.go:317-355 | the listed users with these numbers go from the table; the list stays |
| UserSync.Controller.AddUsersByWS | node/controller.go:361-417 | users with a uuid and an unlisted number join the list, and the table if the core does not fail |
| UserSync.FreshAreNew | node/controller.go:365-379 | with stable numbers nobody is added who is listed |
| UserSync.RunAccurate | node/task.go:54-286 | the table never holds an unlisted user or other limits than listed, whatever fails |
| UserSync.RunAgrees | node/task.go:92-286 | without failures and removals the table is at all times the one built from the list |
| UserSync.RoundRestoresIff | node/task.go:240-286 | when exactly a round brings table and list back together |
| UserSync.RemovedThenPulled | node/controller.go:311-355 | after a removal the next list restores agreement if and only if it has none of the removed users exactly once |
| UserSync.AddedIff | node/controller.go:361-417 | who is in the table after an addition, for any table, lists and outcome of the core |
| UserSync.AddRestoresIff | node/controller.go:365-379 | with stable numbers an addition brings a user into the table if and only if the number is not listed |
| UserSync.FailedAddMisses | node/controller.go:375-410 | an addition that the core fails leaves its newcomers listed and missing, and nobody else |
| UserSync.RemovedThenAdded | node/controller.go:311-417 | after a removal and any addition the missing users are exactly the removed ones |
| UserSync.RemovedIsNotRestored | node/controller.go:311-417 | a concrete removal and addition of one user that leave an empty table |
| UserSync.StillMissingIff | node/controller.go:311-417 | a change leaves a missing user missing if and only if it is no list pulled with success, or that list has the user exactly once |
| UserSync.MissingStaysMissing | node/controller.go:357-417 | a missing user is missing after every change of a run if and only if every list pulled with success has the user exactly once |
| UserSync.RestoredUserStaysMissing | node/controller.go:311-417 | so it is for a listed user whom the panel removes, whoever it adds next |
| UserSync.UpdatesAddNewUsers | node/user.go:87-95 | with stable numbers and lists without repetition no user of the table is added again |
| UserSync.UsersSynced | limiter/limiter.go:230-279 | the update that a change of users brings about does to the limiter's table what the change is to do |
| UserSync.BucketsStayCoherent | limiter/limiter.go:255-328 | with stable numbers and pulled lists that repeat no uuid, cached buckets have the present rates over every run of limiter steps and user changes |
| UserSync.NodeStaysCoherent | limiter/limiter.go:150-183 | in particular in every run from a new limiter |
| Traffic.Counters.GetCounter | common/counter/traffic.go:21-30 | a user's counter, made at zero if there is none |
| Traffic.Counters.AddUsers | core/xray/user.go:99-104 | the users get their numbers |
| Traffic.Counters.DelUsers | core/xray/user.go:32-58 | the users lose number and counter, and the storages keep what they hold |
| Traffic.Counters.GetUserTrafficSlice | core/xray/user.go:60-97 | every counter is visited once, in some order |
| Traffic.Counters.Collect | core/xray/user.go:70-90 | one visit: what exceeds the threshold is set to zero and listed, or dropped with an unknown user's counter |
| Traffic.ReportUserTraffic | api/panel/user.go:88-92 | the message has the last entry of each number |
| Traffic.Controller.ReportUserTrafficTask | node/user.go:17-36 | a round with retry: what is sent and what waits afterwards |
| Traffic.TakeAllBalanced | core/xray/user.go:60-97 | a collection moves bytes and loses none |
| Collection.CollectionIs | core/xray/user.go:60-97 | each counter not above the threshold keeps its bytes and makes no entry; each one above is zero afterwards, and makes one entry with number and bytes of a known user, or goes |
| Collection.ReportedOnceIff | core/xray/user.go:70-90 | with different numbers, a user has an entry if and only if the counter is above the threshold, and then one, with its bytes |
| Collection.RunSeparate | common/counter/traffic.go:21-30 | in every reachable state no two users share a counter |
| Traffic.SumSplits | api/panel/user.go:88-92 | what is due is what the message carries and what it hides |
| Traffic.HidesIff | api/panel/user.go:88-92 | the message hides nothing if and only if no number repeats in the list |
| Traffic.RunBalanced | node/user.go:17-36 | over every run each byte counted is in a storage, waiting, carried to the panel, hidden by a message, or thrown away with an unknown user |
| Traffic.NothingDropped | node/user.go:17-36 | as long as no user goes, none is thrown away and none is outside counters, waiting list and messages |
| Traffic.RunHidesIff | node/user.go:17-36 | what waits has bytes in every entry, and a run hides bytes if and only if a number repeats in a list that the panel takes |
| Traffic.SmoothRunRepeatsNone | node/user.go:17-36 | with numbers of their own and no refused report none repeats |
| Traffic.NothingLost | node/user.go:17-36 | so then, as long as no user goes, what was counted is in the counters or was carried to the panel |
| Traffic.RefusedReportLoses | node/user.go:17-36 | from nothing, for any user and bytes: a refused report, more bytes, and a taken one carries the old bytes and not the new |
| Traffic.OrphanNeverReported | core/xray/user.go:47-50 | what a deleted user's connections count is never reported |
| Traffic.PayloadCarriesIff | api/panel/user.go:89-92 | the message has all bytes of a number if and only if it is listed at most once, and less otherwise |
| Traffic.FirstReportExact | api/panel/user.go:88-92 | with nothing to retry and distinct numbers the message carries exactly what was collected |
| Traffic.RetryHidesNewBytes | node/user.go:20-25 | a retried user's entry is the old one |
| Traffic.RetryLoses | node/user.go:20-25 | so a user with old and new bytes gets less reported than is due |
| Links.ManagedWriter.Close | core/xray/app/dispatcher/linkmanager.go:21-24 | a closed writer is out of its manager |
| Links.LinkManager.AddLink | core/xray/app/dispatcher/linkmanager.go:31-35 | the link is added and no other changed |
| Links.LinkManager.RemoveWriter | core/xray/app/dispatcher/linkmanager.go:37-41 | the link is removed and no other changed |
| Links.LinkManager.CloseAll | core/xray/app/dispatcher/linkmanager.go:43-56 | every link is closed, interrupted and gone |
| Links.LinkManager.CloseByIP | core/xray/app/dispatcher/linkmanager.go:58-84 | exactly the links of that device are closed, interrupted and gone, and counted; none for an empty device |
| Links.LinkManager.Cut | core/xray/app/dispatcher/linkmanager.go:79-82 | closing a snapshot while each closing changes the table |
| Dispatcher.OpenedThenClosed | limiter/limiter.go:583-618 | ending a connection undoes its opening, but for the dirty flag |
| Dispatcher.CheckedThenClosed | core/xray/app/dispatcher/default.go:538-551 | a request followed by the end of what it let in leaves all counts as they were |
| Dispatcher.DefaultDispatcher.Register | core/xray/app/dispatcher/default.go:222-237 | the connection joins its user's links, under its device; other users' links stay |
| Dispatcher.DefaultDispatcher.Ask | core/xray/app/dispatcher/default.go:194-213 | who is let in, what the limiter counts, and which device is kicked |
| Dispatcher.DefaultDispatcher.Admit | core/xray/app/dispatcher/default.go:194-237 | exactly what is let in is registered, if limited, and exactly what is not is closed for writing and its readers interrupted, on both sides |
| Dispatcher.DefaultDispatcher.RoutedDispatch | core/xray/app/dispatcher/default.go:533-659 | in every branch the limiter is told of the end of exactly the connections it counted; exactly a refusal closes this side's writer and interrupts its reader, and it takes a managed writer out of the user's links |
| Dispatcher.DefaultDispatcher.Dispatch | core/xray/app/dispatcher/default.go:296-352 | with the managed writer on the inbound side, counts are as before; the limiter's refusal shuts both sides, a later one the outbound side, and leaves the link registered |
| Dispatcher.DefaultDispatcher.DispatchLink | core/xray/app/dispatcher/default.go:355-475 | served in one go, a connection leaves every count as it was; whoever refuses it, its link is shut and not registered |
| Dispatcher.DefaultDispatcher.KickByUserIP | core/xray/app/dispatcher/default.go:148-158 | exactly the links of that user and device are closed and gone |
| TaskGuard.Task.Start | common/task/task.go:26-34 | a new stop channel and a loop, unless the task runs |
| TaskGuard.Task.Enter | common/task/task.go:72-81 | the body runs only if none is under way |
| TaskGuard.Task.Leave | common/task/task.go:95-98 | the flag goes down when the body is over |
| TaskGuard.Task.Fail | common/task/task.go:54-60 | a failed body stops the task |
| TaskGuard.Task.Close | common/task/task.go:118-125 | a running task is stopped, another left alone |
| TaskGuard.RunExclusive | common/task/task.go:72-116 | at most one body is ever inside and the flag is up exactly then, for any loops and any interleaving |
| TaskGuard.EntersIff | common/task/task.go:72-81 | in every reachable state a loop that tries the body gets in if and only if none is inside |
| TaskGuard.RunChannels | common/task/task.go:26-62 | the stop channel is open exactly while the task runs |
| TaskGuard.CrashesIff | common/task/task.go:36-62 | when exactly a step closes a closed channel |
| TaskGuard.ClosedWhileFailing | common/task/task.go:54-60 | a concrete run to such a step |

## Left out

- Each limiter method, and each round of a task, is one atomic step. With finer steps some properties
  fail: a connection opened between a report's snapshot and the reset of the flag is not reported until
  the next change, a user deleted in the middle of a request leaves a count behind, and a byte counted
  between reading and zeroing a counter is lost.
- The limiter's tables are keyed by uuid instead of node tag and uuid, as the tag does not change; the
  replacement of the limiter on a change of tag is not modelled.
- The shards of the tables and their locks are one table each; the shard index is kept for the kick
  throttle, which it decides.
- Devices are given in their trimmed form; `TrimPrefix` is applied a different number of times on
  different paths.
- The asynchronous kick is a separate step: `TryOpenConn` says which device it is for, and `KickDevice`
  and the ending of the connections come whenever they come. The request to other nodes is not modelled.
- 64-bit counters do not overflow here; users' numbers and limits are unbounded integers.
- SHA-256 is any function without collisions that is never empty. Go's sorting is an insertion sort.
- The order of devices within a sent report; the panel beyond holding the last accepted report and
  forgetting it when the connection drops.
- `GetOnlineDevice` and the fallback report of online users over HTTP, rules and certificates: single
  branches around code elsewhere.
- The part of a deletion that the core has done before it fails half-way.
- `Dispatcher.DefaultDispatcher.DispatchLink`: its counts are compared without other connections in
  between; `LimiterRuns` has the interleavings.
- `Dispatcher.DefaultDispatcher.RoutedDispatch`: the work of the chosen handler, and the closing of the
  inbound side of a piped connection, which takes its link away at last, are not modelled.
- Waiting for tokens, the rate-limited readers and writers, and the wrapping of links: only a bucket's
  rate is kept.
- HTTP, WebSocket and TLS transport, configuration, routing, sniffing, and building of inbounds and
  outbounds.
