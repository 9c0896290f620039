# rackabel's managed dev host: model and proofs

`rackabel dev` keeps one Extension Host process alive for Live: a daemon supervises it, tails
its logs, maps stack frames back to sources, keeps a registry of extensions, and on every save
runs a build, deploy, reload chain. These modules model that machinery and prove what it keeps.
`dafny verify dfyconfig.toml` checks all of it.

| module | part of the system |
|---|---|
| `Text` | decimal numbers, substring search, splitting |
| `Vlq`, `SourceMap` | Base64 VLQ and the `mappings` lookup, against the encoder of ECMA-426 |
| `Calendar` | `ExtensionHost.txt` timestamps against the proleptic Gregorian calendar |
| `Tail` | the two polling tail loops over growing files |
| `ExtHost` | the line parser that turns exception blocks into activation failures |
| `HostEntries` | what each kind of line says and what comes out for it, text by text |
| `LogLines`, `LogSink` | log records and the fan-out to ring, files and subscribers |
| `LiveLog` | tail, parser and fan-out together |
| `Host` | the child process: launch, reload, respawn, stop, crash window, backoff |
| `Supervision` | the daemon's threads over one host, lock section by lock section |
| `SemVer`, `Registry` | version precedence; unique names, the register verb, recursive register and unregister |
| `Handlers` | reload, working set, connection close and status |
| `WatchPlan`, `Chain`, `Staleness` | change classification, the chain as an event trace, the two staleness tests |
| `SaveCycle` | the chain and the daemon together: what a save does to the host |
| `Changelog` | the skipping scan for a version in a changelog |

Code that changes state is a method or a class whose `ensures` equates the new state with a
function of the old one; the theorems are about that function.

## What the proofs found

Each of these is a lemma, and the exact condition under which the code does what its comments
promise is proved next to it.

- The window in which a reload leaves two live hosts opens at the poll that sees the exit, not
  only at the respawn decision: poll and decision are two lock sections
  (`ReloadBeforeDecisionStrands`, `ReloadInSleepStrands`). At every step exactly the respawn
  over a live child, or the replacement of a live child that a drop does not kill, strands a host
  (`OnlyStrandingBreaks`).
- Stopping the host at shutdown is final exactly when nothing revives it afterwards, and three things
  can: a respawn past its shutdown check, the installation of a launch under way, and the request
  of a connection thread, which handles a reload before it looks at the shutdown flag and is not
  joined (`StopIsFinalExactly`, `LateRequestsRevive`). A revived host outlives the daemon exactly when
  such a thread still holds the state or the host had been given up (`TeardownLeavesHostExactly`).
- With five recent exits, a reload between poll and decision leaves a live host that is marked as
  crash-looping and that nobody watches (`OverlapGivesUpLiveHost`).
- The comment on the supervisor loop promises an exponential backoff up to a bounded window. A
  respawn that fails is never retried (`FailedRespawnIsFinal`), and while every reload manages
  to start its process, every wait is the first one, 200 ms (`EveryWaitIsTheFirst`); only a
  reload that cannot start its process lets the index grow (`FreshBackoffStep`), and every index is
  reached that way (`GrowingBackoffIsReached`).
- A scoped reload is described as setting the working set for that reload. It takes no owner and
  stays in force until somebody sets another, unless a connection that owned a working set before
  it closes (`ScopedReloadOutlivesItself`).
- Every save narrows the daemon to the saved extensions: the chain's reload is a scoped one, so the
  host drops all others (`SaveNarrowsHost`).
- A reload that is not refused leaves `status` showing something as loaded over a dead child exactly
  when a host was held, its process could not be started and anything was kept
  (`DeadShownLoadedExactly`).
- Registering the path of a manifest file is not idempotent: the guard compares the file, the entry
  holds its directory, so without a name it is registered twice (`RegisterAgainExactly`).
- The changelog scan is right about every text exactly for the versions that overlap themselves
  only behind a digit or a dot (`RightOnEveryText`); `1.0.0-1.0.0` is not one of them.
- The 64-bit decoder returns an encoded number exactly below 2^62 in magnitude.
- A log record gives its line back exactly when the tag is not `-` and holds no tab. Read by
  following the file, it must not end in white space either (`TailedRoundTrip`).
- The shared log holds each line once exactly when no line whose own file opened has a tag that names
  its directory, as `_session` does. A tag's own log holds only its lines exactly when no other tag
  does so, as `./a` does for `a`, and all of them exactly when its file opened for each
  (`SharedFileExactly`, `OwnFileExactly`, `OwnLinesCompleteExactly`).
- The watch chain and deploy agree on staleness about every project over a source tree exactly when
  nothing behind a link, and no special node, is newer than every plain file of it, and the source
  is not itself a file (`TestsAgreeExactly`, `LinkedSourceIsMissed`).

## Model

| member | source | states |
|---|---|---|
| Vlq.DecodeVlq | src/dev/logs.rs:845-871 | the byte loop, with wrapping 64-bit arithmetic and a masked shift, returns the fields read so far and stops at the first byte outside the alphabet |
| Vlq.DecodeInvertsEncode | src/dev/logs.rs:845-871 | decoding the standard encoding of any list of integers below 2^62 in magnitude gives the list back, and decoding goes on with whatever text follows |
| Vlq.ListRoundTripExactly | src/dev/logs.rs:845-871 | a list of integers of any size comes back from its encoding if and only if every one is below 2^62 in magnitude |
| Vlq.DecodedFieldsBounded | src/dev/logs.rs:860-865 | no decoded field exceeds 2^62 in magnitude, for any segment at all |
| Vlq.NoOverflow | src/dev/logs.rs:856-863 | on encodings of fields below 2^31 the shift never exceeds 30, below 2^62 never 60, and no shift or addition leaves the non-negative 64-bit range |
| Vlq.ShiftIsMasked | src/dev/logs.rs:856 | beyond 64 bits the shift amount is taken modulo 64: after 13 continuation digits the next digit counts double |
| SourceMap.ScanLine | src/dev/logs.rs:806-836 | the loop over one line's segments: a segment that is empty or decodes to nothing is skipped, fewer than 4 fields move only the column, the greatest column wins and the first on ties |
| SourceMap.LookupMapping | src/dev/logs.rs:798-842 | the loop over lines stops at the target, restarts the column on each line and carries the source fields over |
| SourceMap.LookupOfEncoding | src/dev/logs.rs:798-842 | on the standard encoding of any table the answer is the table's own: the greatest column at most `gen_col` among segments with a source, the first on ties, or nothing when there is none |
| SourceMap.LookupIgnoresLaterLines | src/dev/logs.rs:837-839 | the same holds whatever text stands on the lines after the target |
| SourceMap.NegativesClamp | src/dev/logs.rs:816-834 | a first mapping is reported at its running positions, taken modulo 2^32, and at 0 where one of them has become negative |
| SourceMap.LineNumbersWrap | src/dev/logs.rs:822-838 | line numbers are compared modulo 2^32 |
| SourceMap.TargetLine | src/dev/logs.rs:837-839 | the line with the number asked for gives the answer, or none |
| Calendar.DaysFromCivilIsTrueCount | src/dev/logs.rs:689-696 | for every integer year and valid date the closed formula is the day count of the calendar, year lengths and month lengths added up |
| Calendar.EpochAndNextDay | src/dev/logs.rs:689-696 | 1970-01-01 is day 0 and the next calendar day adds exactly 1 |
| Calendar.EarlierIsLess | src/dev/logs.rs:689-696 | an earlier date has a smaller day number |
| Calendar.ParseOfFormat | src/dev/logs.rs:660-686 | parsing a written timestamp gives its milliseconds since the epoch, cut off at 0 |
| Calendar.ParsingKeepsOrder | src/dev/logs.rs:680-685 | from 1970 on, one parsed timestamp is smaller than another if and only if it is earlier at millisecond resolution |
| Calendar.Before1970Collapses | src/dev/logs.rs:685 | before 1970 every timestamp parses to 0, so the bound is needed |
| Calendar.ParseShortFraction | src/dev/logs.rs:669-679 | without a fraction the time is on the second, and a short fraction counts as tenths, hundredths, thousandths |
| Calendar.FractionSkips | src/dev/logs.rs:674 | what is no digit does not count in a fraction |
| Calendar.StampExactly | src/dev/logs.rs:660-671 | without a T it is no timestamp, and with one it is if and only if year, month, day, hour, minute and whole seconds are numbers |
| Calendar.ParseI64Exactly | src/dev/logs.rs:663-671 | an optional sign and digits of a value that fits 64 bits are a number, with its sign; a double sign or no digits are not |
| Text.ParseNatExactly | src/dev/logs.rs:727-728 | digits with an optional plus, of a value that fits, are read as their value, and nothing else is |
| Tail.ExtHostTail.Poll | src/dev/logs.rs:433-466 | one poll hands on the complete lines from `pos` and leaves `pos` after the last of them, taking back the bytes of a partial line; each line is fed to the parser without its line break; a shorter file restarts both position and parser |
| Tail.SessionTail.Poll | src/dev/logs.rs:1056-1082 | the session loop's poll moves the same way, by counting only complete lines, and yields the record of each line that holds one after trimming |
| Tail.HandedIsPrefix | src/dev/logs.rs:420-469 | after any interleaving of appends and polls the lines handed on, put together, are the text from the starting offset to `pos`, which is the start or just past a newline |
| Tail.PollHandsOnEverything | src/dev/logs.rs:1041-1085 | after a run that ends in a poll exactly the newline-terminated lines from the starting offset have been handed on, and no other list of lines would fit |
| Tail.StripsBreaks | src/dev/logs.rs:454 | exactly the line breaks at the end of a line are taken off |
| Tail.TailedOutputs | src/dev/logs.rs:439-466 | end to end: after any interleaving of appends and polls that ends in a poll, the parser behind the loop has emitted what it makes of the texts of the file's lines, without their line breaks |
| Tail.TailedFailuresMatchBlocks | src/dev/logs.rs:439-466 | so it has emitted as many activation failures as those texts have exception blocks with a frame |
| Tail.ShorterFileRestarts | src/dev/logs.rs:433-438 | a file that has become shorter is handed on again from its top, all of its terminated lines |
| Tail.FollowedSessionExactly | src/dev/logs.rs:1062-1080 | following a session log from its start, however it is written in pieces, yields all of its lines if and only if no record ends in white space that matters |
| LogLines.RecordRoundTrip | src/dev/logs.rs:164-199 | a record gives its line back, text flattened and `mapped` dropped, if and only if the tag is not "-" and holds no tab |
| LogLines.RecordIs | src/dev/logs.rs:164-175 | a record word for word, for each level and kind |
| LogLines.TextComesBack | src/dev/logs.rs:166 | text comes back character by character, tabs and line breaks as spaces, and as it is when it has none |
| LogLines.LevelsAreRead | src/dev/logs.rs:63-69 | the level words in any case, and the kind words, with any white space around them; every other word is Info, or host output |
| LogLines.TrimExactly | src/dev/logs.rs:64 | trimming takes the white space off both ends and nothing else |
| LogLines.LowerExactly | src/dev/logs.rs:64 | only the letters A to Z change case |
| LogLines.TailedRoundTrip | src/dev/logs.rs:1071-1073 | a followed record gives its line back if and only if the record alone would and its text, or without text its tag, does not end in white space |
| LogLines.ReadBackPersisted | src/dev/logs.rs:999-1005 | reading back a file of appended records returns each line once and in file order |
| LogLines.MalformedIsNoRecord | src/dev/logs.rs:179-184 | fewer than four fields, or no number in front, are no record |
| LogLines.MalformedAreSkipped | src/dev/logs.rs:1000-1004 | such lines of a file are skipped, and the others stay in order |
| LogLines.ByTimeFacts | src/dev/logs.rs:1008-1009 | listing by time loses and adds nothing, is in order, keeps the order within each moment, and changes nothing if and only if the lines were in order |
| LogSink.SinkState.WriteLine | src/dev/logs.rs:385-413 | the record goes to the file in the tag's directory when there is a tag and that file opens this time, and to the shared file when that was opened at the start |
| LogSink.SinkState.Push | src/dev/logs.rs:366-379 | persist, drop the oldest line at 2000, append, and send to each subscriber that is still there |
| LogSink.SinkState.Subscribe | src/dev/logs.rs:348-354 | a new subscriber starts with nothing and changes nothing else |
| LogSink.HistoryIsLastLines | src/dev/logs.rs:372-376 | after any sequence of pushes, joins and leaves the ring is the last 2000 lines |
| LogSink.SubscribersGotTheirLines | src/dev/logs.rs:378 | each subscriber still there got exactly the lines pushed since it joined |
| LogSink.GoneAreForgotten | src/dev/logs.rs:378 | a push forgets exactly the subscribers that have gone |
| LogSink.SharedFileHolds | src/dev/logs.rs:385-397 | in every run with the shared file open it holds every record, twice where the line's own file opened and is that one |
| LogSink.OwnFilesHold | src/dev/logs.rs:385-413 | in every run every other file holds the records of the lines whose own file opened and is that one, of all tags that name its directory, in order |
| LogSink.SharedFileExactly | src/dev/logs.rs:385-397 | in every run with the shared file open it is the records of all lines, each once and in order, if and only if no line whose own file opened has a tag that names the shared directory |
| LogSink.OwnFileExactly | src/dev/logs.rs:387-413 | in every run a tag's file is the records of its own lines for which it opened, in order, if and only if no other tag of an opened line names the same directory |
| LogSink.OwnLinesCompleteExactly | src/dev/logs.rs:387-391 | those are all lines of the tag if and only if its file opened for each of them |
| LogSink.SharedReadBackExactly | src/dev/logs.rs:985-1009 | for tags that can be stored, listing the shared file gives every line once, by time, if and only if no line whose own file opened names the shared directory |
| LogSink.OwnReadBackExactly | src/dev/logs.rs:985-1009 | and listing a tag's file gives exactly its own lines for which it opened, by time, if and only if no other tag of an opened line names its directory |
| LogSink.SharedTagIsWrittenTwice | src/dev/logs.rs:387-396 | the tag "_session" names the shared directory: whenever its line is pushed, the shared file grows by it twice |
| LiveLog.LoggedFailuresMatchBlocks | src/dev/logs.rs:433-481 | end to end from the tailed file to the log: read back, the shared file holds as many activation failures as the texts of the tailed lines have exception blocks with a frame, beside those other sources pushed, for tags that can be stored and none of which, where it opened, names the shared directory |
| ExtHost.ExtHostParser.Feed | src/dev/logs.rs:503-614 | the new parser fields and the output lines for each kind of line: banner, tagged, exception header, plain, continuation |
| ExtHost.FedFacts | src/dev/logs.rs:505-612 | a timestamped line gives exactly one output that is no activation failure and closes or opens a block; a continuation gives one failure exactly when a block is open, nothing was emitted for it and the line holds a frame |
| ExtHost.RunFollowsBlocks | src/dev/logs.rs:486-614 | over any stream the parser's flags say whether a block is open and whether it has failed already |
| ExtHost.FailuresMatchBlocks | src/dev/logs.rs:500-615 | over any stream there are as many activation failures as exception blocks with a dist/extension.js frame, one output per timestamped line and at most one per continuation |
| HostEntries.EntryExactly | src/dev/logs.rs:636-654 | exactly which lines are entries, and the time, level and message each is read as; a stamp that cannot be parsed counts as now |
| HostEntries.EntryIsRead | src/dev/logs.rs:636-654 | a written timestamp, level word and message are read as those |
| HostEntries.PlainLine | src/dev/logs.rs:557-572 | a plain line comes out with its time, level and text, as host output |
| HostEntries.MentionedLine | src/dev/logs.rs:559-572 | a bracketed word further on attributes the line to that extension |
| HostEntries.TaggedLine | src/dev/logs.rs:524-535 | a tagged line comes out as the tag's, without the tag, which is remembered |
| HostEntries.HeaderLine | src/dev/logs.rs:538-555 | an exception header comes out as an error of the extension last seen and opens a block |
| HostEntries.BannerLine | src/dev/logs.rs:511-521 | the banner comes out as the version that started, without the white space around it |
| HostEntries.NoTagWhen | src/dev/logs.rs:699-711 | what a leading bracket holds is a tag unless it is empty or has a space or a bracket in it |
| HostEntries.UnclosedIsNoTag | src/dev/logs.rs:704 | without a closing bracket and colon there is no tag |
| HostEntries.NoNameWhen | src/dev/logs.rs:888-897 | a bracketed word that is empty, holds a space or is not closed names nobody |
| HostEntries.FrameIsRead | src/dev/logs.rs:715-731 | a frame after a parenthesis, a space or nothing is read as its path, line and column |
| HostEntries.FrameWithoutColumn | src/dev/logs.rs:728 | a missing column is 0 |
| HostEntries.NoBundleNoFrame | src/dev/logs.rs:716 | a text without a bundle in it is no frame |
| HostEntries.NoNumberNoFrame | src/dev/logs.rs:727 | nor is one without a line number |
| HostEntries.LargeNumberNoFrame | src/dev/logs.rs:727 | nor one whose line number does not fit 32 bits |
| HostEntries.SlugIsDirectory | src/dev/logs.rs:734-742 | a bundle without a tag is attributed to the directory above its dist |
| HostEntries.SlugExactly | src/dev/logs.rs:734-742 | but not to "..", and to nothing where there is no such directory |
| HostEntries.NamePartsSkip | src/dev/logs.rs:735-741 | empty components and single dots of a path do not count |
| HostEntries.RunRemembers | src/dev/logs.rs:486-498 | after any stream the parser remembers the last tag and, for an open block, the first thing in it that is an "Error:" |
| HostEntries.FailureIs | src/dev/logs.rs:584-608 | the failure that a stream makes a line emit: the last tag or else the bundle's directory, the mapped location, and the block's message |
| Host.HostHandle.Launch | src/dev/host.rs:194-232 | a host is held only when its child connected; a child that never connects is killed |
| Host.HostHandle.KillGroup | src/dev/host.rs:378-398 | the held group's leader, and no other, is gone |
| Host.HostHandle.Reload | src/dev/host.rs:275-327 | the old group is killed first; a failed spawn leaves `Reloading` and the old configuration, a child that never connects leaves `Crashed` with the new one, success leaves `Running`, a recorded sample and a reset backoff |
| Host.HostHandle.RecordReload | src/dev/host.rs:329-336 | the samples are the last 32 |
| Host.HostHandle.RespawnChild | src/dev/host.rs:457-486 | the child and group are replaced without a kill, the configuration stays, and the backoff is reset only on success |
| Host.HostHandle.Stop | src/dev/host.rs:370-373 | the group is killed and the state is `Stopped` |
| Host.HostHandle.Drop | src/dev/host.rs:489-499 | a drop kills the group unless the host was stopped or gave up |
| Host.HostHandle.OnChildExit | src/dev/host.rs:419-453 | trim, record, then give up above 5, or ask a terminal, or respawn after the indexed wait and move the index |
| Host.LaunchLeaves | src/dev/host.rs:194-232 | a launch yields a running host with its configuration exactly when the child connects, and else leaves alive what was alive |
| Host.ReloadLeaves | src/dev/host.rs:275-327 | a reload ends the old child in every case; exactly when the new one connects the host runs it, with the new configuration |
| Host.RespawnLeaves | src/dev/host.rs:457-486 | a respawn keeps configuration and crash record, and exactly when it connects the host runs the new child |
| Host.StopLeaves | src/dev/host.rs:370-373 | a stop ends the child and nothing else, and a later drop has nothing left to do |
| Host.DropLeaves | src/dev/host.rs:489-499 | a drop ends the child and nothing else, unless the host was stopped or had given up |
| Host.ExitLeaves | src/dev/host.rs:419-453 | after an exit: given up with the count above 5, else crashed, with a terminal asked or the indexed wait taken |
| Host.SamplesAreLastDurations | src/dev/host.rs:329-336 | over any run the samples are the last 32 durations of reloads that connected |
| Host.TrimIsFilter | src/dev/host.rs:427-435 | with ordered exits, trimming the front of the deque keeps exactly the exits of the last 30 s inclusive |
| Host.VerdictOfWholeHistory | src/dev/host.rs:419-453 | over any run of exits, reloads, respawns and stops with a clock that never goes back, each verdict is that of the whole history: give up exactly when more than 5 exits fall in the last 30 s inclusive, else wait `BACKOFF_MS[min(k,4)]` with k the respawn decisions since the last reset |
| Host.AtMostFiveRespawns | src/dev/host.rs:427-452 | no closed window of 30 s holds more than 5 respawn decisions, reloads included |
| Supervision.Daemon.PollSection | src/dev/daemon.rs:859-872 | the supervisor notices an exit only of a host that is running or reloading |
| Supervision.Daemon.DecideSection | src/dev/daemon.rs:873-884 | the second lock section takes the decision on whatever host is held by then |
| Supervision.Daemon.RespawnSection | src/dev/daemon.rs:888-893 | the third respawns without looking at the state again |
| Supervision.Daemon.ReloadSection | src/dev/daemon.rs:628-635 | a reload of the held host is one lock section |
| Supervision.Daemon.InstallSection | src/dev/daemon.rs:636-645 | a host launched outside the lock is installed and drops whatever is held by then |
| Supervision.Daemon.StopSection | src/dev/daemon.rs:844-848 | the held host, if any, is stopped |
| Supervision.OnlyStrandingBreaks | src/dev/host.rs:457-465 | a step leaves a live leader that nobody holds if and only if it respawns over a live child or replaces a live child of a stopped or given-up host |
| Supervision.CalmStep | src/dev/daemon.rs:853-914 | every other step keeps the invariant that holds at the start: no stray leader, and no live child while a respawn is on its way |
| Supervision.NoStrayWithoutOverlap | src/dev/daemon.rs:585-914 | in every run in which no live child is put in place between the supervisor's poll and its respawn, every live leader is the held one or one still being launched |
| Supervision.NoStrayFromStart | src/dev/daemon.rs:585-914 | in particular in every such run from the start of the daemon |
| Supervision.RevivedIsWatched | src/dev/daemon.rs:859-872 | whatever puts a live child in place, when that exits the next poll sees it |
| Supervision.PollSeesExactly | src/dev/daemon.rs:859-872 | a poll sees an exit if and only if the child is gone and the host was running or reloading, and changes nothing else |
| Supervision.LaunchExactly | src/dev/daemon.rs:636-645 | a launch starts one child, where no host is held, and installs the host that launching yields, with its configuration and a clean record |
| Supervision.SupervisorStandsDown | src/dev/daemon.rs:855-887 | the supervisor drops its respawn when no host is held, and ends once shutdown was asked for |
| Supervision.OverlapStrands | src/dev/daemon.rs:873-893 | every excluded overlap does break this, by the supervisor's own remaining steps |
| Supervision.OverlapGivesUpLiveHost | src/dev/daemon.rs:873-884 | the overlap that strands nothing, a reload between poll and decision with five recent exits, leaves the live host marked as crash-looping and watched by nobody |
| Supervision.ReloadBeforeDecisionStrands | src/dev/daemon.rs:859-881 | a concrete run in which the reload lands between poll and decision ends with two live hosts |
| Supervision.ReloadInSleepStrands | src/dev/daemon.rs:883-893 | and one in which it lands in the sleep after the decision |
| Supervision.EveryWaitIsTheFirst | src/dev/daemon.rs:882-893 | in every run whose reloads all start their process, every respawn decision waits exactly 200 ms |
| Supervision.FreshBackoffStep | src/dev/host.rs:277-289 | a step leaves a watched host with a moved backoff index if and only if it is a reload that cannot start its process, over an index that has moved |
| Supervision.FailedReloadKeepsBackoff | src/dev/host.rs:277-289 | such a reload keeps the index, whatever it is, and the next wait is the one at that index |
| Supervision.GrowingBackoffIsReached | src/dev/daemon.rs:859-893 | for every n there is a run from the start, of failed respawns and failed reloads, after which the next wait is the one at index n + 1 |
| Supervision.FailedRespawnIsFinal | src/dev/daemon.rs:859-893 | after a failed respawn the host stays crashed through every run, until someone reloads, installs or stops a host |
| Supervision.ChildLiveStep | src/dev/host.rs:275-499 | at every step the held child is alive after it if and only if the step revives it (a connecting respawn or reload, the installation of a live launch) or it was alive and the step does not end it |
| Supervision.StopIsFinalExactly | src/dev/daemon.rs:843-848 | in every run that follows the stop of the host, the held child is ever alive again if and only if some action of the run revives it |
| Supervision.QuietStopIsFinal | src/dev/daemon.rs:883-887 | without reloads and installations of connection threads it is never alive again when the supervisor was not past its shutdown check |
| Supervision.LateRequestsRevive | src/dev/daemon.rs:1091-1107 | each kind of revival does occur after the stop: a respawn past its check, a reload that waited for the lock (the supervisor then ended), an installation of a launch under way |
| Supervision.TeardownLeavesHostExactly | src/dev/daemon.rs:333-341 | over every run from the stop to the end of the process, late requests included, the held host outlives the daemon if and only if some action revived it, none after that ended it, and either a connection thread still holds the state or the host had been given up |
| Supervision.NothingOutlivesExactly | src/dev/daemon.rs:333-341 | in such a run without overlaps no host at all outlives the daemon if and only if no launch is under way with its child alive and no thread holds the state over a revived host |
| SemVer.Trichotomy | src/dev/registry.rs:347-357 | of two different versions exactly one precedes the other, in the order of section 11 of SemVer 2.0.0 |
| SemVer.Transitive | src/dev/registry.rs:347-357 | precedence is transitive, so it is a strict total order |
| SemVer.NumbersDecide | src/dev/registry.rs:349 | the first different one of major, minor and patch decides |
| SemVer.PreReleaseFirst | src/dev/registry.rs:349 | a pre-release precedes its release |
| SemVer.IdentifiersDecide | src/dev/registry.rs:349 | of two pre-releases the first different identifier decides: numbers by size, words by letter, numbers before words, and a longer list after its beginning |
| Registry.Pigeonhole | src/dev/registry.rs:385-391 | distinct decimal suffixes give distinct names, so at most as many suffixes are taken as there are names |
| Registry.Disambiguate | src/dev/registry.rs:365-392 | the counting search ends and returns the name defined below |
| Registry.DisambiguatedIsFree | src/dev/registry.rs:365-392 | the name is never taken and never a verb: the candidate when free, else the prefixed one when free, else the smallest free suffix, at most the number of taken names plus 2 |
| Registry.FreeExactly | src/dev/registry.rs:366 | a name is free if and only if no entry has it and it is none of the verbs of `dev` |
| Registry.NamesOfDirectories | src/dev/registry.rs:370-380 | a directory is named by its last component, and a collision puts the name of the directory above in front |
| Registry.NamelessDirectories | src/dev/registry.rs:579-584 | a directory without a name of its own is called "extension" |
| Registry.RegistrableExactly | src/dev/registry.rs:510-532 | exactly which paths can be registered, and the directory each stands for |
| Registry.Registry.Add | src/dev/registry.rs:161-184 | one entry is appended under the chosen name, or nothing changes on `NoManifest` |
| Registry.Registry.AddNamed | src/dev/registry.rs:201-225 | one entry is appended under the forced name, or nothing changes when it is taken |
| Registry.Registry.AddRecursive | src/dev/registry.rs:255-278 | each member whose canonical path is not there yet is added, and the first failure ends the loop with the members before it kept |
| Registry.Registry.Retain | src/dev/registry.rs:286-295 | the entries not under the target stay, in order, and the names of the others are returned, in order |
| Registry.Registry.Remove | src/dev/registry.rs:282-316 | recursively every entry under the target goes, else the first entry of that name or else of that path |
| Registry.Registry.SetEnabled | src/dev/registry.rs:319-334 | the flag of the first entry of that name or else of that path changes, and nothing else |
| Registry.AddStores | src/dev/registry.rs:161-198 | what adding stores: name, directory, enabled flag and kind of the one entry it appends |
| Registry.AddNamedStores | src/dev/registry.rs:201-225 | the same for a forced name, refused if and only if an entry has it |
| Registry.LookupExactly | src/dev/registry.rs:320-331 | a token stands for the first entry of that name, or with none for the first at the path it spells |
| Registry.SetEnabledExactly | src/dev/registry.rs:319-334 | the flag of the entry found is set as asked, and nothing else changes |
| Registry.RemoveOneExactly | src/dev/registry.rs:301-315 | the entry found is taken out, and the others stay in order |
| Registry.RemoveAllExactly | src/dev/registry.rs:283-299 | the entries outside the target stay, each in its place; the names of the others come back in order; it is an error if and only if there are none |
| Registry.EditKeepsNames | src/dev/registry.rs:161-334 | each edit, the register verb included, keeps names pairwise distinct |
| Registry.NamesStayDistinct | src/dev/registry.rs:161-334 | so after every sequence of edits, over a file system that may change in between, no two entries share a name |
| Registry.AddAllFacts | src/dev/registry.rs:262-277 | a recursive registration keeps the old entries in front and leaves every scanned path registered |
| Registry.AddAllFresh | src/dev/registry.rs:263-270 | no entry it adds has the canonical path of another entry, old or new, whatever paths the old ones share |
| Registry.AddAllReturns | src/dev/registry.rs:261-277 | a recursive registration returns the names it appended, in order |
| Registry.AddAllStops | src/dev/registry.rs:274 | the first member that is no project ends it, with the members before it stored |
| Registry.AddRecursiveTwice | src/dev/registry.rs:263-270 | run again on an unchanged tree it adds nothing; its additions are fresh, and paths distinct before stay distinct |
| Registry.RemoveUndoesAddRecursive | src/dev/registry.rs:283-299 | followed by a recursive removal of the root it leaves exactly the original entries not under the root, in order |
| Registry.RemovePartitions | src/dev/registry.rs:287-295 | entries kept and names returned partition the entries by whether they are under the target |
| Registry.OutcomeForetellsAdd | src/dev/registry.rs:230-243 | the outcome foretold for a name is the name that adding it stores |
| Registry.RegisterPath | src/commands/dev/register.rs:67-146 | the register verb on one path: nothing when it is registered, a refusal of an explicit taken name, else one entry through add_named |
| Registry.RegisterStoresForetold | src/commands/dev/register.rs:89-136 | the verb refuses if and only if an explicit name is taken; what it stores is a new name: the explicit one as it stands, or without one the name foretold, which is no verb and the one that add would choose |
| Registry.RegisterAgainExactly | src/commands/dev/register.rs:67-136 | registering a path again, with or without a name, does nothing if and only if the directory it stands for has the path's own canonical form; else a path to the manifest file is registered again without a name, and refused with one |
| Registry.Prefilter | src/dev/registry.rs:341-359 | the loop splits the entries into those the host is new enough for, unreadable minimum included, and the rest, each entry once |
| Registry.KeptExactly | src/dev/registry.rs:347-357 | an entry is kept if and only if it names no readable minimum, or one that is the host's version or precedes it |
| Registry.LaterHostKeepsMore | src/dev/registry.rs:347-357 | a later host version keeps whatever an earlier one kept |
| Registry.CompatiblePicks | src/dev/registry.rs:341-359 | the pre-filter keeps each loadable entry in its place |
| Registry.IncompatiblePicks | src/dev/registry.rs:341-359 | and skips each other entry in its place |
| Handlers.DaemonState.DoReload | src/dev/daemon.rs:585-685 | scope, sets, strict refusal, reload or launch in the order of the code; a refusal updates the sets and leaves the host alone |
| Handlers.DaemonState.SetWorkingSet | src/dev/daemon.rs:782-802 | owner and names are stored, then a plain reload applies them |
| Handlers.DaemonState.ConnectionClosed | src/dev/daemon.rs:825-841 | only the owner's close releases the scope, and it reloads only if there was one |
| Handlers.DaemonState.StatusResponse | src/dev/daemon.rs:697-733 | one row per entry of the set, in order, with its name, path, enabled flag and lifecycle |
| Handlers.ReloadAccurateExactly | src/dev/daemon.rs:590-635 | a reload leaves status and host in agreement if and only if the host took the new configuration or already had it |
| Handlers.RefusedShowsLoadedExactly | src/dev/daemon.rs:599-613 | after a strict refusal over a running host, the rows shown as Loaded are what the host was told to load if and only if that is still what the pre-filter keeps |
| Handlers.LaunchAccurate | src/dev/daemon.rs:636-655 | a first launch leaves them in agreement however it turns out |
| Handlers.CrashesKeepAccurate | src/dev/host.rs:457-486 | any number of crashes and respawns keeps the agreement |
| Handlers.StatusTellsTheTruth | src/dev/daemon.rs:706-733 | given the agreement, status lists each entry once, marks Skipped exactly what the pre-filter dropped, and while Running marks Loaded exactly the host's configuration, in order |
| Handlers.StatusAfterReload | src/dev/daemon.rs:585-733 | end to end: after a reload that was neither refused nor unable to start a process, through any crashes and respawns, for a registry with unique names |
| Handlers.ScopeExactly | src/dev/daemon.rs:550-563 | what is in scope: the enabled entries, of the working set when there is one, each in its place, and nothing of a registry that cannot be read |
| Handlers.ScopeMembers | src/dev/daemon.rs:550-563 | in particular which entries |
| Handlers.RefusedExactly | src/dev/daemon.rs:585-613 | a reload is refused if and only if it is strict and something in scope needs a later host; it then updates the sets and leaves host and processes alone |
| Handlers.AcceptedShowsLoaded | src/dev/daemon.rs:585-733 | after an accepted reload the host runs with a live child, and status shows as Loaded exactly what is in scope and can be loaded, in order |
| Handlers.CrashIsShown | src/dev/daemon.rs:708-713 | after a crash status shows nothing as Loaded, and after the respawn the host's configuration again |
| Handlers.DeadShownLoadedExactly | src/dev/daemon.rs:697-733 | after any reload that was not refused, something is shown as Loaded with no live child behind it if and only if a host was held, its process could not be started, and the pre-filter kept anything |
| Handlers.StepKeepsLed | src/dev/daemon.rs:585-841 | every handler and host event keeps the held child the leader of its own group |
| Handlers.OnlyScopedReloadsBreakOwnership | src/dev/daemon.rs:586-589 | before shutdown a step breaks "the working set in force is what an open connection set, and it is the owner" if and only if it is a scoped reload for another set |
| Handlers.OwnershipHolds | src/dev/daemon.rs:782-841 | so it holds in every run without scoped reloads and before shutdown |
| Handlers.OwnershipFromStart | src/dev/daemon.rs:782-841 | in particular in every such run from the start of the daemon |
| Handlers.CloseRestoresOrLeaves | src/dev/daemon.rs:825-841 | closing any other connection changes nothing, closing the owner restores the full enabled set |
| Handlers.CloseActsExactly | src/dev/daemon.rs:825-841 | before shutdown the close of the owner, and no other close, releases the set, and reloads if there was one |
| Handlers.ScopedReloadOutlivesItself | src/dev/daemon.rs:586-589 | before shutdown the scope of a scoped reload stays in force through every later plain reload, close, crash and respawn, until another scope is asked for, if and only if no connection that owned a working set before it closes on the way |
| WatchPlan.MarkEntry | src/dev/watch.rs:307-320 | one path against one entry: own tree first, then each library |
| WatchPlan.Classify | src/dev/watch.rs:293-324 | the loops over paths and entries lay the contributions over one another, later ones winning |
| WatchPlan.ClassifySplits | src/dev/watch.rs:297-324 | the result for two batches together is the second laid over the first, so the affected names and library roots are the unions |
| WatchPlan.AffectedExactly | src/dev/watch.rs:303-321 | an extension is affected if and only if some source input lies under its root or under one of its libraries |
| WatchPlan.AffectedAsRegistered | src/dev/watch.rs:308-309 | each affected name carries the root and kind of one entry of that name |
| WatchPlan.QueuedExactly | src/dev/watch.rs:312-319 | a library is queued if and only if some source input lies in it |
| WatchPlan.QueuedLibraryFansOut | src/dev/watch.rs:312-319 | a queued library makes every extension that depends on it affected |
| WatchPlan.OutputsContributeNothing | src/dev/watch.rs:227-239 | paths under dist or node_modules or named manifest.json change nothing, wherever they stand in a batch |
| WatchPlan.InputExactly | src/dev/watch.rs:227-239 | exactly which files are inputs: one of eight extensions, no dist or node_modules above, and not manifest.json |
| WatchPlan.DotlessIsNoInput | src/dev/watch.rs:238 | a file without a dot is none |
| WatchPlan.UnderWhen | src/dev/watch.rs:333-341 | a path is under a base when it goes on from it as spelled, or canonically where both exist |
| WatchPlan.EditsCount | src/dev/watch.rs:297-310 | editing a source file under an extension's root affects it, in any batch |
| WatchPlan.LibraryEditsCount | src/dev/watch.rs:312-319 | editing one in a library queues the library and affects the extension |
| WatchPlan.EditsElsewhereDoNot | src/dev/watch.rs:303-321 | an edit under none of an extension's directories does not affect it |
| Chain.Prepare | src/commands/deploy.rs:59-112 | the steps of a deploy up to the resolved hooks, stopping at the first failure: extension, user library, build if stale, both outputs, manifest for the hooks |
| Chain.PreDeploy | src/hooks/lifecycle.rs:65-88 | the hooks run in order and the first that does not allow the deploy ends it |
| Chain.CopyFiles | src/commands/deploy.rs:126-144 | each file gets its directory and is copied unless it has no source |
| Chain.DeployExtension | src/commands/deploy.rs:53-156 | preparation, hooks, native audit, destination, files, native modules, in this order |
| Chain.BuildAndDeploy | src/dev/watch.rs:378-410 | one affected extension: discover, build if stale, deploy |
| Chain.BuildDeployReload | src/dev/watch.rs:353-436 | the loops over libraries and extensions are one run of the plan up to its first failure |
| Chain.FailureIsLast | src/dev/watch.rs:353-428 | in any run a failed call that is no probe is the last event, and a run goes wrong by nothing else |
| Chain.LibrariesFirst | src/dev/watch.rs:358-361 | whatever fails, library builds come first, in order, and nothing else happens before all of them went well |
| Chain.HooksGateCopies | src/commands/deploy.rs:106-112 | whatever fails, the installed copy changes only after every hook allowed it, a hook runs only after those before it did, and neither happens before the bundle is fresh and both outputs exist |
| Chain.StepsInOrder | src/commands/deploy.rs:53-156 | whatever fails, every call comes after each of the calls it needs, step by step from discovery to native modules, and a build or copy right after the probe that asked for it |
| Chain.ReloadOnceAfterDeploys | src/dev/watch.rs:407-428 | whatever fails, a reload is asked for at most once, as the last call, naming each affected extension once and in order, each of them built, allowed and copied by then |
| Chain.FailureEndsChain | src/dev/watch.rs:353-428 | a failed build, veto or copy yields no reload; the chain goes well if and only if nothing failed, and then it ends in a granted reload if any extension was affected |
| SaveCycle.SaveNarrowsHost | src/dev/watch.rs:412-419 | a chain that goes well ends in a scoped reload after which, for any state of the daemon, the working set is exactly the saved names and a host whose process starts is told to load exactly those of them that are registered, enabled and not too new |
| SaveCycle.SaveKeepsOwnershipExactly | src/dev/watch.rs:416-419 | a save keeps the ownership of the working set if and only if the set in force already was exactly the names of the saved extensions |
| Staleness.WatchEntry | src/dev/watch.rs:513-517 | an entry's newest time is the greatest reached through it, links followed |
| Staleness.WatchDir | src/dev/watch.rs:508-523 | the recursive walk returns the greatest time reached below the directory, or nothing if there is none |
| Staleness.DeployNewest | src/commands/deploy.rs:402-415 | the flattened walk returns the greatest time of a regular file reached through no link |
| Staleness.WalkMeetsFiles | src/commands/deploy.rs:404-408 | that walk meets exactly the files that a path of entries leads to |
| Staleness.BundleIsStale | src/dev/watch.rs:486-502 | stale if and only if an output is missing or unreadable, or rackabel.toml or something reached below src is newer than the bundle |
| Staleness.SourcesNewerThan | src/commands/deploy.rs:384-398 | newer if and only if the bundle's time is unreadable, or rackabel.toml or a file of src is newer |
| Staleness.RebuildsIfStale | src/commands/deploy.rs:354-377 | deploy rebuilds if and only if an output is missing or unreadable, or rackabel.toml or a file of src is newer |
| Staleness.TestsAgree | src/dev/watch.rs:486-523 | on a tree of plain files and directories both tests say the same |
| Staleness.TestsAgreeExactly | src/dev/watch.rs:486-523 | whatever tree src is, the tests agree about every project with it if and only if each time of a special node or of a file behind a link is at most that of some plain file, and src itself is no file with a readable time |
| Staleness.TestsDifferExactly | src/commands/deploy.rs:402-415 | about one project they differ if and only if nothing else makes it stale and either src is itself a newer file, or a special node or a file behind a link is newer and no plain file is |
| Staleness.LinkedSourceIsMissed | src/commands/deploy.rs:404-408 | a newer file behind a link makes the watch chain rebuild and deploy not |
| Changelog.ChangelogMentions | src/commands/validate.rs:278-306 | true only if some occurrence is a mention, and exactly then for a version that passes the overlap test |
| Changelog.ScanIsExact | src/commands/validate.rs:278-306 | for such a version the skipping scan finds a mention in every text that has one, overlapping occurrences included |
| Changelog.RightOnEveryText | src/commands/validate.rs:278-306 | the scan is right about every text if and only if the version overlaps itself only behind a digit or a dot |
| Changelog.PlainVersionsAreJumpable | src/commands/validate.rs:273-277 | every version of digits and dots passes, so the scan is exact for it |
| Changelog.MentionsExactly | src/commands/validate.rs:282-299 | a version is mentioned exactly where no digit or dot stands before it, and neither a digit nor a dot and a digit after it |
| Changelog.LongerVersionIsNoMention | src/commands/validate.rs:273-275 | a longer version mentions no part of itself |
| Changelog.PreReleaseMissed | src/commands/validate.rs:304 | 1.0.0-1.0.0 is missed in a text that mentions it |

## Assumptions

- Text is sequences of characters. The alphabet, separators and newline are ASCII, so this agrees
  with the byte loops; lengths and offsets stand for byte lengths.
- Arithmetic that can overflow in the decoder and the lookup wraps, as in a release build.
  Timestamps have four-digit years, so theirs cannot overflow.
- Where a tag's log file is, is a function of the tag, with nothing assumed about which tags meet in
  one directory or about when a tag's file opens. Appending to an open file succeeds.
- A poll of a tail loop reads one state of the file; a file is only appended to in the theorems.
- Process identities are never reused, each host leads its own group, and a kill ends the leader.
- In `Supervision` a step is one lock section or one event outside the locks. In `Handlers` a step
  is a whole request handler: the owner and the working set are separate stores, and interleavings
  between them are not covered by the ownership and status theorems.
- Canonicalization is a function of the path and does not change within one batch or one edit.
- The version a host reports is 1.0.0, the only value the code ever stores.
- In `Chain` the number of hooks and the copy set of an extension are fixed
  during one chain; each call is answered by the world, differently each time if it likes.

## Left out

- Process, signal, socket and thread calls, standard output redirection, pidfiles and lockfiles.
- Running a hook and its time limit: a hook either allows the deploy or does not.
- JSON, TOML and manifest parsing, kind inference, esbuild, node, the packer, library resolution.
- `on_reload` and `post_build` hooks: they run after the last call of the trace or inside a build
  and cannot change its outcome.
- Options of `deploy` that the watch chain never sets: undo, fix, release, dry run.
- Recording the deploy time (best effort, after the copy) and all reporting.
- Handlers.DaemonState.DoReload: `deploy_kept`, which is best effort and does not touch the state
  modelled here, the inspector setting, and the reload times and lists in the response.
- Handlers.DaemonState.StatusResponse: skip reasons, reload times, the inspector and the paths of Live.
- `set_inspect`: it stores the inspector and then is the same step as a plain reload.
- Several session files of one tag read together, `parse_since`, level filtering, event descriptions.
- Rotation of a tailed file by rewriting it longer than before, and invalid UTF-8 in it.
- Registry.Prefilter: the reason text of a skipped entry.
- Reload times and the p50, `source = deployed` entries.
- SemVer.Trichotomy: build metadata, which SemVer ignores and the `semver` crate orders.
- SemVer.Transitive: build metadata, as above.
- Registry.KeptExactly: build metadata; a minimum such as `1.0.0+x` is skipped by the code, since the
  crate puts it after `1.0.0`.
- Registry.LaterHostKeepsMore: build metadata, as above.
- Grandchildren of the host: only group leaders are tracked.
- Chain.BuildDeployReload: the two maps of a change set are taken as sequences in any order, so the
  alphabetical order of extensions and libraries is not modelled.
- Chain.CopyFiles: copying native modules is one call, which may fail at any of its inner steps.
- Staleness.BundleIsStale: trees are finite, so links that lead back to a directory above are not
  modelled.
- Calendar.ParsingKeepsOrder: a leap second (`:60`) is not a valid time here.
