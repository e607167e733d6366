# Carrels: a verified model

Carrels is firmware for an seL4 container monitor, with the shell an operator types at and
a backend for the Kubernetes container runtime interface (CRI). This project models the parts
of it whose correctness is hardest to see from the code, and proves what they are for.
`dafny verify dfyconfig.toml` checks all of it.

* **The line editor.** `HistoryRing` is the command history as the firmware keeps it:
  NUL-separated records in a ring of 128 bytes, with the same index arithmetic and the same
  reads of the byte after the ring. It refines `HistoryLog`, a sequence of lines;
  `HistoryRuns` says what a whole run of saves and moves amounts to. `Splitter` says which
  tokens a command line has, `LineSplitter` cuts it in place, over the strings of `CStrings`,
  and `Quoting` says which lines with quotes are cut as meant. `EditorSpec` is the editor on
  values: the text before and after the cursor, what each byte of input does, what it prints;
  `LineEditor` is the editor as the firmware runs it, with its buffers, its `memmove`s and its
  output in chunks, proved against `EditorSpec`. `Terminal` interprets control sequences as
  sections 8.3.18, 8.3.20 and 8.3.41 of ECMA-48 say, and `EditorScreen` proves when the
  terminal shows the line. `EditorLines` is about whole lines: line endings, bytes that a cut
  line leaves behind, lines that cannot be saved, and spaces in front. `EditorKeys` says what each
  key does to the line, by the bytes it sends.
* **The monitor.** `MonitorSpec` is lifecycle, peer policies, switch links and the one
  deployment under way, as atomic steps between file system waits; `Monitor` is the code that
  updates its tables; `MonitorRuns` proves what every interleaving keeps, and `MonitorAnswers` what
  the calls answer: the refusals, the result a query gives, and which protocons are started.
* **The file system protocol.** `FsProtocol` is a table of request ids and two bounded queues
  shared by any number of cothreads and a server; `FsClient` is the client's code, and `FsAnswers`
  traces what a blocking call returns to the server's answer to that very call.
* **The CRI connection.** `CriStream` is the host's end of the vsock connection and
  `CriEndpoint` its code; `CriCodec`, `CriObject` and `CriMarshal` are the 2536-byte object both
  sides exchange; `CriIds`, `CriTable` and `CriRuntime` are the sandbox and container tables,
  `CriImages` is the table of images, and `CriListing` the client's listing loop.
* **Services and descriptors.** `Services`, `ServicePlanner` and `ServiceInstaller` lead from a
  payload's manifest to the services it gets; `Descriptors`, `DescriptorFiles` and
  `DescriptorTable` are the two binary files the monitor parses at start-up. `PeerPorts` is the
  shell's syntax for a set of peers, `PeerPrinting` how it is printed.

Bytes are numbers below 256, and words of 16, 32 and 64 bits wrap around explicitly. Whether C's
`char` is signed, which decides if bytes from 128 on are control characters to the editor, is a
parameter. A bit mask is modelled as the set of the positions of its bits. What a component asks
of its environment is a parameter of the step that asks: whether the switch obeys, a cothread can
be spawned, a queue has room, a manifest header is good, a protocon stops, an image starts.

## Where the code does not do what is said of it

* `microrl/microrl.c:551` says that a line equal to the last record is not saved. The code
  compares the line with another record once the user has gone up twice
  (`HistoryRuns.RepeatRuleFails`), and it compares what the C string of the line buffer is, which
  after ^K is longer than the line (`EditorLines.CutBreaksRepeatRule`, and from power-on
  `EditorLines.CutRepeatExample`). `HistoryRuns.RepeatRule` says exactly when the rule holds,
  whatever bytes are behind the line.
* `microrl/microrl.c:547` lets a line of 127 bytes be saved. The loop at line 562 never makes
  room for it: `HistoryRing.EvictionEndsExactly` proves that its test fails after every number
  of turns, also when no record is left, and for no shorter line. `HistoryRing.Ring.SaveHangsExactly`
  and `LineEditor.Microrl.NewlineHangs` say so of a save and of Enter, and
  `EditorLines.TypedLineHangs` of the keys: a typed line hangs exactly when it has 127 characters.
* ^K (`microrl/microrl.c:1014-1018`) does not write a NUL after the line. Enter then reads on:
  `EditorLines.CutAndEnter` says exactly when the command runs as shown, for keys that
  `src/orchestrator/orchestrator.c:833-840` passes on (it turns ^B and ^H into the delete key).
* `microrl/include/microrl_config.h:94-97` says that quotes protect spaces, and that two quoted
  arguments are two tokens. The space after a closing quote starts an empty token of its own:
  `Quoting.QuotesProtectLastOnly` says for which lines the promise is kept (a quote inside a bare
  word breaks it too),
  `Quoting.TwoQuotedArguments` that it is not for the documented example.
* `microrl/microrl.c:1174-1177` means to skip spaces before a command. It skips the rest of the
  input of that call: `EditorLines.LeadingSpaceExactly` and `EditorLines.LeadingSpaceLoses` show
  that a chunk that starts with a space does what it would do without its leading spaces exactly
  when there is nothing else in it; `EditorLines.LeadingSpaceExample` gives the keys.
* A stream packet that crosses the end of a frame is dropped without an error
  (`src/orchestrator/cri_runtime.c:269`): `CriStream.LostIffCrossing` in general,
  `CriStream.CutBeforeBoundary` for two frames cut one byte before the boundary.
* `src/orchestrator/cri_runtime.c:182` cuts an image's reference to 63 bytes for its id, so ids are
  not unique (`CriImages.IdsClashExactly`), and the client removes an image by the name it was pulled
  under (`guest/k8s/cri_stub.go:484-488`), which is no id unless it has the scheme:
  `CriImages.RemoveByNameExactly` says when the image goes, and that otherwise nothing does.
* `include/service/manifest.h:133-136` checks a record's size in 32 bits.
  `Descriptors.SvcInsideIffNoWrap` says which records that is right for, and
  `DescriptorFiles.WrappedFileIsAccepted` gives a file that is accepted and has another one.
* A faulting protocon is restored without its policy and links being withdrawn
  (`src/monitor/fault/fault.c:46-53`). `MonitorRuns.RestartExactly` says for which peers it may
  then be deployed again: for any others a link stays open that its policy does not allow.
  `MonitorRuns.FaultLeavesLink` is a run that gets there. A deployment to no protocon in
  particular that lands on it gives the new payload the old one's policy and links:
  `MonitorRuns.RestartAnyExactly` says when that makes no difference,
  `MonitorRuns.FaultLeavesPolicy` is a run where it does.

## Model

| member | source | states |
|---|---|---|
| HistoryRing.HasSpaceMeaning | microrl/microrl.c:434-447 | on a ring that holds records, the free-space test is that their bytes, `len` more and a marker fit |
| HistoryRing.LandsInside | microrl/microrl.c:405-426 | erasing at any head, also with no record left, lands inside the array if a NUL is anywhere past its first byte |
| HistoryRing.EvictionEndsExactly | microrl/microrl.c:561-564 | the eviction loop ends exactly for lines of at most 126 bytes; for others its test fails after every number of turns |
| HistoryRing.Ring.RingMarks | microrl/microrl.c:401-426 | between two calls the ring, fresh or used, has a NUL past its first byte |
| HistoryRing.Ring.SaveHangsExactly | microrl/microrl.c:545-564 | a line passes the length guard, is not taken for a repeat and never gets room exactly when it has 127 bytes |
| HistoryRing.MarkerBeforeRecord | microrl/include/microrl.h:92-97 | each record lies between two markers, and one reaches the end of the array only when head is at least 1, so the byte read at index 128 is not NUL |
| HistoryRing.DropOldest | microrl/microrl.c:421-426 | moving head past the first record leaves a ring that holds the other records |
| HistoryRing.AppendRecord | microrl/microrl.c:566-578 | a record and a NUL written after tail, going round the end, append the record |
| HistoryRing.StepOver | microrl/microrl.c:405-415 | from any marker but the last the scan ends, at the next marker |
| HistoryRing.Ring.NextRecord | microrl/microrl.c:405-415 | the scan, with its read at index 128, lands on the first NUL after the index, also round the end of the array |
| HistoryRing.Ring.EraseOlder | microrl/microrl.c:421-426 | head moves to the next NUL; in a ring that holds records exactly the oldest one goes |
| HistoryRing.Ring.MakeRoom | microrl/microrl.c:561-564 | the loop ends, with the fewest oldest records gone that make room |
| HistoryRing.Ring.StoreRecord | microrl/microrl.c:566-579 | the line becomes the newest record, whether or not it straddles the array end |
| HistoryRing.Ring.CountRecords | microrl/microrl.c:459-464 | the walk from head to tail counts the records |
| HistoryRing.Ring.FindRecord | microrl/microrl.c:489-493 | the walk stops at the marker of the record under the counter |
| HistoryRing.Ring.RecordLength | microrl/microrl.c:497-504 | the scan gives the length of the record, also round the end of the array |
| HistoryRing.Ring.CopyRecord | microrl/microrl.c:509-515 | the record's bytes arrive at the front of the line, nothing else changes |
| HistoryRing.Ring.RestoreLine | microrl/microrl.c:456-518 | the counter moves as in the sequence of lines and the line is the record it then names, padded with NULs |
| HistoryRing.Ring.SaveLine | microrl/microrl.c:545-580 | saving refines the sequence of lines: skip a line equal to the compared record, else evict and append, with the counter back at 0 |
| HistoryRuns.LongestFitIsLongest | microrl/microrl.c:545-580 | the longest fit is a suffix that fits the ring and no longer suffix does |
| HistoryRuns.EvictIsLongestFit | microrl/microrl.c:561-579 | evicting and appending gives the longest suffix of all lines that fits |
| HistoryRuns.StepValid | microrl/microrl.c:456-580 | every save and every move keeps a well-formed history in the ring |
| HistoryRuns.HistoryIsLongestSuffix | microrl/microrl.c:545-580 | after any run of saves and moves the history is the longest suffix, of all lines ever added, that fits the ring |
| HistoryRuns.RecallKthNewest | microrl/microrl.c:466-494 | k steps up show the k-th newest line and stop at the oldest |
| HistoryRuns.SaveResetsCounter | microrl/microrl.c:545-580 | a saved line, stored or skipped as a repeat, leaves the recall counter at 0, and the history is unchanged or the longest fit with the line; a line too long leaves both alone |
| HistoryRuns.RecallAfterSave | microrl/microrl.c:456-580 | after a save k steps up show the k-th newest record of the history it left |
| HistoryRuns.DownsUndoUps | microrl/microrl.c:466-488 | as many steps down undo steps up |
| HistoryRuns.RepeatRule | microrl/microrl.c:551-559 | for any bytes behind the line in its buffer, lines are skipped exactly when they repeat the newest record if and only if there is no record or the compared one is the newest with those bytes after it |
| HistoryRuns.RepeatRuleWhole | microrl/microrl.c:551-559 | with a NUL behind the line that is so until the user goes up twice, and then only when the record compared equals the newest |
| HistoryRuns.RepeatRuleStale | microrl/microrl.c:551-559 | with other bytes behind the line it is never so before the user goes up twice |
| HistoryRuns.RepeatRuleFails | microrl/microrl.c:551-559 | two lines and two steps up for which the rule fails both ways |
| Splitter.SplitQuoteFree | microrl/microrl.c:89-153 | a quote-free line of more than eight fields gives too many tokens; any other gives tokens that joined by single spaces are the line without one trailing space |
| Splitter.JoinInjective | microrl/microrl.c:89-153 | the joined text determines the tokens, so no other tokens would do |
| Splitter.SplitWithStale | microrl/microrl.c:124-130 | bytes after the command, whether or not it ends in a space, change its tokens exactly when they are not harmless; they drop the last token when they go on without a space |
| Quoting.QuoteClosesGuarded | microrl/microrl.c:102-121 | the quote behind a text closes it exactly when every quote in the text is behind a backslash and no backslash is at its end |
| Quoting.SplitItems | microrl/microrl.c:97-149 | a line of bare and quoted words is split into what is quoted and what is before the first quote of a bare word, with an empty token after every quoted word but the last, or has too many |
| Quoting.QuotesProtectLastOnly | microrl/include/microrl_config.h:94-97 | the tokens are the words as meant exactly when there are at most eight, only the last is quoted and no bare one has a quote in it |
| Quoting.TwoQuotedArguments | microrl/include/microrl_config.h:94-97 | the documented example is split into five tokens |
| Quoting.UnclosedQuote | microrl/microrl.c:98-121 | everything after a quote that is not closed is one token |
| LineSplitter.ScanWord | microrl/microrl.c:124-137 | the scan ends at a space, the end of the line or the limit, and replaces quotes by NULs |
| LineSplitter.ScanQuoted | microrl/microrl.c:98-121 | the scan ends at the closing quote, the end of the line or the limit; a backslash protects a quote |
| LineSplitter.NextToken | microrl/microrl.c:97-149 | one turn of the loop takes one token off what is left, or meets a word past the limit, and keeps the tokens found before |
| LineSplitter.SplitLine | microrl/microrl.c:89-153 | the in-place splitter fails exactly when there are too many tokens, and otherwise leaves each token as a C string at its start |
| EditorSpec.StepValid | microrl/microrl.c:1132-1186 | every byte of input but Tab keeps cursor and length within 128, text printable and the history well-formed |
| EditorSpec.ProcessValid | microrl/microrl.c:1132-1186 | so does every call with a chunk of input without Tab |
| EditorSpec.ProcessConcat | microrl/microrl.c:1140-1183 | a chunk does what its two halves do in turn, as long as the first half does not stop the call |
| EditorSpec.RecallFacts | microrl/microrl.c:525-537 | a recalled line fits the line buffer and leaves nothing stale |
| EditorScreen.PrintLineShows | microrl/microrl.c:350-396 | reprinting from a column needs only what is before it to be right: then the row shows prompt and line, blanks after them, and the cursor in place |
| EditorScreen.InsertInSync | microrl/microrl.c:1104-1123 | a character typed anywhere keeps the terminal showing the line |
| EditorScreen.RuboutInSync | microrl/microrl.c:1055-1065 | so does the backspace key, by its short form or by reprinting |
| EditorScreen.DeleteInSync | microrl/microrl.c:1067-1071 | so does the delete key |
| EditorScreen.KillForwardInSync | microrl/microrl.c:1014-1018 | so does ^K |
| EditorScreen.CursorInSync | microrl/microrl.c:1019-1042 | so do the cursor keys |
| EditorScreen.RedrawSyncs | microrl/microrl.c:1072-1090 | redrawing shows the line whatever the row showed before |
| EditorScreen.PerformInSync | microrl/microrl.c:987-1096 | every editing and history command keeps the terminal showing the line |
| EditorScreen.EnterSyncs | microrl/microrl.c:658-710 | after Enter the terminal shows the prompt of an empty line, whatever the row showed before |
| EditorScreen.StepInSync | microrl/microrl.c:1132-1186 | every byte of input but Tab leaves no control sequence open and keeps the terminal showing the line, until ^C; Enter, ^R and ^L show it again |
| EditorScreen.SessionInSync | microrl/microrl.c:1132-1186 | over any number of calls with any input without Tab the terminal shows prompt and line with the cursor in place, except between ^C and the next Enter, ^R or ^L |
| EditorScreen.StartInSync | microrl/microrl.c:658-710 | a session without ^C and Tab that starts with Enter, on a terminal that shows anything, ends with the line shown |
| EditorScreen.InterruptPlain | src/orchestrator/orchestrator.c:761-764 | the firmware's ^C leaves no control sequence open |
| EditorScreen.InterruptBreaks | src/orchestrator/orchestrator.c:761-764 | after the firmware's ^C the line is still shown exactly when there is no prompt and it is blank with the cursor at its start |
| EditorLines.TypedLines | microrl/microrl.c:1132-1186 | typed lines run their commands in order, are saved in order and leave an empty line |
| EditorLines.EndingsAgree | microrl/microrl.c:1152-1167 | lines ended with CR, LF, CRLF or LFCR run the same commands and leave the same history |
| EditorLines.StaleOnlyFromKill | microrl/microrl.c:1014-1018 | only ^K leaves bytes after the line, namely what it cuts |
| EditorLines.EnterWithStale | microrl/microrl.c:658-700 | Enter runs the command as shown exactly when the bytes after it are harmless |
| EditorLines.MoveBack | microrl/microrl.c:591-652 | as many left arrows as bytes move the cursor in front of them |
| EditorLines.CutAndEnter | src/orchestrator/orchestrator.c:833-849 | the same from the keyboard, with keys the firmware passes on: type, left arrows, ^K, Enter |
| EditorLines.CutIsSaved | microrl/microrl.c:545-580 | after the cut and Enter the line shown is what is saved, and the line with what was cut is what is compared |
| EditorLines.CutBreaksRepeatRule | microrl/microrl.c:551-559 | from the keyboard: a cut line that repeats the newest record is stored again, and one is dropped when the newest record is the line before the cut |
| EditorLines.CutRepeatExample | microrl/microrl.c:551-559 | the same for literal keys from power-on, both ways |
| EditorLines.TypedLineHangs | microrl/microrl.c:545-564 | typing a line and Enter never returns exactly when the line has 127 characters |
| EditorLines.LeadingSpaceDrops | microrl/microrl.c:1174-1177 | a space at an empty line drops the rest of its chunk, and only of its chunk |
| EditorLines.LeadingSpaceExactly | microrl/microrl.c:1174-1177 | a printable chunk that starts with a space leaves what it would leave without its leading spaces exactly when it is all spaces |
| EditorLines.LeadingSpaceLoses | microrl/microrl.c:1174-1177 | with Enter in the same chunk, the same commands run as without the leading spaces exactly when there is no command |
| EditorLines.LeadingSpaceExample | microrl/microrl.c:1174-1177 | one space or two, a letter and Enter run nothing in one chunk; the space in a chunk of its own, the command runs |
| EditorKeys.RightKeys | microrl/microrl.c:591-652 | the right arrow and ^F move over one byte, if there is one |
| EditorKeys.LeftKeys | microrl/microrl.c:591-652 | the left arrow and ^B move back over one byte, if there is one |
| EditorKeys.HomeKeys | microrl/microrl.c:591-652 | the home key in both forms and ^A put the cursor in front of the line |
| EditorKeys.EndKeys | microrl/microrl.c:591-652 | the end key in both forms and ^E put it behind the line |
| EditorKeys.DeleteKeys | microrl/microrl.c:591-652 | the delete key, ^D and Alt with backspace remove the byte under the cursor and leave what is before it |
| EditorKeys.RuboutKeys | microrl/microrl.c:1055-1065 | both backspace bytes remove the byte before the cursor |
| EditorKeys.KillKeys | microrl/microrl.c:1007-1018 | ^U removes what is before the cursor, ^K what is after it |
| EditorKeys.UpKeys | microrl/microrl.c:591-652 | the up arrow and ^P show the next older record, if there is one, with the cursor behind it |
| EditorKeys.DownKeys | microrl/microrl.c:591-652 | the down arrow and ^N show the next newer record, and below the newest an empty line |
| EditorKeys.UpTimes | microrl/microrl.c:456-518 | k up arrows on the empty line show the k-th newest record, or the oldest |
| EditorKeys.EnterThenUps | microrl/microrl.c:545-580 | after Enter on a line that can be saved k up arrows show the k-th newest record of the history the run left, whose newest is the line unless it was skipped |
| EditorKeys.TypedByte | microrl/microrl.c:1104-1123 | a character goes in front of the cursor if the line has room, else is refused |
| EditorKeys.HighByte | microrl/microrl.c:1171-1179 | a byte from 128 on is typed where `char` is unsigned and ignored where it is signed |
| EditorKeys.InterruptKey | microrl/microrl.c:1078-1086 | ^C leaves the line and prints what the callback prints |
| EditorKeys.RedrawKeys | microrl/microrl.c:1072-1096 | ^R and ^L leave line and history as they are |
| EditorKeys.UnknownLetters | microrl/microrl.c:591-652 | the bytes that end a sequence without doing anything |
| EditorKeys.TildeRepeats | microrl/microrl.c:630-649 | the digit of a sequence outlives it: ESC and a tilde repeat the last home, end or delete key |
| EditorKeys.BehindRemoved | microrl/microrl.c:193-220 | of the bytes a cut left behind the line a key that removes bytes leaves as many as it removes; ^K adds what it cuts |
| EditorKeys.BehindMoved | microrl/microrl.c:1019-1042 | moving the cursor leaves them all |
| EditorKeys.BehindWritten | microrl/microrl.c:160-186 | a typed character and a recalled record leave none |
| EditorKeys.EnterTooMany | microrl/microrl.c:687-710 | Enter on a quote-free line of more than eight words saves it, runs nothing and prints the error; otherwise its words run as one command |
| LineEditor.MoveBytes | microrl/microrl.c:199-201 | the move of overlapping bytes, of which those read past the buffer are unspecified |
| LineEditor.Digits | microrl/microrl.c:308-314 | the digits of a number, lowest first |
| LineEditor.GenerateMove | microrl/microrl.c:284-325 | the sequence that moves the cursor, cut at 999, and a NUL |
| LineEditor.Microrl.PrintText | microrl/microrl.c:367-383 | the chunks flushed and the bytes still in the print buffer are exactly what was there and the line |
| LineEditor.Microrl.PrintLine | microrl/microrl.c:350-396 | prints the line from a column on, erases the rest and puts the cursor back |
| LineEditor.Microrl.MoveCursor | microrl/microrl.c:333-342 | prints the move |
| LineEditor.Microrl.InsertText | microrl/microrl.c:162-186 | inserts before the cursor if the line has room, else changes nothing |
| LineEditor.Microrl.BackspaceText | microrl/microrl.c:193-205 | removes bytes before the cursor if there are that many, else changes nothing |
| LineEditor.Microrl.DeleteText | microrl/microrl.c:211-222 | removes the byte under the cursor, if any |
| LineEditor.Microrl.ResetLine | microrl/microrl.c:228-233 | empties the line |
| LineEditor.Microrl.LoadRecord | microrl/microrl.c:525-535 | the line becomes the record that the history gives |
| LineEditor.Microrl.PressKillForward | microrl/microrl.c:1014-1018 | refines cutting the text after the cursor |
| LineEditor.Microrl.PressRubout | microrl/microrl.c:1055-1065 | refines removing the last byte before the cursor |
| LineEditor.Microrl.PressPrintable | microrl/microrl.c:1104-1123 | refines inserting a character |
| LineEditor.Microrl.EscapeChar | microrl/microrl.c:591-652 | refines the escape sequences |
| LineEditor.Microrl.ControlChar | microrl/microrl.c:987-1096 | refines the control characters but Tab |
| LineEditor.Microrl.HandleNewline | microrl/microrl.c:658-710 | refines Enter: saved, split, run or refused, prompt, empty line |
| LineEditor.Microrl.NewlineHangs | microrl/microrl.c:545-564 | on a line of 127 bytes Enter finds no repeat and its eviction never ends, which is what the status of a hung call stands for |
| LineEditor.Microrl.ProcessInput | microrl/microrl.c:1132-1186 | a call with a chunk of input without Tab refines the editor on values in its line, history, output, commands run and status; an empty chunk is an error |
| MonitorRuns.ReleaseExactly | src/monitor/request/network.c:45-59 | after a withdrawal every open link has consent exactly when the switch closed all open links of the protocon |
| MonitorRuns.ReleaseKeeps | src/monitor/request/network.c:45-59 | a withdrawal leaves the other policies and links in agreement |
| MonitorRuns.ApplyKeeps | src/monitor/request/network.c:61-102 | a deployment keeps links and policies in agreement, and is exact if and only if it succeeds |
| MonitorRuns.AnswersPartition | src/monitor/request/network.c:67-101 | connected, rejected and unavailable peers partition the requested ones, and the connected have links |
| MonitorRuns.CallsRespectDeployment | src/monitor/request/deploy.c:18-31 | while a deployment is under way, every other call leaves its record, its cothread and its protocon alone, and no second one is accepted |
| MonitorRuns.StepInFlight | src/monitor/request/deploy.c:109-168 | at most one deployment is under way, and its protocon stays passive until it starts |
| MonitorRuns.LifeMoves | src/monitor/request/resume.c:9-30 | a protocon's life changes only by a call that names it or by its own deployment, along the edges of the life cycle |
| MonitorRuns.SuspendThenResume | src/monitor/request/suspend.c:9-30 | suspending and resuming an active protocon changes nothing, and keeps links and policy meanwhile |
| MonitorRuns.StopForgets | src/monitor/request/stop.c:9-32 | after a stop no policy and no link has the protocon, and everything between others is as before |
| MonitorRuns.LinksAreConsent | src/monitor/request/network.c:39-102 | over every run a link that is open has the consent of both ends, and is open exactly then if the switch obeys |
| MonitorRuns.CothreadProgress | src/monitor/request/deploy.c:109-157 | each run of the cothread brings it nearer to its end |
| MonitorRuns.TargetedEnds | src/monitor/request/deploy.c:133-146 | a targeted deployment is answered as in progress until it ends with a result for its own target, under every interleaving |
| MonitorRuns.FaultRestoreExactly | src/monitor/fault/fault.c:46-53 | a fault by itself leaves every open link with consent; a protocon that does not run keeps its policy unless it has none |
| MonitorRuns.RestartExactly | src/monitor/fault/fault.c:46-53 | after a fault and a new deployment every open link has consent exactly when the new peers include all the protocon had links to |
| MonitorRuns.RestartAnyExactly | src/monitor/fault/fault.c:46-53 | an untargeted deployment that lands on a faulted protocon keeps all policies and links, and does what it would do after a stop exactly when the protocon had no policy and was in none |
| MonitorRuns.FaultLeavesPolicy | src/monitor/fault/fault.c:46-53 | two protocons deployed to each other, a fault, and an untargeted deployment: the new payload has the old one's policy and open link |
| MonitorRuns.FaultLeavesLink | src/monitor/fault/fault.c:46-53 | two protocons deployed to each other, a fault, and a deployment of the one without the other: their link is open without consent |
| MonitorAnswers.AnswersExactly | src/monitor/request/network.c:61-102 | a deployment fails exactly when the switch refuses a link to a willing peer; else a requested peer is connected, rejected or unavailable as it runs and accepts, runs and does not, or does not run |
| MonitorAnswers.ResultExactly | src/monitor/request/deploy.c:133-146 | the same of the result that a targeted deployment leaves for the query |
| MonitorAnswers.RunAnswers | src/monitor/request/deploy.c:109-157 | in every run that result is for the lives and policies of the moment the deployment ends, and the query gives it until the next targeted deployment |
| MonitorAnswers.DeployToExactly | src/monitor/request/deploy.c:271-320 | which of the six answers a targeted deployment gets, exactly, and what it asks for when accepted |
| MonitorAnswers.DeployManyExactly | src/monitor/request/deploy.c:248-269 | the same for a deployment of a number of payloads |
| MonitorAnswers.BeginExactly | src/monitor/request/deploy.c:122-137 | a bad manifest header and a target without the services end a targeted deployment with their own errors, and nothing else does before the installation |
| MonitorAnswers.UntargetedStarts | src/monitor/request/deploy.c:147-154 | a deployment of n payloads starts the n least able passive protocons, or all there are, and changes nothing else |
| Monitor.Monitor.SetLink | src/monitor/request/network.c:16-37 | the switch's pair changes if and only if it obeys |
| Monitor.Monitor.ReleaseProtocon | src/monitor/request/network.c:45-59 | the loop clears all policies and links of the protocon |
| Monitor.Monitor.ConnectPeers | src/monitor/request/network.c:76-96 | the loop sorts peers into willing, unwilling and not running, and links the willing before the first refusal |
| Monitor.Monitor.ApplyDeployment | src/monitor/request/network.c:61-102 | sets the policy and answers for each requested peer |
| Monitor.Monitor.CallDeployMany | src/monitor/request/deploy.c:248-269 | accepts, refuses or fails at the spawn, in the source's order of tests |
| Monitor.Monitor.CallDeployTo | src/monitor/request/deploy.c:271-320 | the same for a targeted deployment, with its peers |
| Monitor.Monitor.CallDeployResult | src/monitor/request/deploy.c:322-333 | the result once there is one, in progress before |
| Monitor.Monitor.CothreadBegin | src/monitor/request/deploy.c:109-137 | the cothread up to its first wait or its end |
| Monitor.Monitor.CothreadFinish | src/monitor/request/deploy.c:133-157 | the cothread from a wait on: starts the protocon, applies policies, ends or goes on |
| Monitor.Monitor.CallStop | src/monitor/request/stop.c:9-32 | withdraws and makes passive |
| Monitor.Monitor.CallSuspend | src/monitor/request/suspend.c:9-30 | suspends an active protocon only |
| Monitor.Monitor.CallResume | src/monitor/request/resume.c:9-30 | resumes a suspended protocon only |
| FsProtocol.Pigeonhole | lib/fs/helpers/helpers.c:39-49 | as many commands, answers and flagged completions exist together as ids are in use, so no queue outgrows the id table |
| FsProtocol.BeginConserves | lib/fs/helpers/helpers.c:134-145 | a call fails exactly when all ids are in use, else its id was in no place and the queue has room |
| FsProtocol.CollectConserves | lib/fs/helpers/helpers.c:85-103 | consuming the completion queue moves each id to the flagged ones |
| FsProtocol.WakeConserves | lib/fs/helpers/helpers.c:146-152 | a call that returns returns the answer to its own command |
| FsProtocol.StepConserves | lib/fs/helpers/helpers.c:39-153 | every step of a cothread or the server keeps each used id in exactly one place |
| FsProtocol.RunIsSound | lib/fs/helpers/helpers.c:105-153 | in every run the queue-full assertion holds, a call fails only with all ids in use, and returns its own completion |
| FsProtocol.NothingLost | lib/fs/helpers/helpers.c:146-150 | when queues and server are empty every waiting call has its answer |
| FsAnswers.RecordKeepsWhole | lib/fs/helpers/helpers.c:85-103 | every completion is recorded whole |
| FsAnswers.ReturnsItsAnswer | lib/fs/helpers/helpers.c:85-153 | in every run a call that returns returns, whole, the answer the server gave to the command of that very call after it began |
| FsAnswers.AnsweredOnce | lib/fs/helpers/helpers.c:85-153 | while that answer is held no other answer is given under its id |
| FsAnswers.CommandsInOrder | lib/fs/helpers/helpers.c:105-116 | in every run the server takes each command once, in the order of the calls |
| FsClient.Client.RequestAllocate | lib/fs/helpers/helpers.c:39-49 | takes the least unused id, fails exactly when there is none |
| FsClient.Client.RequestFree | lib/fs/helpers/helpers.c:51-57 | the id is unused and its completion gone |
| FsClient.Client.CommandIssue | lib/fs/helpers/helpers.c:105-116 | queues the command and records it under its id |
| FsClient.Client.ProcessCompletions | lib/fs/helpers/helpers.c:85-103 | the loop records every completion under its id, skipping ids out of range |
| FsClient.Client.BeginCall | lib/fs/helpers/helpers.c:134-145 | a blocking call up to its wait; conserved ids leave room in the queue |
| FsClient.Client.EndCall | lib/fs/helpers/helpers.c:146-152 | waits on, or returns the completion and frees the id |
| CriStream.ReceiveValid | src/orchestrator/cri_runtime.c:213-279 | every packet keeps less than a frame buffered, under a good header, and one matching reply for each dispatched frame |
| CriStream.DispatchExactly | src/orchestrator/cri_runtime.c:255-272 | a dispatch happens exactly for stream data of the connected peer that completes a good frame, and is of that frame |
| CriStream.ConnectionExactly | src/orchestrator/cri_runtime.c:213-279 | a connection begins exactly with a request to the service while there is none and ends exactly with a reset, a shutdown or a spoilt header; what is buffered and counted after each packet |
| CriStream.SentExactly | src/orchestrator/cri_runtime.c:193-279 | what each packet is answered with, if there is room: for a completed frame one stream packet to the peer that passes the client's checks, has the request's operation and id, and carries the answer, credited for every byte accepted |
| CriStream.StrangersIgnored | src/orchestrator/cri_runtime.c:261-267 | while connected no other peer can change anything |
| CriStream.ReplyReplies | src/orchestrator/cri_runtime.c:225-231 | a reply echoes magic, version, operation and request id, and carries status and object |
| CriStream.Reassembles | src/orchestrator/cri_runtime.c:213-272 | for every chunking within frame boundaries the dispatched frames are exactly the frames of the stream, in order, and every byte is counted |
| CriStream.OneDispatchPerFrame | src/orchestrator/cri_runtime.c:213-272 | whole frames are each dispatched once with their exact bytes and leave nothing buffered |
| CriStream.FeedSends | src/orchestrator/cri_runtime.c:193-239 | over a good stream the packets sent are those of `Outgoing`, and nothing else |
| CriStream.AnswersInOrder | src/orchestrator/cri_runtime.c:213-239 | for every chunking within frame boundaries they are the answers to the frames completed with room for a reply, in order, each credited up to its frame |
| CriStream.CrossingIsDropped | src/orchestrator/cri_runtime.c:268-272 | a payload leaves no trace exactly when it is empty or crosses the end of the frame |
| CriStream.LostIffCrossing | src/orchestrator/cri_runtime.c:268-272 | the counted bytes are all bytes sent exactly when no packet crosses a frame boundary |
| CriStream.CutBeforeBoundary | src/orchestrator/cri_runtime.c:268-272 | two good frames: cut at the boundary both are dispatched, cut one byte before it the second payload is lost and none is |
| CriStream.CallIsServed | guest/k8s/cri_stub.go:244-287 | the client's two writes are dispatched as one request; if there is room exactly one packet goes back, which passes the client's checks, has its operation and id and carries status and object |
| CriEndpoint.Endpoint.Append | src/orchestrator/cri_runtime.c:269-271 | the payload is appended to the stream buffer |
| CriEndpoint.Endpoint.ProcessStream | src/orchestrator/cri_runtime.c:213-239 | waits, resets the connection on a bad header, or dispatches and replies |
| CriEndpoint.Endpoint.ProcessPacket | src/orchestrator/cri_runtime.c:255-279 | refines the connection on values, with `fwd_cnt` (section 5.10.6.3 of VIRTIO 1.2) the accepted bytes modulo 2^32 |
| CriCodec.FixedRoundTrip | guest/k8s/cri_stub.go:65-77 | a string survives its field exactly when it has no NUL and is shorter than the field |
| CriCodec.KeptFits | guest/k8s/cri_stub.go:78-95 | the entries written fit the field |
| CriCodec.KeptLast | guest/k8s/cri_stub.go:78-95 | an entry is written exactly when it fits behind those written before it; one that does not is skipped |
| CriCodec.MapRoundTrip | guest/k8s/cri_stub.go:78-115 | in every iteration order a submap comes back, and the whole map exactly when it fits |
| CriObject.SidesAgree | src/orchestrator/cri_runtime.c:38-46 | the positions the client advances through are the offsets of the host's structure, up to 2536 |
| CriObject.FieldInPlace | guest/k8s/cri_stub.go:117-148 | each field is written where the host's structure has it |
| CriObject.WritesNumbersAt | src/orchestrator/cri_runtime.c:38-46 | each number of the object is written at its offset in the host's structure |
| CriObject.WritesTextsAt | src/orchestrator/cri_runtime.c:38-46 | so are the strings and maps up to the annotations |
| CriObject.WritesLaterTextsAt | src/orchestrator/cri_runtime.c:38-46 | and the strings up to the image |
| CriObject.WritesLastTextsAt | src/orchestrator/cri_runtime.c:38-46 | and those from the image reference on |
| CriObject.ReadsNumbersAt | src/orchestrator/cri_runtime.c:38-46 | each number is read from its offset |
| CriObject.ReadsTextsAt | src/orchestrator/cri_runtime.c:38-46 | so are the strings and maps up to the annotations |
| CriObject.ReadsLaterTextsAt | src/orchestrator/cri_runtime.c:38-46 | and the strings up to the image |
| CriObject.ReadsLastTextsAt | src/orchestrator/cri_runtime.c:38-46 | and those from the image reference on |
| CriObject.MapsReturn | guest/k8s/cri_stub.go:137-140 | only entries of the maps come back, and all of them exactly when both fit |
| CriObject.ObjectRoundTrip | guest/k8s/cri_stub.go:117-183 | an object comes back unchanged exactly when its strings and maps fit |
| CriMarshal.GetFixed | guest/k8s/cri_stub.go:70-77 | the bytes before the first NUL |
| CriMarshal.PutFixedAt | guest/k8s/cri_stub.go:65-69 | at most one byte less than the field, zeros after |
| CriMarshal.EncodeMapAt | guest/k8s/cri_stub.go:78-95 | the loop writes the entries that fit and then their number |
| CriMarshal.DecodeMapFrom | guest/k8s/cri_stub.go:96-115 | the loop reads the entries back and ends early where one does not fit |
| CriMarshal.MarshalObject | guest/k8s/cri_stub.go:117-148 | the loops write the 2536 bytes of the object |
| CriMarshal.UnmarshalObject | guest/k8s/cri_stub.go:149-183 | the loops read every field at its place |
| CriIds.GeneratedIdsDiffer | src/orchestrator/cri_runtime.c:137 | two generated ids are equal exactly when the counter was |
| CriIds.NextIdIsNew | src/orchestrator/cri_runtime.c:137 | the next id differs from every earlier one |
| CriIds.IdShape | src/orchestrator/cri_runtime.c:137 | the first 2^32 ids are the prefix and eight lower-case hexadecimal digits of the counter |
| CriTable.Full | src/orchestrator/cri_runtime.c:100-110 | the table is a map of at most 32 entries, full exactly when every slot is taken |
| CriRuntime.NewObjects | src/orchestrator/cri_runtime.c:134-155 | a new sandbox or container is the request under its own id, present, with the time, the reason and the address or image reference the runtime gives it |
| CriRuntime.ContainerLife | src/orchestrator/cri_runtime.c:156-312 | state, reason, exit code and times of a container that starts, runs, fails or is stopped; only one that starts waits for a result, of its own protocon |
| CriRuntime.ReferenceHasScheme | src/orchestrator/cri_runtime.c:82-91 | an image reference has the scheme once, fits its field, and keeps the image as far as there is room |
| CriRuntime.Find | src/orchestrator/cri_runtime.c:93-98 | finds the one object with the id, if the map has it |
| CriRuntime.Allocate | src/orchestrator/cri_runtime.c:100-110 | takes a free slot, none exactly when the map has 32 entries |
| CriRuntime.ListOne | src/orchestrator/cri_runtime.c:112-124 | the first present object from the cursor on |
| CriRuntime.Runtime.RunSandbox | src/orchestrator/cri_runtime.c:134-140 | full exactly with 32 sandboxes, else one more under an id never given before; containers unchanged |
| CriRuntime.Runtime.StopSandbox | src/orchestrator/cri_runtime.c:141-142 | changes the state of that sandbox only |
| CriRuntime.Runtime.RemoveSandbox | src/orchestrator/cri_runtime.c:143-144 | removes that sandbox only |
| CriRuntime.Runtime.SandboxStatus | src/orchestrator/cri_runtime.c:145-146 | what the map has for the id, or not found |
| CriRuntime.Runtime.CreateContainer | src/orchestrator/cri_runtime.c:148-155 | full exactly with 32 containers, else one more under an id never given before |
| CriRuntime.Runtime.StartContainer | src/orchestrator/cri_runtime.c:156-164 | at the next time stamp marks that container only, and remembers its slot |
| CriRuntime.Runtime.FinishStart | src/orchestrator/cri_runtime.c:239-252 | records protocon or failure in that container only |
| CriRuntime.Runtime.StopContainer | src/orchestrator/cri_runtime.c:165-169 | stops that container only, or says why not and changes nothing |
| CriRuntime.Runtime.RemoveContainer | src/orchestrator/cri_runtime.c:170-171 | removes that container only |
| CriRuntime.Runtime.ContainerStatus | src/orchestrator/cri_runtime.c:172-173 | what the map has for the id, or not found |
| CriRuntime.Runtime.DeployComplete | src/orchestrator/cri_runtime.c:299-312 | one container starting on the protocon learns the result, none when there is none, and no other object changes |
| CriImages.PullKeeps | src/orchestrator/cri_runtime.c:176-182 | pulling fails as unknown or full exactly when it should; else the image is in the table once, with what is answered, and no other changes |
| CriImages.RemoveKeeps | src/orchestrator/cri_runtime.c:183-184 | removing takes out the image in the first slot with the id, if any |
| CriImages.IdsClashExactly | src/orchestrator/cri_runtime.c:82-91 | two images have the same id exactly when their names without the scheme agree in the first 47 bytes |
| CriImages.FoundExactly | src/orchestrator/cri_runtime.c:183-189 | by its id an image is found, and removed, exactly when no earlier one has such a name |
| CriImages.RemoveByNameExactly | guest/k8s/cri_stub.go:484-488 | by the name it was pulled under an image is removed exactly when the name has the scheme and no earlier image shares its id |
| CriImages.StatusByNameExactly | guest/k8s/cri_stub.go:462-472 | by that name it is found unless the name has the scheme and an earlier image shares its id |
| CriImages.SecondIsShadowed | src/orchestrator/cri_runtime.c:176-189 | two images that share an id, pulled in turn: the second one's id finds the first one and removes it |
| CriImages.SchemeOrNot | src/orchestrator/cri_runtime.c:82-91 | a name with the scheme and without it are such a pair |
| CriImages.Store.PullImage | src/orchestrator/cri_runtime.c:176-182 | finds the image or fills a free slot |
| CriImages.Store.RemoveImage | src/orchestrator/cri_runtime.c:183-184 | clears the first slot with the id |
| CriImages.Store.GetStatus | src/orchestrator/cri_runtime.c:185-189 | looks by id and then by image |
| CriListing.List | guest/k8s/cri_stub.go:288-306 | the loop returns the pages of the tables its calls find |
| CriListing.Calls | guest/k8s/cri_stub.go:288-306 | at most 32 calls, at least one for each object |
| CriListing.ListedOnce | guest/k8s/cri_stub.go:288-306 | with any requests between the calls each object was in its slot when found, and no slot is listed twice |
| CriListing.AlwaysListed | guest/k8s/cri_stub.go:288-306 | an object that is in its slot at every call is listed |
| CriListing.QuietListing | src/orchestrator/cri_runtime.c:112-124 | on a table that does not change the listing is all present objects in slot order |
| Services.DemandIsAsked | src/monitor/service/service_manifest.c:89-103 | every entry of a supported type is in the demand, in order, and nothing else is |
| Services.OfferIsRight | src/monitor/service/service_registry.c:23-49 | what is on offer is of its type, for its protocon, and offered once |
| Services.OfferMissesNone | src/monitor/service/service_registry.c:40-48 | a service is left out only behind eight earlier ones |
| Services.CursorInRange | src/monitor/service/service_planner.c:36-45 | for a covered demand the cursor of a type never goes below the first service |
| Services.SourceServes | src/monitor/service/service_planner.c:36-45 | each entry gets a service of its type that is for the protocon |
| Services.SourcesDiffer | src/monitor/service/service_planner.c:36-45 | no service serves two entries |
| Services.LaterGivenBefore | src/monitor/service/service_planner.c:36-45 | services of a type are given out from the last one on offer down, to the entries in order |
| Services.CoversExactly | src/monitor/service/service_planner.c:11-24 | a protocon covers a demand exactly when its services on offer can be given to the entries, one to each |
| Services.PlanServes | src/monitor/service/service_planner.c:48-98 | for every manifest: the least passive protocon that covers the demand, none exactly when there is none, with sources that serve and differ |
| ServicePlanner.Request.Parse | src/monitor/service/service_manifest.c:89-103 | the request holds the supported types in order and their number of each type |
| ServicePlanner.Registry.Create | src/monitor/service/service_registry.c:17-50 | the tables hold exactly the offers |
| ServicePlanner.Registry.CanSatisfy | src/monitor/service/service_planner.c:11-24 | true exactly when every type is covered |
| ServicePlanner.Registry.PlanSources | src/monitor/service/service_planner.c:26-46 | the cursors give each entry its source, which is never missing |
| ServicePlanner.Registry.SelectProtocon | src/monitor/service/service_planner.c:48-77 | the least passive protocon that covers the demand, with its sources |
| ServicePlanner.Registry.SelectById | src/monitor/service/service_planner.c:79-98 | the named protocon if it is passive and covers the demand |
| ServiceInstaller.FirstOfFirst | src/monitor/service/service_installer.c:72-106 | lists cut at 64 as they grow are the first 64 of everything |
| ServiceInstaller.WantedJoin | src/monitor/service/service_installer.c:130-165 | what two plans want is what the one wants and then what the other wants |
| ServiceInstaller.WantedOne | src/monitor/service/service_installer.c:69-107 | resources of kind 1, 2 and 3 go to the notifications, the calls and the mappings; a path of 128 bytes or more leaves a source out |
| ServiceInstaller.Requests.Append | src/monitor/service/service_installer.c:69-107 | each list takes the values of its kind, up to 64 |
| ServiceInstaller.Requests.Apply | src/monitor/service/service_installer.c:130-165 | the lists hold the first 64 values of each kind over all installable sources, and the header their number |
| Descriptors.LayoutExactly | include/monitor/delegation.h:69-107 | which headers and record sizes the two parsers accept, in numbers |
| Descriptors.ParsedTiles | include/monitor/delegation.h:69-107 | the records of an accepted file tile the bytes from the header to the total size |
| Descriptors.ResourceInRecord | include/monitor/delegation.h:49-57 | every resource of a delegation record lies inside it |
| Descriptors.SvcInsideIffNoWrap | include/service/manifest.h:92-139 | all resources and the path of an accepted service record lie inside it exactly when its size did not wrap around |
| Descriptors.WrappedRecordIsAccepted | include/service/manifest.h:130-141 | a record of 27 bytes that claims 477218589 resources passes the size test |
| DescriptorFiles.WrappedFileIsAccepted | include/service/manifest.h:92-144 | a service file with that record is accepted, and its resources are not inside the record |
| DescriptorFiles.ParseInvertsFile | include/monitor/delegation.h:69-107 | a file of well-sized records is accepted and its records are found where they were written |
| DescriptorFiles.DelegationRoundTrip | include/monitor/delegation.h:17-107 | every list of at most 16 delegators is read back from its file |
| DescriptorFiles.FoundIsFirst | include/monitor/delegation.h:59-67 | in the file of a list of delegators the search for a protection domain stops at the first delegator of the list that has it |
| DescriptorFiles.ServiceRoundTrip | include/service/manifest.h:61-144 | every list of at most 64 services is read back from its file |
| DescriptorTable.Table.Parse | include/monitor/delegation.h:69-107 | the loop accepts exactly what parses and keeps the offsets |
| DescriptorTable.Table.FindDelegator | include/monitor/delegation.h:59-67 | the first delegator of a protection domain, or none |
| PeerPorts.ParseU32Decimal | src/orchestrator/orchestrator.c:118-145 | accepts exactly the digit strings of numbers below 2^32, for their value |
| PeerPorts.ParsePeerPorts | src/orchestrator/orchestrator.c:147-197 | the loop gives the set of a list of ports, or refuses it |
| PeerPorts.ListOfPorts | src/orchestrator/orchestrator.c:164-192 | a list is accepted exactly when every field between commas is a port in range that is not the target, for the set of them |
| PeerPorts.PrintPeerPorts | src/orchestrator/orchestrator.c:199-213 | the ports in order with commas between, or the word for none |
| PeerPorts.PrintThenParse | src/orchestrator/orchestrator.c:147-213 | a printed mask is read back exactly when it has a port and not the target |
| PeerPrinting.PrintedInOrder | src/orchestrator/orchestrator.c:199-213 | what is printed is the word for none, or ports of the mask in ascending order |

## Left out

- HistoryRing.Ring.SaveLine: is not called with a line of 127 bytes, because that call never returns: `HistoryRing.Ring.SaveHangsExactly`. The editor on values reports it as a call that hangs.
- LineEditor.Microrl.HandleNewline: the same, by `LineEditor.Microrl.NewlineHangs`.
- EditorScreen.SessionInSync: is about input without Tab; it assumes a printable prompt of at most 871 characters, commands that end their output on a blank row, an interrupt that leaves no control sequence open, single-byte characters, an unbounded row and blank rows below.
- EditorLines.TypedLines: lines are printable, start with no space and have at most 126 bytes and eight tokens; quotes are allowed.
- EditorLines.EnterWithStale: is about quote-free commands; a quote in the command or after it is not covered.
- LineSplitter.SplitLine: `Quoting` characterises lines whose words are separated by single spaces; a word that follows a closing quote without one is modelled and the splitter proved against it.
- LineEditor.Microrl.ControlChar: Tab acts as with no completion callback, while the firmware sets one (`src/orchestrator/orchestrator.c:730-757`); completion and hidden input are not modelled.
- LineEditor.Microrl.ProcessInput: for the same reason is about input without Tab.
- EditorSpec.StepValid: for the same reason is about bytes other than Tab.
- EditorSpec.ProcessValid: for the same reason is about chunks without Tab.
- EditorScreen.StepInSync: for the same reason is about bytes other than Tab.
- EditorScreen.StartInSync: for the same reason is about sessions without Tab.
- MonitorRuns.LinksAreConsent: the switch is a symmetric set of open pairs that starts empty; links set by hand and the fault handler's restore are outside the runs.
- MonitorRuns.TargetedEnds: the waits of one installation for the file system count as one, because nothing is read or written between them.
- FsProtocol.RunIsSound: the server answers each command once under its own id; buffers, notifications and the queues' shared memory are not modelled.
- CriStream.ReceiveValid: the dispatcher's answer is a parameter of the packet that completes a request; packets the host sends have no sizes or counters but `fwd_cnt`.
- CriRuntime.Runtime.RunSandbox: at most 2^64 - 1 ids are generated; a request's strings are terminated in their fields, as the client writes them.
- CriRuntime.Runtime.StartContainer: starting an image is a parameter of the step that learns its outcome.
- CriImages.Store.PullImage: whether the orchestrator has an image is a parameter.
- Log reopening, operation numbers, and any agreement between slots in use and container states.
- CriListing.List: a transport error, which ends the listing with an error, is not modelled.
- ServicePlanner.Request.Parse: has room for sixteen supported entries, which the source does not check; with more it writes past its array.
- ServicePlanner.Registry.Create: protocon numbers in service records are below sixteen, which the source does not check; with others it reads and writes past its tables.
- DescriptorTable.Table.Parse: the memory at the base holds as many bytes as the header says.
- Patching a payload's sections, loading images, the trampoline, memory regions and the virtual file system.
- seL4, Microkit and coroutine library calls, other than as atomic effects or scheduler steps.
- The switch's own implementation, gRPC handlers, sockets, build tools and guest scripts.
