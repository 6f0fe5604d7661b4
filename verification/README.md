# csh, verified

csh is a C shell for satellites that speak the Cubesat Space Protocol. This project models the parts of it that are
algorithms or protocols of their own and proves what they promise. There is one module per component, in a file of
the same name.

- **Environment** (`Expansion`, `Environment`, `RunHooks`): shell variables live in a linked list; a scanner replaces
  `$(name)` in every command line and writes into a buffer that grows by 16 bytes; nested `run` commands save and
  restore `__FILE__` and `__FILE_DIR__`. `Expansion` says what a line means, `Environment` proves the list and the
  scanner against it, `RunHooks` runs whole script trees.
- **Remote ring** (`StdbufProtocol`, `StdbufClient`): a client drains a ring buffer on a satellite by pulling both
  pointers, peeking a slice and pushing the read pointer, while the satellite goes on producing. `StdbufProtocol` is
  the state machine with its invariant; `StdbufClient` is the client's loop on a real array, turn by turn a run of it.
- **Lossy proxy** (`LossyProxy`): a receiving thread corrupts, drops, delays or forwards messages and simulates a
  half-duplex radio; a worker thread cycles through a queue of 1024 delayed messages. Both threads
  move in small steps that interleave freely with each other and with the 32-bit millisecond clock.
- **Resumable download** (`Download`): sessions that are cut off, and a status file that says where to go on.
- **Array parameters** (`OffsetParser`, `ArraySet`): `set name[offsets] values`, from the text of the offsets to the
  elements of the array.
- **Versions** (`VersionParser`, `VersionCompare`): parsing version strings, and checking constraints such as
  `>=v2.1.*` through one scaled number.
- **In-place algorithms** (`Loki`, `WalkDir`): cleaning terminal output inside its own buffer, and a directory walk
  that recurses over one path buffer.
- **Lists and prefixes** (`ApmQueue`, `KnownHosts`, `CommonPrefix`, `ResultBuffer`): the sorted queue of plugins,
  the table of known hosts and its save file, the completers' common prefix, and the dump of a result ring.

Code that updates state is modelled by classes and methods on the heap (linked lists with their nodes, arrays written
in place). Each method is tied to a function of the old state, and the lemmas are about that function. `CText` holds
what the components use of the C library: printing and scanning decimal numbers, `strtok`, `strcmp`, `strstr`.

## Where the code and its promise differ

- *Expansion* splits at a seam exactly when the first part ends outside a reference and neither in `$` nor in `$(`
  (`Expansion.SplitsIffDetachable`). `$(` at the very end of the text is copied literally.
- *Download*: if the user declines to resume, the file is truncated but the old status file stays. Should that
  transfer fail, the next resume appends at the wrong place and still reports success
  (`Download.DeclinedResumeCorrupts`). `Download.ConsistentIffHarmless` gives the exact condition.
- *Lossy proxy*: due times are compared in 32 bits, so a delayed message can leave early when the clock wraps between
  the time it is accepted and the time it is due (`LossyProxy.LeavesEarly`, with `LossyProxy.NeverEarlyIffSameEpoch`
  as the exact condition). The 1025th message in flight can be lost (`LossyProxy.CapacityIsExact`).
- *Plugin queue*: a path that is not below a searched directory is compared by its whole path, so a library that is
  already loaded enters the queue a second time (`ApmQueue.DirectPathIsLoadedTwice`); sortedness is kept exactly when
  the loaded names are new (`ApmQueue.LoadSortedIffNew`).
- *Log lines*: the walk over a cleaned text stops at its first empty line, and with a single line end only the text
  before it is logged, so lines can be lost (`Loki.EmptyLineHidesTheRest`, `Loki.TextAfterOneLineEndIsLost`);
  `Loki.NoneLostIffAllReached` is the exact condition.
- *Known hosts*: a saved line is expanded when it is run, so where no variables are set a name that holds a
  reference such as `$(x)` does not come back (`KnownHosts.ReferenceInNameIsLost`); `KnownHosts.ComesBackIffNoRef` and
  `KnownHosts.TableComesBackIffNoRefs` are the exact conditions. Saving and reloading reverses the table. Node-to-name lookup is
  unaffected; name-to-node lookup survives exactly when no name is used twice (`KnownHosts.NodesSurviveIffDistinctNames`).
- *Version order*: 1000 is the largest bound on minor and patch below which the scaled comparison is the order of the
  parts (`VersionCompare.ThousandIsTheLimit`).
- *Offsets*: only offsets that come from a slice are checked to be in range
  (`OffsetParser.SliceOffsetsInRange`); a single index is wrapped once and then taken as it is, so
  `OffsetParser.InRangeIffIndicesAre` is the condition for all of them
  (`OffsetParser.IndexBeyondArrayIsAccepted` fails it). With one value for many elements, a full queue goes unnoticed and
  the elements after it keep their values (`ArraySet.FullQueueGoesUnnoticed`, with `ArraySet.ValueFillsAllIffRoom` as the
  exact condition).
- *Result buffer*: for some pointers that the code lets through, the loop never meets its end
  (`ResultBuffer.StopsIffAhead`).

## Model

| member | source | states |
|---|---|---|
| Expansion.ExpandAppend | src/environment.c:106-150 | expansion is compositional: a text that ends outside a reference expands on its own, unless the seam with what follows forms a new opening |
| Expansion.SplitsIffDetachable | src/environment.c:106-150 | the exact condition: every continuation expands separately if and only if the text ends outside a reference and in neither `$` nor `$(` |
| Expansion.Disturbance | src/environment.c:108-125 | for every other text a continuation is constructed whose joint expansion is shorter than the two separate ones |
| Expansion.ReferenceYieldsValue | src/environment.c:127-145 | `$(NAME)` expands to the value of the variable, and to nothing when there is none |
| Expansion.ReferenceInLine | src/environment.c:106-150 | so it does in the middle of a line, between what precedes and what follows it |
| Expansion.UnclosedReferenceInLine | src/environment.c:109-149 | an opening that is never closed takes the rest of the line with it |
| Expansion.UnclosedDropsRest | src/environment.c:126-148 | after an opening that is never closed, whatever follows without `)` contributes nothing |
| Expansion.ExpandWithoutRefs | src/environment.c:106-150 | text without a `$(` that at least one more character follows is left unchanged, whatever the variables |
| Expansion.UnchangedIffNoRef | src/environment.c:106-150 | and no other text is: a text expands to itself in every environment if and only if it holds no such `$(` |
| Expansion.ExpandLength | src/environment.c:106-150 | the result is at most `\|s\| + (\|s\|/3) * longest value` characters long |
| Expansion.ExpandNulFree | src/environment.c:131-153 | no terminator appears inside the expansion, so the C string written is the whole result |
| Expansion.ExpandDependsOnRefNames | src/environment.c:134-145 | values are not rescanned: environments that agree on the names referenced in the text itself give the same expansion |
| Environment.CshEnv.GetEntry | src/environment.c:15-23 | the list search returns the entry of that name, or null exactly when the map the list stands for has no such name |
| Environment.CshEnv.GetVar | src/environment.c:47-54 | lookup in the list is lookup in the finite map it stands for |
| Environment.CshEnv.PutVar | src/environment.c:56-70 | map update: an existing name is overwritten, a new one added, names stay unique on the heap |
| Environment.CshEnv.DelVar | src/environment.c:72-84 | removes exactly that name from the map; the return value tells whether it was there |
| Environment.CshEnv.ClearEnv | src/environment.c:86-95 | ends with an empty list and an empty map |
| Environment.CshEnv.CopyCharAndGrow | src/environment.c:25-38 | the allocation stays one longer than the recorded capacity, what was written is kept, the character is stored in bounds |
| Environment.CshEnv.AppendText | src/environment.c:134-146 | a whole value is appended with every write inside the buffer |
| Environment.CshEnv.ScanChar | src/environment.c:107-149 | one iteration of the two-state scanner keeps: written text followed by the meaning of the unread text is the meaning of the input |
| Environment.CshEnv.ExpandVars | src/environment.c:97-155 | for every environment and input the buffer holds exactly the recursive expansion, with its terminator in bounds |
| Environment.OpensIff | src/environment.c:108-109 | the test with the unsigned `input_len - 2`, which wraps for short inputs, is true exactly where a reference opens |
| RunHooks.PreHook | src/slash_run_environment.c:19-64 | the saved context holds both variables' values or absence, and only these two variables change |
| RunHooks.PostHook | src/slash_run_environment.c:68-93 | each of the two variables gets back its saved value or is deleted; no other variable changes |
| RunHooks.FileDirIsParent | src/slash_run_environment.c:45-62 | for a script `dir/name` the two variables are `dir/name` and `dir`, without a slash at the end; both are empty for a path that does not resolve |
| RunHooks.ExecLine | src/main.c:208-212 | a script line on the heap list is expanded as a whole before slash looks at it; setting, unsetting and clearing change exactly the variables they name, showing changes none, and a run behaves as its file |
| RunHooks.ExecScript | src/main.c:208-212 | all lines of a script, with arbitrarily nested runs chosen by expanded paths, leave list and output as their meaning on maps says |
| RunHooks.RunScript | src/slash_run_environment.c:16-93 | on the heap list: after a script and its hooks both variables have their value or absence from before it, and every other variable is as the script left it |
| RunHooks.ExecRefinesScoped | src/slash_run_environment.c:16-93 | for every script, whatever its lines expand to and whichever files they run, saving and restoring is indistinguishable from lexical scoping: a stack of frames for the two variables over one set of globals |
| StdbufProtocol.StepInv | src/stdbuf_client.c:111-132 | every step of client and producer keeps the invariant over ring contents, pulled pointers and print history |
| StdbufProtocol.RequestIsUnread | src/stdbuf_client.c:117-124 | what the client asks for is a contiguous run of unread stream bytes inside the ring, and is empty only if nothing was unread when it pulled |
| StdbufProtocol.PeekStep | src/stdbuf_client.c:55-73 | a successful peek prints the next bytes of the produced stream, although the producer went on since the pointers were pulled |
| StdbufProtocol.NothingAcknowledgedUnprinted | src/stdbuf_client.c:111-132 | under every interleaving, with failing peeks and lost pushes, each byte before the remote read pointer was printed and only produced bytes are printed at their place |
| StdbufProtocol.OutputIsStreamPrefix | src/stdbuf_client.c:111-132 | if no push is lost, the whole output is exactly a prefix of the produced stream: no gap, no duplicate |
| StdbufProtocol.RoundProgress | src/stdbuf_client.c:111-132 | an undisturbed round acknowledges exactly what it asked for: at least one unread byte if there is one, and at most 200 |
| StdbufProtocol.DrainsCompletely | src/stdbuf_client.c:111-139 | once the producer pauses, a run of pull-peek-push rounds alone leads to an empty ring with everything printed; it needs at most one round per 200 bytes and one more per piece of the ring |
| StdbufProtocol.RoundsNeeded | src/stdbuf_client.c:58-59 | no run of n rounds acknowledges more than 200 n bytes, so draining takes at least that many |
| StdbufProtocol.SlotIsRemainder | src/stdbuf_client.c:126-127 | the ring position used in the proofs is the stream position modulo the ring size |
| StdbufClient.Session.StdbufGet | src/stdbuf_client.c:55-73 | at most 200 bytes of the asked range are written out; a failed peek writes nothing and counts 0 |
| StdbufClient.Session.GetUnread | src/stdbuf_client.c:117-124 | the slice up to the write pointer, or up to the end of the ring when the pointer has wrapped, is what is written out |
| StdbufClient.Session.PullPointers | src/stdbuf_client.c:113-115 | the pull step of the protocol: both pointers are a snapshot of the remote ones |
| StdbufClient.Session.PeekAndPrint | src/stdbuf_client.c:117-124 | the peek step of the protocol: the bytes written to stdout are those it records, none when the peek fails |
| StdbufClient.Session.PushPointer | src/stdbuf_client.c:126-128 | the push step of the protocol: the remote read pointer moves past what was printed, modulo the ring, or stays if the push is lost |
| StdbufClient.Session.RunTurn | src/stdbuf_client.c:113-139 | a turn of the loop on the real ring pulls, peeks and pushes once, as its requests get through, while the remote stores what fits before and after each |
| StdbufClient.TurnIsRun | src/stdbuf_client.c:111-139 | the effect of a turn is that of the events pull, peek and push with the stored bytes between them |
| StdbufClient.TurnsAreRun | src/stdbuf_client.c:111-139 | any sequence of turns is one run of the protocol, which loses a push only in a turn whose push is lost |
| StdbufClient.StopsAtFirstInterrupt | src/stdbuf_client.c:130-137 | the loop carries out all turns, or stops right after the first one that got nothing and was interrupted |
| StdbufClient.UndisturbedTurnsDrain | src/stdbuf_client.c:111-139 | undisturbed turns, one per 200 unread bytes and one per piece of the ring, leave everything printed and acknowledged |
| StdbufClient.StoresWhatFits | src/stdbuf_client.c:118-124 | the remote stores bytes until its ring holds one less than its size: the reader takes equal pointers for an empty ring |
| StdbufClient.Session.Drain | src/stdbuf_client.c:111-139 | the loop on the real ring carries out its turns in order until an idle one is interrupted; if every push is delivered, stdout holds exactly the stream up to the read pointer, and after enough undisturbed turns all of it |
| LossyProxy.NothingDuplicatedOrForged | src/zmqproxy.c:463-583 | over every interleaving each received message is at exactly one place (sent, dropped, queued, held, lost to a full queue), keeps its length, is at most one bit off, and the worker never dequeues from an empty queue |
| LossyProxy.StepConserves | src/zmqproxy.c:463-583 | every single step of either thread keeps the count of places of every message |
| LossyProxy.StepInv | src/zmqproxy.c:463-583 | every step keeps the invariant of both threads, the queue and the messages |
| LossyProxy.FlipTwice | src/zmqproxy.c:555-564 | a corruption really changes the message, and the same flip again undoes it |
| LossyProxy.FlipsNamedBit | src/zmqproxy.c:560-562 | it turns over the chosen bit of the chosen byte and leaves every other bit as it was |
| LossyProxy.FatesCarriedOut | src/zmqproxy.c:555-583 | a message past the half-duplex tests, possibly corrupted, is dropped, sent at once, or queued with the time of its arrival plus the delay, as the filter decides |
| LossyProxy.NoEarlyRelease | src/zmqproxy.c:471-479 | over every run, a delayed message is sent strictly after its due time whenever the 32-bit clock did not wrap in between |
| LossyProxy.LeavesEarly | src/zmqproxy.c:471-479 | for every acceptance and due time less than 2^31 ms apart with a wrap of the 32-bit clock between them, a run in which the message leaves before it is due |
| LossyProxy.NeverEarlyIffSameEpoch | src/zmqproxy.c:471-574 | over all configurations, starts and interleavings: no message with these times ever leaves early if and only if acceptance and due time lie in the same epoch, or so far apart that no setting delays a message that long |
| LossyProxy.NoneLostWithinCapacity | src/zmqproxy.c:481-581 | as long as at most 1024 delayed messages are in flight, none is lost to a full queue |
| LossyProxy.CapacityIsExact | src/zmqproxy.c:481-581 | 1024 is the exact capacity: a limit on the messages in flight keeps every run from losing one if and only if it is at most 1024 |
| LossyProxy.PassSendsFirstDue | src/zmqproxy.c:464-485 | an undisturbed pass of the worker sends the first due message and keeps the others in cyclic order; without a due one the queue is unchanged |
| LossyProxy.RoundSendsFirstDue | src/zmqproxy.c:464-485 | a whole round of the worker, from counting the queue on, sends the first due message of all that wait |
| LossyProxy.DueIsSent | src/zmqproxy.c:471-479 | what the worker holds is sent once it is due; after a half-duplex packet the time is noted and the power-up is over |
| LossyProxy.HalfDuplexGate | src/zmqproxy.c:516-552 | the receiver's half-duplex decision, complete: packets from the node wait for power-up while it is not transmitting, packets to it are lost while it is, all others pass |
| LossyProxy.ReceivedMeetsGate | src/zmqproxy.c:510-552 | from the idle receiver: a message received with a half-duplex node set goes through these tests and is queued, dropped or passed on with its data; without such a node it is passed on at once |
| Download.Downloader.Run | src/vmem_client_slash_ftp.c:86-181 | a session changes data file and status file as its outcome says, in every error case too |
| Download.RecordedOffset | src/vmem_client_slash_ftp.c:100-168 | an offset written to the status file is read back as the same number |
| Download.SessionOutcome | src/vmem_client_slash_ftp.c:94-181 | with working local files a session fails, stays unfinished or completes exactly as file, length and transferred count say, and leaves the remote range up to there, with its length recorded while unfinished |
| Download.ConsistentIffHarmless | src/vmem_client_slash_ftp.c:94-181 | from consistent files a session ends in consistent files (a prefix of the remote range, its length recorded) if and only if it is harmless, a condition on its visible outcomes |
| Download.ResumableIffHarmless | src/vmem_client_slash_ftp.c:94-181 | without a status file any old data file will do: the next session can rely on the files if and only if this one was harmless |
| Download.OnlyDeclinedResumeHarms | src/vmem_client_slash_ftp.c:110-142 | with working local files the only harmful session is a declined resume whose transfer fails |
| Download.SessionsStayConsistent | src/vmem_client_slash_ftp.c:94-181 | any number of harmless sessions keeps the files consistent |
| Download.SessionsStayResumable | src/vmem_client_slash_ftp.c:94-181 | any number of harmless sessions keeps the files fit to go on from, also over an unrelated old file |
| Download.CompletedEqualsOneShot | src/vmem_client_slash_ftp.c:94-181 | however often it was interrupted, and whatever file was there at first, a download that completes leaves the file a one-shot download would |
| Download.DeclinedResumeCorrupts | src/vmem_client_slash_ftp.c:110-142 | a concrete pair of sessions after which the command reports success and the file is wrong |
| OffsetParser.ParseOffsets | src/param_slash.c:225-305 | the array is filled with exactly the parsed list or the call fails; the count never exceeds the array and every write is inside it |
| OffsetParser.StoreSlice | src/param_slash.c:243-288 | a slice token appends what it denotes, or fails exactly when the bounds are bad or the array is full |
| OffsetParser.StoreRange | src/param_slash.c:282-288 | the half-open range is appended in order, failing exactly when it does not fit |
| OffsetParser.ParseSliceWritten | src/param_slash.c:35-130 | the two `sscanf` attempts recover exactly the bounds that were typed, for all four forms of a slice |
| OffsetParser.TokenWritten | src/param_slash.c:236-300 | a typed index or slice is read as the offsets it denotes, negatives counted from the end, missing bounds defaulted |
| OffsetParser.ParseWritten | src/param_slash.c:234-304 | a typed list is accepted exactly when everything in it denotes something and fits, and is then the concatenation in token order |
| OffsetParser.ParsedOffsetsAreSelected | src/param_slash.c:225-305 | parsing any typed list gives the selection it stands for, or fails when there is none |
| OffsetParser.IndexMeaning | src/param_slash.c:291-297 | a typed index i is offset i, a negative one counts from the end: -1 is the last element |
| OffsetParser.IndexListMeaning | src/param_slash.c:234-302 | several indices are taken in the order they are typed, and refused when there are more than elements |
| OffsetParser.SliceMeaning | src/param_slash.c:243-288 | from:to is the half-open range, negative bounds counted from the end, missing ones the ends of the array, and anything else is refused |
| OffsetParser.JunkAfterColonRefused | src/param_slash.c:65-100 | after a number and `:` only another number or nothing is accepted |
| OffsetParser.OtherDelimiterRefused | src/param_slash.c:108-112 | between two bounds only `:` is accepted |
| OffsetParser.TextBeforeColonRefused | src/param_slash.c:104-107 | a slice that begins with text is refused |
| OffsetParser.JunkAfterFirstColonRefused | src/param_slash.c:82-92 | so is one with text after its leading `:` |
| OffsetParser.SliceOffsetsInRange | src/param_slash.c:252-288 | whatever the text of a slice, the offsets it yields are consecutive, at least one, and in range |
| OffsetParser.InRangeIffIndicesAre | src/param_slash.c:225-305 | an accepted text selects only elements of the array if and only if each of its single indices lies in it, counted from either end |
| OffsetParser.IndexBeyondArrayIsAccepted | src/param_slash.c:291-297 | the offset 7 is accepted for an array of three elements |
| ArraySet.HasDuplicates | src/param_slash.c:324-335 | true exactly when two positions hold equal offsets |
| ArraySet.ParseSlashValues | src/param_slash.c:150-190 | the amount of values, counted up to 100, is accepted exactly when it is one or the expected number |
| ArraySet.FillEvery | src/param_slash.c:773-779 | one value is queued for every offset for as long as there is room |
| ArraySet.DistributeValues | src/param_slash.c:719-810 | the loop with its flags queues exactly the pairing of offsets and values, or refuses |
| ArraySet.ListAcceptedIffMatching | src/param_slash.c:734-808 | a bracketed list is accepted if and only if it has as many values as there are offsets, all of them parse and there is room |
| ArraySet.Apply | src/param_slash.c:813-814 | entries take effect on the array in queue order |
| ArraySet.AppliedElements | src/param_slash.c:813-814 | with distinct offsets in range element offsets[j] holds value j afterwards and all others are unchanged |
| ArraySet.Set | src/param_slash.c:607-814 | the whole command on an array, for any offsets and any number of values: the queued entries are applied, and any error changes nothing |
| ArraySet.SetListMeaning | src/param_slash.c:649-814 | a successful `set` with a list put value j into element offsets[j], had as many values as offsets, and touched nothing else |
| ArraySet.SetValueMeaning | src/param_slash.c:771-779 | a successful `set` with one bare value put it into every selected element for as long as the queue had room, and touched nothing else |
| ArraySet.ValueFillsAllIffRoom | src/param_slash.c:771-779 | a bare value fills every selected element if and only if the queue has room for all, or those beyond it hold the value already |
| ArraySet.FullQueueGoesUnnoticed | src/param_slash.c:774-776 | with room for one entry, a `set` of two elements succeeds and reaches only the first |
| ArraySet.SetWrittenList | src/param_slash.c:225-305 | the same from the text of the offsets on: values land where the typed tokens point |
| ArraySet.TypedListMeaning | src/param_slash.c:649-814 | `set name[offsets] [v0 ... vn]` is accepted if and only if the offsets are distinct and as many as the values, all values parse, there is room, and a read-only parameter is forced; then value j is in element offsets[j] and nothing else changed |
| ArraySet.TypedValueMeaning | src/param_slash.c:649-814 | `set name[offsets] v` is accepted if and only if the offsets are distinct, the value parses and a read-only parameter is forced; then every selected element holds it and nothing else changed |
| ArraySet.EveryElementWrittenOnce | src/param_slash.c:669-675 | as many distinct in-range offsets as elements reach every element exactly once |
| VersionParser.ParseVersion | src/require_version.c:17-91 | the character loop with its number pointer and dot count computes the recursive meaning of a version string, every rejection included |
| VersionParser.ParseIffGrammar | src/require_version.c:17-91 | accepted are exactly the strings of the grammar (optional v, one to three digit groups, `.` or `-`, optional `+` or suffix), with the numbers as values and missing parts zero |
| VersionParser.WrittenParses | src/require_version.c:17-91 | everything the grammar generates parses to its numbers |
| VersionParser.PrintedVersionParses | src/require_version.c:17-91 | parsing a printed version gives it back |
| VersionParser.ShortVersionsParse | src/require_version.c:17-91 | one or two numbers with an optional mark and `+` parse, missing parts zero |
| VersionCompare.StoreOperatorInPlace | src/require_version.c:117-132 | the operator buffer after one operator character, so that `>` does not become `>=` by default |
| VersionCompare.Sanitize | src/require_version.c:113-164 | the loop on three buffers stays in bounds and rejects exactly what the recursive cleaning rejects |
| VersionCompare.Scale | src/require_version.c:193-200 | the weighted sum of the parts above the first wildcard |
| VersionCompare.CompareVersion | src/require_version.c:93-222 | the whole check agrees with its meaning on strings, whenever both C strings keep a terminator |
| VersionCompare.CompareOnBody | src/require_version.c:113-216 | the operator prefix and the body act independently: the same body means the same version behind every operator |
| VersionCompare.Trichotomy | src/require_version.c:203-216 | for any body that sanitises exactly one of <, ==, > holds, >=, <=, != are the complements, and no operator or a single = means == |
| VersionCompare.ScaledAgrees | src/require_version.c:178-201 | with minor and patch below 1000, comparing the scaled numbers is comparing part by part down to the first wildcard |
| VersionCompare.ThousandIsTheLimit | src/require_version.c:187-201 | 1000 is the largest bound for which this is so |
| VersionCompare.ConstraintIsPartOrder | src/require_version.c:113-216 | any constraint that sanitises decides the part-by-part order above its first wildcard, when minor and patch that lie above it are below 1000 |
| VersionCompare.WrittenConstraintIsPartOrder | src/require_version.c:93-222 | an operator, an optional v, one to three parts separated by `.` or `-`, any of them a wildcard: the comparison is with the numbers written, missing parts zero, down to the first wildcard |
| VersionCompare.PrintedConstraintIsVersionOrder | src/require_version.c:93-222 | an operator followed by a printed version decides the order of the two versions |
| VersionCompare.OperatorsDecideOrder | src/require_version.c:203-216 | what each operator decides on a written constraint, part by part down to the first wildcard: <, > and == hold when the version is smaller, greater or the same |
| VersionCompare.OperatorsOnPrintedVersion | src/require_version.c:203-216 | the same on a printed version, in terms of major, minor and patch |
| VersionCompare.UnknownOperatorIsFalse | src/require_version.c:218-221 | any other operator of one or two characters is never satisfied |
| VersionCompare.BadCharacterIsRefused | src/require_version.c:157-160 | a character that has no place in a constraint refuses it |
| VersionCompare.ThirdSeparatorIsRefused | src/require_version.c:141-148 | so does a third separator |
| Loki.StripStr | src/loki.c:68-131 | in place equals the pure cleaning of the original text; the write pointer never passes the read pointer; the returned count is the number of lines |
| Loki.StripChar | src/loki.c:78-120 | one iteration moves read and write pointer so that written text followed by the cleaned rest stays the result |
| Loki.SkipEscape | src/loki.c:79-95 | skips exactly one escape sequence and stops at the terminator |
| Loki.EscapeSequenceRemoved | src/loki.c:79-95 | ESC, `[`, digits and semicolons and one final character are removed as a whole |
| Loki.CutOffSequenceRemoved | src/loki.c:86-94 | so is a sequence in which the text ends |
| Loki.LoneEscapeRemoved | src/loki.c:79-95 | of an ESC that no `[` follows, only the ESC is removed |
| Loki.LineEndTerminates | src/loki.c:96-103 | a newline with the control characters right after it becomes one terminator |
| Loki.SingleCharacters | src/loki.c:104-113 | a tab becomes a blank, a double quote a single one, other control characters are removed |
| Loki.OrdinaryTextIsKept | src/loki.c:114-119 | all other characters are copied |
| Loki.LeadingNewlinesIgnored | src/loki.c:73-76 | newlines and carriage returns at the very beginning leave no trace |
| Loki.StripIsClean | src/loki.c:68-131 | the output never grows and contains no ESC, no double quote and no control character except terminators |
| Loki.CleanTextUnchanged | src/loki.c:114-119 | text that is already clean is left alone |
| Loki.WalkLines | src/loki.c:147-172 | the pointer walk never reads past the final terminator and yields the lines that ReportedLines describes |
| Loki.Add | src/loki.c:133-175 | cleaning, the early return and the walk together log what ReportedLines describes of the cleaned text |
| Loki.ReportedLines | src/loki.c:138-172 | logged are, in order, the lines that are no prompts, up to the first empty line and up to the returned count |
| Loki.LoggableIff | src/loki.c:153-155 | a line is left out exactly when it is empty or both marks of the prompt occur in it |
| Loki.CountOfLines | src/loki.c:124-130 | the count is the number of line ends, and one more from two line ends on |
| Loki.NoneLostIffAllReached | src/loki.c:124-172 | no line worth logging is lost if and only if each lies within the count and has no empty line before it |
| Loki.EmptyLineHidesTheRest | src/loki.c:150 | a text whose second line holds only an escape sequence loses its third line |
| Loki.TextAfterOneLineEndIsLost | src/loki.c:124-126 | of a text with a single line end, what follows it is lost |
| Loki.LinesOfJoin | src/loki.c:96-103 | the lines used in these statements are right: splitting at terminators undoes joining |
| WalkDir.Walker.WalkDir | src/walkdir.c:17-68 | callbacks fired are exactly the depth-bounded pre-order traversal (a prefix of it when interrupted); the path buffer is as before |
| WalkDir.Walker.ReadEntries | src/walkdir.c:34-66 | the same for one directory's remaining entries over the shared buffer |
| WalkDir.Walker.ReadEntry | src/walkdir.c:35-59 | one entry: hidden entries and refused directories fire nothing below, others their callback with the full path |
| WalkDir.Walker.AppendName | src/walkdir.c:36-40 | the buffer holds the joined path, one slash between, inside its size |
| WalkDir.Walker.RestoreLength | src/walkdir.c:64-65 | truncation gives back the directory's own path |
| WalkDir.FileVisitedIffLed | src/walkdir.c:34-59 | a file is reported if and only if a chain of accepted, visible directories within the depth leads to it |
| WalkDir.FindChain | src/walkdir.c:34-59 | the chain behind a reported file |
| WalkDir.ChainIsVisited | src/walkdir.c:34-59 | every file at the end of such a chain is reported |
| WalkDir.DirVisitedIffLed | src/walkdir.c:48-52 | a directory is reported if and only if it is visible, the depth reaches it and a chain of accepted directories leads to it |
| WalkDir.WalkNeverRepeats | src/walkdir.c:34-66 | a walk reports no path twice |
| WalkDir.EntriesInOrder | src/walkdir.c:34-66 | entries are reported in the order they are read |
| WalkDir.DirectoryComesFirst | src/walkdir.c:49-52 | a directory is reported before what is below it |
| ApmQueue.Queue.Add | src/slash_apm.c:42-64 | pointer rewiring inserts the entry behind all smaller names and loses none |
| ApmQueue.InsertMembers | src/slash_apm.c:42-64 | as a multiset the queue gains exactly the new name |
| ApmQueue.InsertSortedIffNew | src/slash_apm.c:51-54 | a strictly sorted queue stays strictly sorted if and only if the name is new |
| CText.LessAtFirstDifference | src/slash_apm.c:51 | the order of names is that of `strcmp`: the first character that differs decides, or the length |
| ApmQueue.Search.FileCallback | src/slash_apm.c:182-242 | the counted array gains the candidate exactly when it qualifies, with every write inside its 32 entries |
| ApmQueue.FoundIffQualified | src/slash_apm.c:190-240 | a candidate is recorded if and only if its name holds `libcsh_`, `.so` and the search string, fewer than 32 are recorded, and it is neither loaded nor recorded yet |
| ApmQueue.FoundAllFresh | src/slash_apm.c:214-237 | a search below directories finds no name twice and none that is loaded |
| ApmQueue.FoundAllBounded | src/slash_apm.c:190-193 | a search never records more than 32 libraries |
| ApmQueue.LoadSearch | src/slash_apm.c:309-335 | a whole load command changes the heap queue as its meaning on names says |
| ApmQueue.LoadFound | src/slash_apm.c:315-333 | each library found is loaded and queued, skipped when its initialisation fails, and the first that cannot be loaded ends the run |
| ApmQueue.LoadAllAdds | src/slash_apm.c:315-333 | as a multiset the queue gains exactly the loaded libraries |
| ApmQueue.LoadStopsAtNoLibrary | src/slash_apm.c:318-321 | nothing after a file that does not load is loaded |
| ApmQueue.RefusedIsPassedOver | src/slash_apm.c:323-329 | a library whose initialisation refuses is passed over |
| ApmQueue.AllLoadedAreGained | src/slash_apm.c:315-333 | when everything loads, the queue gains the last component of every path |
| ApmQueue.LoadSortedIffNew | src/slash_apm.c:315-333 | a whole load keeps the queue strictly sorted if and only if the names it loads are distinct and none is in the queue |
| ApmQueue.RunsStaySorted | src/slash_apm.c:182-333 | over any sequence of directory-based loads the queue stays strictly sorted, so each name is there at most once |
| ApmQueue.WalkNamesLastComponent | src/walkdir.c:34-59 | a file reported by a walk of a directory carries the last component of its path as its name |
| ApmQueue.WalksStaySorted | src/slash_apm.c:244-333 | over any sequence of loads that walk directories, whatever changes on disk between them, the queue stays strictly sorted |
| ApmQueue.DirectPathIsLoadedTwice | src/slash_apm.c:214-237 | a path given directly can load a library again and break the order |
| KnownHosts.Hosts.Del | src/known_hosts.c:141-149 | removal while iterating removes all entries of the node and nothing else |
| KnownHosts.Hosts.KnownHostsAdd | src/known_hosts.c:151-182 | node 0 is refused, an existing node is kept or replaced as asked, a new host goes to the front with its name clipped |
| KnownHosts.AddMeaning | src/known_hosts.c:151-182 | node 0 is refused and a known node kept unless overridden; otherwise the host is at the front and only entries of its node are gone |
| KnownHosts.StoredIsCut | src/known_hosts.c:175 | names of up to 49 characters are stored whole, longer ones cut there |
| KnownHosts.Hosts.KnownHostsGetName | src/known_hosts.c:184-195 | the caller's buffer receives the name of the node, padded or cut at the given length; nothing is written when there is no such node |
| KnownHosts.Hosts.KnownHostsGetNode | src/known_hosts.c:198-211 | the node of the first entry with that name, or -1 |
| KnownHosts.Hosts.NodeSave | src/known_hosts.c:30-51 | one `node add` command per host in list order; the assertion on node 0 holds |
| KnownHosts.ReachableWellFormed | src/known_hosts.c:151-182 | after any requests node numbers are nonzero and pairwise distinct and names fit |
| KnownHosts.LookupAfterAdd | src/known_hosts.c:151-211 | a host just added is found by its name and by its number, and only the previous holder of the number is forgotten |
| KnownHosts.NewestMatchFound | src/known_hosts.c:198-211 | over any later requests that take neither its node nor its name, lookup keeps returning the host inserted last |
| KnownHosts.ReplaySavedLine | src/slash_nodes_cmds.c:80-117 | a saved line without a reference in the name, expanded with whatever variables there are, split into words and executed, adds exactly the saved host and its variable |
| KnownHosts.NumbersAreNodes | src/known_hosts.c:214-232 | a number below 16384 is a node, anything else is looked up as a name |
| KnownHosts.ComesBackIffNoRef | src/known_hosts.c:40-45 | a saved host comes back in every shell that does not know its node if and only if its name holds no `$(` that another character follows |
| KnownHosts.TableComesBackIffNoRefs | src/known_hosts.c:40-45 | a saved table replayed without variables comes back, reversed, if and only if no name in it holds a reference; and then it comes back with any variables |
| KnownHosts.LostHostIsReachable | src/known_hosts.c:151-182 | any host with a reference in its name can be added, and the table it is in does not come back |
| KnownHosts.ReferenceInNameIsLost | src/known_hosts.c:43 | for one, the saved line of the host `$(x)y` brings it back as `y` |
| KnownHosts.ReplayReverses | src/slash_nodes_cmds.c:108-110 | replaying the saved lines into an empty table gives the reversed table |
| KnownHosts.SameNamesAfterReplay | src/known_hosts.c:40-45 | the node-to-name map survives saving and replaying |
| KnownHosts.NodesSurviveIffDistinctNames | src/known_hosts.c:198-211 | name-to-node lookup survives if and only if no name is used twice |
| CommonPrefix.HostPrefix | src/known_hosts.c:97-115 | the minimum over neighbours is the longest prefix common to all matches, and the chosen match supplies it |
| CommonPrefix.ParamPrefix | src/param_slash.c:447-456 | the minimum against the first match is the longest prefix common to all matches |
| CommonPrefix.NeighboursShare | src/known_hosts.c:101-110 | agreeing with the neighbour everywhere is agreeing with everyone |
| CommonPrefix.LongestIgnoresOrder | src/known_hosts.c:101-115 | the result does not depend on the order of the matches |
| ResultBuffer.Dump | src/resbuf_dump.c:134-142 | the loop ends after the ring distance and prints the bytes from out up to in, wrapping to 4 |
| ResultBuffer.ReachesAfterDistance | src/resbuf_dump.c:135-141 | after exactly the ring distance the read pointer meets the write pointer |
| ResultBuffer.StopsIffAhead | src/resbuf_dump.c:116-142 | for a read pointer inside the data and pointers the code lets through, the loop ends if and only if the write pointer is in the ring or ahead of the read pointer, or the buffer is too large for a 16-bit pointer, which then wraps |

## Left out

- Allocation failure: `malloc`, `strdup` and `realloc` are taken to succeed everywhere.
- `csh_foreach_var`, prompt drawing, and what the completers print or copy into the line buffer.
- Tokenising, quoting and option parsing of a command line by slash; what a line means is a parameter of the script model. A replayed `node add` line is split at blanks alone, so what slash makes of quotes or a leading `-` in a host name is not modelled.
- RunHooks.ExecLine: the files a line can run are given with the line, as a finite tree; a script that runs itself without end has no meaning here.
- KnownHosts.Hosts.KnownHostsAdd: the variable that it sets beside the table is part of replaying saved lines only.
- StdbufProtocol.NothingAcknowledgedUnprinted: pulls always succeed, because what a failed pull leaves behind is kept by libparam, which is not part of this model; rings are at most 65536 bytes.
- The second version of the stdbuf client, and its copy in src/stdbuf_mon.c.
- LossyProxy.HalfDuplexGate: the decision is stated for the clock and the globals as they are when the receiving thread takes its steps undisturbed; between the test of the power-up start and its use the worker may clear it, which only moves a due time.
- LossyProxy.NothingDuplicatedOrForged: the direction from backend to frontend, probabilities (they become arbitrary choices) and the contents of CSP headers (source and destination are inputs) are not modelled.
- Download.Downloader.Run: the name of the status file (a 128-byte buffer) and the two unreachable error cases after a non-negative count.
- ArraySet.Set: arguments of zero length are excluded, because the C code then reads before them; a list that goes on past the last offset is refused at once, where the C code reads one element too far before it refuses; an empty selection is refused, as with a `realloc` that returns null for no bytes; parameters of type data or string and pushing to a remote node are not modelled.
- ArraySet.Applied: an entry outside the array is skipped; what libparam does with it is not part of this model.
- ArraySet.FillEvery: the room of the queue is counted in entries, where the C queue counts bytes.
- OffsetParser.ParseOffsets: which negative number is returned, and the terminators `strtok` writes into the argument.
- The text between brackets is taken as given; splitting `name[...]` and finding the parameter are argument plumbing.
- VersionParser.ParseVersion: the version fields that were already written when the string is rejected.
- VersionCompare.CompareVersion: constraints whose operator or cleaned text fills its buffer and leaves no terminator; a number too large for `sscanf` is modelled as wrapping to 32 bits.
- Loki.StripStr: characters above 127, whose comparison with 32 depends on the signedness of `char`.
- Building JSON, locking and sending in src/loki.c.
- WalkDir.Walker.WalkDir: paths that do not fit the buffer, a file system that changes during the walk, and a missing file callback.
- ApmQueue.LoadSearch: `dlopen` and initialisation become an outcome per path; the Python loader, splitting the search path (the directories it names are given) and truncated paths are not modelled.
- ResultBuffer.Dump: requires the condition under which the loop ends in a buffer of at most 65535 bytes; a read pointer equal to the size, which the code lets through, would read one byte past the data.
- CSP interfaces, scanning, firmware upload, curl clients, packet sniffers and the remaining small files: plumbing over libraries whose behaviour is not visible here.
