# Verification of the network library's in-memory components

A Dafny 4.11 model of five components of the C++ network library, with proofs of what they are for.
Where the source updates objects in place the model is a class whose methods do the same, each
proved against a function on values; the long-range properties are lemmas about those functions.
`dafny verify dfyconfig.toml` verifies everything.

**The key-value store** (`Keys`, `Entries`, `SkipNode`, `SkipList`, `SkipListShape`, `StoreFile`,
`Commands`, `SkipListWorker`). The skip list is the pointer structure itself: nodes that own an array
of forward links, an update array, level-by-level splicing. A ghost sequence of nodes says where
every link must point; `Valid` ties it to a finite map, and every operation is proved to do to that
map what it promises, for any choice of node levels. On top are the dump file format, loading, the command
language, and whole runs of commands.

**The log** (`Decimals`, `FixedBuffer`, `LogStream`, `AppendFile`, `AsyncProtocol`, `AsyncProgress`,
`AsyncLogging`).
Integers are converted in the buffer with C's truncated division. The double-buffer logger is a
transition system whose steps are the atomic sections of producers and backend thread, interleaved
in any order; `AsyncProgress` says when the thread ends and how many of its steps a line waits for the file; the
class `AsyncLogging` is proved to take exactly those steps with real buffers.

**The timers** (`TimerHeap`, `TimerSchedule`, `TimerHistory`, `TimerQueue`). A binary heap of mutable
timers, the timerfd, and the run-pop-restart-reinsert loop of `handleRead`, with a clock that moves
between any two of its readings and callbacks that add timers in any of their runs. A held clock is the case
where no reading passes the first (`limit` equal to `now`). The assumptions are: intervals are
whole milliseconds and, like timeouts, fit an `int` (`runEvery` takes an `int`), the timeouts callbacks ask for are not
negative, the clock does not run backwards and does not wrap at 10000 seconds while the queue exists, and
timers with no time to go are asked for in finitely many runs only. The last one is needed for the loop
to end: under a held clock such a timer is due at once (`TimerHistory.ZeroTimeoutIsDue`).

**The HTTP parser** (`HttpText`, `HttpGrammar`, `HttpMessage`, `HttpRequest`, `ParseWorker`,
`HttpContext`, `HttpServer`). The cursor buffer, the request object and the parser's loop, proved equal
to a fold over the CR LF lines of the input, and inverse to a printer of requests (sections 3 and 5 of RFC 9112).

## Where the code does not do what it seems meant to

- `src/http/HttpContext.cpp:57` and `:71` assign the state where they look like comparing it: a context
  past its request line always answers false (`HttpGrammar.ResumedAnswer`, and at an input
  `HttpMessage.SecondPieceIsRefused`). The answer is all that is wrong: state, request and remaining lines are
  those of one call on the whole message (`HttpGrammar.ResumedReading`). The server makes a fresh context per
  message, so this does not show there.
- Any line without a colon ends the headers, not only the empty one (`HttpGrammar.HeadersEnd`, and at an input
  `HttpMessage.ColonlessLineCloses`).
- `src/timer/TimerQueue.cpp:72` subtracts without a sign: armed one millisecond late, the timerfd
  is as good as disarmed (`TimerQueues.LateArmingIsLost`). The exact condition is that the
  clock has not passed the deadline when the timerfd is armed.
- The clock is taken modulo 10000 seconds but deadlines are not: a deadline at or past that is never reached
  (`TimerQueues.ReachableDeadlines`, and at an input `TimerQueues.TimerPastTheWrap`).
- A key with a colon does not survive dump and load (`StoreFile.ColonInKeyIsLost`); the exact condition
  on the map is in `StoreFile.DumpLoadRoundTrip`.
- `stop` does not drain the logger: what was appended after the last swap is not written (`AsyncProtocol.AfterStop`,
  and a run that ends with an accepted line and an empty file, `AsyncProtocol.StopLosesALine`).
- A record as long as a buffer is dropped silently (`AsyncProtocol.LongLineIsDropped`, and for one buffer of any
  size `FixedBuffers.FullLengthIsDropped`).
- `handleRead` pops the top after the run without looking at it. That is the timer that ran if and only if its
  callback added none that is strictly earlier, which under a held clock can be told from the timeouts
  (`TimerQueues.TimerQueue.RunAndPop`, and at an input `TimerQueues.WrongTimerIsPopped`); it takes a negative timeout to
  break it. Then another timer is lost and the one that ran stays queued: a one-shot is freed while it is
  queued, a repeating one gets a new key inside the heap and is pushed a second time (`TimerHeap.PushedTwice`).
- A comment at `src/storage/SkipList.h:117` gives the linked levels as excluding the node's own level, and one at
  `src/logger/LogStream.h:25` gives the large buffer as 4 MB; the code includes that level, and has 16000000 bytes.
  The model follows the code.

## Model

| member | source | states |
|---|---|---|
| SkipNode.Node.constructor | src/storage/Node.h:28-34 | a node of level n owns a fresh array of n + 1 null links |
| SkipNode.SpliceAll | src/storage/SkipList.h:117-120 | splicing a node behind its predecessors, level by level, gives each link of the longer list the next node tall enough for that level |
| SkipNode.UnlinkAll | src/storage/SkipList.h:221-224 | the early break at the first level that does not link the node still unlinks it from every level |
| SkipLists.SkipList.constructor | src/storage/SkipList.h:57-64 | a new list is valid and holds the empty map |
| SkipLists.SkipList.Size | src/storage/SkipList.h:178-181 | the count is the size of the map |
| SkipLists.GetRandomLevel | src/storage/SkipList.h:264-271 | any level from 0 to the maximum, nothing more is used |
| SkipLists.SkipList.Advance | src/storage/SkipList.h:88-90 | the walk on a level stops on the last node of that level with a smaller key, and never reads a link past a node's own level |
| SkipLists.SkipList.FindPredecessors | src/storage/SkipList.h:86-92 | each update entry is the last node of its level below the key |
| SkipLists.SkipList.SearchElement | src/storage/SkipList.h:242-260 | the value of the map at the key, or none; nothing changes |
| SkipLists.SkipList.InsertElement | src/storage/SkipList.h:80-125 | the map gets the value in any case; 1 exactly when the key was there; the list stays valid whatever level is drawn |
| SkipLists.SkipList.DeleteElement | src/storage/SkipList.h:207-239 | the map loses that key and no other; true exactly when it was there |
| SkipLists.SkipList.LowerHeight | src/storage/SkipList.h:227-229 | afterwards the current level is the highest with a node, 0 for an empty list |
| SkipListShape.LevelShape | src/storage/SkipList.h:108-120 | in every valid list each level is the nil-ended strictly increasing chain of the nodes of that level or higher, and the levels with nodes are exactly those up to the current level |
| SkipLists.SkipList.DumpFile | src/storage/SkipList.h:145-157 | the text is the dump of the map, so it depends on the map alone |
| Keys.LessIsBefore | src/storage/SkipList.h:88 | a key comes before another if and only if it is a proper beginning of it, or has the smaller character code where the two first differ |
| StoreFile.DumpAscends | src/storage/SkipList.h:145-157 | a dump is one line key:value for each key, and the key of an earlier line comes before that of a later one in that order |
| StoreFile.DumpOfTwo | src/storage/SkipList.h:148-153 | a map of two keys and its dump, written out |
| SkipLists.SkipList.LoadFile | src/storage/SkipList.h:161-175 | the map becomes the fold of the well-formed lines over it |
| StoreFile.LinesOfText | src/storage/SkipList.h:167 | the lines of a file are the pieces between its newlines, and what is behind the last newline if that is not empty |
| StoreFile.LineIsLoaded | src/storage/SkipList.h:168-203 | a line binds what precedes its first colon to what follows it if neither is empty, and does nothing otherwise |
| StoreFile.LoadInOrder | src/storage/SkipList.h:167-173 | lines are taken from the first to the last |
| StoreFile.CarryingIsHarmless | src/storage/SkipList.h:165-173 | a malformed line re-inserts the pair of the line before it, which changes nothing: loading is the fold over the well-formed lines |
| StoreFile.LoadIsOverride | src/storage/SkipList.h:161-175 | loading any file into any map puts what the file gives an empty map over what was there |
| StoreFile.LoadDumpIsOverride | src/storage/SkipList.h:145-175 | for the dump of a storable map that is the dumped map |
| StoreFile.DumpLoadRoundTrip | src/storage/SkipList.h:145-203 | dump and load restore the map if and only if keys are non-empty without colon and newline and values are non-empty without newline |
| StoreFile.ColonInKeyIsLost | src/storage/SkipList.h:185-190 | a concrete map that does not survive |
| StoreFile.ReloadIsStable | src/storage/SkipList.h:145-175 | whatever file was loaded, the dump of what came of it reloads to the same map and is byte-identical again |
| StoreFile.LoadTextIsStorable | src/storage/SkipList.h:185-203 | everything that comes from a file can be stored in one |
| Entries.SortedUnique | src/storage/SkipList.h:148-153 | a map has only one ascending listing |
| SkipListWorkers.SkipListWorker.SplitWords | src/storage/SkipListWorker.cpp:87-103 | the scan with its two indices yields exactly the tokens |
| SkipListWorkers.SkipListWorker.ParseCommand | src/storage/SkipListWorker.cpp:87-117 | the tokens, and the command of the upper-cased first one |
| Commands.CommandIsWord | src/storage/SkipListWorker.cpp:12-18 | the name of a command is its word, in whatever case each letter is, and any other name is an error |
| Commands.CommandLetters | src/storage/SkipListWorker.cpp:104-116 | the same letter by letter |
| SkipListWorkers.SkipListWorker.HandlerSET | src/storage/SkipListWorker.cpp:38-47 | reply and store of the reference interpreter, also for a wrong number of words |
| SkipListWorkers.SkipListWorker.HandlerDEL | src/storage/SkipListWorker.cpp:49-58 | the same for DEL |
| SkipListWorkers.SkipListWorker.HandlerGET | src/storage/SkipListWorker.cpp:60-75 | the same for GET, which leaves the store alone |
| SkipListWorkers.SkipListWorker.HandlerDUMP | src/storage/SkipListWorker.cpp:77-80 | the same for DUMP, which changes the file only |
| SkipListWorkers.SkipListWorker.HandlerLOAD | src/storage/SkipListWorker.cpp:82-85 | the same for LOAD, which changes the map only |
| SkipListWorkers.SkipListWorker.DealWithCmd | src/storage/SkipListWorker.cpp:119-123 | one command on the pointer structure is one step of the reference interpreter |
| SkipListWorkers.SkipListWorker.Serve | example/kv_server.cpp:18-28 | any sequence of commands gets the replies of the reference interpreter and leaves its store |
| Commands.ExecuteReplies | src/storage/SkipListWorker.cpp:29-85 | reply, map and file after each command for any number of words, with the reply texts written out |
| Commands.TokensOfSpaced | src/storage/SkipListWorker.cpp:90-103 | words written with any gaps are read back as the tokens |
| Commands.SpacedOfTokens | src/storage/SkipListWorker.cpp:90-103 | every command is its tokens with some gaps, so tokens are the maximal runs of non-spaces |
| Commands.SpacingAndCaseDoNotMatter | src/storage/SkipListWorker.cpp:87-117 | commands with the same words, the first up to small and capital letters, do the same to every store |
| Commands.LastWriteWins | src/storage/SkipListWorker.cpp:38-85 | over any run a key is bound to what the last command that says something about it says: a SET, a DEL, or a LOAD of a dump with the key in it |
| Commands.RepliesSayLatest | src/storage/SkipListWorker.cpp:38-75 | over any run the replies to GET, SET and DEL, told by their words, say what was last said about the key before |
| Commands.DumpThenLoadRestores | src/storage/SkipListWorker.cpp:77-85 | DUMP, any commands but DUMP, then LOAD: what the dump says lies over what came since, and it says all that was there if and only if all of that could be stored |
| Decimals.Convert | src/logger/LogStream.cpp:13-31 | the buffer holds the decimal text and a terminator at the given place and is unchanged elsewhere; the length is returned; every value, the most negative included |
| Decimals.ReverseRange | src/logger/LogStream.cpp:28 | the in-place reversal reverses its range and touches nothing else |
| Decimals.ReadDecimal | src/logger/LogStream.cpp:13-31 | the text is canonical and reading it gives the value |
| Decimals.DecimalRead | src/logger/LogStream.cpp:13-31 | every canonical text is the text of the value it reads as |
| Decimals.DecimalInjective | src/logger/LogStream.cpp:13-31 | equal texts come from equal values |
| Decimals.DecimalFits | src/logger/LogStream.h:121 | values of up to 64 bits, signed or not, take at most 20 characters, 21 with the terminator |
| Decimals.DigitLetters | src/logger/LogStream.cpp:9-10 | the ten digits are written and read as such |
| Decimals.MinusOneTwenty | src/logger/LogStream.cpp:13-31 | a negative number of three digits, written out |
| FixedBuffers.FixedBuffer.Append | src/logger/LogStream.h:34-42 | the piece is added whole if it is shorter than the free space, otherwise the buffer is unchanged |
| LogStreams.LogStream.FormatInteger | src/logger/LogStream.cpp:36-43 | the integer's text is added if the numeric reserve is free, otherwise the buffer is unchanged |
| LogStreams.LogStream.Output | src/logger/LogStream.h:68-105 | what one output leaves: a text, a character, 1 or 0, or (null) behind the old contents if one character stays free; for an integer a canonical text that reads as it, exactly when 32 characters are free |
| LogStreams.LogStream.OutputAll | src/logger/LogStream.h:88-105 | a chain of outputs of integers, booleans, characters and texts leaves the fold of its items in the buffer, and if that leaves 32 characters free, what each item looks like, in order |
| LogStreams.BufferIsAcceptedItems | src/logger/LogStream.h:34-49 | the buffer is what it was and then what the accepted items look like, whole and in order; the cursor never reaches the end |
| LogStreams.NothingDropped | src/logger/LogStream.cpp:38-42 | a line that leaves 32 characters free loses nothing: it is what its items look like, in order |
| LogStreams.DroppedItemIsSkipped | src/logger/LogStream.h:34-42 | an item without room, 32 characters for a number and one more than its text for anything else, has no effect on what comes later |
| LogStreams.LineOfFive | src/logger/LogStream.h:68-105 | one item of every kind on one line, written out |
| AppendFiles.AppendFile.Append | src/logger/FileUtil.cpp:19-33 | the file grows by the prefix of the line that the device's grants let through, by all of it if the device never takes nothing |
| AppendFiles.WrittenWhole | src/logger/FileUtil.cpp:19-33 | a line is written whole if and only if no call after the first takes nothing while some of it is left |
| AppendFiles.WrittenUpToStall | src/logger/FileUtil.cpp:19-33 | if some later call takes nothing before that, what is written is what the calls before it took |
| AsyncProtocol.AppendKeepsInv | src/logger/AsyncLogging.cpp:26-45 | an append in any reachable state keeps ownership, emptiness of spares, and conservation |
| AsyncProtocol.SwapKeepsInv | src/logger/AsyncLogging.cpp:63-75 | so does the swap |
| AsyncProtocol.RecycleKeepsInv | src/logger/AsyncLogging.cpp:82-97 | so does recycling, which ends with exactly two empty spares in the backend |
| AsyncProtocol.NextKeepsInv | src/logger/AsyncLogging.cpp:26-99 | so does every step of either side |
| AsyncProtocol.NeverStuck | src/logger/AsyncLogging.cpp:59-97 | in every reachable state the top-of-loop asserts hold, every scheduled step can be taken, and `back` and `pop_back` meet enough buffers |
| AsyncProtocol.RunInv | src/logger/AsyncLogging.cpp:26-99 | the invariant holds at every point of every interleaving |
| AsyncProtocol.NothingLost | src/logger/AsyncLogging.cpp:26-99 | at every point of every interleaving the file, the unwritten buffers, the full buffers and the current one hold exactly the accepted records, in append order, none lost, doubled or split |
| AsyncProtocol.AcceptedAreShort | src/logger/LogStream.h:34-42 | the accepted lines are the appended ones that are shorter than a buffer, in order |
| AsyncProtocol.AppendPlaces | src/logger/AsyncLogging.cpp:26-45 | a line joins the current buffer if it leaves a character free; otherwise that buffer joins the full ones and the spare or a new one starts with the line |
| AsyncProgress.TestEnds | src/logger/AsyncLogging.cpp:58 | on every run a loop test ends the thread exactly when no start, or a stop behind it, came before; otherwise the swap is next |
| AsyncProgress.TestAfterStopEnds | src/logger/AsyncLogging.cpp:58 | the first test behind a stop of the started thread ends it |
| AsyncProgress.EndsOnlyAfterStop | src/logger/AsyncLogging.cpp:58-99 | on every run the thread has ended only behind a start, a stop and a test, in this order |
| AsyncProgress.OneTurn | src/logger/AsyncLogging.cpp:58-97 | between start and end the thread has exactly one next step, and it can be taken; before and behind it has none |
| AsyncProgress.FullCycle | src/logger/AsyncLogging.cpp:58-97 | left to itself the running thread is back at its test after as many steps as there are full buffers and four more, with all that was accepted in the file |
| AsyncProgress.TurnCounts | src/logger/AsyncLogging.cpp:58-97 | each step of the thread brings a line one step nearer to the file, whatever is appended meanwhile puts it off by at most one |
| AsyncProgress.EverythingArrives | src/logger/AsyncLogging.cpp:26-99 | on every run, what was accepted by some moment is in the file, as its first lines, once the unstopped thread has made five steps more than there were appends |
| AsyncProgress.FileBetweenCycles | src/logger/AsyncLogging.cpp:58-99 | on every run the file is, outside the write loop, exactly what was accepted before the last swap |
| AsyncProtocol.AfterStop | src/logger/AsyncLogging.h:31-35 | when the thread has ended the file is what was accepted before the last swap, and what is missing is exactly what was accepted after it |
| AsyncProtocol.StopLosesALine | src/logger/AsyncLogging.h:31-35 | a run that ends with an accepted line and nothing in the file |
| AsyncProtocol.LongLineIsDropped | src/logger/LogStream.h:34-42 | a line is accepted if and only if it is shorter than a buffer |
| FixedBuffers.FullLengthIsDropped | src/logger/LogStream.h:36 | at the boundary, for every size: a piece of the buffer's size is dropped, one character less fits |
| AsyncLoggings.BytesConserved | src/logger/AsyncLogging.cpp:26-99 | in every state of the logger the bytes of the file, of the buffers still to be written, of the full ones and of the current one are those of the accepted lines |
| AsyncLoggings.FileAfterStop | src/logger/AsyncLogging.h:31-35 | after any run whose thread has ended, the file has got the bytes of what was accepted before the last swap, and the buffers still have those of what came after |
| AsyncLoggings.AsyncLogging.Drive | src/logger/AsyncLogging.cpp:26-99 | whatever the schedule of logging, starting, stopping and turns of the backend thread, the logger goes through a run of the protocol that appends exactly the lines logged, and while it is not stopped every turn is a step |
| AsyncLoggings.AsyncLogging.DriveFromStart | src/logger/AsyncLogging.cpp:8-99 | and from a new logger on, the file has got the bytes of the first of the logged lines that fit a buffer, after what was in it, and when the thread has ended, those accepted before the last swap |
| AsyncLoggings.AsyncLogging.DriveAndWait | src/logger/AsyncLogging.cpp:8-99 | a schedule that starts the thread, and one with five turns more than lines are logged, none of them with a stop: all lines of the first that fit a buffer are in the file, whole and in order, and nothing else if the second logs none |
| AsyncLoggings.AsyncLogging.constructor | src/logger/AsyncLogging.cpp:8-24 | the initial state of the protocol, with four different empty buffers, the thread not started, and whatever the file had in it |
| AsyncLoggings.AsyncLogging.Start | src/logger/AsyncLogging.h:26-29 | exactly the protocol's start |
| AsyncLoggings.AsyncLogging.Append | src/logger/AsyncLogging.cpp:26-45 | on the buffers themselves, exactly the protocol's append; a new buffer only when the spare one is gone |
| AsyncLoggings.AsyncLogging.Stop | src/logger/AsyncLogging.h:31-35 | exactly the protocol's stop |
| AsyncLoggings.AsyncLogging.Test | src/logger/AsyncLogging.cpp:58-61 | exactly the protocol's loop test, on to the swap if running and to the end if not, with the three asserts as postconditions |
| AsyncLoggings.AsyncLogging.Swap | src/logger/AsyncLogging.cpp:63-75 | exactly the protocol's swap |
| AsyncLoggings.AsyncLogging.WriteOne | src/logger/AsyncLogging.cpp:78-80 | exactly the protocol's write: the whole of one buffer reaches the file |
| AsyncLoggings.AsyncLogging.Recycle | src/logger/AsyncLogging.cpp:81-97 | exactly the protocol's recycling |
| TimerHeap.TimerNode.constructor | src/timer/TimerNode.cpp:4-12 | the first deadline is the unsigned 64-bit sum of the clock and the timeout, whatever its sign; it repeats exactly with a positive interval |
| TimerHeap.TimerNode.IsValid | src/timer/TimerNode.cpp:23-33 | whether the deadline is ahead of the clock; a timer that is due is marked deleted |
| TimerHeap.TimerNode.Restart | src/timer/TimerNode.cpp:35-45 | a repeating timer moves on by its interval and is live again |
| TimerHeap.TopIsEarliest | src/timer/TimerQueue.h:14-18 | in heap order no timer is earlier than the top |
| TimerHeap.RaiseOnce | src/timer/TimerQueue.h:51 | one exchange with a strictly later parent keeps the order everywhere else |
| TimerHeap.SinkOnce | src/timer/TimerQueue.h:51 | one exchange with the earlier child keeps the order everywhere else |
| TimerHeap.Push | src/timer/TimerQueue.h:51 | a heap with exactly one timer more; it comes on top only if it is strictly earlier |
| TimerHeap.PushedTwice | src/timer/TimerQueue.cpp:113-117 | pushing a timer that is queued already has it queued twice |
| TimerHeap.Pop | src/timer/TimerQueue.h:51 | a heap of all the timers but the top |
| TimerQueues.TimerQueue.Insert | src/timer/TimerQueue.cpp:84-96 | true exactly when the timer became the earliest, and then it is on top |
| TimerQueues.TimerQueue.ResetTimerfd | src/timer/TimerQueue.cpp:62-82 | armed for the deadline, at least 100 ms ahead, if and only if the clock has not passed the deadline |
| TimerQueues.ArmingIsExact | src/timer/TimerQueue.cpp:72-74 | exactly when the unsigned difference gives the intended delay, for all 64-bit values |
| TimerQueues.LateArmingIsLost | src/timer/TimerQueue.cpp:72 | one millisecond late arms for 2^64 - 1 ms |
| TimerQueues.StampIsRemainder | src/timer/TimerQueue.cpp:40-44 | the clock is the time in milliseconds modulo ten million |
| TimerQueues.ReachableDeadlines | src/timer/TimerNode.cpp:23-33 | a deadline is ever reached if and only if it is below ten million |
| TimerQueues.TimerPastTheWrap | src/timer/TimerNode.cpp:4-33 | a timer of five seconds made one second before the wrap, never due |
| TimerQueues.TimerQueue.AddTimerInLoop | src/timer/TimerQueue.cpp:53-60 | without a new earliest deadline the queue is armed exactly if it was before; with one, exactly if the clock has not passed it |
| TimerQueues.TimerQueue.AddTimer | src/timer/TimerQueue.cpp:47-51 | the same for a timer made from the clock and any `int` timeout |
| TimerQueues.TimerQueue.RunCallback | src/timer/TimerQueue.cpp:110-112 | whatever timeouts a callback asks for, the top stays on top, and the timerfd is left alone, if and only if no added timer is strictly earlier |
| TimerQueues.TimerQueue.RunAndPop | src/timer/TimerQueue.cpp:110-112 | the timer that ran is the one popped if and only if no added timer is strictly earlier, under a held clock if and only if no timeout leads before its deadline; otherwise it stays queued and an added one is lost |
| TimerQueues.WrongTimerIsPopped | src/timer/TimerQueue.cpp:110-121 | a timer due now whose callback asks for one ten milliseconds back: it stays queued after its run and the other one is gone |
| TimerQueues.TimerQueue.Reinsert | src/timer/TimerQueue.cpp:113-117 | the key changes while the timer is out of the heap, so the heap order survives |
| TimerQueues.TimerQueue.RunTop | src/timer/TimerQueue.cpp:110-123 | when no timeout leads back before its deadline, the timer that ran is the one taken out; the schedule afterwards is the old one with the added timers and its next deadline, if it has one |
| TimerQueues.TimerQueue.DropTop | src/timer/TimerQueue.cpp:107-109 | a deleted timer leaves without running |
| TimerHistory.ZeroTimeoutIsDue | src/timer/TimerNode.cpp:4-12 | under a held clock a timer asked for with no time to go is queued and due after the run that asked for it |
| TimerQueues.TimerQueue.RunDueTimers | src/timer/TimerQueue.cpp:105-127 | the loop ends, although timers are put back and callbacks may add timers in every run, when all but finitely many runs ask only for timers with time to go; it ends only when nothing is due |
| TimerQueues.TimerQueue.HandleRead | src/timer/TimerQueue.cpp:102-133 | every timer ran at exactly those of its deadlines that the last reading has reached, in deadline order over all timers, none early, nothing due stays, each timer with a deadline to come is queued for exactly that, every requested timer was added; the timerfd is armed for the earliest deadline if and only if the clock has not passed it meanwhile |
| TimerQueues.TimerQueue.WakeAll | src/timer/TimerQueue.cpp:47-133 | any number of wake-ups, with timers added between and during them, makes a chain in which each goes on where the one before it ended |
| TimerHistory.RunsOverWakeups | src/timer/TimerQueue.cpp:102-133 | over such a chain a repeating timer stays queued and runs at exactly its deadlines, none twice and none missed between two wake-ups |
| TimerSchedule.DeadlinesAre | src/timer/TimerNode.cpp:35-38 | the deadlines of a timer are all first + k * interval up to the clock, in order |
| TimerSchedule.RunKeepsCourse | src/timer/TimerQueue.cpp:110-117 | a run and a restart miss no deadline, however far the clock goes |
| TimerHistory.TopRuns | src/timer/TimerQueue.cpp:110-123 | running the earliest due timer keeps the history exact for all timers, including those added meanwhile |
| TimerHistory.BookSettled | src/timer/TimerQueue.cpp:124-127 | when no queued deadline is due the history is complete |
| HttpText.LinesMakeText | src/http/ParseWorker.h:27-31 | every text is its complete lines and a rest, all free of CR LF |
| HttpText.LinesAre | src/http/ParseWorker.h:27-31 | and no other lines than the CR LF-free ones it was joined from |
| HttpText.TrimSplits | src/http/HttpRequest.h:107-115 | trimming removes only white space, and all of it at both ends |
| HttpText.TrimPads | src/http/HttpRequest.h:107-115 | a value comes out the same whatever white space surrounds it |
| HttpText.SixSpaces | src/http/HttpRequest.h:107-115 | white space is the blank and the characters 9 to 13 |
| HttpText.PaddingIsTrimmed | src/http/HttpRequest.h:107-115 | whatever of those six characters surrounds a value, the value is what is kept |
| ParseWorkers.ParseWorker.SetStr | src/http/ParseWorker.h:15-20 | the whole text is to be read |
| ParseWorkers.ParseWorker.FindCRLF | src/http/ParseWorker.h:27-31 | the first CR LF from the cursor on, or none; what precedes it is free of CR LF |
| ParseWorkers.ParseWorker.RetrieveUntil | src/http/ParseWorker.h:36-44 | exactly what lies before the given place is removed, and the cursor stays within the size |
| HttpRequests.HttpRequest.SetMethod | src/http/HttpRequest.h:35-62 | the method of the five names, an invalid one otherwise, which is kept |
| HttpGrammar.MethodWords | src/http/HttpRequest.h:35-62 | which of the five names is which method, and which of the two texts is which version |
| HttpRequests.HttpRequest.MethodString | src/http/HttpRequest.h:68-91 | the name of each method, which sets it again |
| HttpRequests.HttpRequest.AddHeader | src/http/HttpRequest.h:105-117 | the header before the colon gets the text after it without the blanks and characters 9 to 13 at its ends, the others are unchanged |
| HttpMessage.HeaderIsLastField | src/http/HttpRequest.h:105-126 | after a printed request was read, a header is the value of the last field of that name without the blanks and characters 9 to 13 at its ends, and empty if no field has it |
| HttpContexts.HttpContext.ProcessRequestLine | src/http/HttpContext.cpp:5-37 | answer and request of the reference reading, including what a bad line leaves behind |
| HttpGrammar.RequestLineAccepted | src/http/HttpContext.cpp:5-37 | a line is accepted if and only if it is a known method, a target without spaces and one of the two versions, with single spaces between |
| HttpGrammar.RequestLineRead | src/http/HttpContext.cpp:11-31 | and then exactly those parts are set |
| HttpGrammar.BadLineLeaves | src/http/HttpContext.cpp:11-14 | a line without a space leaves the request alone, an unknown method leaves it without one, a method with nothing behind its second word is kept |
| HttpGrammar.BadVersionLeaves | src/http/HttpContext.cpp:14-35 | with a bad version the method and the target are kept |
| HttpGrammar.TargetSets | src/http/HttpContext.cpp:16-22 | a target without a question mark is the path and leaves the query alone; with one, it is cut before the first |
| HttpContexts.HttpContext.ParseRequest | src/http/HttpContext.cpp:39-76 | one call, in any state, ends and equals the fold over the CR LF lines of the buffer, and removes exactly the lines it consumed |
| HttpGrammar.FreshAnswer | src/http/HttpContext.cpp:42-56 | a fresh context answers false if and only if the first line is missing or malformed, and then every line stays in the buffer |
| HttpGrammar.FreshComplete | src/http/HttpContext.cpp:57-70 | it has the whole request if and only if it answers true and a later complete line has no colon |
| HttpGrammar.HeadersEnd | src/http/HttpContext.cpp:57-70 | the headers are the lines before the first one without a colon, and the lines after that are left |
| HttpGrammar.ResumedAnswer | src/http/HttpContext.cpp:57 | a resumed context never answers true |
| HttpGrammar.ResumedReading | src/http/HttpContext.cpp:39-76 | for a message in two pieces, the first ending among the headers, resuming yields the state, request and lines of one call on the whole, and false where that answers true |
| HttpMessage.SecondPieceIsRefused | src/http/HttpContext.cpp:39-76 | a request line, then the empty line in a second call: the whole request, and the answer false |
| HttpMessage.ColonlessLineCloses | src/http/HttpContext.cpp:60-66 | a request whose headers are closed by a line that is not empty, with a field behind it that is not read |
| HttpContexts.HttpContext.Reset | src/http/HttpContext.h:23-27 | as new |
| HttpMessage.PrintedIsRead | src/http/HttpContext.cpp:39-76 | parsing a printed request gives method, version, target and headers back and leaves what follows it |
| HttpMessage.HostIsRead | src/http/HttpContext.cpp:39-76 | a whole request with a query and a header, written out, and what is read of it |
| HttpMessage.LastFieldWins | src/http/HttpRequest.h:116 | the value kept for a name is the trimmed value of its last field |
| HttpMessage.TargetIsSplit | src/http/HttpContext.cpp:16-22 | path and query make up the target, cut before the first question mark |
| HttpMessage.CompleteIsPrinted | src/http/HttpContext.cpp:39-76 | whatever is taken for a whole request is a printed one |
| HttpMessage.CompleteExactlyPrinted | src/http/HttpContext.cpp:39-76 | a text is taken for a whole request if and only if it begins with a printed one |
| HttpServers.HttpServer.OnMessage | src/http/HttpServer.cpp:39-63 | nothing on a closed connection; refused, with the 400 reply, if and only if the message does not begin with a request line; a request is handed on if and only if the message begins with a printed one, and it is that request |

## Left out

- Sockets, epoll, acceptor, connections, channels, thread pool: system calls and thin dispatch; the pool call in `handlerGET` is a direct call here.
- The concurrent use of the skip list: `searchElement` takes no lock, so the list is sequential, with each operation atomic.
- Keys and values of other types than strings, and the default constructor, which only adds a load to the other one.
- The quality of random levels: any level may be drawn.
- Memory release, including the `update` array the source leaks; `delete` is the node leaving the structure.
- Console output, `displayList`, the text the error handler prints.
- A command of spaces only (the source reads the front of an empty vector) and an empty HTTP message (the source takes the address of the first byte of an empty buffer): excluded by a precondition.
- Files: a file is its contents; `fwrite` takes what an arbitrary list of grants lets it take. File names, rolling and flushing are not modelled.
- AsyncLoggings.AsyncLogging.constructor: takes a device that never takes nothing, for the same reason as `WriteOne` below.
- AsyncLoggings.AsyncLogging.WriteOne: the device is assumed never to take nothing, since `AppendFile::append` gives up when it does; AppendFiles.WrittenWhole has the exact condition.
- AsyncLogging's condition variable and its three-second wait: a swap may happen at any time, which covers every wake-up.
- FixedBuffers.FixedBuffer.Append: pieces are shorter than 2^31; a longer one has its length cast to a negative `int`, passes
  the test for room and is copied past the end of the buffer, which has no meaning in the language.
- LogStreams.LogStream.OutputAll: has no floating-point and pointer items, whose text is `snprintf`'s.
- `Logger` and time stamps.
- `FixedBuffer::bzero`, which has no effect on the contents.
- TimerHeap.Pop: the order among timers with equal deadlines is that of a plain binary heap; the library may choose another, and no property here depends on it.
- `TimerQueue::handleExpiredEvent`, which nothing calls, and `TimerNode::update`.
- `callingExpiredTimers_`, which is written and never read.
- TimerHeap.TimerNode.constructor: intervals are whole milliseconds; the source keeps a `double`, and every caller passes an `int`.
- TimerQueues.TimerQueue.HandleRead: callbacks that ask for negative timeouts (what happens then is in `RunAndPop`), runs without end that ask for timers with no
  time to go, and a clock that wraps around while timers are queued.
- HttpServers.HttpServer.OnMessage: the reply and the shutdown that `onRequest` makes for a request that was handed on, both in the
  hands of the user's callback.
- `HttpResponse`.
