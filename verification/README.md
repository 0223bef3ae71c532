# Proofs about the systems labs

A Dafny model of the protocols and data structures of the labs, and proofs about it. Verify all of
it with `dafny verify dfyconfig.toml`.

| files | part of the repository | main results |
|---|---|---|
| `Download.dfy`, `Engine.dfy`, `Steque.dfy`, `Workload.dfy` | the multithreaded download client | no lost wakeup, no deadlock, first-in first-out, every popped request worked on, and fair load over every interleaving of boss and workers, spurious wakeups included; every run is finite; the linked queue refines the transition system |
| `Console.dfy`, `Outcomes.dfy`, `Sources.dfy`, `Rio.dfy`, `Lines.dfy`, `Tokenizer.dfy`, `Memory.dfy` | the command console with its readers, tokenizer and byte accounts | nested sources flatten to the recursive inlining of the files; lines do not depend on how `read()` splits its input; the tokenizer is right exactly on the lines that the reader provides; the bytes balance |
| `QTest.dfy`, `StringQueue.dfy`, `Harness.dfy` | the string queue, its driver and the checking allocator | blocks and shadow count are conserved over every run of commands and every pattern of failing allocations; reversal relinks the same elements; the live-block list stays doubly linked |
| `Protocol.dfy`, `Server.dfy`, `Client.dfy`, `Decimal.dfy`, `CString.dfy` | GETFILE messages and transfers | printers and parsers undo each other; the server sends exactly the file under partial reads and sends; the client delivers exactly the body under every chunking, and exactly when it can |
| `Content.dfy` | the content index | loading, growing, sorting and binary search agree with a linear scan |
| `Bits.dfy`, `Division.dfy` | the `howManyBits` puzzle | the branch-free form and the reference loop both find the least width |

Code that works in place is modelled by classes, arrays and loops; what their methods compute is
stated by functions on sequences, and the theorems are about these functions and about runs.

Where the code falls short of its promise, the model keeps the code and states the exact limit:

- The wakeup bound by woken workers alone is guaranteed exactly while the holder of the mutex owes no
  signal and no pop (`Downloads.WokenSufficeIff`); `Downloads.SlackIsNeeded` has a reachable state
  for each other point.
- The tokenizer needs a line that ends in a space (`Tokenizers.ParsesRightIff`).
- `size` with a repetition count of 0 or less reports a mismatch exactly on a nonempty queue
  (`QTests.QTest.DoSize`, `QTests.NeverReported`).
- A run that the error limit ends keeps its bytes, more than 0 (`Consoles.Console.FinishCmd`).
- The server compares a null pointer exactly on a request that is the scheme alone
  (`Protocols.CrashIff`).
- The result of sending the header is ignored, so an empty file counts as sent even when its header
  was cut short (`Servers.SendFile`).
- The client needs the whole header in its first `recv()`, or for an empty file a first `recv()`
  that ends right behind the length (`Clients.DeliversIff`).
- The server prints a space behind the length, which `Client Server Lab/Readme.md:216` allows and the
  client does not expect: the file arrives one byte late. No size of the first `recv()` makes the pair
  deliver every file, except for empty files a `recv()` that ends right behind the length or one byte
  before the end of the header (`Clients.PairDeliversAlwaysIff`). With the header inside the first
  `recv()`, the pair delivers a file exactly when it is a nonempty run of line feeds and some `recv()`
  ends one byte before the end of the response (`Clients.PairDeliversIff`).

## Model

| member | source | states |
|---|---|---|
| `Downloads.NoLostWakeupEver` | Client Server Lab/mtgf/gfclient_download.c:118-127 | in every reachable state, spurious wakeups included, while a worker waits the queue is no longer than the workers that are woken or between their lock and their pop, plus one while the boss is between enqueue and signal; away from those points it is no longer than the woken workers that have not re-taken the mutex |
| `Downloads.WokenSufficeIff` | Client Server Lab/mtgf/gfclient_download.c:118-127 | the bound by woken workers alone is guaranteed at a point of the mutex holder exactly when the holder owes no signal and no pop |
| `Downloads.SlackIsNeeded` | Client Server Lab/mtgf/gfclient_download.c:251-256 | for each point between enqueue and signal or between lock and pop, a reachable state there in which a worker waits and the queue is longer than the woken workers |
| `Downloads.FifoEver` | Client Server Lab/mtgf/gfclient_download.c:115-127 | in every reachable state the popped requests followed by the queue are the first requests of the workload in order, a worker about to pop finds a nonempty queue, and the program has exited exactly when the path last fetched is longer than 256 characters |
| `Downloads.PopsAreWorkedOn` | Client Server Lab/mtgf/gfclient_download.c:125-166 | in every reachable state the popped requests are, as a multiset, those that a worker has finished working on and those in the hand of a worker past its pop |
| `Downloads.WorkBeforeNextPop` | Client Server Lab/mtgf/gfclient_download.c:115-166 | wherever a worker is but between its pop and the end of its work, it has worked on every request it popped, in the order of its pops, and pops and remaining quota add up to nrequests |
| `Downloads.OneThreadInside` | Client Server Lab/mtgf/gfclient_download.c:118-127 | no two threads are between lock and unlock in any reachable state |
| `Downloads.SignalChoices` | Client Server Lab/mtgf/gfclient_download.c:254 | a signal may wake any set of waiters, but for the empty one while somebody waits, and any waiter may wake spuriously |
| `Downloads.Progress` | Client Server Lab/mtgf/gfclient_download.c:115-127 | until main returns or exits, some thread has a step that is not a spurious wakeup |
| `Downloads.ReturnMeansComplete` | Client Server Lab/mtgf/gfclient_download.c:259-266 | when main returns, every worker is done and has worked on exactly nrequests requests, all of nrequests * nthreads requests are popped in workload order and finished, every path fits, and the queue is empty |
| `Downloads.StuckMeansComplete` | Client Server Lab/mtgf/gfclient_download.c:239-266 | a run that no boss or worker step extends has returned from main exactly when all requested paths fit, and has exited on an over-long path otherwise |
| `Downloads.CompletedLoad` | Client Server Lab/mtgf/gfclient_download.c:239-257 | in a completed run slot j of n has been popped, and worked on, floor(T/n) times for T requests, once more when j < T mod n |
| `Downloads.StepShrinks` | Client Server Lab/mtgf/gfclient_download.c:115-127 | every boss or worker step shrinks the measure by at least one, and a spurious wakeup grows it by at most three |
| `Downloads.RunsAreBounded` | Client Server Lab/mtgf/gfclient_download.c:239-257 | every run is finite, with an explicit bound in threads, requests and spurious wakeups |
| `Downloads.QuietRunsAreBounded` | Client Server Lab/mtgf/gfclient_download.c:239-257 | without spurious wakeups the bound depends on threads and requests alone |
| `Downloads.StepKeepsInv` | Client Server Lab/mtgf/gfclient_download.c:115-127 | every step of boss, worker or spurious wakeup keeps mutual exclusion, the program points, the counts, the order of requests and the wakeup bound |
| `Downloads.BossKeepsWakeups` | Client Server Lab/mtgf/gfclient_download.c:251-256 | signalling after the enqueue keeps every queued request claimed while anyone waits |
| `Downloads.WorkerKeepsWakeups` | Client Server Lab/mtgf/gfclient_download.c:118-127 | no step of a worker leaves a queued request without a claimant while another worker waits |
| `Downloads.WorkerKeepsFifo` | Client Server Lab/mtgf/gfclient_download.c:120-125 | no step of a worker loses, duplicates or reorders a request |
| `Downloads.ReachableInv` | Client Server Lab/mtgf/gfclient_download.c:107-168 | the invariant holds in every state that any interleaving reaches |
| `Engines.Engine.BossMoves` | Client Server Lab/mtgf/gfclient_download.c:232-266 | the boss's statements, with the linked steque and the workload counter, perform exactly the boss action of the transition system |
| `Engines.Engine.WorkerMoves` | Client Server Lab/mtgf/gfclient_download.c:115-127 | a worker's statements on the linked steque perform exactly the worker action of the transition system |
| `Engines.Engine.Replay` | Client Server Lab/mtgf/gfclient_download.c:107-168 | every interleaving replayed in memory ends in the state of the transition system, so the theorems hold of the linked queue |
| `Engines.Engine.Finish` | Client Server Lab/mtgf/gfclient_download.c:268-274 | steque_destroy after a completed run finds nothing left in the queue |
| `Steques.Steque.Init` | Client Server Lab/mtgf/steque.c:5-9 | an empty steque |
| `Steques.Steque.Enqueue` | Client Server Lab/mtgf/steque.c:11-25 | the item is appended at the back of the linked list, which stays well formed |
| `Steques.Steque.Push` | Client Server Lab/mtgf/steque.c:27-39 | the item is prepended |
| `Steques.Steque.Size` | Client Server Lab/mtgf/steque.c:41-43 | the stored count is the number of items |
| `Steques.Steque.IsEmpty` | Client Server Lab/mtgf/steque.c:45-47 | true exactly on a steque without items |
| `Steques.Steque.Pop` | Client Server Lab/mtgf/steque.c:49-69 | takes the front item and keeps the rest in order; underflow exactly on an empty steque |
| `Steques.Steque.Cycle` | Client Server Lab/mtgf/steque.c:71-79 | rotates the front item to the back by relinking the same nodes, none allocated or lost |
| `Steques.Steque.Front` | Client Server Lab/mtgf/steque.c:81-89 | the front item, or underflow exactly on an empty steque |
| `Steques.Steque.Destroy` | Client Server Lab/mtgf/steque.c:91-94 | pops until nothing is left |
| `Workloads.Workload.GetPath` | Client Server Lab/mtgf/workload.c:43-53 | each call serves the next request of the round-robin sequence |
| `Workloads.FairLoad` | Client Server Lab/mtgf/workload.c:49-51 | k requests to n paths serve slot j floor(k/n) times, once more when j < k mod n |
| `Workloads.ServedAt` | Client Server Lab/mtgf/workload.c:49-51 | request i is served slot i mod n |
| `Consoles.Console.RunConsole` | Linked List Lab/console.c:598-607 | the lines taken up by a whole run are a prefix of the recursive inlining of the sourced files, and all of it unless the run was ended; it ends exactly at its first quit or at the first failure that meets the error limit then in force; the books balance at the end |
| `Consoles.Console.CmdSelect` | Linked List Lab/console.c:531-574 | runs the buffered lines and then one more, staying on the course of the inlined text, and makes progress |
| `Consoles.Console.DrainBuffer` | Linked List Lab/console.c:536-540 | afterwards no complete line is left in the innermost buffer, and the run is still on the course of the inlined text |
| `Consoles.Console.ReadReady` | Linked List Lab/console.c:512-519 | true exactly when a newline is in the unread part of the innermost buffer |
| `Consoles.Console.ReadLine` | Linked List Lab/console.c:447-494 | the first line of the innermost pending text whatever read() delivered before, and nothing exactly at the end of that text; the file is popped exactly when the reading runs into its end |
| `Consoles.Console.TakeUp` | Linked List Lab/console.c:536-540 | taking up a line keeps the run on the course of the inlined text, or ignores the line once the run has ended |
| `Consoles.Console.InterpretCmd` | Linked List Lab/console.c:221-235 | ignores a line after the end of a run; otherwise splits and executes it, with the outcome its words determine and the byte balance of the argument list restored |
| `Consoles.Console.RunLine` | Linked List Lab/console.c:228-234 | the bytes that the tokenizer allocates are exactly the bytes that the loop and free_array give back |
| `Consoles.Console.FreeArgs` | Linked List Lab/console.c:230-233 | frees the strings and the pointer array of an argument list, byte for byte |
| `Consoles.Console.InterpretCmda` | Linked List Lab/console.c:200-218 | nothing for no words, one error for an unknown command or a failed one, and the command's effect otherwise, nested time commands included |
| `Consoles.Console.Dispatch` | Linked List Lab/console.c:208-211 | source pushes its file, quit ends the run and frees everything, time runs the rest of the line, option sets its pairs, help and comments succeed, log fails without a file name |
| `Consoles.Console.SetOptions` | Linked List Lab/console.c:320-363 | succeeds exactly on pairs of a known parameter and a number, and leaves the error limit as the pairs in front of the first wrong one make it |
| `Outcomes.OnePairMore` | Linked List Lab/console.c:330-361 | one more pair has to name a known parameter and a number, and sets the error limit to that number exactly if the parameter is error; nothing is set from the first wrong pair on |
| `Outcomes.Verdicts` | Linked List Lab/console.c:200-218 | no words succeed, an unknown command fails, source succeeds exactly on a file that exists, option exactly on good pairs, help and comments always; quit is the command that quits |
| `Outcomes.Timed` | Linked List Lab/console.c:389-405 | time passes the verdict of the command behind it on and counts its failure once more |
| `Outcomes.ErrorsAreFailures` | Linked List Lab/console.c:191-197 | without time the error count of a run is the number of its lines that failed |
| `Consoles.Console.DoSource` | Linked List Lab/console.c:365-375 | pushes the text of the named file exactly when one is named and exists |
| `Consoles.Console.PushFile` | Linked List Lab/console.c:411-424 | stacks a reader over the file's text and charges its bytes; changes nothing when the file cannot be opened |
| `Consoles.Console.PopFile` | Linked List Lab/console.c:429-436 | drops the innermost text and returns its bytes |
| `Consoles.Console.DoQuit` | Linked List Lab/console.c:257-279 | frees both lists and every reader, byte for byte, and sets the quit flag |
| `Consoles.Console.RecordError` | Linked List Lab/console.c:191-197 | counts the error and ends the run at the limit |
| `Consoles.Console.FinishCmd` | Linked List Lab/console.c:590-596 | the bytes are back to 0 exactly when the run went through do_quit_cmd; a run ended by the error limit keeps what it holds, which is more than 0 |
| `Consoles.Console.constructor` | Linked List Lab/console.c:87-111 | all allocations of the command and parameter lists are accounted for |
| `Outcomes.LogStep` | Linked List Lab/console.c:221-235 | one more line taken up keeps the log of a run: every line has the outcome its words determine, no earlier line quits, the run has ended exactly when it was freed or a line failed at the error limit then in force, and without an error no line named an unknown command or a missing file |
| `Outcomes.StopsAtLimit` | Linked List Lab/console.c:191-197 | while no line sets options, a run that started below the error limit has ended exactly when it was freed or has reached that limit |
| `Sources.ReadAndExecute` | Linked List Lab/console.c:365-375 | reading a line and executing it leaves the recursive inlining of the stack unchanged but for that line |
| `Sources.ExpandConcat` | Linked List Lab/console.c:411-424 | the inlining of two texts in sequence is the sequence of their inlinings |
| `Sources.ExpandSource` | Linked List Lab/console.c:365-375 | the line `source f`, timed or not, stands for itself and the inlined lines of file f behind it, or for itself alone when there is no such file |
| `Sources.OpensNothing` | Linked List Lab/console.c:365-375 | a line whose first word is neither source nor time opens no file |
| `Sources.ExpandPlain` | Linked List Lab/console.c:365-375 | a text without executed source commands inlines to its own lines |
| `Rios.Rio.Fill` | Linked List Lab/console.c:456-460 | any nonempty delivery of read() moves bytes from file to buffer without changing the pending text |
| `Rios.Rio.GetByte` | Linked List Lab/console.c:456-480 | the next byte of the pending text, independent of buffer boundaries |
| `Rios.Rio.CollectLine` | Linked List Lab/console.c:455-483 | the copied bytes are those up to a newline, the limit or the end of the text, which is met exactly on a short text without newline |
| `Rios.EndLine` | Linked List Lab/console.c:484-488 | a line without newline gets one, then the terminator, inside the buffer |
| `Rios.Rio.ReadLine` | Linked List Lab/console.c:447-494 | the line and the remaining text are those of the simple splitter on the whole pending text; newline and terminator stay inside the line buffer |
| `Lines.CutShape` | Linked List Lab/console.c:447-494 | every line is nonempty, ends in its only newline and fits the buffer with its terminator |
| `Lines.CutIsLosslessIff` | Linked List Lab/console.c:484-487 | the lines put together are the text again exactly when all its lines are short and end in a newline |
| `Lines.LongLine` | Linked List Lab/console.c:455-487 | 8190 bytes without a newline are cut off as one line with a newline added |
| `Lines.CutLast` | Linked List Lab/console.c:463-472 | a short last line without newline is kept and gets the newline it lacks |
| `Lines.CutLine` | Linked List Lab/console.c:481-482 | a short complete line is cut off as it stands |
| `Tokenizers.ParsesRightIff` | Linked List Lab/console.c:149-189 | for NUL-free lines, parse_args returns the maximal words for every content of fresh heap memory exactly when the line is empty or ends in a space, which readline provides |
| `Tokenizers.FirstPassPacks` | Linked List Lab/console.c:155-177 | the first pass counts the maximal words and packs each closed word with a terminator |
| `Tokenizers.SecondPassUnpacks` | Linked List Lab/console.c:180-185 | unpacking returns the packed words whatever follows them |
| `Tokenizers.SecondPassOverruns` | Linked List Lab/console.c:180-185 | without the last terminator the second pass runs past the end of the buffer |
| `Tokenizers.WordsSplit` | Linked List Lab/console.c:163-169 | a space splits a line into the words before it and the words after it |
| `Tokenizers.WordsOfJoined` | Linked List Lab/console.c:149-189 | joining words with spaces and splitting again gives them back |
| `Tokenizers.WordsAreWords` | Linked List Lab/console.c:162-177 | every word is nonempty and free of spaces |
| `Tokenizers.Separators` | Linked List Lab/console.c:163 | exactly six characters separate words |
| `Tokenizers.TabSeparates` | Linked List Lab/console.c:163-169 | a tab separates words |
| `Tokenizers.OneWord` | Linked List Lab/console.c:162-177 | a nonempty text without separators is one word |
| `Tokenizers.ArgBytesNext` | Linked List Lab/console.c:179-183 | each argument costs a pointer of eight bytes, its characters and a terminator |
| `Tokenizers.Pack` | Linked List Lab/console.c:155-177 | the loop writes exactly the first pass, inside len + 1 bytes |
| `CStrings.StrLen` | Linked List Lab/console.c:184 | the length up to the first terminator, never past the block |
| `Tokenizers.Unpack` | Linked List Lab/console.c:180-185 | copies out exactly the packed words and charges their bytes |
| `Tokenizers.ParseArgs` | Linked List Lab/console.c:149-189 | the maximal words of the line, with exactly their bytes and the pointer array still allocated |
| `Memories.Memory.MallocOrFail` | Linked List Lab/report.c:192-205 | counts one allocation, keeps current = allocated - freed and both peaks as running maxima |
| `Memories.Memory.CallocOrFail` | Linked List Lab/report.c:208-222 | the same for an array |
| `Memories.Memory.StrsaveOrFail` | Linked List Lab/report.c:245-261 | an equal string, charged with its terminator |
| `Memories.Memory.FreeBlock` | Linked List Lab/report.c:264-272 | counts one release of the given size and leaves both peaks |
| `Memories.Memory.FreeArray` | Linked List Lab/report.c:275-284 | the same for an array |
| `Memories.Memory.FreeString` | Linked List Lab/report.c:287-292 | the same for a string with its terminator |
| `Memories.PeakNext` | Linked List Lab/report.c:202-203 | taking the larger value keeps the peak the maximum of the history |
| `Harnesses.LinkedIsAcyclic` | Linked List Lab/harness.c:30-42 | a list whose next and prev pointers are mutual visits no block twice |
| `Harnesses.Harness.FailAllocation` | Linked List Lab/harness.c:67-70 | never fails at probability 0, always above 100 percent |
| `Harnesses.Harness.Malloc` | Linked List Lab/harness.c:112-139 | a fresh marked block at the front of the live list, or nothing changed; fails only in no-allocate mode or by chance |
| `Harnesses.Harness.Prepend` | Linked List Lab/harness.c:132-138 | links the block in front with mutual pointers and the count in step |
| `Harnesses.Harness.Search` | Linked List Lab/harness.c:83-90 | the cautious walk finds a block exactly when it is live |
| `Harnesses.Harness.FindHeader` | Linked List Lab/harness.c:76-100 | an error exactly for a block that is not live (cautious mode) or has lost its header mark |
| `Harnesses.MarksDiffer` | Linked List Lab/harness.c:158-159 | the marks of live and freed blocks differ |
| `Harnesses.Harness.CheckBlock` | Linked List Lab/harness.c:152-157 | an error exactly for a block that is not live (cautious mode) or has lost its header or footer mark |
| `Harnesses.Harness.Free` | Linked List Lab/harness.c:141-175 | takes a live block off the list, the others in the same order with their marks; freeing NULL is an error; no effect in no-allocate mode |
| `Harnesses.Harness.Release` | Linked List Lab/harness.c:158-174 | overwrites the marks of the block and unlinks it, no other block's marks touched |
| `Harnesses.Harness.Unlink` | Linked List Lab/harness.c:162-174 | constant-time unlinking removes exactly this block from the list |
| `Harnesses.Harness.AllocationCheck` | Linked List Lab/harness.c:177-179 | the stored count is the number of live blocks |
| `Harnesses.Harness.ErrorCheck` | Linked List Lab/harness.c:210-214 | reports an error once |
| `Harnesses.CanFreeBag` | Linked List Lab/harness.c:141-175 | whether blocks can be freed one after the other depends only on which they are, not on their order |
| `Harnesses.FreeAllCount` | Linked List Lab/harness.c:141-175 | freeing live blocks one after the other lowers the count by their number |
| `StringQueues.New` | Linked List Lab/queue.c:25-38 | an empty queue holding one block, or NULL and nothing allocated |
| `StringQueues.NewElement` | Linked List Lab/queue.c:71-85 | both blocks of an element or none, the first given back when the second fails |
| `StringQueues.InsertHead` | Linked List Lab/queue.c:64-96 | prepends a fresh copy, or fails leaving queue and allocator as they were; fails only for NULL or for lack of memory |
| `StringQueues.InsertTail` | Linked List Lab/queue.c:107-144 | appends a fresh copy, or fails leaving queue and allocator as they were; fails only for NULL or for lack of memory |
| `StringQueues.Queue.LinkHead` | Linked List Lab/queue.c:86-93 | prepends with tail set only on an empty queue |
| `StringQueues.Queue.LinkTail` | Linked List Lab/queue.c:129-141 | appends, going by size and not by the possibly stale tail |
| `StringQueues.Queue.UnlinkHead` | Linked List Lab/queue.c:173-179 | removes the first element; tail may be stale afterwards, and only on an empty queue |
| `StringQueues.RemoveHead` | Linked List Lab/queue.c:155-181 | removes the first element, copies its value cut to the buffer with a terminator, and gives back exactly its two blocks; fails exactly on NULL or empty |
| `StringQueues.CopyClipped` | Linked List Lab/queue.c:169-170 | a copy cut to n - 1 characters, padded with NULs, nothing written behind it |
| `StringQueues.ClippedText` | Linked List Lab/queue.c:169-170 | the copy holds as many characters as fit in front of a terminator, and terminators behind them |
| `StringQueues.Size` | Linked List Lab/queue.c:187-195 | the number of elements |
| `StringQueues.Reverse` | Linked List Lab/queue.c:204-223 | the same elements in reverse order, place by place, by pointer reversal alone |
| `StringQueues.Free` | Linked List Lab/queue.c:41-55 | gives back every block of the queue, elements first |
| `StringQueues.ElementsDiffer` | Linked List Lab/queue.c:204-223 | a list that ends in NULL visits no element twice |
| `StringQueues.CellsReversed` | Linked List Lab/queue.c:204-223 | reversal leaves the collection of blocks as it was |
| `QTests.QTest.Run` | Linked List Lab/qtest.c:89-397 | over every sequence of commands and options and every pattern of failing mallocs, each state and each reported result follow from their command, the shadow count is the queue length, and the live blocks number 0 without a queue and 1 + 2 * length with one |
| `QTests.ReliableRun` | Linked List Lab/qtest.c:89-397 | in a run that never lets mallocs fail, the queue is what the commands make of it in sequence, every insertion in full |
| `QTests.NeverReported` | Linked List Lab/qtest.c:127-133 | in every run free, new and reverse report no leak and no error, and size reports a mismatch exactly when it does not count a nonempty queue |
| `QTests.QTest.Conservation` | Linked List Lab/qtest.c:128-132 | between commands the counts agree with the strings in the queue |
| `QTests.QTest.Execute` | Linked List Lab/qtest.c:65-87 | each command keeps the counts in step, does what it says to the queue, counts its failures and reports the result they determine |
| `QTests.QTest.DoNew` | Linked List Lab/qtest.c:89-107 | frees an old queue without a leak report and starts an empty one |
| `QTests.QTest.DoFree` | Linked List Lab/qtest.c:109-134 | never reports a leak or an allocation error |
| `QTests.QTest.ReleaseQueue` | Linked List Lab/qtest.c:119-124 | no live block remains, in cautious mode or not |
| `QTests.QTest.DoInsertHead` | Linked List Lab/qtest.c:136-190 | prepends copies, all of them with a reliable allocator; reports an error exactly when a failure reached the limit |
| `QTests.QTest.RepeatInsertHead` | Linked List Lab/qtest.c:157-186 | every repetition either inserts one copy or counts one failure, all of them unless a failure reached the limit |
| `QTests.QTest.DoInsertTail` | Linked List Lab/qtest.c:192-236 | appends copies, all of them with a reliable allocator; reports an error exactly when a failure reached the limit |
| `QTests.QTest.RepeatInsertTail` | Linked List Lab/qtest.c:212-232 | every repetition either inserts one copy or counts one failure, all of them unless a failure reached the limit |
| `QTests.QTest.DoRemoveHead` | Linked List Lab/qtest.c:238-304 | accepts exactly a nonempty first string that agrees with the expected one up to the buffer length; an empty queue only without expectation and below the limit |
| `QTests.QTest.Accepts` | Linked List Lab/qtest.c:275-299 | the comparison of the two buffers is the comparison of the strings cut to the buffer length |
| `QTests.QTest.PaddedBuffer` | Linked List Lab/qtest.c:262-264 | an empty string followed by padding |
| `QTests.CStringOfClipped` | Linked List Lab/qtest.c:257-260 | what strncpy leaves in n characters reads back as a prefix of the string of min(length, n - 1) characters |
| `QTests.InsertHeadStep` | Linked List Lab/qtest.c:157-186 | in every step of a run: equal strings in front of the queue, at most reps of them, exactly reps when no malloc fails, and insertions and failures add up to reps unless the limit stopped them |
| `QTests.InsertTailStep` | Linked List Lab/qtest.c:212-232 | the mirror image at the tail |
| `QTests.InsertionVerdict` | Linked List Lab/qtest.c:175-184 | an insertion command reports an error exactly when it counted a failure at or past the limit, and stops at that failure |
| `QTests.RemovalStep` | Linked List Lab/qtest.c:271-295 | in every step of a run: the first string is dropped, or a failure is counted exactly when there is none |
| `QTests.RemovalVerdict` | Linked List Lab/qtest.c:275-299 | the result: on a nonempty queue the first string is not empty and agrees with the expected one up to the buffer length; on an empty queue only without expectation and below the limit |
| `QTests.OtherSteps` | Linked List Lab/qtest.c:89-134 | the effects and results of new, free, reverse, size and the options, and the block count 0 or 1 + 2 * length after every command |
| `QTests.QTest.DoRemoveHeadQuiet` | Linked List Lab/qtest.c:306-336 | removes the first string; fails only on an empty queue at the failure limit |
| `QTests.QTest.DoReverse` | Linked List Lab/qtest.c:338-354 | reverses in no-allocate mode, with the same live blocks and without an error |
| `QTests.QTest.DoSize` | Linked List Lab/qtest.c:356-397 | reports a mismatch exactly when it never computes the size of a nonempty queue (reps <= 0) |
| `Protocols.RequestParses` | Client Server Lab/gflib/gfserver.c:278-313 | parsing the printed request returns the path, for every nonempty path without CR or LF, spaces included |
| `Protocols.RequestText` | Client Server Lab/gflib/gfclient.c:24 | the request is GETFILE GET, the path and the end marker, and the server parses that text to the path |
| `Protocols.OtherSchemeRefused` | Client Server Lab/gflib/gfserver.c:290-293 | a request with another scheme is refused |
| `Protocols.OtherMethodRefused` | Client Server Lab/gflib/gfserver.c:296-300 | a request with another method is refused |
| `Protocols.NoPathRefused` | Client Server Lab/gflib/gfserver.c:302-306 | a request without a path is refused |
| `Protocols.ParsedPathIsOneLine` | Client Server Lab/gflib/gfserver.c:302-312 | whatever the request, a returned path is nonempty and stays on one line |
| `Protocols.CrashIff` | Client Server Lab/gflib/gfserver.c:296-297 | a null pointer is compared exactly on requests that are the scheme alone, with blanks around it or none |
| `Protocols.BareSchemeCrashes` | Client Server Lab/gflib/gfserver.c:296-297 | the request GETFILE is such an input |
| `Protocols.StrtokInPlace` | Client Server Lab/gflib/gfserver.c:283-302 | the in-place cut returns the token and the remaining text of the pure definition and terminates the token |
| `Protocols.ParseRequestInPlace` | Client Server Lab/gflib/gfserver.c:278-313 | three in-place cuts of the receive buffer compute the pure parser; a missing method is the comparison of a null pointer |
| `Protocols.ServerHeaderParses` | Client Server Lab/gflib/gfclient.c:304-357 | the client recovers status and, for OK, the length from every header the server prints |
| `Protocols.OkHeaderParses` | Client Server Lab/gflib/gfclient.c:361-368 | behind a header without the optional space exactly the body bytes are passed on |
| `Protocols.ServerHeaderText` | Client Server Lab/gflib/gfserver.c:92-105 | the texts of the three headers that the server prints |
| `Protocols.NothingRefused` | Client Server Lab/gflib/gfclient.c:270-309 | a connection closed at once, or a response of spaces, is refused as invalid |
| `Protocols.OtherSchemeRejected` | Client Server Lab/gflib/gfclient.c:322-327 | a response with another scheme is refused as invalid |
| `Protocols.OtherStatusRejected` | Client Server Lab/gflib/gfclient.c:330-348 | a status word other than OK, FILE_NOT_FOUND and ERROR is refused as invalid |
| `Protocols.ServerBodyIsShifted` | Client Server Lab/gflib/gfclient.c:361-368 | behind this server's header, whose space the client does not expect, the body comes with the last byte of the end marker in front |
| `Protocols.ScanFields` | Client Server Lab/gflib/gfclient.c:304 | the scan of a well-formed header fills all three fields and the position behind the number |
| `Decimals.ValueOfDecimal` | Client Server Lab/gflib/gfserver.c:94 | the printed length reads back as the same number |
| `Decimals.DecimalDigits` | Client Server Lab/gflib/gfserver.c:94 | the last digit of a numeral is the remainder by ten |
| `Clients.DeliversBody` | Client Server Lab/gflib/gfclient.c:380-405 | with the header inside the first recv(), every chunking delivers exactly the body, and the result is 0 exactly when all announced bytes arrived |
| `Clients.DeliversIff` | Client Server Lab/gflib/gfclient.c:259-268 | the client is right for all bodies and chunkings exactly when its first recv() covers the header or, for an empty file, ends right behind the length |
| `Clients.CutHeaderFails` | Client Server Lab/gflib/gfclient.c:259-268 | a body and a first recv() that ends inside the header, with which the transfer goes wrong |
| `Clients.PairShiftsBody` | Client Server Lab/gflib/gfclient.c:361-371 | this server with this client, with the header inside the first recv(): the transfer succeeds on a line feed followed by the file, of which the last byte may be missing |
| `Clients.PairDeliversIff` | Client Server Lab/gflib/gfclient.c:361-371 | this server with this client, with the header inside the first recv(), delivers a file exactly when it is a nonempty run of line feeds and some recv() ends one byte before the end of the response |
| `Clients.PairDeliversAlwaysIff` | Client Server Lab/gflib/gfclient.c:259-268 | this server with this client, whatever the first recv() returns: its size lets every file of a length be delivered exactly when the length is zero and it ends right behind the length or one byte before the end of the header, unless the response is shorter than that size |
| `Clients.ReceiveStops` | Client Server Lab/gflib/gfclient.c:384-402 | the receive loop stops exactly at the announced length if and only if a recv() ends there |
| `Clients.ReceiveAll` | Client Server Lab/gflib/gfclient.c:384-402 | the receive loop passes on every chunk and succeeds exactly when they add up to the length |
| `Clients.FailureIsEmpty` | Client Server Lab/gflib/gfclient.c:334-373 | a failure that this server reports ends the transfer with its status, without bytes and without an error |
| `Clients.ClosedAtOnceFails` | Client Server Lab/gflib/gfclient.c:270-274 | a connection closed at once fails |
| `Clients.GfcRequest.ReadHeader` | Client Server Lab/gflib/gfclient.c:257-374 | status, length and first body bytes are those of the pure parser on the first chunk |
| `Clients.GfcRequest.ReadChunks` | Client Server Lab/gflib/gfclient.c:380-405 | the loop computes the pure receiver, and the byte count is the number of bytes passed on |
| `Clients.GfcRequest.PerformTransfer` | Client Server Lab/gflib/gfclient.c:115-130 | the transfer as a function of the chunks |
| `Servers.Connection.SendData` | Client Server Lab/gflib/gfserver.c:259-275 | under every schedule of partial sends either all of the data is on the wire or a proper part of it and the connection is broken |
| `Servers.Connection.GfsSend` | Client Server Lab/gflib/gfserver.c:69-82 | the same, with the result -1 on anything short |
| `Servers.Connection.SendHeader` | Client Server Lab/gflib/gfserver.c:85-108 | sends the printed header under the same guarantee |
| `Servers.SendFile` | Client Server Lab/gflib/handler.c:22-45 | for a nonempty file a positive result exactly when the wire holds header and whole file; otherwise a prefix of them; an empty file reports 0 even when the header was cut short |
| `Servers.HandlerGet` | Client Server Lab/gflib/handler.c:13-46 | the path is looked up in the index: a missing key is answered with the header alone, a present one with header and file of a row that has it, and a failure leaves a proper prefix |
| `Servers.LookupIsUnique` | Client Server Lab/gflib/content.c:63-79 | with distinct keys the index and the path determine the file that is sent |
| `Contents.Content.Load` | Client Server Lab/gflib/content.c:32-54 | there is room at every write, growth keeps the earlier rows, and all rows are loaded in order |
| `Contents.Content.Grow` | Client Server Lab/gflib/content.c:49-52 | the rows survive the reallocation |
| `Contents.Content.Sort` | Client Server Lab/gflib/content.c:58 | a sorted permutation of the rows |
| `Contents.Content.constructor` | Client Server Lab/gflib/content.c:22-61 | the sorted index of all rows |
| `Contents.Content.Get` | Client Server Lab/gflib/content.c:63-79 | the descriptor of some row with the key if there is one, and -1 otherwise, every probe in range |
| `Contents.CompareTransitive` | Client Server Lab/gflib/content.c:18-20 | the row order is transitive, also strictly |
| `Contents.CompareZero` | Client Server Lab/gflib/content.c:18-20 | rows compare equal exactly when their keys are equal |
| `Contents.CompareAt` | Client Server Lab/gflib/content.c:18-20 | the first differing character decides the order, and a proper prefix comes first |
| `Bits.HowManyBits` | Data Lab/bits.c:259-286 | the least n such that x fits n bits of two's complement, between 1 and 32 |
| `Bits.FoldSign` | Data Lab/bits.c:262-265 | the masked form computes x or, for a negative number, its complement |
| `Bits.Stage` | Data Lab/bits.c:267-281 | one halving stage shifts by its width exactly when no leading digit is lost, and the width left is bounded |
| `Bits.TestHowManyBits` | Data Lab/tests.c:67-74 | the shift-and-count loop also finds the least width, for INT_MIN through wrap-around |
| `Bits.LeastWidthIsUnique` | Data Lab/tests.c:67-74 | the least width is one number, so puzzle and reference agree on every 32-bit argument |
| `Bits.DocumentedWidths` | Data Lab/bits.c:249-254 | the widths that the documentation of the puzzle gives |
| `Bits.LeastWidth` | Data Lab/bits.c:259-286 | a width fits exactly when it exceeds the binary length of the magnitude |

## Left out

- Downloads.NoLostWakeupEver: takes one step of one thread as atomic between two operations on shared data; the literal bound is stated at every point where `Downloads.WokenSufficeIff` proves it guaranteed, and with its slack at the others.
- Engines.Engine.WorkerMoves: the request work of a thread after its pop (files, sockets, counters of file names) is one step without shared effect; the name counter outside the mutex is not modelled.
- Downloads.StuckMeansComplete: a workload without paths, where the remainder divides by zero, is excluded by the type of configurations; negative thread and request counts act as 0.
- Workloads.Workload.GetPath: a path pointer is modelled by its slot in the array; the random mode, the limit of 100 paths and overflow of the counter are not modelled.
- Steques.Steque.Pop: the exit on underflow is the result `None`; memory of freed nodes is not tracked.
- Memories.Memory.MallocOrFail: sizes are unbounded, a failing allocation ends the program and is not modelled, and neither is the memory limit; `calloc` of no elements is taken to succeed; `realloc_or_fail` is not modelled.
- Consoles.Console.RunConsole: `select`, `block_console`, prompts, echo, the log file and standard input as a source are not modelled; a read error acts as the end of the file; files do not change while they are read, and a file that sources itself is excluded.
- Consoles.Console.Dispatch: the commands of an application may succeed or fail without touching files or console memory, and do not replace the built-in ones; whether a log file opens is left open; the sorted insertion of commands is not modelled.
- Consoles.Console.SetOptions: the names of the parameters and the parser of numbers, `strtol`, are parameters of the model; only the error limit is kept.
- Consoles.Console.DoQuit: the quit helpers are not modelled, so its result is left open.
- Tokenizers.ParseArgs: bytes with the value 0 in the input are excluded; bytes of 128 and above are taken as not being spaces.
- Harnesses.Harness.Free: what the relinking does to a block that is not live is not modelled, only its detection (`Harnesses.Harness.CheckBlock`); blocks do not overrun their payload, whose bytes are not modelled.
- QTests.QTest.Run: timeouts, signals, the parsing of command words and `show` are not modelled; a negative string length is excluded.
- QTests.QTest.DoInsertHead: the checks that compare string addresses cannot fire and are not modelled.
- Protocols.ParseRequestInPlace: the copy of the path into fresh memory cannot fail.
- Protocols.ServerHeaderParses: field widths and the sign and overflow rules of `sscanf` are not modelled; a full buffer without terminator is taken to end there.
- Clients.GfcRequest.ReadHeader: a status word that was never filled in and a body length that wraps below zero are one result, `Broken`; receive errors and the sending of the request are not modelled.
- Servers.Connection.SendData: `send()` of at least one byte accepts at least one, and a failed connection stays failed; aborting and closing are not modelled.
- Bits.TestHowManyBits: `-x` overflows a C int at INT_MIN, which the C standard leaves undefined; the model wraps around as two's complement hardware does.
- Servers.HandlerGet: files are those behind the descriptors of the index and do not change while they are sent.
- Contents.Content.Load: rows arrive parsed, with their descriptors; file reading, key length and `open` are not modelled, and `qsort` is known by its contract.
- The threaded server, the echo and transfer programs, the remaining bit puzzles and the scripts add only easy members.
