# Protocols and loops of the Linux/UNIX programs, verified

This project models the programs of the repository that keep real state — six concurrent protocols, one
server loop, and eight algorithms over text and byte streams — and proves what they are meant to keep.
`dafny verify dfyconfig.toml` checks all of it with Dafny 4.11.

Protocols are step systems: a `State`, the steps of each process as the code takes them between two system
calls or statements, and `Next`. `Runs` defines runs and reachability once, for all of them, and proves that
inductive invariants hold in every run and that a falling measure bounds it. Sequential code is imperative:
methods with loops over arrays, classes and streams, proved against specification functions whose own
properties are lemmas. The book's constants (`MAX`, `NUMTHREADS`, `FD_SETSIZE`, `BLOCK_SIZE`, the number of
clients) are arbitrary numbers here.

| module | program | main results |
|---|---|---|
| `HandOver` | `10_Threads/thread12.c` | no run gets stuck exactly when there are at least as many rounds as consumers; then every run ends with all served |
| `PingPong` | `08_Signals/sig_sync.c` | one turn in the system, strict alternation, every run ends after all rounds |
| `SharedBuffer` | `09_IPC/shm_*.c` | the buffer refines a FIFO although both sides access it character by character; exactly when an exit does harm |
| `UndoMutex` | `09_IPC/sem.c` | mutual exclusion with crashes anywhere; every run ends, and exactly when it ends stuck |
| `Reaper` | `11_Network/parallel_server/pserver.c` | no zombie is forgotten although signals coalesce |
| `SessionList`, `Broadcast` | `09_IPC/msq_*.c` | the heap list refines a sequence; over every run each inbox is the slice of the login log from login to logout |
| `SelectServer` | `11_Network/select/multi_server.c` | exact service, and the table invariant over every run |
| `Decorations`, `CharClass` | the bundled `prettify.js` | compaction keeps every character's style; case folding denotes the right set |
| `Tokens` | `11_Network/select/http_server.c` | `GetToken` returns the n-th word of a split that inverts joining |
| `Transfer` | `client2.c`, `server2.c` | file-transfer round trip for every chunking, and exactly when it holds |
| `PartialWrite` | `cpy_file.c`, `http_server.c` | partial writes lose nothing; exactly when a copy is identical |
| `WordFilter` | `09_IPC/filter.c` | no filter word survives anywhere in the output; exactly when the program reproduces its own output |
| `Backward` | `02_Files/backward.c` | a permutation of the bytes; when two passes are the identity; three passes are one |

`Runs`, `Counting`, `Sequences`, `Splitting`, `CStrings`, `Decimal`, `Streams` and `Numbers` are shared by these.

Findings, each with its exact condition proved:

- `thread12.c`: with fewer rounds than consumers some run leaves a consumer waiting for ever
  (`HandOver.NeverStuckExactlyWhen` builds it). The branch that lowers the flag is never taken.
- `sem.c`: a creator that dies between `semget` and SETVAL leaves everybody else waiting; there is no other
  way to get stuck (`UndoMutex.OrphanedExactlyByCreator`, `UndoMutex.StuckExactlyWhen`).
- `shm_client.c`: because one process lowers what another raises, SEM_UNDO disturbs the two semaphores when a
  client exits that has sent something. Their sum survives exactly if the client has sent one line in all and
  a line is still to be picked up (`SharedBuffer.ExitKeepsAccountsExactlyWhen`), but then that line is lost
  (`SharedBuffer.ExitKeepsLineExactlyWhen`). No harm follows in any later run exactly if the client has never
  sent a line, or is the last client and nothing is waiting to be picked up
  (`SharedBuffer.ExitHarmlessExactlyWhen`); `SharedBuffer.ExitDoesHarm` builds both harms. The other results
  about the buffer hold for runs in which only clients exit that have not sent anything.
- `msq_client.c`: the first message a client reads carries its own id exactly when the id is positive; a queue
  id of 0 cannot be a message type (`Broadcast.FirstMessageIsOwn`), and such a client may first read the id of
  another one (`Broadcast.FirstMessageOfOther`).
- `msq_client.c`: a client whose first receive is interrupted ends without logging out and stays in the session
  list with its queue (`Broadcast.InterruptedStays`).
- `filter.c`: the program reproduces its own output exactly when `fgets` cuts none of its words
  (`WordFilter.RefilteringExactlyWhen`), as when no output line is too long for the buffer
  (`WordFilter.ProgramTwice`); a word longer than the buffer fails (`WordFilter.ProgramTwiceCanFail`).
- `cpy_file.c`: `main` reports an error only if `write2` returns a positive number, which it never does. The
  copy is identical when no read and no write failed, and exactly when no write failed and reading got to the end
  (`PartialWrite.CopyFile`); after a failed write the later blocks move up in the copy, which then misses a part
  in the middle (`PartialWrite.LaterBlockMovesUp`).
- `multi_server.c`: the check for too many clients cannot guard `FD_SET`: as long as all descriptors fit a slot
  is free, and the first one that does not fit is added unchecked (`SelectServer.StaysInRangeExactlyWhen`,
  `SelectServer.FirstBeyondRange`).
- `http_server.c`: one call of `GetToken` passes a length greater than its array; the array is big enough
  exactly for words shorter than it (`Tokens.TargetInsideExactlyWhen`). A request line with a longer target does
  not get that far intact: the `fgets` in line 152, which is not part of the model, already allows 2047 characters
  for an array of 512.
- `server2.c`: when no call fails and no write is short, the round trip holds exactly when the last path
  component has no newline (`Transfer.RoundTrip`, `Transfer.NewlineInName`).

## Model

| member | source | states |
|---|---|---|
| HandOver.NeverStuckExactlyWhen | 10_Threads/thread12.c:24-99 | for all n and m: no reachable state with n consumers and m rounds is stuck if and only if m >= n |
| HandOver.NeverStuck | 10_Threads/thread12.c:34-94 | with at least as many rounds as consumers some thread can always go on without a spurious wake-up, until the main thread has joined everybody |
| HandOver.FlagTellsData | 10_Threads/thread12.c:76-89 | in every reachable state with the mutex free, `datenVorhanden` is 1 iff `geteilteDaten` is positive and 0 iff it is 0 |
| HandOver.ResetNeverHappens | 10_Threads/thread12.c:45-47 | a consumer that inspects the data never finds the counter at 0, so the flag stays up |
| HandOver.ResetExactlyWhenEmpty | 10_Threads/thread12.c:45-47 | in any state with the flag up that step lowers it iff the counter is 0 |
| HandOver.MutualExclusion | 10_Threads/thread12.c:30-52 | at most one thread is between lock and unlock, through `pthread_cond_wait` and spurious wake-ups |
| HandOver.EveryRunEnds | 10_Threads/thread12.c:24-99 | from any reachable state a run without spurious wake-ups is finite, from the start at most 11 n + 6 m + 4 states long, and with m >= n one that cannot go on has all rounds counted and all consumers finished and joined |
| HandOver.FinishedHasProcessed | 10_Threads/thread12.c:34-48 | in every run, spurious wake-ups included, a finished consumer has gone through the processing of its loop body exactly once, at a moment when data were there |
| HandOver.SomeRunEnds | 10_Threads/thread12.c:24-99 | for all m >= n there is a run in which all n consumers finish and all m rounds are counted |
| HandOver.SpuriousWakeUp | 10_Threads/thread12.c:35-39 | before data are announced a waiter may be woken for nothing, and then comes back to exactly the state before |
| HandOver.WokenFinishes | 10_Threads/thread12.c:34-55 | some schedule lets a consumer woken while data are there run to its end at once, leaving everything else as it was |
| PingPong.ExactlyOneTurn | 08_Signals/sig_sync.c:31-115 | in every interleaving exactly one turn to act, pending signal, or handler with raised flag exists until the parent has ended, and none afterwards |
| PingPong.BlockedOutsideSuspend | 08_Signals/sig_sync.c:31-84 | both signals are blocked outside `sigsuspend` and its handler, handlers never nest, and a sleeper blocks nothing |
| PingPong.HandlerMasks | 08_Signals/sig_sync.c:31-51 | the handler starts with just its own signal blocked, will restore the mask with both, and stores the former in `mask_alt`, which is still there when it is added again |
| PingPong.NoWakeUpLost | 08_Signals/sig_sync.c:62-77 | a signal pending for a sleeping process can be delivered at once and wakes it |
| PingPong.StrictAlternation | 08_Signals/sig_sync.c:98-112 | the output alternates "Eltern", "Kind" in every reachable state, and the round counters differ by at most one |
| PingPong.NeverStuck | 08_Signals/sig_sync.c:87-116 | as long as one of the two has not ended, some step is possible |
| PingPong.EveryRunEnds | 08_Signals/sig_sync.c:87-116 | every run has at most 32 MAX + 27 states, and one that cannot go on has printed both names MAX times in turn |
| PingPong.SomeRunEnds | 08_Signals/sig_sync.c:87-116 | for every MAX there is a run to the end of both processes |
| SharedBuffer.BufferExclusive | 09_IPC/shm_header.h:37-51 | EMPTY + FULL + clients inside + server inside = 1 in every reachable state, so no two processes use the buffer at once |
| SharedBuffer.UndoCountsLines | 09_IPC/shm_header.h:37-51 | the undo amounts of a client that has not exited are the number of lines it has posted, up to its present hold on the buffer, and the clients together have posted all lines of the log |
| SharedBuffer.RefinesFifo | 09_IPC/shm_server.c:98-110 | the lines printed by the server are those posted by clients, whole and in order, with at most one in flight, which the memory then holds |
| SharedBuffer.AnyConversation | 09_IPC/shm_client.c:3-13 | for every buffer size, number of clients and sequence of lines sent by any of them, some run prints exactly these lines |
| SharedBuffer.NeverStuck | 09_IPC/shm_server.c:75-110 | whenever a request is open or a line is in flight some process can go on |
| SharedBuffer.DeliversEverything | 09_IPC/shm_client.c:3-13 | without new requests the programs come to rest in boundedly many steps, and then all clients are back at the menu and all lines are printed |
| SharedBuffer.ExitHarmlessExactlyWhen | 09_IPC/shm_client.c:31-46 | after the exit of a client, with its undo amounts applied, every later run keeps processes apart in the buffer and loses no line iff the client has never sent a line, or nothing is waiting to be picked up and all other clients have gone |
| SharedBuffer.ExitKeepsAccountsExactlyWhen | 09_IPC/shm_header.h:37-51 | the exit keeps the sum of the accounts iff the client has sent nothing, or one line in all while FULL is 1 |
| SharedBuffer.ExitKeepsLineExactlyWhen | 09_IPC/shm_header.h:37-51 | the exit keeps what has been posted and not printed iff the client has sent nothing or FULL is 0 |
| SharedBuffer.ExitLeadsToOverlap | 09_IPC/shm_client.c:31-46 | if a client that has sent something exits while FULL is 0 and another client is there, some run has the server and a client in the buffer at once |
| SharedBuffer.ExitDoesHarm | 09_IPC/shm_client.c:31-46 | two clients: reachable exits of a client that has sent one line, one of which loses the line and one of which leads to an overlap |
| UndoMutex.MutualExclusion | 09_IPC/sem.c:56-76 | at most one process is in the critical section even if any process dies at any point |
| UndoMutex.ValueAndHolders | 09_IPC/sem.c:20-53 | value + holders is 0 before SETVAL and 1 after it, a process's undo amount is 1 iff it holds, SETVAL happens at most once and with nobody inside |
| UndoMutex.WayOfProcess | 09_IPC/sem.c:20-76 | in every run a process past the critical section has been in it, and one that operates on the semaphore has found it there or set it |
| UndoMutex.CanStillEnter | 09_IPC/sem.c:43-63 | in every reachable state that is not orphaned, every process before the critical section can still get in without anybody dying |
| UndoMutex.EachCanEnter | 09_IPC/sem.c:56-63 | among n processes each one can be in the critical section, with the value 0 and undo amount 1 |
| UndoMutex.StuckExactlyWhen | 09_IPC/sem.c:20-53 | the processes that are left are stuck iff SETVAL never happened and all of them wait, and then the semaphore has lost its creator |
| UndoMutex.OrphanedExactlyByCreator | 09_IPC/sem.c:26-36 | a step leaves the semaphore without value and creator iff it is the death of the creator before SETVAL |
| UndoMutex.EveryRunEnds | 09_IPC/sem.c:20-76 | every run, deaths included, has at most 6 n + 1 states; when nobody can go on, all processes have ended, or the creator died before SETVAL and all who are left wait |
| UndoMutex.OrphanedForGood | 09_IPC/sem.c:22-37 | after the creator's death before SETVAL, in every run that goes on from there, nobody ever enters the critical section |
| UndoMutex.CrashBeforeSetValSticks | 09_IPC/sem.c:26-36 | a run of two processes that gets stuck this way |
| Reaper.ZombieHasSignal | 11_Network/parallel_server/pserver.c:37-45 | in every reachable state an unreaped dead child implies SIGCHLD pending or the handler in its loop |
| Reaper.NobodyForgotten | 11_Network/parallel_server/pserver.c:37-45 | with nothing pending and no handler active there is no zombie, and every death has been reaped exactly once |
| Reaper.NoDoubleReap | 11_Network/parallel_server/pserver.c:42-43 | no pid is reaped more often than it died, and it lags by one exactly while it is a zombie |
| Reaper.AllReapedSoon | 11_Network/parallel_server/pserver.c:86-104 | between deaths the signal steps end in bounded time, and the parent rests only when all are reaped |
| Reaper.OneSignalReapsAll | 11_Network/parallel_server/pserver.c:37-45 | any set of children can die behind a single pending signal, and one run of the handler then reaps all of them |
| SessionList.Verwaltung.Add | 09_IPC/msq_server.c:14-32 | the heap list stays a null-terminated chain without repetition and its contents gain the id at the tail |
| SessionList.Verwaltung.Remove | 09_IPC/msq_server.c:35-61 | the contents lose the first occurrence of the id, or stay as they are |
| SessionList.WithoutFirst | 09_IPC/msq_server.c:41-60 | what "without the first occurrence" means: the parts before and after it, joined |
| SessionList.WithoutAbsent | 09_IPC/msq_server.c:39-60 | removing an id that is not in the list changes nothing |
| SessionList.Server.Verteilen | 09_IPC/msq_server.c:76-93 | walking the heap list sends the message to the queue of every node in list order |
| SessionList.SendAllDelivers | 09_IPC/msq_server.c:84-92 | a broadcast appends the message exactly once to each existing queue of a session if its type is positive, and changes no other queue |
| SessionList.Server.Dispatch | 09_IPC/msq_server.c:108-128 | one request: a logout removes the id, anything else adds it and broadcasts to the longer list |
| SessionList.DecodeOfLogin | 09_IPC/msq_client.c:53-55 | the server reads back the id and the word of the login text a client prints |
| SessionList.DecodeOfLogout | 09_IPC/msq_client.c:81-83 | the server reads back the id of the logout text a client prints |
| SessionList.DecodeOfWord | 09_IPC/msq_server.c:115-124 | any request not of type 1 is taken for a login with its number and the first word behind the colon, whatever white space is around it |
| Decimal.ScanOfPrint | 09_IPC/msq_server.c:119-123 | a number printed with `%d` is scanned back with `%d` before any non-digit |
| Broadcast.SessionsAreLive | 09_IPC/msq_server.c:108-127 | over every run the session list is duplicate-free and is the login log without those logged out, in login order |
| Broadcast.InboxOfRun | 09_IPC/msq_server.c:76-127 | over every run a client is in the list with its queue for one stretch, from its login to its logout or queue removal, and its queue has received exactly the logins from its own to the last one broadcast to it in that stretch |
| Broadcast.InboxIsSlice | 09_IPC/msq_server.c:76-93 | in every reachable state the queue of a client in the list has received the logins from its own up to the last one broadcast to it |
| Broadcast.ClosedReceivesNothing | 09_IPC/msq_client.c:80-90 | nothing is enqueued before a client's login, after its logout, or after the removal of its queue |
| Broadcast.FirstMessageIsOwn | 09_IPC/msq_client.c:62-68 | the first message a client reads carries its own id iff the id is positive |
| Broadcast.ReadsInOrder | 09_IPC/msq_client.c:62-75 | a client reads its messages in the order in which they were put into its queue |
| Broadcast.CanLogIn | 09_IPC/msq_client.c:48-68 | from every reachable state a new client with a positive id can log in, read its own id and be in the list |
| Broadcast.CanReadAll | 09_IPC/msq_client.c:70-78 | from every reachable state a polling client can read all that has been sent to it |
| Broadcast.CanLogOut | 09_IPC/msq_client.c:80-90 | from every reachable state a polling client can log out; it is then gone with its queue and out of the list |
| Broadcast.FirstMessageOfOther | 09_IPC/msq_client.c:62-68 | for all ids c < 1 <= d some run has client c read the id d of another client first |
| Broadcast.FirstReceiveEnds | 09_IPC/msq_client.c:62-66 | a client still blocked in its first receive with the server at rest has an id below 1 |
| Broadcast.CanBeInterrupted | 09_IPC/msq_client.c:62-66 | a client that waits for its first message can be interrupted, and ends |
| Broadcast.InterruptedStays | 09_IPC/msq_client.c:62-66 | such a client never logs out: in every later state its queue is there, and it is in the session list once its login has been processed |
| Broadcast.ServerNeverStuck | 09_IPC/msq_server.c:108-128 | the dispatch loop never meets a request or session it cannot act on |
| Broadcast.ServerRests | 09_IPC/msq_server.c:76-128 | every run of server steps alone is bounded, and it cannot go on iff no request is open and no login is being distributed |
| Broadcast.StepsDispatch | 09_IPC/msq_server.c:76-128 | the protocol's server steps from taking a request to being idle again do to the session list and the queues what one turn of the dispatch loop over the heap list does |
| SelectServer.ExactService | 11_Network/select/multi_server.c:129-152 | one pass serves each ready client once and nobody else, and the count returned by `select` is exactly used up |
| SelectServer.Server.Pass | 11_Network/select/multi_server.c:104-153 | the loop body with its countdown and early exits computes the table after the event and serves all ready clients in slot order |
| SelectServer.Server.Serve | 11_Network/select/multi_server.c:134-152 | leaving the client loop when `ready` reaches 0 skips no client |
| SelectServer.Server.Accept | 11_Network/select/multi_server.c:108-127 | a connection takes the first free slot and raises the bounds, or the server is full |
| SelectServer.NewcomerNotReady | 11_Network/select/multi_server.c:109-121 | the socket just accepted is never taken as ready in the same pass |
| SelectServer.OverloadOnlyWhenFull | 11_Network/select/multi_server.c:118-119 | an accept overflows iff every slot has a client |
| SelectServer.StaysInRangeExactlyWhen | 11_Network/select/multi_server.c:108-121 | while all watched descriptors are below FD_SETSIZE no accept overflows, and they stay below it iff the accepted one is |
| SelectServer.FirstBeyondRange | 11_Network/select/multi_server.c:108-121 | for every number of slots, a server without clients may accept the first descriptor that does not fit, and watches it |
| SelectServer.NeverOverloadedInRange | 11_Network/select/multi_server.c:97-153 | over every run in which the kernel gives out descriptors below FD_SETSIZE only, the "ueberlaset" exit is never reached |
| SelectServer.PassKeepsGood | 11_Network/select/multi_server.c:104-153 | a pass keeps: watched set = listener and clients, clients pairwise distinct, slots above `max` free, watched descriptors at most `sock_max` |
| SelectServer.TableStaysGood | 11_Network/select/multi_server.c:97-153 | this invariant holds over every run of accepts, messages and quits |
| SelectServer.ClientsAfterPass | 11_Network/select/multi_server.c:108-152 | the clients after a pass are the old ones without those that sent "quit", and the accepted one; nobody changes slots |
| SelectServer.LeavesExactlyWhenQuit | 11_Network/select/multi_server.c:138-147 | a ready client loses its slot, and is no longer watched, iff the received bytes are "quit" and a newline, at the end or followed by NUL |
| Decorations.CompactionKeepsMeaning | web_pages/CvonAbisZ/openbook.rheinwerk-verlag.de/c_von_a_bis_z/common/prettify.js:16 | for a position-sorted array the two passes keep the style at every character and leave strictly increasing starts and differing neighbours |
| Decorations.CompactionBeforeEnd | web_pages/CvonAbisZ/openbook.rheinwerk-verlag.de/c_von_a_bis_z/common/prettify.js:16 | if no decoration starts behind the end of the text, none is left that starts at the end |
| Decorations.StyleAtIndex | web_pages/CvonAbisZ/openbook.rheinwerk-verlag.de/c_von_a_bis_z/common/prettify.js:16 | the style of a character is that of the last decoration not starting behind it |
| Decorations.Compact | web_pages/CvonAbisZ/openbook.rheinwerk-verlag.de/c_von_a_bis_z/common/prettify.js:16 | the two index loops over one array, with the sentinel behind its end, compute the compaction in place |
| Decorations.Cut | web_pages/CvonAbisZ/openbook.rheinwerk-verlag.de/c_von_a_bis_z/common/prettify.js:16-17 | the merge loop ends; its pieces are in order, cover exactly the text spans, lie each inside one span and one decoration, and are cut inside a span only where a decoration begins |
| Decorations.Recombine | web_pages/CvonAbisZ/openbook.rheinwerk-verlag.de/c_von_a_bis_z/common/prettify.js:15-17 | the whole function: every character of a text span is in exactly one piece, styled as the original array says; each piece is inside one span and one decoration left by compaction, and neighbouring pieces of one span differ in style |
| CharClass.CaseFold | web_pages/CvonAbisZ/openbook.rheinwerk-verlag.de/c_von_a_bis_z/common/prettify.js:2-4 | the output ranges are sorted with gaps between them and denote exactly the input with the other case of every ASCII letter |
| CharClass.AddOtherCase | web_pages/CvonAbisZ/openbook.rheinwerk-verlag.de/c_von_a_bis_z/common/prettify.js:3 | the collected ranges denote the input in either case |
| CharClass.FoldedOne | web_pages/CvonAbisZ/openbook.rheinwerk-verlag.de/c_von_a_bis_z/common/prettify.js:3 | clipping to A-Z and a-z and flipping bit 32 adds exactly the other case of the letters of one range |
| CharClass.MergeSorted | web_pages/CvonAbisZ/openbook.rheinwerk-verlag.de/c_von_a_bis_z/common/prettify.js:3-4 | merging sorted ranges keeps the set and leaves neither overlaps nor touching ranges |
| CharClass.SeparatedUnique | web_pages/CvonAbisZ/openbook.rheinwerk-verlag.de/c_von_a_bis_z/common/prettify.js:3-4 | the output is canonical: no other separated list denotes the same set |
| Tokens.GetToken | 11_Network/select/http_server.c:40-66 | all stores stay inside the token array iff it has room for `toklen` characters or for each of the first n words; then the result is the n-th word of the split with its terminator, or -1 iff one of the first n words has length at least `toklen` |
| Tokens.RequestLineTokens | 11_Network/select/http_server.c:159-190 | tokens 1 and 2 of a stored request line (section 3.1.1 of RFC 7230) are its method and target |
| Tokens.LineTokens | 11_Network/select/http_server.c:49-61 | the tokens of a line are its words, for any spaces, tabs, returns, newlines, NULs and delimiters around and between them |
| Tokens.TargetInsideExactlyWhen | 11_Network/select/http_server.c:137-190 | the call for the target, with length 1024 for an array of 512, stays inside it iff method and target are shorter than 512, for GET and get iff the target is |
| Tokens.HeaderFieldTokens | 11_Network/select/http_server.c:164-169 | the two calls for a header field yield its name and its value |
| Tokens.HeaderFieldAnyBlanks | 11_Network/select/http_server.c:164-169 | the same for any blanks, at least one, before the value and any behind it |
| Splitting.SplitOfJoin | 11_Network/select/http_server.c:45-64 | whatever the gaps, splitting a joined line gives back its words |
| Splitting.SplitOfPieces | 09_IPC/filter.c:52-56 | two pieces of a text have together the words of the whole, and one more if the cut goes through a word |
| Transfer.RoundTrip | 11_Network/parallel_server/client2.c:67-92 | both programs get through iff no call failed and no write was short; then name and content arrive unchanged for every chunking iff the last path component has no newline |
| Transfer.NewlineSplitsName | 11_Network/parallel_server/server2.c:53-60 | with a newline in the name, the server takes what precedes it for the name and the rest for content |
| Transfer.NewlineInName | 11_Network/parallel_server/server2.c:53-60 | for the name "a\nb" the server stores "b", a newline and the content under "a" |
| Transfer.Send | 11_Network/parallel_server/client2.c:67-97 | what is sent is a prefix of the part after the last '/', a newline, and the content; it is all of it if no call failed and no write was short, which is when the program gets through |
| Transfer.Receive | 11_Network/parallel_server/server2.c:53-97 | the file gets a prefix of what follows the first newline; iff no call failed and no write was short the server gets through, and then the name is what precedes the newline, the file has all the rest, and `ngesammt` is its length |
| Transfer.Forward | 11_Network/parallel_server/server2.c:79-93 | the chunk loop appends the rest of the stream, or a prefix of it if a call failed or a write was short |
| Transfer.AfterLastSlashIs | 11_Network/parallel_server/client2.c:71-75 | the part after the last '/' of directory and base name is the base name |
| PartialWrite.Write2 | 02_Files/cpy_file.c:48-57 | for every schedule of partial writes the whole buffer is appended, or -1 after a proper prefix |
| PartialWrite.SendBlock | 11_Network/select/http_server.c:69-83 | the same for `send`; a size that is not positive sends nothing |
| PartialWrite.SendBuf | 11_Network/select/http_server.c:86-102 | the same for a C string, where strlen of the rest always equals the remaining count |
| PartialWrite.CopyFile | 02_Files/cpy_file.c:40-57 | when no read and no write failed the copy equals the file; in all runs it is made of the written parts of the blocks read, going on after a failed write, it equals the file iff no write failed and reading got to the end, and no error is ever reported |
| PartialWrite.WrittenIsRead | 02_Files/cpy_file.c:40-57 | the written parts are the blocks read if all were written whole, and shorter in all otherwise |
| PartialWrite.LaterBlockMovesUp | 02_Files/cpy_file.c:40-57 | where a block was not written whole, every whole block behind it stands in the copy nearer to the front than in the file |
| WordFilter.FilterProgram | 09_IPC/filter.c:9-58 | the program prints the filtering of each piece that `fgets` delivers, and no filter word occurs anywhere in the output |
| WordFilter.PrintsCleanWord | 09_IPC/filter.c:43-46 | a word without filter words is printed as it is, followed by a space |
| WordFilter.PrintsOtherWord | 09_IPC/filter.c:9-11 | the program prints every word as it is in which none of "undo", "oder", "aber" and "ein" occurs |
| WordFilter.PrintsRow | 09_IPC/filter.c:28-39 | a word in which one filter word occurs is printed as one x for each letter of that filter word, and a space |
| WordFilter.PrintsRowsInOrder | 09_IPC/filter.c:28-41 | for several filter words in one word the rows are printed in the order of the list |
| WordFilter.PrintsPartsInOrder | 09_IPC/filter.c:22-49 | what is printed for a line is what is printed for its parts at any space |
| WordFilter.PiecesAre | 09_IPC/filter.c:54-55 | what the calls of `fgets` deliver: the input in pieces that fit the buffer and end after a newline, when the buffer is full, or at the end |
| WordFilter.Filter.Output | 09_IPC/filter.c:16-50 | tokenising the buffer in place prints the filtering of the line it held |
| WordFilter.Filter.StrTok | 09_IPC/filter.c:22-48 | consecutive `strtok` calls on the overwritten buffer yield the words of the original line |
| WordFilter.NoFilterWordSurvives | 09_IPC/filter.c:16-50 | no word of a proper list occurs in the output, not even across tokens or lines |
| WordFilter.NoFilterWordInOutput | 09_IPC/filter.c:16-50 | the same in terms of the text: the output is never a filter word with any text before and behind it |
| WordFilter.ContainsPart | 09_IPC/filter.c:30 | `strstr` finds a word that is part of the text |
| WordFilter.ContainedIsPart | 09_IPC/filter.c:30 | a word that `strstr` finds is part of the text |
| WordFilter.FilterwordsProper | 09_IPC/filter.c:9-11 | the four words of the program form a proper list |
| WordFilter.FilteringTwice | 09_IPC/filter.c:16-50 | `output` run on its own output reproduces it |
| WordFilter.RefilteringExactlyWhen | 09_IPC/filter.c:52-56 | the program's output, given to it again in any pieces, is reproduced iff no cut between two pieces goes through a word |
| WordFilter.ProgramTwice | 09_IPC/filter.c:52-56 | for every input, the program run on its own output reproduces it if `fgets` cuts that output at newlines only |
| WordFilter.ProgramTwiceCanFail | 09_IPC/filter.c:52-56 | for every buffer size above 2 an input whose output is not reproduced |
| Backward.File.BwRead | 02_Files/backward.c:9-36 | the loop ends; if no read fails it prints the reversed content with its last newline moved to the end, otherwise the same of a proper suffix of the file; its last result is -1 iff a read failed, and otherwise 0 iff the file is empty |
| Backward.PrintedIs | 02_Files/backward.c:14-28 | text before and after the last newline is reversed as one, followed by the newline |
| Backward.PrintedPermutes | 02_Files/backward.c:9-28 | every byte is printed exactly once |
| Backward.TwiceIsIdentityExactlyWhen | 02_Files/backward.c:9-28 | two passes give the file back iff it has no newline or ends with one |
| Backward.ThriceIsOnce | 02_Files/backward.c:9-28 | three passes print what one does |

## Left out

- System-call demos, curses and terminal programs, the FIFO pair `09_IPC/client.c` and `09_IPC/server.c`, and the thread programs that rely on sleeps: no state of their own, or no invariant over a whole run.
- Socket setup, name lookup, HTTP header text, file opening and printing to the console: assumed to succeed; only what is printed, sent or stored is kept where a property needs it.
- Failure of `select`, `accept`, `recv`, `fork`, `semop`, `msgget` and `malloc`, and full message queues: not modelled.
- Clients of `multi_server.c` that disconnect without "quit": they stay in the table, as an empty message that does not quit.
- `shm_client.c` and `fgets` at the end of its input: the model takes a line without NUL that fits the buffer.
- Clients of `shm_server.c` that start later: a client at the menu that has not done anything yet stands for one. Exits of shm processes elsewhere than at the menu, such as by a signal, and runs with more than one exit of a client that has sent something.
- The value of a new System V semaphore is 0, as on Linux; POSIX leaves it open. SETVAL clears undo amounts, as on Linux.
- Reuse of a message-queue id by a later client, and the removal of a queue between the broadcast of two servers: ids are unique and there is one server.
- Runs of `HandOver` with endlessly many spurious wake-ups, which need not end.
- File names in `pserver.c` and the transfer its children do: it is that of `server2.c`; here a child may end at any moment.
- Buffer sizes beyond the stated preconditions, integer overflow of counters, and the store `puffer[n] = 0` in `client2.c`.
- SessionList.Node: its id is constant after construction, as the program never changes it.
- Tokens.GetToken: does not model the read past a buffer with fewer than n tokens; the skip loop treats NUL as a separator, so the caller has to know that there are n.
- Decorations.Compact: the interleaved array of positions and styles is an array of records, and an index counts records; the DOM nodes the pieces go to are left out.
- CharClass.CaseFold: takes decoded ranges; the regular expression that cuts a class into characters, escapes such as `\d`, and the printing of the ranges are left out, and `b.sort` is any order its comparator allows. The aliasing of the range being extended with its entry in `b`, which is not read again, is not kept.
- WordFilter.Filter.Run: takes lines without NUL, behind which `strtok` would not look.
