# SMTS: a verified model of the parallel SMT server

SMTS solves one formula with many solver processes. A Python server keeps an And/Or tree of
partitions, moves solvers over it with incremental push/pop scripts, records `sat`, `unsat` and
partition replies, and prints a verdict for the root. C++ clients execute the scripts, fork
processes that compute partitions, and share learned clauses through a lemma server. This project
models those parts and proves what the design relies on. `dafny verify dfyconfig.toml` checks all
of it.

## How the files fit together

| file | contents |
|---|---|
| `Paths`, `StatusTree` | positions, the tree as a value, and how statuses and partitions change it |
| `Verdicts`, `StatusInvariants`, `Growth` | what verdicts mean; what every reachable tree looks like; growing trees |
| `Scripts` | push/pop scripts and the assertion stacks they leave (section 4.1.4 of the SMT-LIB Standard 2.6) |
| `Framework` | the linked node objects of `server/framework.py`, proved against the tree values |
| `ServerSide`, `SolverObjects` | the server's record of a solver: as functions, and as the object that refines them |
| `ClientSide`, `ClientObjects` | the solver process: as functions, and as the object that refines them |
| `Messages`, `Protocol`, `ProtocolProofs`, `ClientProofs`, `EndToEnd` | server and clients connected by FIFO channels; one invariant for all steps; the results about whole runs |
| `Effects` | what each step of a run achieves: verdicts recorded, commands sent, solves started, results reported |
| `Persistence`, `Scheduler`, `Passes` | verdicts are final; one pass of the scheduler and why its loops end; runs in which passes and steps alternate |
| `Branches`, `LemmaServer`, `Sharing` | the lemma server, and the results about runs of it |
| `PathText`, `Framing` | how paths and messages are written and read back |
| `Sexp`, `Horn` | printing and parsing terms; splitting the query of a fixed-point instance |

A formula is read through a parameter `Meaning`, a predicate on texts and assignments, so the results
hold for every logic. `InF(m, smt, p, a)` says that `a` satisfies all formulas on the way to `p`.
Status trees, scripts, records and clients exist twice: as values, about which the theorems are
proved, and as objects with in-place updates, whose methods are proved to compute those values.

What is assumed, always as a precondition or as part of when a step can happen: solvers answer
truthfully about the assertions they were given, and a solve that was not asked to stop does not end
with `unknown`; partition replies cover the assertions they were computed from; channels are FIFO;
instance names are distinct; a pushed clause follows from the partitions that its level names.
That a node is partitioned at most once is what the guard `len(node) == 0` at
`server/schedular.py:585` achieves, and it is the enabling condition of an ask.

## What came out differently from what the code suggests

- `unknown` is a member of `SolveStatus`, so a report `unknown` would overwrite a verdict
  (`Persistence.VerdictSurvivesExactlyWhen`). Clients never send it: the communicator drops it.
- If a node had two Or children with partitions, `unsat` would not reach all nodes below
  (`Persistence.TwoSplittingsBreakUnsatFalls`), and the lemma server, which drops the Or
  components, would mix up nodes (`Branches.KeysIdentifyNodesExactlyWhen`, `Sharing.CollidingKeysShare`).
- A partition reply without any non-empty entry is accepted: nothing is attached, the node stays
  unknown, and its Or node stays empty. The loop over the movable solvers
  (`server/schedular.py:618-628`) then has nowhere to send them: run for an accepted reply, it ends
  exactly if some entry of the reply counts or no node on the path has a busy solver above the
  portfolio minimum (`Scheduler.MoverLoopEndsExactlyWhen`; the smallest case without an end is
  `Scheduler.EmptyReplyNeverEnds`). A truthful splitter sends such a reply only for a partition that
  is empty (`Scheduler.EmptyReplyCoversExactlyWhen`).
- A solver that moves on before its partitions arrive leaves an empty Or node behind that nobody
  fills later and whose parent is never asked again (`Persistence.AbandonedStaysEmpty`).
- The Python reader takes the length of a message with a single `recv(4)` and gives up if it gets
  fewer bytes; the C++ reader loops. So Python reads a stream back exactly if no length prefix
  arrives in two pieces (`Framing.ReadersInvertWriters`).
- The two writers differ by four bytes in the largest message they accept (`Framing.PyWrite`,
  `Framing.CWrite`).
- The window of a pull keeps the clauses with the lowest scores (`LemmaServer.WindowChosen`), although a
  score counts how often other pushes brought the clause again (`Sharing.ScoreCountsPushes`).
- The regular expressions of the parser treat more characters as space than JSON does: a form feed
  between two words, say, survives all passes, and the text is refused (`Sexp.ReadExactlyWhen`).
- The C++ parser of frames seems stricter than the Python one, which tolerates fields cut short; but a
  frame that ends early is refused by both in the end (`Framing.ParsersAgree`).
- Generated query names must be fresh, and nothing checks that (`Horn.NamesMustBeFresh`).

## Model

| member | source | states |
|---|---|---|
| EndToEnd.VerdictsAreTrue | server/schedular.py:161-226 | over every interleaving of asks, moves, stops, reports and replies: a node marked unsat has no satisfying assignment, a node marked sat has one |
| EndToEnd.RootVerdictIsTrue | server/schedular.py:439-446 | the verdict printed for an instance is true of the formula that was submitted for it |
| EndToEnd.SubmittedFormulaStays | server/framework.py:17-32 | whatever happens in a run, the formula at the root is the submitted one |
| EndToEnd.ClientsFollowTheServer | server/schedular.py:70-117 | replaying the commands in flight takes a live client to the server's node, with the stack a fresh solve would build |
| EndToEnd.RepliesLandWhereAsked | server/schedular.py:186-209 | waiting Or nodes are children of the solver's node and an idle solver has none; an answer naming another node, or a partition reply nobody waits for, changes nothing |
| EndToEnd.AskedPartitionsArrive | server/schedular.py:141-209 | after any run, a request and any further steps that leave the solver alone, a reply fills the Or node of the request with one And node per non-empty entry, in order, and restores the record |
| EndToEnd.ReplyFillsWaiting | server/schedular.py:191-209 | in any consistent record, an accepted reply for an unknown node fills the Or node that waited last |
| EndToEnd.EachSolveReportedOnce | src/client/Schedular.cc:107-183 | reported solves are distinct, the results in flight are of different reported solves, and the solve in progress was not reported and runs under the branch a report would name |
| EndToEnd.NewResultsAreNew | src/client/Schedular.cc:126-165 | a result that a step puts into the channel is of the solve in progress, names its branch, and was never reported before |
| EndToEnd.StatusesFitTogether | server/framework.py:157-194 | in every reachable tree: unsat falls to all And nodes below, sat climbs to the root, a partitioned Or node is unsat iff its children are, and then its parent is |
| Effects.VerdictIsRecorded | server/schedular.py:211-223 | in every run, a verdict read for the solver's node is in the tree afterwards: sat at the node and everywhere above, unsat at every And node from there down, other branches as before; the request that waited last is given up, and an error changes nothing |
| Effects.ReplyIsTaken | server/schedular.py:191-209 | in every run, a partition reply for the node is taken off the waiting list, readable or not, and an unreadable one changes no tree |
| Effects.SolveIsSent | server/schedular.py:70-90 | a busy solver is told to stop, and the script sent builds exactly the stack of the node from nothing |
| Effects.MoveIsSent | server/schedular.py:92-105 | the script sent turns the stack of the solver's node into that of the target |
| Effects.StopOrRequestIsSent | server/schedular.py:107-159 | the command sent names the solver's node, and a request the number of partitions |
| Effects.CommandIsQueued | src/client/SolverServer.cpp:71-102 | in every run, the first command a client receives is a solve, whose partition becomes its stack; stop overtakes the queue, and all others wait behind it |
| Effects.CommandStartsSolve | src/client/Schedular.cc:200-261 | in every run, each command a live client executes leaves a new solve in progress under its branch and stack; a request adds exactly one forked process, a move takes over the target's stack and ends the newest one |
| Effects.SubmittedIsSolved | src/client/Schedular.cc:176-204 | a client that receives its first formula can always go on to solve it, and solves exactly the partition of the node |
| Effects.FinishedSolveHasResult | src/client/Schedular.cc:177-179 | a solve that ends leaves its result and nothing else |
| Effects.ResultIsReported | src/client/Schedular.cc:107-166 | in every run, the solve in progress is reported under its own branch when the communicator waits for it; only the unknown of an interrupted solve is dropped |
| Effects.ResultIsNotLost | src/client/Schedular.cc:151-166 | no step of a run loses the result of a finished solve: it is kept, or just sent |
| Effects.ForkAnswersOnce | src/client/OpenSMT2/SolverProcess.cpp:240-247 | a forked process sends one answer for its own node and is gone, the others stay |
| EndToEnd.StepKeepsSystem | server/schedular.py:70-226 | every step of server, client, solve or fork keeps the invariant of the whole system |
| EndToEnd.Reachable | server/schedular.py:392-676 | the invariant holds after every run from the empty system |
| Persistence.VerdictsAreFinal | server/schedular.py:205-223 | no step changes a verdict, drops a node, or adds a partition to an Or node whose parent is solved |
| Persistence.UnsatSubtreesAreClosed | server/schedular.py:205-206 | nowhere below an unsat node does a step add a partition |
| Persistence.MovingAbandons | server/schedular.py:100-105 | a move abandons the Or nodes the solver waited for |
| Persistence.AbandonedStaysEmpty | server/schedular.py:585-587 | an empty Or node nobody waits for stays empty in every later state, and its parent is never asked again |
| Persistence.VerdictSurvivesExactlyWhen | server/schedular.py:211-217 | a verdict survives a report on its node iff the report is not `unknown` |
| Persistence.TwoSplittingsBreakUnsatFalls | server/framework.py:157-161 | with a second splitting, an unsat report solves the parent and leaves nodes below it unknown |
| Persistence.AskingTwiceBreaksUnsatFalls | server/schedular.py:667-676 | asking a leaf twice leads to that situation |
| Persistence.ProcessedStays | server/schedular.py:550-570 | growing trees keep what the scheduler's processed marks rely on |
| Passes.SolversAlwaysHavePlaces | server/schedular.py:541-603 | over all runs of steps and passes: the preconditions of the pass hold, and while the root is unknown every unknown And node has an unprocessed unknown And node below it |
| Passes.MoveKeepsMarks | server/schedular.py:541-570 | every step and every pass keeps the tree and the processed marks in order |
| Scripts.IncrementalEqualsFromScratch | server/framework.py:223-240 | the incremental script on the stack of `s` and the full script on an empty interpreter leave the same stack, for any two positions |
| Scripts.JourneyEqualsFromScratch | server/framework.py:223-240 | any sequence of moves ends with the stack of a fresh solve of the last stop |
| Scripts.MeetIsLowestCommonAncestor | server/framework.py:226-229 | the climb stops at the lowest common ancestor |
| Scripts.StackMeansPartition | server/schedular.py:75-76 | satisfying a solver's stack is being in the partition of its node |
| Verdicts.SetStatusFrame | server/framework.py:157-161 | an assignment writes its status, on the way to the root only, and on the node itself |
| Verdicts.ClimbsExactlyWhen | server/framework.py:157-161 | an assignment reaches exactly the ancestors from which every And node on the way has siblings of the same status, or all of them if it is sat |
| Verdicts.SatReachesTheRoot | server/framework.py:157-161 | a sat assignment marks every node up to the root |
| Verdicts.ReportSound | server/schedular.py:211-223 | a true report leaves only true verdicts, wherever it climbs or is pushed |
| StatusInvariants.ReportChanges | server/schedular.py:216-223 | a report changes nothing outside the subtree and the ancestors of its node, and writes no other status |
| StatusInvariants.ReportKeepsInv | server/schedular.py:211-223 | true reports keep all invariants of the status tree |
| StatusInvariants.UnsatReportFillsSubtree | server/schedular.py:219-223 | after a true unsat report every And node below is unsat |
| StatusInvariants.PushUnsatReaches | server/schedular.py:220-223 | no And node that the push visits stays unknown |
| StatusTree.AllVisitsBelow | server/framework.py:93-97 | the walk lists exactly the nodes below |
| StatusTree.AllInOrder | server/framework.py:93-97 | no node is listed twice, and none after a node below it |
| Growth.AddPartitionsKids | server/schedular.py:195-198 | a reply attaches one And node per non-empty entry under its Or node and touches nothing else |
| Growth.AddPartitionsText | server/schedular.py:195-198 | the i-th kept entry, as an assertion, is the formula of the i-th new child |
| Growth.EntryBecomesChild | server/schedular.py:195-198 | each non-empty entry becomes an assertion at a child of its own, numbered by the non-empty entries before it, and there are no other new children |
| Growth.AttachSound | server/schedular.py:191-206 | a covering reply keeps the tree covered and its verdicts true |
| Growth.AttachKeepsInv | server/schedular.py:205-206 | replies keep the invariants; under a solved node they change nothing |
| Growth.ClearUndoesReply | server/framework.py:99-100 | clearing the Or node after a reply was attached gives the tree of before |
| Growth.PartitionIsFixed | server/framework.py:17-32 | the partition of an attached node never changes |
| Framework.Node.NewChild | server/framework.py:18-32 | linking a new node gives the tree with one more child and keeps all links consistent |
| Framework.Node.Clear | server/framework.py:99-100 | dropping the children gives the tree without everything below and keeps all links consistent |
| Framework.Node.PathOf | server/framework.py:62-69 | the climb returns the node's position |
| Framework.Node.PathToNode | server/framework.py:71-79 | the And nodes from the root to the node, in order |
| Framework.Node.ChildrenHave | server/framework.py:160 | whether all children share a status |
| Framework.Node.SetStatus | server/framework.py:157-161 | the recursive setters compute the status function on the whole tree |
| Framework.Node.All | server/framework.py:93-97 | the recursive walk lists the positions of the depth-first order |
| Framework.Node.Childeren | server/framework.py:163-168 | the unknown children of the first Or child, in order |
| Framework.Node.IsAncestor | server/framework.py:81-91 | being an ancestor is being a prefix; nodes of different trees are an error |
| Framework.Root.Child | server/framework.py:209-213 | a path finds the node at that position, or nothing |
| Framework.Root.ToString | server/framework.py:223-240 | the two loops build the script of the specification, and end |
| Framework.Root.Below | server/framework.py:230-237 | the second loop, collected from the end |
| SolverObjects.AddPartitions | server/schedular.py:195-198 | the loop over a reply grows the linked tree as the tree function says |
| SolverObjects.Fill | server/schedular.py:193-206 | a reply is attached, or cleared again under a solved parent |
| SolverObjects.Record | server/schedular.py:211-223 | a verdict is set and pushed down on the linked tree as the report function says |
| SolverObjects.Accept | server/schedular.py:191-223 | what an answer does to the linked tree |
| SolverObjects.Solver.Solve | server/schedular.py:70-90 | the new record and the commands sent, for idle and busy solvers |
| SolverObjects.Solver.Incremental | server/schedular.py:92-105 | the new record, and the command with source, target and script |
| SolverObjects.Solver.StopSolver | server/schedular.py:107-117 | the record is reset and the stop command names the old node |
| SolverObjects.Solver.AskPartitions | server/schedular.py:141-159 | a new Or node below the solver's node waits for the reply |
| SolverObjects.Solver.Read | server/schedular.py:161-226 | record and tree after any answer, stale ones included, and whether partitions are announced |
| ClientObjects.Schedular.QueueEvent | src/client/Schedular.h:95-110 | stop goes to the front, solve is queued as resume |
| ClientObjects.Schedular.PreProcess | src/client/Schedular.cc:524-540 | the formula is read and the header set, or nothing changes |
| ClientObjects.Schedular.HandleMessage | src/client/SolverServer.cpp:71-102 | the listener computes the next client state |
| ClientObjects.Schedular.TaskEnds | src/client/Schedular.cc:177-179 | a solve that ends leaves its result for the communicator and nothing alive |
| ClientObjects.Schedular.Collect | src/client/Schedular.cc:151-166 | waiting, taking the result and reporting it under the current header |
| ClientObjects.Schedular.ExecuteEvent | src/client/Schedular.cc:200-261 | what a command changes, and whether a solve follows |
| ClientObjects.Schedular.Communicate | src/client/Schedular.cc:107-183 | one round computes the next client state and reports, and at most one solve is alive throughout |
| ClientObjects.Schedular.AtMostOneSolve | src/client/Schedular.cc:151-179 | at most one task runs in the pool |
| ClientProofs.NoSolveWhenLive | src/client/Schedular.cc:263-269 | a live client never gets a second solve |
| ClientProofs.ResultNamesTruth | src/client/Schedular.cc:156-164 | a result that is true of the client's stack is true of the node the report names |
| ClientProofs.SplitNamesTruth | src/client/OpenSMT2/SolverProcess.cpp:240-247 | entries that cover the inherited assertions cover the partition of the node named |
| ProtocolProofs.ReadKeepsLink | server/schedular.py:161-226 | reading an answer keeps a connection in order |
| ProtocolProofs.ServerMoveKeepsLink | server/schedular.py:92-105 | a move keeps the pending commands replayable |
| Scheduler.ActiveNodeBelow | server/schedular.py:519-521 | below every unknown And node there is an unknown And node that is not processed |
| Scheduler.Visit | server/schedular.py:532-578 | one visit, exactly: which nodes become processed or assumed, and which solvers are freed or idle afterwards; the assertion that no node is sat holds |
| Scheduler.PassedOneMore | server/schedular.py:532-578 | visits in order of depth add up: a node is out of time before its partitions can free its solvers |
| Scheduler.Mark | server/schedular.py:532-589 | over all visited nodes: exactly the solvers at newly unsat nodes and their unknown grandparents are freed; these nodes and the timed-out partitioned ones become processed, other timed-out ones assumed; idle are, of the solvers not freed, those that were and those whose node timed out now; and the shallowest splittable leaf is found |
| Scheduler.PlaceBelow | server/schedular.py:594-599 | the chosen node is active, below the child, and least loaded |
| Scheduler.Reassign | server/schedular.py:590-603 | the loop ends; every freed solver gets an active node, the others stay, and the children of the root get equal shares |
| Scheduler.MovableAt | server/schedular.py:607-614 | a node keeps the portfolio minimum and, above it, only idle solvers |
| Scheduler.Spread | server/schedular.py:618-628 | the loop ends, and the movable solvers, and no others, are at the children in equal shares |
| Scheduler.PathToNodeLists | server/framework.py:71-79 | the list has exactly the And nodes on the way from the root to the node |
| Scheduler.UnknownKidsInOrder | server/framework.py:163-168 | the children are listed by their indices |
| Scheduler.EntrustPartition | server/schedular.py:604-628 | after a partition every node on the path keeps its portfolio, no idle solver moves, and the children get equal shares |
| Scheduler.SpreadRound | server/schedular.py:619-628 | one round gives each child a solver, as long as there are solvers, and leaves exactly the others |
| Scheduler.ReplyLeavesKids | server/schedular.py:195-206 | an accepted reply leaves the node without an unknown child iff no entry is non-empty |
| Scheduler.MoverLoopEndsExactlyWhen | server/schedular.py:604-628 | for an accepted reply the loop ends iff some entry is non-empty or no node on the path can spare a busy solver |
| Scheduler.EmptyReplyNeverEnds | server/schedular.py:618-628 | two busy solvers at a leaf and a reply with one empty entry: after any number of rounds nobody has moved |
| Scheduler.EmptyReplyCoversExactlyWhen | server/schedular.py:195-197 | a reply without entries covers a partition iff that partition is empty |
| Scheduler.ReceivePartitions | server/schedular.py:193-209 | accepting a reply and spreading the solvers, in all cases in which the loop ends |
| Branches.KeysIdentifyNodesExactlyWhen | src/lemma_server/LemmaServer.cpp:139-150 | the lemma server's keys tell And nodes apart iff no node was split twice |
| Branches.ExpandInverts | src/lemma_server/LemmaServer.cpp:139-150 | with one Or child per node the And components determine the position |
| LemmaServer.LemmaServer.PushOne | src/lemma_server/LemmaServer.cpp:187-197 | get, increase or add, and mark |
| LemmaServer.LemmaServer.Push | src/lemma_server/LemmaServer.cpp:170-198 | collection, then all clauses of the batch |
| LemmaServer.LemmaServer.Filter | src/lemma_server/Node.h:53-59 | exactly the unmarked clauses of a node are appended, and looking up creates marks |
| LemmaServer.LemmaServer.Collect | src/lemma_server/LemmaServer.cpp:208-211 | exactly the unmarked clauses on the path, each once |
| LemmaServer.SmallestFirst | src/lemma_server/LemmaServer.cpp:216-217 | a permutation with the k smallest in front, in order: what `partial_sort` promises, and more than `nth_element` does |
| LemmaServer.WindowChosen | src/lemma_server/LemmaServer.cpp:212-218 | the two reorderings choose the lowest levels of a window of lowest scores |
| LemmaServer.LemmaServer.Pull | src/lemma_server/LemmaServer.cpp:206-232 | min(request, unmarked) distinct unmarked clauses of the path are sent, chosen as above, and marked |
| LemmaServer.LemmaServer.EraseClient | src/lemma_server/LemmaServer.cpp:250-262 | erases marks and lowers the counter together, stopping at the cut |
| LemmaServer.LemmaServer.GarbageCollect | src/lemma_server/LemmaServer.cpp:245-264 | erases exactly min(entries, counter - 50000) marks of the instance beyond the threshold, none below it |
| LemmaServer.LemmaServer.HandleClose | src/lemma_server/LemmaServer.cpp:81-85 | exactly the marks of the client go, instance by instance; clauses and counter stay |
| Sharing.SentWasPushed | src/lemma_server/LemmaServer.cpp:184-232 | a sent clause was pushed earlier from a branch that agrees with the receiver's on the levels it depends on |
| Sharing.SentLevelsFit | src/lemma_server/LemmaServer.cpp:226 | the assertion on levels holds for every clause that is sent |
| Sharing.ScoreCountsPushes | src/lemma_server/LemmaServer.cpp:187-197 | over all runs, the score of a stored clause is the number of times it was pushed again |
| Sharing.SharingIsSound | src/lemma_server/LemmaServer.cpp:126-243 | over all runs beside growing trees, a received clause follows from the partition of the receiver, if pushed clauses followed from theirs at the time |
| Sharing.SharingIsSoundInRuns | src/lemma_server/LemmaServer.cpp:126-243 | the same beside any run of the server and its solvers, whose trees have unambiguous keys |
| Sharing.CollidingKeysShare | src/lemma_server/LemmaServer.cpp:139-150 | with colliding keys a clause is sent to a node it need not hold in |
| Sharing.NothingSentTwice | src/lemma_server/LemmaServer.cpp:222-232 | until its marks are erased, a client is never sent what it was sent or pushed |
| Sharing.MarkedWasGiven | src/lemma_server/LemmaServer.cpp:187-232 | over all runs, a client is marked for a clause only if it pushed it or was sent it, and has not left since |
| Sharing.UnseenIsSent | src/lemma_server/LemmaServer.cpp:206-232 | a clause pushed on the way to the receiver's branch that the receiver never pushed or got is in its next answer, unless that is full |
| Sharing.CollectionStopsAtCut | src/lemma_server/LemmaServer.cpp:245-264 | the counter never falls below the cut, stored clauses and marks of other instances stay |
| PathText.ExtractSolverBranch | src/client/OpenSMT2/SolverProcess.cpp:52-70 | the loop computes the pairs of the words, or fails as `stoi` does |
| PathText.NodePath | src/lemma_server/LemmaServer.cpp:132-150 | the loop computes the And components of the words |
| PathText.PairsAreWords | src/client/OpenSMT2/SolverProcess.cpp:52-70 | for any words: a pair for every two neighbours, or failure iff some word is not a number |
| PathText.KeysAreWords | src/lemma_server/LemmaServer.cpp:134-150 | for any words: those at odd places, or failure iff one of them is not a number |
| PathText.WordsAreThePieces | src/client/OpenSMT2/SolverProcess.cpp:52-70 | for any text: the words are the non-empty pieces between its commas, in order |
| PathText.NoLeadingZero | server/schedular.py:186-187 | numbers are printed without leading zeros |
| PathText.SplitterReadsPath | src/client/OpenSMT2/SolverProcess.cpp:52-70 | the text of a path is read as its pairs iff all indices fit into an int |
| PathText.LemmaServerReadsPath | src/lemma_server/LemmaServer.cpp:134-150 | the text of a path is read as its And components, the second parts of those pairs |
| PathText.TextIdentifiesPath | server/schedular.py:186-187 | comparing texts of paths is comparing paths |
| Framing.PyWrite | server/net.py:69-84 | which messages are accepted, and their bytes |
| Framing.CWrite | src/lib/net/Socket.cpp:138-168 | which messages are accepted, and their bytes, with the length patched in |
| Framing.PyParse | server/net.py:56-67 | the loop computes the parsing function, truncated fields included |
| Framing.CParse | src/lib/net/Socket.cpp:118-135 | the loop computes the parsing function with its stricter bounds |
| Framing.ReadN | src/lib/net/Socket.cpp:84-99 | the next n bytes in any pieces, or the end of the stream |
| Framing.CReceive | src/lib/net/Socket.cpp:101-116 | the next frame, if it is complete |
| Framing.PyReceive | server/net.py:43-55 | the next frame, if it is complete and its length arrives in one piece |
| Framing.NumberOfBigEndian | src/lib/net/Socket.cpp:108-111 | the four length bytes give the length back |
| Framing.ParseInvertsDump | server/net.py:56-82 | either parser returns the header and payload that either writer wrote |
| Framing.AcceptedExactlyDumps | src/lib/net/Socket.cpp:118-135 | a frame is accepted iff some header and payload are written like that, and then these are returned |
| Framing.ParsersAgree | server/net.py:56-67 | the two parsers agree on every frame |
| Framing.ReadersInvertWriters | server/net.py:43-84 | any list of messages in any pieces is read back with nothing left over, by Python iff no length prefix is split |
| Framing.HeaderIsKept | server/net.py:65 | headers with distinct keys come back pair by pair |
| Sexp.Smt2Json | server/utils.py:155-187 | a text of plain words and parentheses with any space between them is read as what it says, iff JSON knows the space that the passes leave; printed terms are read back |
| Sexp.ReadExactlyWhen | server/utils.py:155-187 | the same for the composition of the passes and the JSON reader |
| Sexp.SubForms | server/utils.py:175-178 | each of the three comma passes turns the text of one stage into the text of the next, for all nestings and all space |
| Sexp.LastCommaGoes | server/utils.py:179 | only the comma at the very end is removed |
| Sexp.JsonReads | server/utils.py:181-187 | the final text of a term is read as the term, iff JSON knows the space that is left in it |
| Sexp.ParseInvertsPrint | server/utils.py:155-209 | parsing the printed text of any list of plain terms returns the list |
| Horn.Partition | server/framework.py:257-291 | the text of the Or node and the queries of its children: every rule for the query, below any number of lets, is the same rule for a query of its own; these are declared once |
| Horn.RewrittenExactlyWhen | server/framework.py:260-269 | an item is rewritten iff it is a rule whose formula, inside of any number of lets, is an implication of the query; only that atom changes |
| Horn.SplitMeans | server/framework.py:257-271 | the i-th rule for the query is renamed to the i-th generated query, all other items stay |
| Horn.SplitRules | server/framework.py:257-271 | the loop rewrites exactly the rules for the query, in order |
| Horn.Declare | server/framework.py:273-277 | every generated query is declared once, the last one first, in front of the first declaration; all items stay in order |
| Horn.OneChildPerRule | server/framework.py:267-291 | there are as many generated queries as rules for the query |
| Horn.DifferentRulesDifferentQueries | server/framework.py:267-269 | different rules for the query get different queries, in their order |
| Horn.RuleOfQuery | server/framework.py:290-291 | every generated query belongs to a rule for the query |
| Horn.SplittingPreservesQuery | server/framework.py:257-300 | the query is derivable iff a generated one is; other atoms are derived as before |
| Horn.NamesAreDistinct | server/framework.py:268 | generated names are distinct and differ from the query |
| Horn.NamesMustBeFresh | server/framework.py:268 | with a name that is taken, splitting can make a query derivable |

## Left out

- Sockets, `select`, threads, locks, signals, logging, the SQLite history, tree rendering and the GUI: input, output and process control; the order of messages is kept.
- The text of scripts: a script is a list of push, pop and assert commands; joining them with newlines is not modelled.
- Solvers, splitter and SMT-LIB interpreter: represented by the assertion stack and by the assumption that answers are true of it.
- ClientObjects.Schedular.ExecuteEvent: clause injection (`add_constraint`) and the channel's map of pulled clauses are not modelled, because their keys are not part of this model; killing a partition process removes the newest fork.
- ClientObjects.Schedular.Communicate: the reset flag and clause-injection events are not modelled; the process ends when it is told to stop.
- Framework.Root.ToString: the script is a list of commands; the joined text and the query (`check-sat`) are not modelled.
- Scheduler.Visit: which nodes have timed out is an argument; the automatic guess of `node_timeout` and the counter `partition_count` are not modelled.
- The loop that moves idle solvers to unattempted leaves (`server/schedular.py:630-658`): it keeps no promise beyond moving a solver to a node of the tree, which the protocol allows.
- Scheduler: places, idle solvers and processed marks are values (a map and sets) instead of fields of the objects; the order in which idle solvers and sets are visited is open.
- LemmaServer: the tree of nodes with its index maps, and the nested maps of marks, are flat maps keyed by instance, node, clause and client; clauses of one node are visited in any order; the size of a request is below 2^31 as `stoi` gives it, so doubling it does not wrap.
- LemmaServer.LemmaServer.Pull: a request of zero, which erases the instance while it is being served and leaves the worker with dangling pointers, is excluded by a precondition.
- Clients: a command whose script cannot be executed ends the client.
- Framing.CParse: a frame of length zero, which the C++ code reads past its end, is an error; the position is an unbounded number, so the wrap-around of 32-bit positions in malformed frames of almost 4 GiB is not modelled.
- Framing.PyParse: keys and values stay bytes; decoding them as UTF-8, which can raise, is not modelled.
- Framing.PyWrite: `send` is taken to accept all bytes; sending the length and the dump separately makes no difference to the stream.
- PathText.ExtractSolverBranch: `stoi` is modelled on words without sign or other white space, which is all that printing a path produces.
- Horn.Partition: nested lists are values; that Python rewrites the lists of `self.json` in place, so that a second call finds no rule for the query, is not modelled.
- Sexp.Smt2Json: comments, quoted symbols and string literals (the passes at lines 171-173 and 185 of `server/utils.py`) are not modelled; texts without `;`, `|`, double quotes and braces are not affected by them. Escapes in JSON strings and values other than strings and arrays read as errors.
- The Z3 and sally back ends and `dummy_solver.py`.
