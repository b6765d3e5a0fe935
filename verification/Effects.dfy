/** What the steps of a run achieve, not only what they keep: verdicts are recorded, requests are
    sent, commands start solves, and results are reported. */
module Effects {
  import opened Wrappers
  import opened Paths
  import opened StatusTree
  import opened Verdicts
  import opened StatusInvariants
  import opened Growth
  import opened Scripts
  import opened Messages
  import opened ServerSide
  import opened ClientSide
  import opened Protocol
  import opened ProtocolProofs
  import opened ClientProofs
  import opened EndToEnd

  // ---------- what the server does with a report ----------

  /** A verdict that arrives for the node of the record is found in the tree afterwards: `sat` at the
      node and everywhere above it, `unsat` at every And node from there down.  Other branches keep
      their statuses, the tree keeps its nodes, and the request that waited last is given up. */
  lemma VerdictIsRecorded(m: Meaning, steps: seq<Step>, id: nat)
    requires Legal(m, START, steps) && Enabled(m, Run(m, START, steps), ServerRead(id))
    requires var l := Run(m, START, steps).links[id]; l.up[0].Solved? && l.view.node == Some(l.up[0].at)
    ensures var s := Run(m, START, steps); var s1 := Apply(m, s, ServerRead(id)); var ans := s.links[id].up[0];
      && ans.at.name in s.trees && ans.at.name in s1.trees && id in s1.links
      && var t := s.trees[ans.at.name]; var t1 := s1.trees[ans.at.name]; var p := ans.at.path;
         var v := s.links[id].view; var v1 := s1.links[id].view;
         && s1.links[id] == s.links[id].(view := v1, up := s.links[id].up[1..])
         && p in t.arity && t1.smt == t.smt && t1.arity == t.arity && t1.status.Keys == t.status.Keys == t.arity.Keys
         && (ans.result == SAT ==> forall q | q <= p :: q in t1.status && t1.status[q] == Sat)
         && (ans.result == UNSAT ==> forall q | q in t1.status && p <= q && IsAnd(q) :: t1.status[q] == Unsat)
         && (ans.result == SAT || ans.result == UNSAT ==>
               v1 == View(v.node, if v.waiting == [] then [] else v.waiting[..|v.waiting| - 1]))
         && (ans.result != SAT && ans.result != UNSAT ==> s1.trees == s.trees && v1 == v)
         && forall q | q in t.status && !(q <= p) && !(p <= q) :: t1.status[q] == t.status[q]
  {
    hide Legal, Run, TreesOk, ClientOk, Replays, Read;
    Reachable(m, steps);
    var s := Run(m, START, steps);
    assert LinkOk(m, s.trees, s.links[id]);
    ReadRecords(m, s.trees, s.links[id]);
  }

  lemma ReadRecords(m: Meaning, trees: Trees, l: Link)
    requires TreesOk(m, trees) && LinkOk(m, trees, l) && l.up != [] && l.up[0].Solved? && l.view.node == Some(l.up[0].at)
    ensures var (trees1, v1) := Read(trees, l.view, l.up[0]); var ans := l.up[0]; var v := l.view;
      && ans.at.name in trees && ans.at.name in trees1
      && (ans.result == SAT || ans.result == UNSAT ==>
            v1 == View(v.node, if v.waiting == [] then [] else v.waiting[..|v.waiting| - 1]))
      && (ans.result != SAT && ans.result != UNSAT ==> trees1 == trees && v1 == v)
      && var t := trees[ans.at.name]; var t1 := trees1[ans.at.name]; var p := ans.at.path;
         && p in t.arity && t1.smt == t.smt && t1.arity == t.arity && t1.status.Keys == t.status.Keys == t.arity.Keys
         && (ans.result == SAT ==> forall q | q <= p :: q in t1.status && t1.status[q] == Sat)
         && (ans.result == UNSAT ==> forall q | q in t1.status && p <= q && IsAnd(q) :: t1.status[q] == Unsat)
         && forall q | q in t.status && !(q <= p) && !(p <= q) :: t1.status[q] == t.status[q]
  {
    hide ClientOk, Replays, Report, Inv, Sound, Covered;
    var ans := l.up[0];
    assert AnswerOk(m, trees, ans);
    var t := trees[ans.at.name];
    assert TreeOk(m, t);
    if ans.result == SAT || ans.result == UNSAT {
      ReportShows(m, t, ans.at.path, StatusOf(ans.result));
    }
  }

  lemma ReportShows(m: Meaning, t: Tree, p: Path, s: Status)
    requires t.Valid() && Sound(m, t) && Covered(m, t) && p in t.arity && s != Unknown && TrueVerdict(m, t.smt, p, s)
    ensures var t1 := Report(t, p, s);
      && t1.smt == t.smt && t1.arity == t.arity && t1.status.Keys == t.status.Keys == t.arity.Keys
      && (s == Sat ==> forall q | q <= p :: q in t1.status && t1.status[q] == Sat)
      && (s == Unsat ==> forall q | q in t1.status && p <= q && IsAnd(q) :: t1.status[q] == Unsat)
      && forall q | q in t.status && !(q <= p) && !(p <= q) :: t1.status[q] == t.status[q]
  {
    hide Report, Sound, Covered;
    forall q | q in t.status
      ensures s == Sat && q <= p ==> Report(t, p, s).status[q] == Sat
      ensures s == Unsat && p <= q && IsAnd(q) ==> Report(t, p, s).status[q] == Unsat
      ensures !(q <= p) && !(p <= q) ==> Report(t, p, s).status[q] == t.status[q]
    {
      ReportChanges(t, p, s, q);
      if s == Sat { SatReportStatuses(t, p, q); }
      if s == Unsat && p <= q && IsAnd(q) { UnsatReportFillsSubtree(m, t, p, q); }
    }
    forall q | q <= p
      ensures q in t.status
    {
      PrefixesAttached(t, p, q);
    }
  }

  /** A partition reply for the node of the record is taken off the waiting list, whether it can be
      read, comes too late, or neither; one that cannot be read changes no tree. */
  lemma ReplyIsTaken(m: Meaning, steps: seq<Step>, id: nat)
    requires Legal(m, START, steps) && Enabled(m, Run(m, START, steps), ServerRead(id))
    requires var l := Run(m, START, steps).links[id]; !l.up[0].Solved? && l.view.node == Some(l.up[0].at)
    ensures var s := Run(m, START, steps); var s1 := Apply(m, s, ServerRead(id)); var v := s.links[id].view;
      && id in s1.links
      && s1.links[id] == s.links[id].(up := s.links[id].up[1..],
           view := View(v.node, if v.waiting == [] then [] else v.waiting[..|v.waiting| - 1]))
      && (s.links[id].up[0].Garbled? ==> s1.trees == s.trees)
  {
    hide Legal, Run, SystemOk, WaitingOk, Read;
    Reachable(m, steps);
    var s := Run(m, START, steps);
    TakenFromList(s.trees, s.links[id].view, s.links[id].up[0]);
  }

  lemma TakenFromList(trees: Trees, v: View, ans: Answer)
    requires WaitingOk(trees, v) && !ans.Solved? && v.node == Some(ans.at)
    ensures var (trees1, v1) := Read(trees, v, ans);
      && v1 == View(v.node, if v.waiting == [] then [] else v.waiting[..|v.waiting| - 1])
      && (ans.Garbled? ==> trees1 == trees)
  {
    hide Attach;
  }

  // ---------- what the server sends ----------

  /** Solving from scratch: the record names the new node and waits for nothing, a solver that was busy
      is told to stop first, and the script builds the stack of the node from nothing. */
  lemma SolveIsSent(m: Meaning, steps: seq<Step>, id: nat, to: NodeRef)
    requires Legal(m, START, steps) && Enabled(m, Run(m, START, steps), ServerSolve(id, to))
    ensures var s := Run(m, START, steps); var l := s.links[id]; var l1 := Apply(m, s, ServerSolve(id, to)).links[id];
      && l1.view == View(Some(to), []) && to.name in s.trees && Apply(m, s, ServerSolve(id, to)).trees == s.trees
      && exists script ::
           && l1.down == l.down + (if l.view.node.Some? then [Stop(l.view.node.value)] else []) + [Solve(to, script)]
           && Exec(script, EMPTY_STACK) == Some(StackOf(s.trees[to.name].smt, to.path))
  {
    hide Legal, Run, SystemOk, MoveScript, Exec, StackOf, SendSolve, IsNode;
    Reachable(m, steps);
    var s := Run(m, START, steps);
    var l := s.links[id];
    WaitsInOrder(m, s, id);
    NodeIsNamed(s.trees, to);
    var script := MoveScript(s.trees[to.name].smt, to.path, None);
    IncrementalEqualsFromScratch(s.trees[to.name].smt, [], to.path);
    SolveCommands(s.trees, l.view, to);
    Concat(l.down, if l.view.node.Some? then [Stop(l.view.node.value)] else [], [Solve(to, script)]);
    assert Apply(m, s, ServerSolve(id, to)).links[id].down ==
      l.down + (if l.view.node.Some? then [Stop(l.view.node.value)] else []) + [Solve(to, script)];
  }

  lemma NodeIsNamed(trees: Trees, to: NodeRef)
    requires IsNode(trees, to)
    ensures to.name in trees
  {
  }

  lemma Concat<T>(a: seq<T>, b: seq<T>, c: seq<T>)
    ensures a + b + c == a + (b + c)
  {
  }

  lemma SolveCommands(trees: Trees, v: View, to: NodeRef)
    requires to.name in trees && (v.node.None? ==> v.waiting == [])
    ensures var (v1, out) := SendSolve(trees, v, to);
      && v1 == View(Some(to), [])
      && out == (if v.node.Some? then [Stop(v.node.value)] else []) + [Solve(to, MoveScript(trees[to.name].smt, to.path, None))]
  {
    hide MoveScript;
  }

  /** Moving: the command names both nodes, and the script turns the stack of the one into that of the
      other. */
  lemma MoveIsSent(m: Meaning, steps: seq<Step>, id: nat, path: Path)
    requires Legal(m, START, steps) && Enabled(m, Run(m, START, steps), ServerMove(id, path))
    ensures var s := Run(m, START, steps); var l := s.links[id]; var l1 := Apply(m, s, ServerMove(id, path)).links[id];
      && l.view.node.Some? && l.view.node.value.name in s.trees && Apply(m, s, ServerMove(id, path)).trees == s.trees
      && var at := l.view.node.value; var smt := s.trees[at.name].smt;
         && l1.view == View(Some(NodeRef(at.name, path)), [])
         && exists script ::
              && l1.down == l.down + [Incremental(at, path, script)]
              && Exec(script, StackOf(smt, at.path)) == Some(StackOf(smt, path))
  {
    hide Legal, Run, MoveScript, Exec, StackOf;
    var s := Run(m, START, steps);
    var at := s.links[id].view.node.value;
    var script := MoveScript(s.trees[at.name].smt, path, Some(at.path));
    IncrementalEqualsFromScratch(s.trees[at.name].smt, at.path, path);
    assert Apply(m, s, ServerMove(id, path)).links[id].down == s.links[id].down + [Incremental(at, path, script)];
  }

  /** Stopping and asking: the command names the node of the record, and a request also the number of
      partitions; the new Or node below that node waits for them. */
  lemma StopOrRequestIsSent(m: Meaning, steps: seq<Step>, id: nat, step: Step)
    requires Legal(m, START, steps) && Enabled(m, Run(m, START, steps), step)
    requires (step.ServerStop? || step.ServerAsk?) && step.id == id
    ensures var s := Run(m, START, steps); var l := s.links[id]; var l1 := Apply(m, s, step).links[id];
      && l.view.node.Some?
      && var at := l.view.node.value;
         && l1.down == l.down + [if step.ServerStop? then Stop(at) else Partition(at, step.n)]
         && (step.ServerStop? ==> l1.view == View(None, []))
         && (step.ServerAsk? ==> l1.view == View(l.view.node, l.view.waiting + [at.path + [0]]))
  {
    hide Legal, Run, AddChild;
  }

  // ---------- what the client does with a command ----------

  /** The listener: the first command is a `Solve`, whose formulas become the stack and which is queued
      as `Resume`; a `Stop` overtakes what is queued, and everything else waits for its turn. */
  lemma CommandIsQueued(m: Meaning, steps: seq<Step>, id: nat)
    requires Legal(m, START, steps) && Enabled(m, Run(m, START, steps), ClientReceive(id))
    ensures var s := Run(m, START, steps); var l := s.links[id]; var l1 := Apply(m, s, ClientReceive(id)).links[id];
      var c := l.client; var c1 := l1.client; var cmd := l.down[0];
      && l1.down == l.down[1..] && l1.up == l.up
      && (c.phase == Fresh ==>
            && cmd.Solve? && cmd.at.name in s.trees
            && c1 == NEW_CLIENT.(phase := Live, header := cmd.at, stack := StackOf(s.trees[cmd.at.name].smt, cmd.at.path),
                                 queue := [Resume(cmd.at)]))
      && (c.phase == Live && cmd.Stop? ==> c1 == c.(phase := Halting, queue := [cmd] + c.queue))
      && (c.phase == Live && !cmd.Stop? ==> !cmd.Solve? && c1 == c.(queue := c.queue + [cmd]))
      && (c.phase == Halting || c.phase == Dead ==> c1 == c)
  {
    hide Legal, Run, LinkOk, Receive;
    Reachable(m, steps);
    var s := Run(m, START, steps);
    var l := s.links[id];
    assert LinkOk(m, s.trees, l);
    match l.client.phase
    case Fresh => FirstCommand(m, s.trees, l);
    case _ => NextCommand(m, s.trees, l);
  }

  lemma FirstCommand(m: Meaning, trees: Trees, l: Link)
    requires LinkOk(m, trees, l) && l.down != [] && l.client.phase == Fresh
    ensures var cmd := l.down[0];
      && cmd.Solve? && cmd.at.name in trees
      && Receive(l.client, cmd) == NEW_CLIENT.(phase := Live, header := cmd.at,
           stack := StackOf(trees[cmd.at.name].smt, cmd.at.path), queue := [Resume(cmd.at)])
  {
    hide WaitingOk, AnswerOk, Exec, StackOf, ReportsOk, Replays, Expected, Correct, Advance;
    assert Pending(l) == l.down;
    ExecuteStarts(trees, Nowhere, l.down, l.view);
    FirstIsSolve(trees, l.down[0]);
  }

  lemma FirstIsSolve(trees: Trees, cmd: Command)
    requires Expected(Nowhere, cmd) && Correct(trees, Advance(Nowhere, cmd))
    ensures cmd.Solve? && cmd.at.name in trees
    ensures Exec(cmd.script, EMPTY_STACK) == Some(StackOf(trees[cmd.at.name].smt, cmd.at.path))
  {
    hide Exec, StackOf;
  }

  lemma NextCommand(m: Meaning, trees: Trees, l: Link)
    requires LinkOk(m, trees, l) && l.down != [] && l.client.phase != Fresh
    ensures var c := l.client; var cmd := l.down[0]; var c1 := Receive(c, cmd);
      && (c.phase == Live && cmd.Stop? ==> c1 == c.(phase := Halting, queue := [cmd] + c.queue))
      && (c.phase == Live && !cmd.Stop? ==> !cmd.Solve? && c1 == c.(queue := c.queue + [cmd]))
      && (c.phase == Halting || c.phase == Dead ==> c1 == c)
  {
    hide WaitingOk, AnswerOk, Exec, StackOf, ReportsOk, Replays, Correct, TaskOk;
    if l.client.phase == Live {
      NoSolveWhenLive(trees, PlaceOf(l.client), l.client.queue, l.down, l.view);
    }
  }

  /** Every command that a live client executes ends with a solve in progress, under the branch and the
      stack that the client then has; only a move changes these, to the node of the move.  A request
      adds a forked process with the client's assertions, if a process can be forked, and a move ends
      the one that the client forked last.  A client that was told to stop ends. */
  lemma CommandStartsSolve(m: Meaning, steps: seq<Step>, id: nat, late: Result, canFork: bool)
    requires Legal(m, START, steps) && Enabled(m, Run(m, START, steps), ClientEvent(id, late, canFork))
    ensures var s := Run(m, START, steps); var c := s.links[id].client; var cmd := c.queue[0];
      var c1 := Apply(m, s, ClientEvent(id, late, canFork)).links[id].client;
      && c1.queue == c.queue[1..]
      && (c.phase == Halting ==> cmd.Stop? && c1.phase == Dead && c1.future == None)
      && (c.phase == Live ==>
            && !cmd.Stop? && !cmd.Solve? && c1.phase == Live && c1.nextTask == c.nextTask + 1
            && c1.future == Some(Task(c.nextTask, c1.header, c1.stack, None))
            && (!cmd.Incremental? ==> c1.header == c.header && c1.stack == c.stack)
            && (cmd.Resume? || (cmd.Partition? && !canFork) ==> c1.forks == c.forks && c1.forked == c.forked)
            && (cmd.Partition? && canFork ==> cmd.at == c.header && c1.forks == c.forks + [Fork(cmd.at, c.stack)] && c1.forked)
            && (cmd.Incremental? ==>
                  && cmd.at == c.header && c1.header == NodeRef(cmd.at.name, cmd.to) && cmd.at.name in s.trees
                  && c1.stack == StackOf(s.trees[cmd.at.name].smt, cmd.to) && !c1.forked
                  && c1.forks == if c.forked && c.forks != [] then c.forks[..|c.forks| - 1] else c.forks))
  {
    hide Legal, Run, LinkOk, HandleEvent;
    Reachable(m, steps);
    var s := Run(m, START, steps);
    assert LinkOk(m, s.trees, s.links[id]);
    FirstOfQueue(m, s.trees, s.links[id]);
    EventShows(s.links[id].client, late, canFork);
  }

  /** What is known of the first command in the queue. */
  lemma FirstOfQueue(m: Meaning, trees: Trees, l: Link)
    requires LinkOk(m, trees, l) && Running(l.client) && l.client.queue != []
    ensures var c := l.client; var cmd := c.queue[0];
      && (c.phase == Halting ==> cmd.Stop?)
      && (c.phase == Live ==>
            && !cmd.Stop? && !cmd.Solve? && cmd.at == c.header
            && (cmd.Incremental? ==>
                  cmd.at.name in trees && Exec(cmd.script, c.stack) == Some(StackOf(trees[cmd.at.name].smt, cmd.to))))
  {
    hide WaitingOk, AnswerOk, Exec, StackOf, ReportsOk, TaskOk;
    var c := l.client;
    if c.phase == Live {
      assert Pending(l)[0] == c.queue[0] && c.queue[0] in c.queue;
      ExecuteStarts(trees, PlaceOf(c), Pending(l), l.view);
    }
  }

  /** What a command that can be executed makes of a client. */
  ghost predicate Performed(c: Client, cmd: Command, canFork: bool, c1: Client) {
    && (cmd.Stop? ==> c1.phase == Dead && c1.future == None)
    && (cmd.Resume? || cmd.Partition? || (cmd.Incremental? && Exec(cmd.script, c.stack).Some?) ==>
          && c1.phase == c.phase && c1.nextTask == c.nextTask + 1
          && c1.future == Some(Task(c.nextTask, c1.header, c1.stack, None))
          && (!cmd.Incremental? ==> c1.header == c.header && c1.stack == c.stack)
          && (cmd.Resume? || (cmd.Partition? && !canFork) ==> c1.forks == c.forks && c1.forked == c.forked)
          && (cmd.Partition? && canFork ==> c1.forks == c.forks + [Fork(cmd.at, c.stack)] && c1.forked)
          && (cmd.Incremental? ==>
                && c1.header == NodeRef(cmd.at.name, cmd.to) && !c1.forked && Some(c1.stack) == Exec(cmd.script, c.stack)
                && c1.forks == if c.forked && c.forks != [] then c.forks[..|c.forks| - 1] else c.forks))
  }

  lemma EventShows(c: Client, late: Result, canFork: bool)
    requires c.queue != []
    ensures var c1 := HandleEvent(c, late, canFork).0; c1.queue == c.queue[1..] && Performed(c, c.queue[0], canFork, c1)
  {
    hide Exec, Join, Execute;
    var c1 := Join(c.(queue := c.queue[1..]), late, false).0;
    Joined(c.(queue := c.queue[1..]), late);
    Executed(c1, c.queue[0], canFork);
  }

  lemma Joined(c: Client, late: Result)
    ensures var c1 := Join(c, late, false).0; c1 == c.(future := None, reported := c1.reported)
  {
  }

  lemma Executed(c: Client, cmd: Command, canFork: bool)
    requires c.future == None
    ensures var c1 := Execute(c, cmd, canFork); c1.queue == c.queue && Performed(c, cmd, canFork, c1)
  {
    hide Exec;
  }

  /** The formula that a client is sent first is solved: once it is received and the communicator has
      taken it from the queue, a solve of exactly the partition it was sent for is in progress. */
  lemma SubmittedIsSolved(m: Meaning, steps: seq<Step>, id: nat, late: Result, canFork: bool)
    requires Legal(m, START, steps) && Enabled(m, Run(m, START, steps), ClientReceive(id))
    requires Run(m, START, steps).links[id].client.phase == Fresh
    ensures var s := Run(m, START, steps); var s1 := Apply(m, s, ClientReceive(id)); var at := s.links[id].down[0].at;
      && at.name in s.trees && s.trees[at.name].Valid() && at.path in s.trees[at.name].arity
      && Enabled(m, s1, ClientEvent(id, late, canFork))
      && var c2 := Apply(m, s1, ClientEvent(id, late, canFork)).links[id].client;
         && c2.future.Some? && c2.future.value.at == at && c2.future.value.result == None
         && forall a: Assignment :: Satisfies(m, c2.future.value.stack, a) <==> InF(m, s.trees[at.name].smt, at.path, a)
  {
    hide Legal, Run, SystemOk, HandleEvent, Receive, InF, Satisfies, StackOf, LinkOk;
    Reachable(m, steps);
    var s := Run(m, START, steps);
    LinkInOrder(m, s, id);
    FirstCommand(m, s.trees, s.links[id]);
    StepKeepsSystem(m, s, ClientReceive(id));
    var s1 := Apply(m, s, ClientReceive(id));
    LinkInOrder(m, s1, id);
    EventShows(s1.links[id].client, late, canFork);
    var at := s.links[id].down[0].at;
    ClientIsAtNode(m, s1.trees, s1.links[id]);
    forall a: Assignment
      ensures Satisfies(m, StackOf(s.trees[at.name].smt, at.path), a) <==> InF(m, s.trees[at.name].smt, at.path, a)
    {
      StackMeansPartition(m, s.trees[at.name], at.path, a);
    }
  }

  lemma LinkInOrder(m: Meaning, s: System, id: nat)
    requires SystemOk(m, s) && id in s.links
    ensures LinkOk(m, s.trees, s.links[id])
  {
  }

  lemma ClientIsAtNode(m: Meaning, trees: Trees, l: Link)
    requires LinkOk(m, trees, l) && Running(l.client)
    ensures IsNode(trees, l.client.header)
  {
  }

  // ---------- what becomes of results ----------

  /** The solve in progress ends: its result waits for the communicator. */
  lemma FinishedSolveHasResult(m: Meaning, steps: seq<Step>, id: nat, result: Result)
    requires Legal(m, START, steps) && Enabled(m, Run(m, START, steps), ClientFinish(id, result))
    ensures var s := Run(m, START, steps); var l := s.links[id]; var l1 := Apply(m, s, ClientFinish(id, result)).links[id];
      var task := l.client.future.value;
      l1 == l.(client := l.client.(future := Some(Task(task.id, task.at, task.stack, Some(result)))))
  {
    hide Legal, Run;
  }

  /** When the communicator turns to a command or to the flag, it reports the solve in progress: with
      its result if it has ended, else with what the interrupted solve still finds out.  Only the
      `unknown` of an interrupted solve is dropped. */
  lemma ResultIsReported(m: Meaning, steps: seq<Step>, id: nat, step: Step)
    requires Legal(m, START, steps) && Enabled(m, Run(m, START, steps), step)
    requires (step.ClientEvent? || step.ClientShallStop?) && step.id == id
    ensures var s := Run(m, START, steps); var l := s.links[id]; var l1 := Apply(m, s, step).links[id];
      && (l.client.future == None ==> l1.up == l.up && l1.client.reported == l.client.reported)
      && (l.client.future.Some? ==>
            var task := l.client.future.value;
            var result := if task.result.Some? then task.result.value else step.late;
            && (task.result.Some? || step.ClientShallStop? ==> result != UNKNOWN)
            && (result != UNKNOWN ==>
                  && l1.up == l.up + [Solved(task.at, result, Some(task.id))]
                  && l1.client.reported == l.client.reported + [task.id])
            && (result == UNKNOWN ==> l1.up == l.up && l1.client.reported == l.client.reported))
      && (step.ClientShallStop? ==>
            l1.client == l.client.(shallStop := false, future := None, reported := l1.client.reported))
  {
    hide Legal, Run, LinkOk;
    Reachable(m, steps);
    var s := Run(m, START, steps);
    assert LinkOk(m, s.trees, s.links[id]);
    TaskNamesHeader(m, s.trees, s.links[id]);
    hide Execute;
    assert s.links[id].up + [] == s.links[id].up;
    if step.ClientEvent? { ExecuteReportsNothing(s.links[id].client, step.late, step.canFork); }
  }

  lemma ExecuteReportsNothing(c: Client, late: Result, canFork: bool)
    requires c.queue != []
    ensures HandleEvent(c, late, canFork).0.reported == Join(c.(queue := c.queue[1..]), late, false).0.reported
  {
    hide Exec, Join;
  }

  lemma TaskNamesHeader(m: Meaning, trees: Trees, l: Link)
    requires LinkOk(m, trees, l)
    ensures l.client.future.Some? ==> l.client.future.value.at == l.client.header && l.client.future.value.result != Some(UNKNOWN)
  {
  }

  /** No step loses the result of a solve: it is still there afterwards, or just reported. */
  lemma ResultIsNotLost(m: Meaning, steps: seq<Step>, id: nat, step: Step)
    requires Legal(m, START, steps) && Enabled(m, Run(m, START, steps), step) && id in Run(m, START, steps).links
    requires var f := Run(m, START, steps).links[id].client.future; f.Some? && f.value.result.Some?
    ensures var s := Run(m, START, steps); var l := s.links[id]; var s1 := Apply(m, s, step);
      && id in s1.links
      && (s1.links[id].client.future == l.client.future ||
          s1.links[id].up == l.up + [Solved(l.client.future.value.at, l.client.future.value.result.value,
                                            Some(l.client.future.value.id))])
  {
    hide Legal, Run, Enabled, Apply;
    var s := Run(m, START, steps);
    if !step.AddInstance? && !step.Connect? && step.id == id && (step.ClientEvent? || step.ClientShallStop?) {
      ResultIsReported(m, steps, id, step);
    } else {
      OtherStepsKeepFuture(m, s, step, id);
    }
    EnabledOnLink(m, s, step, id);
  }

  lemma EnabledOnLink(m: Meaning, s: System, step: Step, id: nat)
    requires Enabled(m, s, step) && id in s.links
    ensures id in Apply(m, s, step).links
  {
    hide EnabledOn, ApplyOn;
  }

  lemma OtherStepsKeepFuture(m: Meaning, s: System, step: Step, id: nat)
    requires Enabled(m, s, step) && id in s.links && s.links[id].client.future.Some?
    requires s.links[id].client.future.value.result.Some?
    requires step.AddInstance? || step.Connect? || step.id != id || (!step.ClientEvent? && !step.ClientShallStop?)
    ensures id in Apply(m, s, step).links && Apply(m, s, step).links[id].client.future == s.links[id].client.future
  {
    hide Exec, Read, SendAsk, Join, Execute, SendSolve, SendIncremental, SendStop, WaitingOk, IsNode, TrueSplit, TrueResult;
  }

  /** A forked process sends one answer, for the node that it was forked at, and is gone; the other
      forked processes stay. */
  lemma ForkAnswersOnce(m: Meaning, steps: seq<Step>, id: nat, step: Step)
    requires Legal(m, START, steps) && Enabled(m, Run(m, START, steps), step)
    requires (step.ForkSplits? || step.ForkGarbles? || step.ForkIsSat?) && step.id == id
    ensures var s := Run(m, START, steps); var l := s.links[id]; var l1 := Apply(m, s, step).links[id];
      var f := l.client.forks[step.k]; var c, c1 := l.client, l1.client;
      && l1.up == l.up + [match step case ForkSplits(_, _, parts) => Split(f.at, parts)
                                     case ForkGarbles(_, _) => Garbled(f.at)
                                     case _ => Solved(f.at, SAT, None)]
      && |c1.forks| == |c.forks| - 1
      && (forall j | 0 <= j < |c1.forks| :: c1.forks[j] == c.forks[if j < step.k then j else j + 1])
      && c1 == c.(forks := c1.forks, forked := c1.forked)
      && (c1.forked <==> c.forked && step.k + 1 != |c.forks|)
  {
    hide Legal, Run, TrueSplit, TrueResult;
  }
}
