/** The client's side of the protocol: receiving, executing and answering keep a connection in
    order, and what is sent up is true. */
module ClientProofs {
  import opened Wrappers
  import opened Paths
  import opened StatusTree
  import opened Verdicts
  import opened Growth
  import opened Scripts
  import opened Messages
  import opened ServerSide
  import opened ClientSide
  import opened Protocol

  lemma ReceiveKeepsLink(m: Meaning, trees: Trees, l: Link)
    requires LinkOk(m, trees, l) && l.down != []
    ensures LinkOk(m, trees, l.(client := Receive(l.client, l.down[0]), down := l.down[1..]))
  {
    hide WaitingOk, AnswerOk, CorrectAt, TaskOk, ReportedOk, Replays, Exec;
    match l.client.phase
    case Fresh => ReceiveFirst(m, trees, l);
    case Live => ReceiveNext(m, trees, l);
    case _ =>
      GoneReplays(trees, l.down[1..], l.view);
      assert Pending(l.(down := l.down[1..])) == l.down[1..];
  }

  lemma ReceiveFirst(m: Meaning, trees: Trees, l: Link)
    requires LinkOk(m, trees, l) && l.down != [] && l.client.phase == Fresh
    ensures LinkOk(m, trees, l.(client := Receive(l.client, l.down[0]), down := l.down[1..]))
  {
    hide WaitingOk, AnswerOk, CorrectAt, Exec;
    var l1 := l.(client := Receive(l.client, l.down[0]), down := l.down[1..]);
    assert Pending(l) == l.down;
    assert Replays(trees, Advance(Nowhere, l.down[0]), l.down[1..], l.view);
    assert Pending(l1)[0] == Resume(l.down[0].at) && Pending(l1)[1..] == l.down[1..];
  }

  lemma ReceiveNext(m: Meaning, trees: Trees, l: Link)
    requires LinkOk(m, trees, l) && l.down != [] && l.client.phase == Live
    ensures LinkOk(m, trees, l.(client := Receive(l.client, l.down[0]), down := l.down[1..]))
  {
    hide WaitingOk, AnswerOk, CorrectAt, Replays, Exec, TrueResult;
    var c := l.client;
    var cmd := l.down[0];
    var l1 := l.(client := Receive(c, cmd), down := l.down[1..]);
    if cmd.Stop? {
      assert Pending(l1) == l.down[1..];
      GoneReplays(trees, l.down[1..], l.view);
    } else {
      NoSolveWhenLive(trees, PlaceOf(c), c.queue, l.down, l.view);
      assert c.queue + [cmd] + l.down[1..] == c.queue + l.down;
    }
  }

  /** A stopped client may be sent anything. */
  lemma {:induction false} GoneReplays(trees: Trees, cmds: seq<Command>, v: View)
    ensures Replays(trees, Gone, cmds, v)
    decreases |cmds|
  {
    if cmds != [] { GoneReplays(trees, cmds[1..], v); }
  }

  function AdvanceAll(p: Place, cmds: seq<Command>): Place
    decreases |cmds|
  {
    if cmds == [] then p else AdvanceAll(Advance(p, cmds[0]), cmds[1..])
  }

  lemma {:induction false} ReplaysReachesEnd(trees: Trees, p: Place, cmds: seq<Command>, rest: seq<Command>, v: View)
    requires Replays(trees, p, cmds + rest, v)
    ensures Replays(trees, AdvanceAll(p, cmds), rest, v)
    decreases |cmds|
  {
    if cmds == [] {
      assert cmds + rest == rest;
    } else {
      assert (cmds + rest)[1..] == cmds[1..] + rest;
      ReplaysReachesEnd(trees, Advance(p, cmds[0]), cmds[1..], rest, v);
    }
  }

  /** A running client never receives a second `Solve`. */
  lemma {:induction false} NoSolveWhenLive(trees: Trees, p: Place, queue: seq<Command>, down: seq<Command>, v: View)
    requires Replays(trees, p, queue + down, v) && p.At? && down != []
    requires forall cmd | cmd in queue :: !cmd.Solve? && !cmd.Stop?
    ensures !down[0].Solve?
    decreases |queue|
  {
    if queue == [] {
      assert queue + down == down;
    } else {
      assert (queue + down)[1..] == queue[1..] + down && (queue + down)[0] == queue[0];
      assert Replays(trees, Advance(p, queue[0]), queue[1..] + down, v);
      assert queue[0] in queue;
      ExecAlwaysWorks(trees, p, queue + down, v);
      NoSolveWhenLive(trees, Advance(p, queue[0]), queue[1..], down, v);
    }
  }

  lemma ExecAlwaysWorks(trees: Trees, p: Place, cmds: seq<Command>, v: View)
    requires Replays(trees, p, cmds, v) && p.At? && cmds != [] && !cmds[0].Solve? && !cmds[0].Stop?
    ensures Advance(p, cmds[0]).At?
  {
  }

  // ---------- results ----------

  /** What a solver finds out about its stack is true of the node it is at. */
  lemma ResultNamesTruth(m: Meaning, trees: Trees, at: NodeRef, stack: Stack, result: Result)
    requires CorrectAt(trees, at, stack) && TrueResult(m, stack, result)
    ensures TrueVerdict(m, trees[at.name].smt, at.path, StatusOf(result))
  {
    var t := trees[at.name];
    forall a: Assignment
      ensures Satisfies(m, stack, a) <==> InF(m, t.smt, at.path, a)
    {
      StackMeansPartition(m, t, at.path, a);
    }
  }

  lemma SplitNamesTruth(m: Meaning, trees: Trees, at: NodeRef, stack: Stack, parts: seq<string>)
    requires CorrectAt(trees, at, stack) && TrueSplit(m, stack, parts)
    ensures AnswerOk(m, trees, Split(at, parts))
  {
    var t := trees[at.name];
    forall a: Assignment | InF(m, t.smt, at.path, a)
      ensures exists part :: part in parts && part != "" && m(Assertion(part), a)
    {
      StackMeansPartition(m, t, at.path, a);
    }
  }

  lemma CorrectNames(trees: Trees, ref: NodeRef, stack: Stack)
    requires CorrectAt(trees, ref, stack)
    ensures IsNode(trees, ref)
  {
  }

  /** Taking a result empties the future, and what is reported names the branch the solve ran
      under, truthfully and for the first time. */
  lemma JoinKeepsClient(m: Meaning, trees: Trees, c: Client, late: Result, reportUnknown: bool)
    requires ClientOk(m, trees, c) && Running(c)
    requires c.future.Some? ==> TrueResult(m, c.future.value.stack, late)
    requires reportUnknown ==> late != UNKNOWN
    ensures var (c1, out) := Join(c, late, reportUnknown);
      && c1 == c.(future := None, reported := c1.reported)
      && ClientOk(m, trees, c1)
      && (forall ans | ans in out :: AnswerOk(m, trees, ans) && ans.Solved? && c.future.Some? && ans.at == c.future.value.at)
      && c1.reported == c.reported + (if out == [] then [] else [c.future.value.id])
  {
    hide CorrectAt, TrueResult, TrueVerdict;
    if c.future.Some? {
      var result := Outcome(c, late);
      CorrectNames(trees, c.header, c.stack);
      ResultNamesTruth(m, trees, c.header, c.stack, result);
      var ids := c.reported + [c.future.value.id];
      assert forall i | 0 <= i < |c.reported| :: ids[i] == c.reported[i] && c.reported[i] in c.reported;
    } else {
      assert c.reported + [] == c.reported;
    }
  }

  /** A report of the current solve is the first one of it, and the last one in flight. */
  lemma JoinKeepsReports(m: Meaning, trees: Trees, c: Client, up: seq<Answer>, late: Result, reportUnknown: bool)
    requires TaskOk(m, c) && ReportsOk(c, up)
    ensures var (c1, out) := Join(c, late, reportUnknown);
      && ReportsOk(c1, up + out)
      && forall ans | ans in out ::
           BySolve(ans) && c.future.Some? && ans.solve.value == c.future.value.id && ans.solve.value !in c.reported
  {
    hide TrueResult, Outcome;
  }

  lemma ShallStopKeepsLink(m: Meaning, trees: Trees, l: Link, late: Result)
    requires LinkOk(m, trees, l) && Running(l.client) && late != UNKNOWN
    requires l.client.future.Some? ==> TrueResult(m, l.client.future.value.stack, late)
    ensures var (c, out) := HandleShallStop(l.client, late); LinkOk(m, trees, l.(client := c, up := l.up + out))
  {
    hide ReportsOk;
    JoinKeepsClient(m, trees, l.client.(shallStop := false), late, true);
    SameReports(l.client, l.client.(shallStop := false), l.up);
    JoinKeepsReports(m, trees, l.client.(shallStop := false), l.up, late, true);
  }

  lemma SubmitKeepsClient(m: Meaning, trees: Trees, c: Client)
    requires ClientOk(m, trees, c) && c.future == None && c.phase == Live
    ensures ClientOk(m, trees, Submit(c))
  {
  }

  lemma ExecuteKeepsClient(m: Meaning, trees: Trees, c: Client, cmd: Command, canFork: bool)
    requires ClientOk(m, trees, c) && c.future == None && c.phase == Live && !cmd.Solve? && !cmd.Stop?
    requires Expected(PlaceOf(c), cmd) && Correct(trees, Advance(PlaceOf(c), cmd))
    ensures var c1 := Execute(c, cmd, canFork);
      ClientOk(m, trees, c1) && PlaceOf(c1) == Advance(PlaceOf(c), cmd) && c1.queue == c.queue && c1.phase == Live
  {
    match cmd
    case Partition(at, _) =>
      var c1 := if canFork then c.(forks := c.forks + [Fork(at, c.stack)], forked := true) else c;
      SubmitKeepsClient(m, trees, c1);
    case Incremental(at, to, script) =>
      var stack := Exec(script, c.stack).value;
      var c1 := c.(header := NodeRef(at.name, to), stack := stack,
                   forks := if c.forked && c.forks != [] then c.forks[..|c.forks| - 1] else c.forks,
                   forked := false);
      assert ClientOk(m, trees, c1);
      SubmitKeepsClient(m, trees, c1);
    case _ =>
      SubmitKeepsClient(m, trees, c);
  }

  lemma EventKeepsLink(m: Meaning, trees: Trees, l: Link, late: Result, canFork: bool)
    requires LinkOk(m, trees, l) && Running(l.client) && l.client.queue != []
    requires l.client.future.Some? ==> TrueResult(m, l.client.future.value.stack, late)
    ensures var (c, out) := HandleEvent(l.client, late, canFork); LinkOk(m, trees, l.(client := c, up := l.up + out))
  {
    hide ReportsOk, Join;
    var c := l.client;
    var cmd := c.queue[0];
    if c.phase == Live {
      var popped := c.(queue := c.queue[1..]);
      JoinKeepsClient(m, trees, popped, late, false);
      SameReports(c, popped, l.up);
      JoinKeepsReports(m, trees, popped, l.up, late, false);
      var (c1, out) := Join(popped, late, false);
      assert (c.queue + l.down)[0] == cmd && (c.queue + l.down)[1..] == c.queue[1..] + l.down;
      assert cmd in c.queue;
      ExecuteStarts(trees, PlaceOf(c), c.queue + l.down, l.view);
      ExecuteKeepsClient(m, trees, c1, cmd, canFork);
      SameReports(c1, Execute(c1, cmd, canFork), l.up + out);
    } else {
      HaltKeepsLink(m, trees, l, late, canFork);
    }
  }

  lemma SameReports(c: Client, c1: Client, up: seq<Answer>)
    ensures c1.reported == c.reported ==> ReportsOk(c1, up) == ReportsOk(c, up)
  {
  }

  lemma ExecuteStarts(trees: Trees, p: Place, cmds: seq<Command>, v: View)
    requires Replays(trees, p, cmds, v) && cmds != []
    ensures Expected(p, cmds[0]) && Correct(trees, Advance(p, cmds[0])) && Replays(trees, Advance(p, cmds[0]), cmds[1..], v)
  {
  }

  lemma HaltKeepsLink(m: Meaning, trees: Trees, l: Link, late: Result, canFork: bool)
    requires LinkOk(m, trees, l) && l.client.phase == Halting
    requires l.client.future.Some? ==> TrueResult(m, l.client.future.value.stack, late)
    ensures var (c, out) := HandleEvent(l.client, late, canFork); LinkOk(m, trees, l.(client := c, up := l.up + out))
  {
    hide Replays, WaitingOk, AnswerOk, Join, CorrectAt, ReportsOk;
    var (c1, out) := Join(l.client, late, false);
    JoinKeepsClient(m, trees, l.client, late, false);
    JoinKeepsReports(m, trees, l.client, l.up, late, false);
    SameReports(c1, c1.(queue := l.client.queue[1..], phase := Dead), l.up + out);
    HaltJoins(l.client, late, canFork);
  }

  lemma HaltJoins(c: Client, late: Result, canFork: bool)
    requires c.phase == Halting && c.queue != [] && c.queue[0].Stop?
    ensures var (c1, out) := Join(c, late, false);
      HandleEvent(c, late, canFork) == (c1.(queue := c.queue[1..], phase := Dead), out)
  {
  }

  // ---------- running solves and forked processes ----------

  lemma FinishKeepsLink(m: Meaning, trees: Trees, l: Link, result: Result)
    requires LinkOk(m, trees, l) && l.client.future.Some?
    requires result != UNKNOWN && TrueResult(m, l.client.future.value.stack, result)
    ensures LinkOk(m, trees, l.(client := Finish(l.client, result)))
  {
  }

  lemma ForkKeepsLink(m: Meaning, trees: Trees, l: Link, k: nat, ans: Answer)
    requires LinkOk(m, trees, l) && k < |l.client.forks| && ans.at == l.client.forks[k].at
    requires match ans
      case Split(_, parts) => TrueSplit(m, l.client.forks[k].stack, parts)
      case Solved(_, result, solve) => result == SAT && solve == None && TrueResult(m, l.client.forks[k].stack, SAT)
      case Garbled(_) => true
    ensures LinkOk(m, trees, l.(client := ForkEnds(l.client, k), up := l.up + [ans]))
  {
    hide Replays, WaitingOk, TrueResult, TrueSplit;
    var f := l.client.forks[k];
    assert f in l.client.forks;
    match ans
    case Split(at, parts) => SplitNamesTruth(m, trees, at, f.stack, parts);
    case Solved(at, result, _) => ResultNamesTruth(m, trees, at, f.stack, SAT);
    case Garbled(_) =>
  }
}
