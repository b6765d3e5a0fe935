/** The server and its solver processes, connected by FIFO channels, as one state machine.

    A step is any action of the server (the scheduler's choices are left open), of a client's
    listener or communicator, of a running solve, or of a forked process. */
module Protocol {
  import opened Wrappers
  import opened Paths
  import opened StatusTree
  import opened Verdicts
  import opened StatusInvariants
  import opened Growth
  import opened Scripts
  import opened Messages
  import opened ServerSide
  import opened ClientSide

  /** One connection: the server's record, the two channels and the client. */
  datatype Link = Link(view: View, down: seq<Command>, client: Client, up: seq<Answer>)

  datatype System = System(trees: Trees, links: map<nat, Link>)

  datatype Step =
    | AddInstance(name: string, smt: string)
    | Connect(id: nat)
    | ServerSolve(id: nat, to: NodeRef)
    | ServerMove(id: nat, path: Path)
    | ServerStop(id: nat)
    | ServerAsk(id: nat, n: nat)
    | ServerRead(id: nat)
    | ClientReceive(id: nat)
    | ClientRaise(id: nat)
    | ClientFinish(id: nat, result: Result)
    | ClientShallStop(id: nat, late: Result)
    | ClientEvent(id: nat, late: Result, canFork: bool)
    | ClientExit(id: nat)
    | ForkSplits(id: nat, k: nat, parts: seq<string>)
    | ForkGarbles(id: nat, k: nat)
    | ForkIsSat(id: nat, k: nat)

  const START := System(map[], map[])

  function NewTree(smt: string): Tree {
    Tree(map[[] := smt], map[[] := 0], map[[] := Unknown])
  }

  ghost predicate Running(c: Client) {
    c.phase == Live || c.phase == Halting
  }

  /** When a step can happen.  Solvers answer truthfully; a solve that nobody asked to stop does
      not answer `unknown`; the scheduler asks for partitions of a node at most once. */
  ghost predicate Enabled(m: Meaning, s: System, step: Step) {
    match step
    case AddInstance(name, _) => name !in s.trees
    case Connect(id) => id !in s.links
    case _ => step.id in s.links && EnabledOn(m, s.trees, s.links[step.id], step)
  }

  ghost predicate EnabledOn(m: Meaning, trees: Trees, l: Link, step: Step)
    requires !step.AddInstance? && !step.Connect?
  {
    match step
    case ServerSolve(_, to) => IsNode(trees, to)
    case ServerMove(_, path) => l.view.node.Some? && IsNode(trees, NodeRef(l.view.node.value.name, path))
    case ServerStop(_) => l.view.node.Some?
    case ServerAsk(_, _) =>
      && l.view.node.Some? && IsNode(trees, l.view.node.value)
      && trees[l.view.node.value.name].arity[l.view.node.value.path] == 0
    case ServerRead(_) => l.up != [] && WaitingOk(trees, l.view)
    case ClientReceive(_) => l.down != []
    case ClientRaise(_) => Running(l.client)
    case ClientFinish(_, result) =>
      && Running(l.client) && l.client.future.Some? && l.client.future.value.result.None?
      && result != UNKNOWN && TrueResult(m, l.client.future.value.stack, result)
    case ClientShallStop(_, late) =>
      && Running(l.client) && l.client.shallStop && late != UNKNOWN
      && (l.client.future.Some? ==> TrueResult(m, l.client.future.value.stack, late))
    case ClientEvent(_, late, _) =>
      && Running(l.client) && !l.client.shallStop && l.client.queue != []
      && (l.client.future.Some? ==> TrueResult(m, l.client.future.value.stack, late))
    case ClientExit(_) => l.client.phase == Halting
    case ForkSplits(_, k, parts) => k < |l.client.forks| && TrueSplit(m, l.client.forks[k].stack, parts)
    case ForkGarbles(_, k) => k < |l.client.forks|
    case ForkIsSat(_, k) => k < |l.client.forks| && TrueResult(m, l.client.forks[k].stack, SAT)
  }

  ghost function Apply(m: Meaning, s: System, step: Step): System
    requires Enabled(m, s, step)
  {
    match step
    case AddInstance(name, smt) => s.(trees := s.trees[name := NewTree(smt)])
    case Connect(id) => s.(links := s.links[id := Link(IDLE, [], NEW_CLIENT, [])])
    case _ =>
      var (trees, l) := ApplyOn(m, s.trees, s.links[step.id], step);
      System(trees, s.links[step.id := l])
  }

  ghost function ApplyOn(m: Meaning, trees: Trees, l: Link, step: Step): (Trees, Link)
    requires !step.AddInstance? && !step.Connect? && EnabledOn(m, trees, l, step)
  {
    match step
    case ServerSolve(_, to) =>
      var (v, out) := SendSolve(trees, l.view, to);
      (trees, l.(view := v, down := l.down + out))
    case ServerMove(_, path) =>
      var (v, out) := SendIncremental(trees, l.view, path);
      (trees, l.(view := v, down := l.down + out))
    case ServerStop(_) =>
      var (v, out) := SendStop(l.view);
      (trees, l.(view := v, down := l.down + out))
    case ServerAsk(_, n) =>
      var (trees1, v, out) := SendAsk(trees, l.view, n);
      (trees1, l.(view := v, down := l.down + out))
    case ServerRead(_) =>
      var (trees1, v) := Read(trees, l.view, l.up[0]);
      (trees1, l.(view := v, up := l.up[1..]))
    case ClientReceive(_) => (trees, l.(client := Receive(l.client, l.down[0]), down := l.down[1..]))
    case ClientRaise(_) => (trees, l.(client := l.client.(shallStop := true)))
    case ClientFinish(_, result) => (trees, l.(client := Finish(l.client, result)))
    case ClientShallStop(_, late) =>
      var (c, out) := HandleShallStop(l.client, late);
      (trees, l.(client := c, up := l.up + out))
    case ClientEvent(_, late, canFork) =>
      var (c, out) := HandleEvent(l.client, late, canFork);
      (trees, l.(client := c, up := l.up + out))
    case ClientExit(_) => (trees, l.(client := l.client.(phase := Dead)))
    case ForkSplits(_, k, parts) =>
      (trees, l.(client := ForkEnds(l.client, k), up := l.up + [Split(l.client.forks[k].at, parts)]))
    case ForkGarbles(_, k) =>
      (trees, l.(client := ForkEnds(l.client, k), up := l.up + [Garbled(l.client.forks[k].at)]))
    case ForkIsSat(_, k) =>
      (trees, l.(client := ForkEnds(l.client, k), up := l.up + [Solved(l.client.forks[k].at, SAT, None)]))
  }

  // ---------- what holds of one connection ----------

  /** Where a client is once it has executed some commands. */
  datatype Place = Nowhere | At(ref: NodeRef, stack: Stack) | Gone

  function PlaceOf(c: Client): Place {
    match c.phase
    case Fresh => Nowhere
    case Live => At(c.header, c.stack)
    case _ => Gone
  }

  function Advance(p: Place, cmd: Command): Place {
    match (p, cmd)
    case (Nowhere, Solve(at, script)) =>
      (match Exec(script, EMPTY_STACK) case None => Gone case Some(stack) => At(at, stack))
    case (At(ref, stack), Incremental(at, to, script)) =>
      (match Exec(script, stack) case None => Gone case Some(stack1) => At(NodeRef(at.name, to), stack1))
    case (At(ref, stack), Stop(_)) => Gone
    case _ => p
  }

  /** A command finds the client where it says the client is, and its script can be executed. */
  predicate Expected(p: Place, cmd: Command) {
    match (p, cmd)
    case (Gone, _) => true
    case (Nowhere, Solve(_, script)) => Exec(script, EMPTY_STACK).Some?
    case (Nowhere, _) => false
    case (At(_, _), Solve(_, _)) => false
    case (At(ref, stack), Incremental(at, _, script)) => at == ref && Exec(script, stack).Some?
    case (At(ref, _), _) => cmd.at == ref
  }

  /** A client's stack is the stack of the node it is at. */
  ghost predicate Correct(trees: Trees, p: Place) {
    p.At? ==> CorrectAt(trees, p.ref, p.stack)
  }

  ghost predicate CorrectAt(trees: Trees, ref: NodeRef, stack: Stack) {
    IsNode(trees, ref) && stack == StackOf(trees[ref.name].smt, ref.path)
  }

  predicate Matches(p: Place, v: View) {
    match p
    case Nowhere => v.node == None
    case At(ref, _) => v.node == Some(ref)
    case Gone => true
  }

  /** Replaying the pending commands keeps the client's stack correct throughout and takes it to
      the node of the server's record. */
  ghost predicate Replays(trees: Trees, p: Place, cmds: seq<Command>, v: View)
    decreases |cmds|
  {
    && Correct(trees, p)
    && if cmds == [] then Matches(p, v)
       else Expected(p, cmds[0]) && Replays(trees, Advance(p, cmds[0]), cmds[1..], v)
  }

  ghost predicate TaskOk(m: Meaning, c: Client) {
    c.future.Some? ==>
      var task := c.future.value;
      && task.at == c.header && task.stack == c.stack && task.id < c.nextTask
      && (forall id | id in c.reported :: id < task.id)
      && (task.result.Some? ==> task.result.value != UNKNOWN && TrueResult(m, task.stack, task.result.value))
  }

  ghost predicate ReportedOk(c: Client) {
    && (forall i, j | 0 <= i < j < |c.reported| :: c.reported[i] < c.reported[j])
    && (forall id | id in c.reported :: id < c.nextTask)
  }

  ghost predicate ClientOk(m: Meaning, trees: Trees, c: Client) {
    && (Running(c) ==> CorrectAt(trees, c.header, c.stack))
    && (c.phase == Fresh ==> c == NEW_CLIENT)
    && (c.phase == Halting ==> c.queue != [] && c.queue[0].Stop?)
    && (c.phase == Live ==> forall cmd | cmd in c.queue :: !cmd.Solve? && !cmd.Stop?)
    && TaskOk(m, c)
    && ReportedOk(c)
    && (forall f | f in c.forks :: CorrectAt(trees, f.at, f.stack))
  }

  /** A report in flight is true of the node it names. */
  ghost predicate AnswerOk(m: Meaning, trees: Trees, ans: Answer) {
    && IsNode(trees, ans.at)
    && match ans
       case Solved(at, result, _) =>
         result != UNKNOWN && TrueVerdict(m, trees[at.name].smt, at.path, StatusOf(result))
       case Split(at, parts) => ReplyCovers(m, trees[at.name].smt, at.path, parts)
       case Garbled(_) => true
  }

  ghost predicate LinkOk(m: Meaning, trees: Trees, l: Link) {
    && WaitingOk(trees, l.view)
    && ClientOk(m, trees, l.client)
    && Replays(trees, PlaceOf(l.client), Pending(l), l.view)
    && (forall ans | ans in l.up :: AnswerOk(m, trees, ans))
    && ReportsOk(l.client, l.up)
  }

  /** The results in flight come from different solves, in order, all of which are on the client's
      list of reported solves. */
  ghost predicate ReportsOk(c: Client, up: seq<Answer>) {
    && (forall ans | ans in up && BySolve(ans) :: ans.solve.value in c.reported)
    && (forall i, j | 0 <= i < j < |up| && BySolve(up[i]) && BySolve(up[j]) :: up[i].solve.value < up[j].solve.value)
  }

  predicate BySolve(ans: Answer) {
    ans.Solved? && ans.solve.Some?
  }

  function Pending(l: Link): seq<Command> {
    (if l.client.phase == Live then l.client.queue else []) + l.down
  }

  ghost predicate TreeOk(m: Meaning, t: Tree) {
    Inv(t) && Sound(m, t) && Covered(m, t)
  }

  ghost predicate TreesOk(m: Meaning, trees: Trees) {
    forall name | name in trees :: trees[name].Valid() && TreeOk(m, trees[name])
  }

  /** No two solvers wait for the same Or node. */
  ghost predicate Separate(links: map<nat, Link>) {
    forall i, j, o | i in links && j in links && i != j && o in links[i].view.waiting && o in links[j].view.waiting ::
      InOtherTrees(links[i].view, links[j].view)
  }

  ghost predicate InOtherTrees(v: View, w: View) {
    v.node.Some? && w.node.Some? && v.node.value.name != w.node.value.name
  }

  ghost predicate SystemOk(m: Meaning, s: System) {
    && TreesOk(m, s.trees)
    && (forall i | i in s.links :: LinkOk(m, s.trees, s.links[i]))
    && Separate(s.links)
  }
}
