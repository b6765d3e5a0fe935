/** The solver process: a listener that queues commands and a communicator that executes them one
    after the other, each time joining the solve that is running before it starts the next. */
module ClientSide {
  import opened Wrappers
  import opened Paths
  import opened StatusTree
  import opened Verdicts
  import opened Scripts
  import opened Messages

  /** A submitted solve: the branch and assertions it runs under, and its result once finished. */
  datatype Task = Task(id: nat, at: NodeRef, stack: Stack, result: Option<Result>)

  /** A forked process that computes partitions of the assertions it inherited. */
  datatype Fork = Fork(at: NodeRef, stack: Stack)

  datatype Phase = Fresh | Live | Halting | Dead

  datatype Client = Client(
    phase: Phase,
    header: NodeRef,
    stack: Stack,
    queue: seq<Command>,
    future: Option<Task>,
    shallStop: bool,
    forks: seq<Fork>,
    forked: bool,
    nextTask: nat,
    reported: seq<nat>)

  const NEW_CLIENT := Client(Fresh, NodeRef("", []), EMPTY_STACK, [], None, false, [], false, 0, [])

  /** The listener.  `Solve` is parsed at once and queued as `Resume`; `Stop` jumps the queue. */
  function Receive(c: Client, cmd: Command): Client {
    if c.phase == Halting || c.phase == Dead then c
    else
      match cmd
      case Solve(at, script) =>
        (match Exec(script, EMPTY_STACK)
         case None => c.(phase := Dead)
         case Some(stack) => c.(phase := Live, header := at, stack := stack, queue := c.queue + [Resume(at)]))
      case Stop(_) => c.(phase := Halting, queue := [cmd] + c.queue)
      case _ => c.(queue := c.queue + [cmd])
  }

  /** The solve that is running ends by itself. */
  function Finish(c: Client, result: Result): Client
    requires c.future.Some?
  {
    c.(future := Some(c.future.value.(result := Some(result))))
  }

  /** The result of the current solve; one that is still running ends with `late`. */
  function Outcome(c: Client, late: Result): Result
    requires c.future.Some?
  {
    if c.future.value.result.Some? then c.future.value.result.value else late
  }

  /** Waiting for the current solve, taking its result, and reporting it. */
  function Join(c: Client, late: Result, reportUnknown: bool): (Client, seq<Answer>) {
    if c.future.None? then (c, [])
    else
      var result := Outcome(c, late);
      if result == UNKNOWN && !reportUnknown then (c.(future := None), [])
      else (c.(future := None, reported := c.reported + [c.future.value.id]), [Solved(c.header, result, Some(c.future.value.id))])
  }

  /** The communicator sees the `shallStop` flag. */
  function HandleShallStop(c: Client, late: Result): (Client, seq<Answer>) {
    Join(c.(shallStop := false), late, true)
  }

  function Submit(c: Client): Client {
    c.(future := Some(Task(c.nextTask, c.header, c.stack, None)), nextTask := c.nextTask + 1)
  }

  /** The communicator executes the first command of the queue. */
  function HandleEvent(c: Client, late: Result, canFork: bool): (Client, seq<Answer>)
    requires c.queue != []
  {
    var cmd := c.queue[0];
    var (c1, out) := Join(c.(queue := c.queue[1..]), late, false);
    (Execute(c1, cmd, canFork), out)
  }

  function Execute(c: Client, cmd: Command, canFork: bool): Client {
    match cmd
    case Stop(_) => c.(phase := Dead)
    case Partition(at, _) =>
      Submit(if canFork then c.(forks := c.forks + [Fork(at, c.stack)], forked := true) else c)
    case Incremental(at, to, script) =>
      var c1 := c.(header := NodeRef(at.name, to),
                   forks := if c.forked && c.forks != [] then c.forks[..|c.forks| - 1] else c.forks,
                   forked := false);
      (match Exec(script, c.stack)
       case None => c1.(phase := Dead)
       case Some(stack) => Submit(c1.(stack := stack)))
    case _ => Submit(c)
  }

  /** A forked process sends its answer and ends. */
  function ForkEnds(c: Client, k: nat): Client
    requires k < |c.forks|
  {
    c.(forks := c.forks[..k] + c.forks[k + 1..], forked := c.forked && k + 1 != |c.forks|)
  }

  // ---------- what is assumed of the solver behind the client ----------

  /** A result is true of the assertions the solve ran under. */
  ghost predicate TrueResult(m: Meaning, stack: Stack, result: Result) {
    && (result == SAT ==> exists a: Assignment :: Satisfies(m, stack, a))
    && (result == UNSAT ==> forall a: Assignment :: !Satisfies(m, stack, a))
  }

  /** The entries of a partition reply cover the assertions they were computed from. */
  ghost predicate TrueSplit(m: Meaning, stack: Stack, parts: seq<string>) {
    forall a: Assignment | Satisfies(m, stack, a) ::
      exists part :: part in parts && part != "" && m(Assertion(part), a)
  }
}
