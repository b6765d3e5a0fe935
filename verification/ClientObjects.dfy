/** The solver process as an object: the listener's queue, the communicator's loop body and the
    thread pool that runs one solve at a time.

    Every method is specified by the function of ClientSide that the protocol is proved with. */
module ClientObjects {
  import opened Wrappers
  import opened Paths
  import opened Scripts
  import opened Messages
  import opened ClientSide

  class Schedular {
    var phase: Phase
    var header: NodeRef
    var stack: Stack
    var queue: seq<Command>
    var future: Option<Task>
    var shallStop: bool
    var shouldStop: bool
    var forks: seq<Fork>
    var forked: bool
    var nextTask: nat
    var sent: seq<Answer>
    /** The solve tasks in the thread pool that have not ended. */
    ghost var alive: set<nat>
    ghost var reported: seq<nat>

    constructor ()
      ensures Valid() && State() == NEW_CLIENT && sent == []
    {
      phase, header, stack, queue, future := Fresh, NodeRef("", []), EMPTY_STACK, [], None;
      shallStop, shouldStop, forks, forked, nextTask := false, false, [], false, 0;
      reported, sent, alive := [], [], {};
    }

    ghost function State(): Client
      reads this
    {
      Client(phase, header, stack, queue, future, shallStop, forks, forked, nextTask, reported)
    }

    /** A task that is alive is the one whose result the communicator will wait for, and no queued
        command starts a solve without waiting. */
    ghost predicate Valid()
      reads this
    {
      && alive == (if future.Some? && future.value.result.None? then {future.value.id} else {})
      && (future.Some? ==> future.value.id < nextTask)
      && (forall cmd | cmd in queue :: !cmd.Solve?)
    }

    lemma AtMostOneSolve()
      requires Valid()
      ensures |alive| <= 1
    {
    }

    /** The listener queues a command: `Stop` in front, `Solve` as `Resume`. */
    method QueueEvent(cmd: Command) returns (reset: bool)
      requires Valid()
      modifies this`queue
      ensures Valid() && reset == cmd.Stop?
      ensures queue == if cmd.Stop? then [cmd] + old(queue) else old(queue) + [if cmd.Solve? then Resume(cmd.at) else cmd]
    {
      reset := false;
      if cmd.Stop? {
        reset := true;
        queue := [cmd] + queue;
      } else {
        var event := cmd;
        if cmd.Solve? { event := Resume(cmd.at); }
        queue := queue + [event];
      }
    }

    /** Reading the formula of a `Solve`; one that cannot be read ends the process. */
    method PreProcess(at: NodeRef, script: Script) returns (ok: bool)
      requires Valid()
      modifies this`stack, this`header
      ensures Valid() && ok == Exec(script, EMPTY_STACK).Some?
      ensures ok ==> header == at && Some(stack) == Exec(script, EMPTY_STACK)
      ensures !ok ==> header == old(header) && stack == old(stack)
    {
      var res := Exec(script, EMPTY_STACK);
      match res
      case None => ok := false;
      case Some(s) => header, stack, ok := at, s, true;
    }

    /** The listener receives a command. */
    method HandleMessage(cmd: Command)
      requires Valid()
      modifies this
      ensures Valid() && State() == Receive(old(State()), cmd) && sent == old(sent)
    {
      if phase == Halting || phase == Dead { return; }
      if cmd.Solve? {
        var ok := PreProcess(cmd.at, cmd.script);
        if !ok { phase := Dead; return; }
        phase := Live;
      }
      var reset := QueueEvent(cmd);
      if reset { phase := Halting; }
    }

    /** The running solve ends by itself. */
    method TaskEnds(result: Result)
      requires Valid() && future.Some? && future.value.result.None?
      modifies this
      ensures Valid() && State() == Finish(old(State()), result) && sent == old(sent) && alive == {}
    {
      alive := alive - {future.value.id};
      future := Some(future.value.(result := Some(result)));
    }

    /** Waiting for the solve and taking its result, which is `late` if it is still running. */
    method Get(late: Result) returns (result: Result)
      requires Valid() && future.Some?
      modifies this`future, this`alive
      ensures Valid() && future == None && alive == {} && result == Outcome(old(State()), late)
    {
      result := if future.value.result.Some? then future.value.result.value else late;
      alive := alive - {future.value.id};
      future := None;
    }

    method Report(result: Result, id: nat)
      modifies this`sent, this`reported
      ensures sent == old(sent) + [Solved(header, result, Some(id))] && reported == old(reported) + [id]
    {
      sent := sent + [Solved(header, result, Some(id))];
      reported := reported + [id];
    }

    /** Waiting for the solve, if there is one, and reporting its result. */
    method Collect(late: Result, reportUnknown: bool)
      requires Valid()
      modifies this`future, this`alive, this`sent, this`reported
      ensures Valid() && future == None
      ensures var (c, out) := Join(old(State()), late, reportUnknown); State() == c && sent == old(sent) + out
    {
      if future.Some? {
        var id := future.value.id;
        var result := Get(late);
        if reportUnknown || result != UNKNOWN { Report(result, id); }
      }
    }

    /** Any command but a new `Solve` interrupts the running solve and waits for it. */
    method RequestSolverToStop(cmd: Command) returns (stopped: bool)
      requires Valid()
      modifies this`shouldStop
      ensures Valid() && stopped == !cmd.Solve?
    {
      if cmd.Solve? { return false; }
      shouldStop := true;
      return true;
    }

    /** A solve is handed to the thread pool: the one before it has been waited for. */
    method Submit()
      requires Valid() && future == None
      modifies this`future, this`alive, this`nextTask
      ensures Valid() && State() == ClientSide.Submit(old(State()))
    {
      future := Some(Task(nextTask, header, stack, None));
      alive := alive + {nextTask};
      nextTask := nextTask + 1;
    }

    /** What a command changes before the next solve; whether there is a next solve. */
    method ExecuteEvent(cmd: Command, canFork: bool) returns (resume: bool)
      requires Valid() && !cmd.Solve? && future == None
      modifies this`header, this`stack, this`forks, this`forked, this`phase
      ensures Valid()
      ensures (if resume then ClientSide.Submit(State()) else State()) == Execute(old(State()), cmd, canFork)
    {
      resume := true;
      match cmd
      case Stop(_) =>
        phase := Dead;
        resume := false;
      case Partition(at, _) =>
        if canFork {
          forks := forks + [Fork(at, stack)];
          forked := true;
        }
      case Incremental(at, to, script) =>
        if forked && forks != [] { forks := forks[..|forks| - 1]; }
        forked := false;
        header := NodeRef(at.name, to);
        var res := Exec(script, stack);
        if res.None? {
          phase := Dead;
          resume := false;
        } else {
          stack := res.value;
        }
      case _ =>
    }

    /** One round of the communicator: the flag first, then the first command of the queue. */
    method Communicate(late: Result, canFork: bool)
      requires Valid() && (shallStop || queue != [])
      requires shallStop && future.Some? ==> Outcome(State(), late) != UNKNOWN
      modifies this
      ensures Valid()
      ensures var (c, out) :=
          if old(shallStop) then HandleShallStop(old(State()), late) else HandleEvent(old(State()), late, canFork);
        State() == c && sent == old(sent) + out
    {
      hide Execute, Join, ClientSide.Submit;
      if shallStop {
        shallStop := false;
        Collect(late, true);
      } else {
        var event := queue[0];
        queue := queue[1..];
        var stopped := RequestSolverToStop(event);
        if stopped { Collect(late, false); }
        shouldStop := false;
        var resume := ExecuteEvent(event, canFork);
        if resume { Submit(); }
      }
    }
  }
}
