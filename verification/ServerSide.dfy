/** What the server does with one solver, as functions on the trees and the solver's record.
    SolverObjects.dfy has the objects that these functions specify. */
module ServerSide {
  import opened Wrappers
  import opened Paths
  import opened StatusTree
  import opened Scripts
  import opened Messages

  type Trees = map<string, Tree>

  /** The server's record of a solver: the node it works on and the Or nodes whose partitions it
      was asked for. */
  datatype View = View(node: Option<NodeRef>, waiting: seq<Path>)

  const IDLE := View(None, [])

  ghost predicate IsNode(trees: Trees, ref: NodeRef) {
    && ref.name in trees
    && trees[ref.name].Valid()
    && ref.path in trees[ref.name].arity
    && IsAnd(ref.path)
  }

  function MoveTo(trees: Trees, to: NodeRef, start: Option<Path>): Script
    requires to.name in trees
  {
    MoveScript(trees[to.name].smt, to.path, start)
  }

  /** Starting from scratch at `to`; a solver that was busy is stopped first. */
  function SendSolve(trees: Trees, v: View, to: NodeRef): (View, seq<Command>)
    requires to.name in trees
  {
    var solve := Solve(to, MoveTo(trees, to, None));
    match v.node
    case None => (View(Some(to), v.waiting), [solve])
    case Some(at) => (View(Some(to), []), [Stop(at), solve])
  }

  function SendIncremental(trees: Trees, v: View, to: Path): (View, seq<Command>)
    requires v.node.Some? && v.node.value.name in trees
  {
    var at := v.node.value;
    var target := NodeRef(at.name, to);
    (View(Some(target), []), [Incremental(at, to, MoveTo(trees, target, Some(at.path)))])
  }

  function SendStop(v: View): (View, seq<Command>)
    requires v.node.Some?
  {
    (IDLE, [Stop(v.node.value)])
  }

  /** Asking for partitions: a new Or node below the solver's node will take the reply. */
  function SendAsk(trees: Trees, v: View, n: nat): (Trees, View, seq<Command>)
    requires v.node.Some? && v.node.value.name in trees
    requires trees[v.node.value.name].Valid() && v.node.value.path in trees[v.node.value.name].arity
  {
    var at := v.node.value;
    var t := trees[at.name];
    (trees[at.name := AddChild(t, at.path, "")],
     View(v.node, v.waiting + [Kid(at.path, t.arity[at.path])]),
     [Partition(at, n)])
  }

  ghost predicate WaitingOk(trees: Trees, v: View) {
    match v.node
    case None => v.waiting == []
    case Some(at) =>
      && IsNode(trees, at)
      && (forall o | o in v.waiting ::
            o != [] && o in trees[at.name].arity && Parent(o) == at.path && trees[at.name].arity[o] == 0)
      && (forall i, j | 0 <= i < j < |v.waiting| :: v.waiting[i] != v.waiting[j])
  }

  function DropLast(waiting: seq<Path>): seq<Path> {
    if waiting == [] then [] else waiting[..|waiting| - 1]
  }

  /** An answer arrives.  Only answers that name the solver's current node count. */
  function Read(trees: Trees, v: View, answer: Answer): (Trees, View)
    requires WaitingOk(trees, v)
  {
    if v.node != Some(answer.at) then (trees, v)
    else
      var name := answer.at.name;
      (trees[name := ReadTree(trees[name], v.waiting, answer)], View(v.node, ReadWaiting(v.waiting, answer)))
  }

  /** Partitions fill the Or node that waited last; a verdict is recorded and spread. */
  function ReadTree(t: Tree, waiting: seq<Path>, answer: Answer): Tree
    requires t.Valid() && answer.at.path in t.arity
    requires forall o | o in waiting :: o != [] && o in t.arity && t.arity[o] == 0
  {
    match answer
    case Split(_, parts) => if waiting == [] then t else Attach(t, waiting[|waiting| - 1], parts)
    case Garbled(_) => t
    case Solved(_, ERROR, _) => t
    case Solved(at, result, _) => Report(t, at.path, StatusOf(result))
  }

  function ReadWaiting(waiting: seq<Path>, answer: Answer): seq<Path> {
    if answer.Solved? && answer.result == ERROR then waiting else DropLast(waiting)
  }

  function StatusOf(result: Result): Status {
    match result
    case SAT => Sat
    case UNSAT => Unsat
    case _ => Unknown
  }
}
