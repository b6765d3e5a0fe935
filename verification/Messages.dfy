/** The messages between the server and a solver process. */
module Messages {
  import opened Wrappers
  import opened Paths
  import opened Scripts

  /** A node of the tree of a named instance. */
  datatype NodeRef = NodeRef(name: string, path: Path)

  /** Commands to a solver.  `Resume` is what a client makes of `Solve` when it queues it. */
  datatype Command =
    | Solve(at: NodeRef, script: Script)
    | Resume(at: NodeRef)
    | Incremental(at: NodeRef, to: Path, script: Script)
    | Partition(at: NodeRef, n: nat)
    | Stop(at: NodeRef)

  datatype Result = SAT | UNSAT | UNKNOWN | ERROR

  /** Reports of a solver: the outcome of a solve, the entries of a partition reply, or a reply
      whose payload is not valid text.  `solve` is the number of the solve that reports, which the
      results about runs speak of; it is not on the wire, and a forked process has none. */
  datatype Answer =
    | Solved(at: NodeRef, result: Result, solve: Option<nat>)
    | Split(at: NodeRef, parts: seq<string>)
    | Garbled(at: NodeRef)
}
