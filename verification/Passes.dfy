/** Whole runs in which the scheduler's passes are interleaved with the steps of the protocol: its
    processed marks never leave a solver without a place to go. */
module Passes {
  import opened Paths
  import opened StatusTree
  import opened Verdicts
  import opened StatusInvariants
  import opened Protocol
  import opened EndToEnd
  import opened Persistence
  import opened Scheduler

  /** The processed nodes of each instance. */
  type Processed = map<string, set<Path>>

  /** A step of the protocol, or a pass of `Scheduler.Mark` over the nodes of an instance. */
  datatype Move = Act(step: Step) | Pass(name: string, nodes: seq<Path>, processed: set<Path>)

  function Of(ps: Processed, name: string): set<Path> {
    if name in ps then ps[name] else {}
  }

  /** A pass marks what the contract of `Scheduler.Mark` lets it mark. */
  ghost predicate Allowed(m: Meaning, s: System, ps: Processed, move: Move) {
    match move
    case Act(step) => Enabled(m, s, step)
    case Pass(name, nodes, processed) =>
      && name in s.trees && s.trees[name].Valid() && Of(ps, name) <= processed
      && OnlyExpected(s.trees[name], Of(ps, name), processed, nodes)
  }

  ghost function After(m: Meaning, s: System, ps: Processed, move: Move): (System, Processed)
    requires Allowed(m, s, ps, move)
  {
    match move
    case Act(step) => (Apply(m, s, step), ps)
    case Pass(name, _, processed) => (s, ps[name := processed])
  }

  ghost predicate LegalMoves(m: Meaning, s: System, ps: Processed, moves: seq<Move>)
    decreases |moves|
  {
    moves != [] ==>
      Allowed(m, s, ps, moves[0]) &&
      var (s1, ps1) := After(m, s, ps, moves[0]); LegalMoves(m, s1, ps1, moves[1..])
  }

  ghost function Moves(m: Meaning, s: System, ps: Processed, moves: seq<Move>): (System, Processed)
    requires LegalMoves(m, s, ps, moves)
    decreases |moves|
  {
    if moves == [] then (s, ps)
    else
      var (s1, ps1) := After(m, s, ps, moves[0]);
      Moves(m, s1, ps1, moves[1..])
  }

  ghost predicate MarksOk(m: Meaning, s: System, ps: Processed) {
    && SystemOk(m, s) && ps.Keys <= s.trees.Keys
    && forall name | name in s.trees :: s.trees[name].Valid() && ProcessedOk(s.trees[name], Of(ps, name))
  }

  lemma MoveKeepsMarks(m: Meaning, s: System, ps: Processed, move: Move)
    requires MarksOk(m, s, ps) && Allowed(m, s, ps, move)
    ensures var (s1, ps1) := After(m, s, ps, move); MarksOk(m, s1, ps1)
  {
    hide SystemOk, Enabled, Apply, ProcessedOk, Preserved;
    match move
    case Act(step) => StepKeepsMarks(m, s, ps, step);
    case Pass(name, nodes, processed) => PassKeepsProcessed(s.trees[name], Of(ps, name), processed, nodes);
  }

  lemma PassKeepsProcessed(t: Tree, processed: set<Path>, processed1: set<Path>, nodes: seq<Path>)
    requires t.Valid() && ProcessedOk(t, processed) && OnlyExpected(t, processed, processed1, nodes)
    ensures ProcessedOk(t, processed1)
  {
  }

  lemma StepKeepsMarks(m: Meaning, s: System, ps: Processed, step: Step)
    requires MarksOk(m, s, ps) && Enabled(m, s, step)
    ensures MarksOk(m, Apply(m, s, step), ps)
  {
    hide SystemOk, Enabled, Apply, ProcessedOk, Preserved;
    var s1 := Apply(m, s, step);
    StepKeepsSystem(m, s, step);
    TreesAreValid(m, s1);
    forall name | name in s.trees
      ensures name in s1.trees && ProcessedOk(s1.trees[name], Of(ps, name))
    {
      StepKeeps(m, s, step, name);
      ProcessedStays(s.trees[name], s1.trees[name], Of(ps, name));
    }
    forall name | name in s1.trees && name !in s.trees
      ensures ProcessedOk(s1.trees[name], Of(ps, name))
    {
      NothingProcessed(s1.trees[name]);
    }
  }

  lemma NothingProcessed(t: Tree)
    requires t.Valid()
    ensures ProcessedOk(t, {})
  {
  }

  lemma {:induction false} MovesKeepMarks(m: Meaning, s: System, ps: Processed, moves: seq<Move>)
    requires MarksOk(m, s, ps) && LegalMoves(m, s, ps, moves)
    ensures var (s1, ps1) := Moves(m, s, ps, moves); MarksOk(m, s1, ps1)
    decreases |moves|
  {
    hide MarksOk, Allowed, After;
    if moves != [] {
      MoveKeepsMarks(m, s, ps, moves[0]);
      var (s1, ps1) := After(m, s, ps, moves[0]);
      MovesKeepMarks(m, s1, ps1, moves[1..]);
    }
  }

  /** In every state that steps and passes reach, `Scheduler.Mark` and `Scheduler.Reassign` can be
      called, and as long as the root is unknown every unknown And node has an unprocessed unknown
      And node below it, so that the loop that finds new places ends. */
  lemma SolversAlwaysHavePlaces(m: Meaning, moves: seq<Move>, name: string, p: Path)
    requires LegalMoves(m, START, map[], moves) && name in Moves(m, START, map[], moves).0.trees
    ensures var (s, ps) := Moves(m, START, map[], moves); var t := s.trees[name];
      && t.Valid() && Inv(t) && ProcessedOk(t, Of(ps, name)) && [] in t.status
      && (t.status[[]] == Unknown && p in t.arity && IsAnd(p) && t.status[p] == Unknown ==>
            exists q :: p <= q && IsAnd(q) && q in t.status && t.status[q] == Unknown && q !in Of(ps, name))
  {
    hide LegalMoves, Moves, ProcessedOk, Inv;
    assert MarksOk(m, START, map[]);
    MovesKeepMarks(m, START, map[], moves);
    var (s, ps) := Moves(m, START, map[], moves);
    var t := s.trees[name];
    assert MarksOk(m, s, ps);
    TreesAreValid(m, s);
    InvOf(m, t);
    if t.status[[]] == Unknown && p in t.arity && IsAnd(p) && t.status[p] == Unknown {
      var q := ActiveNodeBelow(t, Of(ps, name), p);
    }
  }

  lemma InvOf(m: Meaning, t: Tree)
    requires t.Valid() && TreeOk(m, t)
    ensures Inv(t) && [] in t.status
  {
  }
}
