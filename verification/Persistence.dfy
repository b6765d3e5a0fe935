/** What is final in every run: verdicts, and the children of solved nodes.  And what would not be
    final if solvers or the scheduler did otherwise. */
module Persistence {
  import opened Wrappers
  import opened Paths
  import opened StatusTree
  import opened Verdicts
  import opened StatusInvariants
  import opened Growth
  import opened Messages
  import opened ServerSide
  import opened Protocol
  import opened ProtocolProofs
  import opened EndToEnd
  import opened Scheduler

  /** From `t` to `t1` nothing is lost: nodes and verdicts stay, and an Or node whose parent is solved
      gains no partition. */
  ghost predicate Preserved(t: Tree, t1: Tree)
    requires t.Valid() && t1.Valid()
  {
    forall p | p in t.arity :: p in t1.arity && PreservedAt(t, t1, p)
  }

  ghost predicate PreservedAt(t: Tree, t1: Tree, p: Path)
    requires t.Valid() && t1.Valid() && p in t.arity && p in t1.arity
  {
    && t.arity[p] <= t1.arity[p]
    && (t.status[p] != Unknown ==> t1.status[p] == t.status[p])
    && (!IsAnd(p) && t.status[Parent(p)] != Unknown ==> t1.arity[p] == t.arity[p])
  }

  /** A true report never changes a verdict. */
  lemma ReportKeepsVerdicts(m: Meaning, t: Tree, n: Path, s: Status, p: Path)
    requires t.Valid() && Sound(m, t) && Covered(m, t) && n in t.arity && p in t.arity
    requires s != Unknown && TrueVerdict(m, t.smt, n, s)
    ensures t.status[p] != Unknown ==> Report(t, n, s).status[p] == t.status[p]
  {
    hide Report;
    ReportSound(m, t, n, s);
    ReportChanges(t, n, s, p);
    assert TrueVerdict(m, t.smt, p, t.status[p]) && TrueVerdict(m, t.smt, p, Report(t, n, s).status[p]);
  }

  lemma ReadKeepsAt(m: Meaning, t: Tree, waiting: seq<Path>, ans: Answer, p: Path)
    requires t.Valid() && TreeOk(m, t) && ans.at.path in t.arity && p in t.arity
    requires forall o | o in waiting :: o != [] && o in t.arity && !IsAnd(o) && t.arity[o] == 0
    requires ans.Solved? ==> ans.result != UNKNOWN && TrueVerdict(m, t.smt, ans.at.path, StatusOf(ans.result))
    ensures p in ReadTree(t, waiting, ans).arity && PreservedAt(t, ReadTree(t, waiting, ans), p)
  {
    hide Report, AddPartitions, Inv, Sound, Covered;
    match ans
    case Split(_, parts) =>
      if waiting != [] { AddPartitionsKids(t, waiting[|waiting| - 1], parts); }
    case Garbled(_) =>
    case Solved(_, ERROR, _) =>
    case Solved(at, result, _) => ReportKeepsVerdicts(m, t, at.path, StatusOf(result), p);
  }

  lemma AskKeepsAt(t: Tree, n: Path, p: Path)
    requires t.Valid() && n in t.arity && IsAnd(n) && p in t.arity
    ensures p in AddChild(t, n, "").arity && PreservedAt(t, AddChild(t, n, ""), p)
  {
    AddChildGrows(t, n, "");
  }

  /** Whatever happens next, a verdict stays as it is, and the Or nodes of a solved node gain no
      partitions. */
  lemma VerdictsAreFinal(m: Meaning, steps: seq<Step>, step: Step, name: string)
    requires Legal(m, START, steps) && Enabled(m, Run(m, START, steps), step)
    requires name in Run(m, START, steps).trees
    ensures var t := Run(m, START, steps).trees[name]; t.Valid()
    ensures name in Apply(m, Run(m, START, steps), step).trees && Apply(m, Run(m, START, steps), step).trees[name].Valid()
    ensures Preserved(Run(m, START, steps).trees[name], Apply(m, Run(m, START, steps), step).trees[name])
  {
    hide Legal, Run, TreesOk, LinkOk, EnabledOn, ApplyOn;
    var s := Run(m, START, steps);
    Reachable(m, steps);
    StepKeepsSystem(m, s, step);
    TreesAreValid(m, s);
    StepKeeps(m, s, step, name);
    TreesAreValid(m, Apply(m, s, step));
  }

  lemma TreesAreValid(m: Meaning, s: System)
    requires SystemOk(m, s)
    ensures forall name | name in s.trees :: s.trees[name].Valid() && TreeOk(m, s.trees[name])
  {
  }

  lemma StepKeeps(m: Meaning, s: System, step: Step, name: string)
    requires SystemOk(m, s) && Enabled(m, s, step) && name in s.trees && s.trees[name].Valid()
    ensures name in Apply(m, s, step).trees && Apply(m, s, step).trees[name].Valid()
    ensures Preserved(s.trees[name], Apply(m, s, step).trees[name])
  {
    hide SystemOk, Enabled, Apply, PreservedAt, Preserved;
    if step.ServerAsk? {
      AskStepKeeps(m, s, step.id, step.n, name);
    } else if step.ServerRead? {
      ReadStepKeeps(m, s, step.id, name);
    } else {
      OtherStepsKeepTrees(m, s, step, name);
      PreservesItself(s.trees[name]);
    }
  }

  lemma AskStepKeeps(m: Meaning, s: System, id: nat, n: nat, name: string)
    requires SystemOk(m, s) && Enabled(m, s, ServerAsk(id, n)) && name in s.trees && s.trees[name].Valid()
    ensures name in Apply(m, s, ServerAsk(id, n)).trees && Apply(m, s, ServerAsk(id, n)).trees[name].Valid()
    ensures Preserved(s.trees[name], Apply(m, s, ServerAsk(id, n)).trees[name])
  {
    hide TreesOk, LinkOk, SendAsk, Preserved;
    AskKeeps(s.trees, s.links[id].view, n, name);
  }

  lemma ReadStepKeeps(m: Meaning, s: System, id: nat, name: string)
    requires SystemOk(m, s) && Enabled(m, s, ServerRead(id)) && name in s.trees && s.trees[name].Valid()
    ensures name in Apply(m, s, ServerRead(id)).trees && Apply(m, s, ServerRead(id)).trees[name].Valid()
    ensures Preserved(s.trees[name], Apply(m, s, ServerRead(id)).trees[name])
  {
    hide TreesOk, LinkOk, Read, Preserved;
    assert LinkOk(m, s.trees, s.links[id]);
    ReadKeeps(m, s.trees, s.links[id], name);
  }

  lemma OtherStepsKeepTrees(m: Meaning, s: System, step: Step, name: string)
    requires Enabled(m, s, step) && name in s.trees && !step.ServerAsk? && !step.ServerRead?
    ensures name in Apply(m, s, step).trees && Apply(m, s, step).trees[name] == s.trees[name]
  {
  }

  lemma AskKeeps(trees: Trees, v: View, n: nat, name: string)
    requires v.node.Some? && IsNode(trees, v.node.value) && name in trees && trees[name].Valid()
    ensures name in SendAsk(trees, v, n).0 && SendAsk(trees, v, n).0[name].Valid()
    ensures Preserved(trees[name], SendAsk(trees, v, n).0[name])
  {
    hide AddChild, PreservedAt;
    var at := v.node.value;
    if at.name == name {
      forall p | p in trees[name].arity
        ensures p in AddChild(trees[name], at.path, "").arity && PreservedAt(trees[name], AddChild(trees[name], at.path, ""), p)
      {
        AskKeepsAt(trees[name], at.path, p);
      }
    } else {
      PreservesItself(trees[name]);
    }
  }

  lemma ReadKeeps(m: Meaning, trees: Trees, l: Link, name: string)
    requires TreesOk(m, trees) && LinkOk(m, trees, l) && l.up != [] && name in trees
    ensures name in Read(trees, l.view, l.up[0]).0 && trees[name].Valid() && Read(trees, l.view, l.up[0]).0[name].Valid()
    ensures Preserved(trees[name], Read(trees, l.view, l.up[0]).0[name])
  {
    hide TreeOk, ReadTree, Replays, ClientOk, TreesGrow, PreservedAt, ReadWaiting;
    var ans := l.up[0];
    assert AnswerOk(m, trees, ans);
    ReadGrows(m, trees, l.view, ans);
    GrownIsValid(trees, Read(trees, l.view, ans).0, name);
    if l.view.node == Some(ans.at) && name == ans.at.name {
      forall p | p in trees[name].arity
        ensures p in ReadTree(trees[name], l.view.waiting, ans).arity
        ensures ReadTree(trees[name], l.view.waiting, ans).Valid()
        ensures PreservedAt(trees[name], ReadTree(trees[name], l.view.waiting, ans), p)
      {
        ReadKeepsAt(m, trees[name], l.view.waiting, ans, p);
      }
    } else {
      PreservesItself(trees[name]);
    }
  }

  lemma PreservesItself(t: Tree)
    requires t.Valid()
    ensures Preserved(t, t)
  {
  }

  /** Nowhere below an unsat node is a partition added. */
  lemma UnsatSubtreesAreClosed(m: Meaning, steps: seq<Step>, step: Step, name: string, p: Path, o: Path)
    requires Legal(m, START, steps) && Enabled(m, Run(m, START, steps), step)
    requires name in Run(m, START, steps).trees && o in Run(m, START, steps).trees[name].arity
    requires p <= o && IsAnd(p) && !IsAnd(o)
    ensures var t := Run(m, START, steps).trees[name]; p in t.status
    ensures var t := Run(m, START, steps).trees[name]; var trees1 := Apply(m, Run(m, START, steps), step).trees;
      t.status[p] == Unsat ==> name in trees1 && o in trees1[name].arity && trees1[name].arity[o] == t.arity[o]
  {
    hide Legal, Run, Apply, Enabled, Inv;
    var t := Run(m, START, steps).trees[name];
    VerdictsAreFinal(m, steps, step, name);
    StatusesFitTogether(m, steps, name, p, o);
    Prefixes(p, o);
    PrefixesAttached(t, o, Parent(o));
    StatusesFitTogether(m, steps, name, p, Parent(o));
    assert PreservedAt(t, Apply(m, Run(m, START, steps), step).trees[name], o);
  }

  // ---------- abandoned requests ----------

  /** A solver waits for the partitions of an Or node. */
  predicate Waits(v: View, name: string, o: Path) {
    v.node.Some? && v.node.value.name == name && o in v.waiting
  }

  /** An Or node without partitions for which no solver waits. */
  ghost predicate Abandoned(s: System, name: string, o: Path) {
    && name in s.trees && o in s.trees[name].arity && o != [] && !IsAnd(o) && s.trees[name].arity[o] == 0
    && forall i | i in s.links :: !Waits(s.links[i].view, name, o)
  }

  /** A solver that moves on before its partitions arrive abandons the Or node that waits for them. */
  lemma MovingAbandons(m: Meaning, s: System, id: nat, path: Path, o: Path)
    requires SystemOk(m, s) && Enabled(m, s, ServerMove(id, path)) && o in s.links[id].view.waiting
    ensures Abandoned(Apply(m, s, ServerMove(id, path)), s.links[id].view.node.value.name, o)
  {
    hide TreesOk, ClientOk, Replays, AnswerOk;
    var name := s.links[id].view.node.value.name;
    assert LinkOk(m, s.trees, s.links[id]);
    forall i | i in s.links && i != id
      ensures !Waits(s.links[i].view, name, o)
    {
      assert o in s.links[i].view.waiting ==> InOtherTrees(s.links[i].view, s.links[id].view);
    }
  }

  /** Nobody ever comes back for it: it stays empty, and its parent is never asked again. */
  lemma StepKeepsAbandoned(m: Meaning, s: System, step: Step, name: string, o: Path)
    requires SystemOk(m, s) && Enabled(m, s, step) && Abandoned(s, name, o)
    ensures Abandoned(Apply(m, s, step), name, o)
  {
    hide TreesOk, LinkOk, ApplyOn, EnabledOn, Waits;
    var s1 := Apply(m, s, step);
    match step {
      case AddInstance(_, _) =>
      case Connect(id) =>
        assert !Waits(IDLE, name, o) by { IdleWaitsForNothing(name, o); }
      case _ =>
        OwnWaits(m, s, step, name, o);
        ArityOfAbandoned(m, s, step, name, o);
    }
  }

  lemma IdleWaitsForNothing(name: string, o: Path)
    ensures !Waits(IDLE, name, o)
  {
  }

  lemma OwnWaits(m: Meaning, s: System, step: Step, name: string, o: Path)
    requires SystemOk(m, s) && Enabled(m, s, step) && !step.AddInstance? && !step.Connect?
    requires name in s.trees && o in s.trees[name].arity && !Waits(s.links[step.id].view, name, o)
    ensures !Waits(ApplyOn(m, s.trees, s.links[step.id], step).1.view, name, o)
  {
    hide TreesOk, LinkOk, ApplyOn, EnabledOn;
    var v1 := ApplyOn(m, s.trees, s.links[step.id], step).1.view;
    if o in v1.waiting { StepWaiting(m, s, step, o); }
  }

  lemma ArityOfAbandoned(m: Meaning, s: System, step: Step, name: string, o: Path)
    requires SystemOk(m, s) && Enabled(m, s, step) && !step.AddInstance? && !step.Connect? && Abandoned(s, name, o)
    ensures var trees1 := ApplyOn(m, s.trees, s.links[step.id], step).0;
      name in trees1 && o in trees1[name].arity && trees1[name].arity[o] == 0
  {
    hide TreesOk, LinkOk, Read, AddChild;
    var l := s.links[step.id];
    assert LinkOk(m, s.trees, l);
    match step
    case ServerAsk(_, n) => AskKeepsEmpty(s.trees, l.view, n, name, o);
    case ServerRead(_) => ReadKeepsEmpty(m, s.trees, l, name, o);
    case _ =>
  }

  lemma AskKeepsEmpty(trees: Trees, v: View, n: nat, name: string, o: Path)
    requires v.node.Some? && IsNode(trees, v.node.value)
    requires name in trees && o in trees[name].arity && !IsAnd(o) && trees[name].arity[o] == 0
    ensures var trees1 := SendAsk(trees, v, n).0; name in trees1 && o in trees1[name].arity && trees1[name].arity[o] == 0
  {
    hide AddChild;
    AddedNode(trees[v.node.value.name], v.node.value.path, "");
  }

  lemma ReadKeepsEmpty(m: Meaning, trees: Trees, l: Link, name: string, o: Path)
    requires LinkOk(m, trees, l) && l.up != [] && TreesOk(m, trees)
    requires name in trees && o in trees[name].arity && trees[name].arity[o] == 0 && !Waits(l.view, name, o)
    ensures var trees1 := Read(trees, l.view, l.up[0]).0; name in trees1 && o in trees1[name].arity && trees1[name].arity[o] == 0
  {
    hide Read, ClientOk, Replays, TreeOk;
    AnswerNamesNode(m, trees, l.up[0]);
    ReadTouches(trees, l.view, l.up[0], name, o);
  }

  lemma {:induction false} AbandonedStaysEmpty(m: Meaning, s: System, steps: seq<Step>, name: string, o: Path)
    requires SystemOk(m, s) && Legal(m, s, steps) && Abandoned(s, name, o)
    ensures Abandoned(Run(m, s, steps), name, o)
    ensures forall id, n: nat | Enabled(m, Run(m, s, steps), ServerAsk(id, n)) ::
      Run(m, s, steps).links[id].view.node != Some(NodeRef(name, Parent(o)))
    decreases |steps|
  {
    hide SystemOk, Abandoned;
    if steps == [] {
      NeverAskedAgain(m, s, name, o);
    } else {
      StepKeepsSystem(m, s, steps[0]);
      StepKeepsAbandoned(m, s, steps[0], name, o);
      AbandonedStaysEmpty(m, Apply(m, s, steps[0]), steps[1..], name, o);
    }
  }

  lemma NeverAskedAgain(m: Meaning, s: System, name: string, o: Path)
    requires SystemOk(m, s) && Abandoned(s, name, o)
    ensures forall id, n: nat | Enabled(m, s, ServerAsk(id, n)) :: s.links[id].view.node != Some(NodeRef(name, Parent(o)))
  {
    hide SystemOk, Tree.Valid, TreeOk, Inv, IsNode;
    TreesAreValid(m, s);
    ParentHasChild(s.trees[name], o);
  }

  lemma ParentHasChild(t: Tree, o: Path)
    requires t.Valid() && o in t.arity && o != []
    ensures Parent(o) in t.arity && t.arity[Parent(o)] > 0
  {
  }

  // ---------- the scheduler's marks ----------

  /** The processed nodes of the scheduler keep their partitions and verdicts, so its next pass
      again finds a place for every solver. */
  lemma ProcessedStays(t: Tree, t1: Tree, processed: set<Path>)
    requires t.Valid() && t1.Valid() && Preserved(t, t1) && ProcessedOk(t, processed)
    ensures ProcessedOk(t1, processed)
  {
    forall p | p in processed
      ensures p in t1.arity && (t1.status[p] == Unknown ==> Partitioned(t1, p))
    {
      assert PreservedAt(t, t1, p);
      assert Kid(p, 0) in t.arity ==> PreservedAt(t, t1, Kid(p, 0));
    }
  }

  // ---------- what would not hold otherwise ----------

  /** A report overwrites the status of its node: a verdict survives a report exactly if that is a
      verdict too.  Nothing on the server's side ignores `unknown`; clients do not send it. */
  lemma VerdictSurvivesExactlyWhen(m: Meaning, t: Tree, n: Path, s: Status)
    requires t.Valid() && Sound(m, t) && Covered(m, t) && n in t.arity && t.status[n] != Unknown
    requires TrueVerdict(m, t.smt, n, s)
    ensures Report(t, n, s).status[n] == t.status[n] <==> s != Unknown
  {
    hide Report;
    ReportChanges(t, n, s, n);
    if s != Unknown { ReportKeepsVerdicts(m, t, n, s, n); }
  }

  /** If a node could be partitioned twice, `unsat` would not fall to all nodes below: a report that
      completes one splitting of `p` solves `p`, but not the partitions of another splitting. */
  lemma TwoSplittingsBreakUnsatFalls(t: Tree, n: Path, p: Path, k: Path)
    requires t.Valid() && n in t.arity && n != [] && IsAnd(n) && k in t.arity && p == Parent(Parent(n))
    requires forall i: nat | i < t.arity[Parent(n)] && i != Index(n) :: t.status[Kid(Parent(n), i)] == Unsat
    requires p <= k && !(n <= k) && !(k <= n) && t.status[k] == Unknown
    ensures p in t.arity && Report(t, n, Unsat).status[p] == Unsat && Report(t, n, Unsat).status[k] == Unknown
  {
    hide Report;
    ReportChanges(t, n, Unsat, k);
    ReportClimbs(t, n);
  }

  lemma ReportClimbs(t: Tree, n: Path)
    requires t.Valid() && n in t.arity && n != [] && IsAnd(n)
    requires forall i: nat | i < t.arity[Parent(n)] && i != Index(n) :: t.status[Kid(Parent(n), i)] == Unsat
    ensures Parent(Parent(n)) in t.arity && Report(t, n, Unsat).status[Parent(Parent(n))] == Unsat
  {
    var o, p := Parent(n), Parent(Parent(n));
    var t1 := t.(status := t.status[n := Unsat]);
    assert Kid(o, Index(n)) == n;
    assert t1.ChildrenAre(o, Unsat);
    var t2 := t1.(status := t1.status[o := Unsat]);
    assert SetStatus(t, n, Unsat) == SetStatus(t2, p, Unsat);
    SetStatusFrame(t2, p, Unsat);
    AllBelow(t, n);
    PushUnsatChanges(SetStatus(t, n, Unsat), All(t, n), n, p);
  }

  /** Such trees arise when a leaf is asked twice for partitions and gets one each time. */
  lemma AskingTwiceBreaksUnsatFalls(t: Tree, p: Path)
    requires t.Valid() && p in t.arity && IsAnd(p) && t.arity[p] == 0
    ensures var t1 := AddChild(t, p, ""); Kid(p, 0) in t1.arity
    ensures var t2 := AddChild(AddChild(t, p, ""), Kid(p, 0), "(assert a)"); p in t2.arity
    ensures var t3 := AddChild(AddChild(AddChild(t, p, ""), Kid(p, 0), "(assert a)"), p, ""); Kid(p, 1) in t3.arity
    ensures var t4 := AddChild(AddChild(AddChild(AddChild(t, p, ""), Kid(p, 0), "(assert a)"), p, ""), Kid(p, 1), "(assert b)");
      && Kid(Kid(p, 0), 0) in t4.arity && p in t4.arity && Kid(Kid(p, 1), 0) in t4.arity
      && Report(t4, Kid(Kid(p, 0), 0), Unsat).status[p] == Unsat
      && Report(t4, Kid(Kid(p, 0), 0), Unsat).status[Kid(Kid(p, 1), 0)] == Unknown
  {
    hide AddChild, Report, Tree.Valid;
    var o0, o1 := Kid(p, 0), Kid(p, 1);
    var n, k := Kid(o0, 0), Kid(o1, 0);
    AddedNode(t, p, "");
    var t1 := AddChild(t, p, "");
    AddedNode(t1, o0, "(assert a)");
    var t2 := AddChild(t1, o0, "(assert a)");
    AddedNode(t2, p, "");
    var t3 := AddChild(t2, p, "");
    AddedNode(t3, o1, "(assert b)");
    var t4 := AddChild(t3, o1, "(assert b)");
    assert Parent(n) == o0 && Parent(o0) == p && Index(n) == 0;
    assert n[|p|] == 0 && k[|p|] == 1;
    TwoSplittingsBreakUnsatFalls(t4, n, p, k);
  }
}
