/** The main results about whole runs of the server and its solvers. */
module EndToEnd {
  import opened Wrappers
  import opened Paths
  import opened StatusTree
  import opened Verdicts
  import opened StatusInvariants
  import opened Growth
  import opened Scripts
  import opened Messages
  import opened ServerSide
  import opened ClientSide
  import opened Protocol
  import opened ProtocolProofs
  import opened ClientProofs

  /** The step's own connection stays in order and the trees only grow. */
  lemma StepKeepsLink(m: Meaning, s: System, step: Step)
    requires SystemOk(m, s) && Enabled(m, s, step) && !step.AddInstance? && !step.Connect?
    ensures var (trees, l) := ApplyOn(m, s.trees, s.links[step.id], step);
      LinkOk(m, trees, l) && TreesOk(m, trees) && TreesGrow(s.trees, trees)
  {
    hide TreesOk, TreeOk, LinkOk, Replays, AddChild, Read, Execute, Receive, Join;
    var l := s.links[step.id];
    assert LinkOk(m, s.trees, l);
    SameTrees(m, s.trees);
    match step
    case ServerSolve(_, to) => ServerSolveKeepsLink(m, s.trees, l, to);
    case ServerMove(_, path) => ServerMoveKeepsLink(m, s.trees, l, path);
    case ServerStop(_) => StopKeepsLink(m, s.trees, l);
    case ServerAsk(_, n) =>
      AskKeepsLink(m, s.trees, l, n);
      AskGrows(m, s.trees, l.view, n);
    case ServerRead(_) => ReadKeepsSystemTrees(m, s.trees, l);
    case ClientReceive(_) => ReceiveKeepsLink(m, s.trees, l);
    case ClientRaise(_) => FlagKeepsLink(m, s.trees, l, l.client.(shallStop := true));
    case ClientFinish(_, result) => FinishKeepsLink(m, s.trees, l, result);
    case ClientShallStop(_, late) => ShallStopKeepsLink(m, s.trees, l, late);
    case ClientEvent(_, late, canFork) => EventKeepsLink(m, s.trees, l, late, canFork);
    case ClientExit(_) => FlagKeepsLink(m, s.trees, l, l.client.(phase := Dead));
    case ForkSplits(_, k, parts) => ForkKeepsLink(m, s.trees, l, k, Split(l.client.forks[k].at, parts));
    case ForkGarbles(_, k) => ForkKeepsLink(m, s.trees, l, k, Garbled(l.client.forks[k].at));
    case ForkIsSat(_, k) => ForkKeepsLink(m, s.trees, l, k, Solved(l.client.forks[k].at, SAT, None));
  }

  lemma SameTrees(m: Meaning, trees: Trees)
    requires TreesOk(m, trees)
    ensures TreesGrow(trees, trees)
  {
  }

  lemma ReadKeepsSystemTrees(m: Meaning, trees: Trees, l: Link)
    requires TreesOk(m, trees) && LinkOk(m, trees, l) && l.up != []
    ensures var (trees1, v) := Read(trees, l.view, l.up[0]);
      LinkOk(m, trees1, l.(view := v, up := l.up[1..])) && TreesOk(m, trees1) && TreesGrow(trees, trees1)
  {
    hide TreesOk, TreeOk, Replays, Read, TreesGrow;
    ReadKeepsLink(m, trees, l);
    ReadGrows(m, trees, l.view, l.up[0]);
  }

  lemma FlagKeepsLink(m: Meaning, trees: Trees, l: Link, c: Client)
    requires LinkOk(m, trees, l)
    requires c == l.client.(shallStop := c.shallStop) || (c == l.client.(phase := Dead) && l.client.phase == Halting)
    requires Running(l.client)
    ensures LinkOk(m, trees, l.(client := c))
  {
  }

  // ---------- the other connections ----------

  /** What a step does to the waiting Or nodes of its own solver: it keeps some of them, or adds
      one that no tree had before. */
  lemma StepWaiting(m: Meaning, s: System, step: Step, o: Path)
    requires SystemOk(m, s) && Enabled(m, s, step) && !step.AddInstance? && !step.Connect?
    requires o in ApplyOn(m, s.trees, s.links[step.id], step).1.view.waiting
    ensures var v := s.links[step.id].view; var v1 := ApplyOn(m, s.trees, s.links[step.id], step).1.view;
      v1.node == v.node && v.node.Some? && v.node.value.name in s.trees &&
      (o in v.waiting || o !in s.trees[v.node.value.name].arity)
  {
    hide TreesOk, TreeOk, Replays, ClientOk, AnswerOk, Execute, Receive, Join, AddChild, ReadTree;
    var l := s.links[step.id];
    assert WaitingOk(s.trees, l.view);
    if step.ServerAsk? {
      var at := l.view.node.value;
      AddChildGrows(s.trees[at.name], at.path, "");
    }
  }

  /** A step leaves the Or nodes that another solver waits for empty. */
  lemma StepKeepsOthersWaiting(m: Meaning, s: System, step: Step, j: nat)
    requires SystemOk(m, s) && Enabled(m, s, step) && !step.AddInstance? && !step.Connect?
    requires j in s.links && j != step.id
    requires TreesGrow(s.trees, ApplyOn(m, s.trees, s.links[step.id], step).0)
    ensures WaitingOk(ApplyOn(m, s.trees, s.links[step.id], step).0, s.links[j].view)
  {
    hide TreesOk, TreeOk, Replays, ClientOk, AnswerOk, Execute, Receive, Join, Read, SendAsk;
    var l := s.links[step.id];
    assert LinkOk(m, s.trees, l) && LinkOk(m, s.trees, s.links[j]);
    match step
    case ServerAsk(_, n) => AskKeepsOthersWaiting(s.trees, l.view, n, s.links[j].view);
    case ServerRead(_) =>
      AnswerNamesNode(m, s.trees, l.up[0]);
      ReadKeepsOthersWaiting(s.trees, l.view, l.up[0], s.links[j].view);
    case _ =>
  }

  lemma AskKeepsOthersWaiting(trees: Trees, v: View, n: nat, w: View)
    requires v.node.Some? && IsNode(trees, v.node.value) && WaitingOk(trees, w)
    requires TreesGrow(trees, SendAsk(trees, v, n).0)
    ensures WaitingOk(SendAsk(trees, v, n).0, w)
  {
    hide TreesGrow;
    var at := v.node.value;
    AddChildGrows(trees[at.name], at.path, "");
    if w.node.Some? { GrownIsValid(trees, SendAsk(trees, v, n).0, w.node.value.name); }
  }

  lemma ReadKeepsOthersWaiting(trees: Trees, v: View, ans: Answer, w: View)
    requires WaitingOk(trees, v) && WaitingOk(trees, w) && IsNode(trees, ans.at)
    requires TreesGrow(trees, Read(trees, v, ans).0)
    requires forall o | o in v.waiting && o in w.waiting :: InOtherTrees(v, w)
    ensures WaitingOk(Read(trees, v, ans).0, w)
  {
    hide Read, TreesGrow;
    var trees1 := Read(trees, v, ans).0;
    if w.node.Some? {
      var at := w.node.value;
      GrownIsValid(trees, trees1, at.name);
      ReadTouches(trees, v, ans, at.name, at.path);
      forall o | o in w.waiting
        ensures o in trees1[at.name].arity && trees1[at.name].arity[o] == 0
      {
        ReadTouches(trees, v, ans, at.name, o);
      }
    }
  }

  lemma StepKeepsSeparate(m: Meaning, s: System, step: Step)
    requires SystemOk(m, s) && Enabled(m, s, step) && !step.AddInstance? && !step.Connect?
    ensures Separate(Apply(m, s, step).links)
  {
    hide TreesOk, LinkOk, EnabledOn, ApplyOn;
    var links := Apply(m, s, step).links;
    forall i, j, o | i in links && j in links && i != j && o in links[i].view.waiting && o in links[j].view.waiting
      ensures InOtherTrees(links[i].view, links[j].view)
    {
      if i == step.id { FreshWaiting(m, s, step, j, o); }
      if j == step.id { FreshWaiting(m, s, step, i, o); }
    }
  }

  lemma FreshWaiting(m: Meaning, s: System, step: Step, j: nat, o: Path)
    requires SystemOk(m, s) && Enabled(m, s, step) && !step.AddInstance? && !step.Connect?
    requires j in s.links && j != step.id && o in s.links[j].view.waiting
    requires o in ApplyOn(m, s.trees, s.links[step.id], step).1.view.waiting
    ensures InOtherTrees(ApplyOn(m, s.trees, s.links[step.id], step).1.view, s.links[j].view)
  {
    hide TreesOk, Replays, ClientOk, AnswerOk, EnabledOn, ApplyOn;
    StepWaiting(m, s, step, o);
    assert LinkOk(m, s.trees, s.links[j]);
  }

  /** Every step keeps the system in order. */
  lemma StepKeepsSystem(m: Meaning, s: System, step: Step)
    requires SystemOk(m, s) && Enabled(m, s, step)
    ensures SystemOk(m, Apply(m, s, step))
  {
    hide LinkOk, TreesOk, EnabledOn, ApplyOn, Separate, SendAsk, Read;
    match step
    case AddInstance(name, smt) => AddInstanceKeepsSystem(m, s, name, smt);
    case Connect(id) => ConnectKeepsSystem(m, s, id);
    case _ =>
      var (trees, l) := ApplyOn(m, s.trees, s.links[step.id], step);
      StepKeepsLink(m, s, step);
      StepKeepsSeparate(m, s, step);
      StepKeepsOtherLinks(m, s, step);
  }

  lemma StepKeepsOtherLinks(m: Meaning, s: System, step: Step)
    requires SystemOk(m, s) && Enabled(m, s, step) && !step.AddInstance? && !step.Connect?
    ensures forall j | j in s.links && j != step.id ::
      LinkOk(m, ApplyOn(m, s.trees, s.links[step.id], step).0, s.links[j])
  {
    hide LinkOk, TreesOk, EnabledOn, ApplyOn, Separate, TreesGrow;
    StepKeepsLink(m, s, step);
    forall j | j in s.links && j != step.id
      ensures LinkOk(m, ApplyOn(m, s.trees, s.links[step.id], step).0, s.links[j])
    {
      StepKeepsOthersWaiting(m, s, step, j);
      OtherLink(m, s.trees, ApplyOn(m, s.trees, s.links[step.id], step).0, s.links[j]);
    }
  }

  lemma OtherLink(m: Meaning, trees: Trees, trees1: Trees, l: Link)
    requires LinkOk(m, trees, l) && TreesGrow(trees, trees1) && WaitingOk(trees1, l.view)
    ensures LinkOk(m, trees1, l)
  {
    LinkStable(m, trees, trees1, l);
  }

  lemma AddInstanceKeepsSystem(m: Meaning, s: System, name: string, smt: string)
    requires SystemOk(m, s) && name !in s.trees
    ensures SystemOk(m, s.(trees := s.trees[name := NewTree(smt)]))
  {
    hide LinkOk, TreeOk, Separate;
    NewTreeOk(m, smt);
    var trees := s.trees[name := NewTree(smt)];
    assert TreesOk(m, trees) && TreesGrow(s.trees, trees);
    forall j | j in s.links
      ensures LinkOk(m, trees, s.links[j])
    {
      assert LinkOk(m, s.trees, s.links[j]);
      WaitingSurvivesNewInstance(m, s.trees, trees, s.links[j]);
      OtherLink(m, s.trees, trees, s.links[j]);
    }
  }

  lemma WaitingSurvivesNewInstance(m: Meaning, trees: Trees, trees1: Trees, l: Link)
    requires LinkOk(m, trees, l) && trees.Keys <= trees1.Keys && forall name | name in trees :: trees1[name] == trees[name]
    ensures WaitingOk(trees1, l.view)
  {
  }

  lemma NewTreeOk(m: Meaning, smt: string)
    ensures NewTree(smt).Valid() && TreeOk(m, NewTree(smt))
  {
    var t := NewTree(smt);
    assert forall p | p in t.arity :: p == [];
  }

  lemma ConnectKeepsSystem(m: Meaning, s: System, id: nat)
    requires SystemOk(m, s) && id !in s.links
    ensures SystemOk(m, s.(links := s.links[id := Link(IDLE, [], NEW_CLIENT, [])]))
  {
    hide TreesOk;
    assert LinkOk(m, s.trees, Link(IDLE, [], NEW_CLIENT, []));
  }

  // ---------- runs ----------

  ghost predicate Legal(m: Meaning, s: System, steps: seq<Step>)
    decreases |steps|
  {
    steps != [] ==> Enabled(m, s, steps[0]) && Legal(m, Apply(m, s, steps[0]), steps[1..])
  }

  ghost function Run(m: Meaning, s: System, steps: seq<Step>): System
    requires Legal(m, s, steps)
    decreases |steps|
  {
    if steps == [] then s else Run(m, Apply(m, s, steps[0]), steps[1..])
  }

  lemma {:induction false} RunKeepsSystem(m: Meaning, s: System, steps: seq<Step>)
    requires SystemOk(m, s) && Legal(m, s, steps)
    ensures SystemOk(m, Run(m, s, steps))
    decreases |steps|
  {
    hide SystemOk;
    if steps != [] {
      StepKeepsSystem(m, s, steps[0]);
      RunKeepsSystem(m, Apply(m, s, steps[0]), steps[1..]);
    }
  }

  /** Everything reachable from the empty system is in order. */
  lemma Reachable(m: Meaning, steps: seq<Step>)
    requires Legal(m, START, steps)
    ensures SystemOk(m, Run(m, START, steps))
  {
    RunKeepsSystem(m, START, steps);
  }

  lemma TreesGrowOn(trees: Trees, trees1: Trees, trees2: Trees)
    requires TreesGrow(trees, trees1) && TreesGrow(trees1, trees2)
    ensures TreesGrow(trees, trees2)
  {
    forall name | name in trees
      ensures FormulasKept(trees[name], trees2[name])
    {
      assert FormulasKept(trees[name], trees1[name]) && FormulasKept(trees1[name], trees2[name]);
    }
  }

  lemma StepGrows(m: Meaning, s: System, step: Step)
    requires SystemOk(m, s) && Enabled(m, s, step)
    ensures TreesGrow(s.trees, Apply(m, s, step).trees)
  {
    hide LinkOk, TreeOk, EnabledOn, ApplyOn, Separate;
    SameTrees(m, s.trees);
    match step
    case AddInstance(name, smt) => NewTreeOk(m, smt);
    case Connect(_) =>
    case _ => StepKeepsLink(m, s, step);
  }

  /** Along a run the trees only grow. */
  lemma {:induction false} RunGrows(m: Meaning, s: System, steps: seq<Step>)
    requires SystemOk(m, s) && Legal(m, s, steps)
    ensures TreesGrow(s.trees, Run(m, s, steps).trees)
    decreases |steps|
  {
    hide TreesGrow, LinkOk, TreeOk;
    if steps == [] {
      SameTrees(m, s.trees);
    } else {
      StepKeepsSystem(m, s, steps[0]);
      StepGrows(m, s, steps[0]);
      RunGrows(m, Apply(m, s, steps[0]), steps[1..]);
      TreesGrowOn(s.trees, Apply(m, s, steps[0]).trees, Run(m, s, steps).trees);
    }
  }

  /** A run is a run of its first steps, followed by a run of the others. */
  lemma {:induction false} RunSplits(m: Meaning, s: System, steps: seq<Step>, k: nat)
    requires Legal(m, s, steps) && k <= |steps|
    ensures Legal(m, s, steps[..k]) && Legal(m, Run(m, s, steps[..k]), steps[k..])
    ensures Run(m, Run(m, s, steps[..k]), steps[k..]) == Run(m, s, steps)
    decreases k
  {
    if k == 0 {
      assert steps[..0] == [] && steps[0..] == steps;
    } else {
      RunSplits(m, Apply(m, s, steps[0]), steps[1..], k - 1);
      assert steps[..k][1..] == steps[1..][..k - 1] && steps[1..][k - 1..] == steps[k..];
    }
  }

  // ---------- the main results ----------

  /** However solvers are asked, moved, stopped and restarted, and however late their answers
      arrive: a node marked unsat has no satisfying assignment, a node marked sat has one. */
  lemma VerdictsAreTrue(m: Meaning, steps: seq<Step>, name: string, p: Path)
    requires Legal(m, START, steps) && name in Run(m, START, steps).trees
    requires p in Run(m, START, steps).trees[name].arity
    ensures var t := Run(m, START, steps).trees[name];
      && (p in t.status && t.status[p] == Unsat ==> Empty(m, t.smt, p))
      && (p in t.status && t.status[p] == Sat ==> !Empty(m, t.smt, p))
  {
    Reachable(m, steps);
    assert TreeOk(m, Run(m, START, steps).trees[name]);
    var t := Run(m, START, steps).trees[name];
    assert TrueVerdict(m, t.smt, p, t.status[p]);
  }

  /** The formula at the root is the one that was submitted, whatever else has happened. */
  lemma SubmittedFormulaStays(m: Meaning, steps: seq<Step>, i: nat, name: string, smt: string)
    requires Legal(m, START, steps) && i < |steps| && steps[i] == AddInstance(name, smt)
    ensures var trees := Run(m, START, steps).trees;
      name in trees && [] in trees[name].arity && [] in trees[name].smt && trees[name].smt[[]] == smt
  {
    hide Legal, Run, SystemOk, Enabled, Apply;
    RunSplits(m, START, steps, i);
    Reachable(m, steps[..i]);
    var s := Run(m, START, steps[..i]);
    assert steps[i..][0] == AddInstance(name, smt);
    FirstStep(m, s, steps[i..]);
    AddedInstance(m, s, name, smt);
    var s1 := Apply(m, s, AddInstance(name, smt));
    StepKeepsSystem(m, s, AddInstance(name, smt));
    RunGrows(m, s1, steps[i..][1..]);
    assert FormulasKept(s1.trees[name], Run(m, START, steps).trees[name]);
  }

  lemma FirstStep(m: Meaning, s: System, steps: seq<Step>)
    requires Legal(m, s, steps) && steps != []
    ensures Enabled(m, s, steps[0]) && Legal(m, Apply(m, s, steps[0]), steps[1..])
    ensures Run(m, s, steps) == Run(m, Apply(m, s, steps[0]), steps[1..])
  {
  }

  lemma AddedInstance(m: Meaning, s: System, name: string, smt: string)
    requires Enabled(m, s, AddInstance(name, smt))
    ensures var trees := Apply(m, s, AddInstance(name, smt)).trees;
      name in trees && trees[name].Valid() && [] in trees[name].arity && [] in trees[name].smt && trees[name].smt[[]] == smt
  {
    NewTreeOk((_, _) => true, smt);
  }

  /** The verdict printed for an instance is the truth about the formula that was submitted. */
  lemma RootVerdictIsTrue(m: Meaning, steps: seq<Step>, i: nat, name: string, smt: string)
    requires Legal(m, START, steps) && i < |steps| && steps[i] == AddInstance(name, smt)
    ensures name in Run(m, START, steps).trees
    ensures var t := Run(m, START, steps).trees[name];
      && [] in t.status
      && (t.status[[]] == Unsat ==> forall a: Assignment :: !m(smt, a))
      && (t.status[[]] == Sat ==> exists a: Assignment :: m(smt, a))
  {
    hide Legal, Run;
    SubmittedFormulaStays(m, steps, i, name, smt);
    Reachable(m, steps);
    var t := Run(m, START, steps).trees[name];
    assert TreeOk(m, t);
    VerdictsAreTrue(m, steps, name, []);
    assert forall a: Assignment :: InF(m, t.smt, [], a) == m(smt, a);
  }

  /** Replaying what is in flight takes a running client to the server's node, with the stack that
      a solve from scratch would build there. */
  lemma ClientsFollowTheServer(m: Meaning, steps: seq<Step>, id: nat)
    requires Legal(m, START, steps) && id in Run(m, START, steps).links
    ensures var s := Run(m, START, steps); var l := s.links[id];
      match AdvanceAll(PlaceOf(l.client), Pending(l))
      case At(ref, stack) =>
        l.view.node == Some(ref) && ref.name in s.trees &&
        Exec(MoveTo(s.trees, ref, None), EMPTY_STACK) == Some(stack)
      case Nowhere => l.view.node == None
      case Gone => true
  {
    Reachable(m, steps);
    var s := Run(m, START, steps);
    var l := s.links[id];
    assert LinkOk(m, s.trees, l);
    assert Pending(l) + [] == Pending(l);
    ReplaysReachesEnd(s.trees, PlaceOf(l.client), Pending(l), [], l.view);
    match AdvanceAll(PlaceOf(l.client), Pending(l))
    case At(ref, stack) => IncrementalEqualsFromScratch(s.trees[ref.name].smt, [], ref.path);
    case _ =>
  }

  /** Partitions land where they were asked for: the Or nodes a solver waits for are empty children
      of the node it works on, so an accepted reply is attached below the node it names, and an
      answer for another node changes nothing. */
  lemma RepliesLandWhereAsked(m: Meaning, steps: seq<Step>, id: nat)
    requires Legal(m, START, steps) && id in Run(m, START, steps).links
    ensures var s := Run(m, START, steps); var v := s.links[id].view;
      && WaitingOk(s.trees, v)
      && (v.node.None? ==> v.waiting == [])
      && (forall o | o in v.waiting && v.node.Some? ::
            o in s.trees[v.node.value.name].arity && o != [] && Parent(o) == v.node.value.path)
      && (forall ans: Answer | v.node != Some(ans.at) :: Read(s.trees, v, ans) == (s.trees, v))
      && (forall ans: Answer | v.node == Some(ans.at) && v.waiting == [] && !ans.Solved? :: Read(s.trees, v, ans).0 == s.trees)
  {
    hide TreesOk, ClientOk, Replays, AnswerOk, Legal, Run, Attach, Report;
    Reachable(m, steps);
    var s := Run(m, START, steps);
    assert LinkOk(m, s.trees, s.links[id]);
    forall ans: Answer | s.links[id].view.node == Some(ans.at) && s.links[id].view.waiting == [] && !ans.Solved?
      ensures Read(s.trees, s.links[id].view, ans).0 == s.trees
    {
      LateRepliesChangeNothing(s.trees, s.links[id].view, ans);
    }
  }

  lemma LateRepliesChangeNothing(trees: Trees, v: View, ans: Answer)
    requires WaitingOk(trees, v) && v.node == Some(ans.at) && v.waiting == [] && !ans.Solved?
    ensures Read(trees, v, ans).0 == trees
  {
  }

  /** A partition reply for a node that is still unknown fills the Or node that waited last with one
      And node per non-empty entry, in order, and the solver waits for what it waited before. */
  lemma ReplyFillsWaiting(trees: Trees, v: View, o: Path, before: seq<Path>, parts: seq<string>)
    requires WaitingOk(trees, v) && v.node.Some? && v.waiting == before + [o] && IsNode(trees, v.node.value)
    requires trees[v.node.value.name].status[v.node.value.path] == Unknown
    ensures var at := v.node.value; var t := trees[at.name]; var (trees1, v1) := Read(trees, v, Split(at, parts));
      && v1 == View(v.node, before) && at.name in trees1 && Grows(t, trees1[at.name])
      && o in t.arity && o in trees1[at.name].arity && trees1[at.name].arity[o] == |Kept(parts)|
      && forall i: nat | i < |Kept(parts)| ::
           Kid(o, i) in trees1[at.name].smt && trees1[at.name].smt[Kid(o, i)] == "(assert " + Kept(parts)[i] + ")"
  {
    hide AddPartitions, Kept, Grows;
    var t := trees[v.node.value.name];
    assert o in v.waiting && DropLast(v.waiting) == before;
    AddPartitionsKids(t, o, parts);
    forall i: nat | i < |Kept(parts)|
      ensures Kid(o, i) in AddPartitions(t, o, parts).smt
      ensures AddPartitions(t, o, parts).smt[Kid(o, i)] == "(assert " + Kept(parts)[i] + ")"
    {
      AddPartitionsText(t, o, parts, i, Kid(o, i));
    }
  }

  /** The server neither moves, stops nor restarts the solver in this step, nor asks it again or reads
      from it. */
  predicate LeavesAlone(step: Step, id: nat) {
    step.AddInstance? || step.id != id ||
    !(step.Connect? || step.ServerSolve? || step.ServerMove? || step.ServerStop? || step.ServerAsk? || step.ServerRead?)
  }

  lemma {:induction false} RecordStays(m: Meaning, s: System, steps: seq<Step>, id: nat)
    requires Legal(m, s, steps) && id in s.links && forall step | step in steps :: LeavesAlone(step, id)
    ensures id in Run(m, s, steps).links && Run(m, s, steps).links[id].view == s.links[id].view
    decreases |steps|
  {
    hide LeavesAlone, Enabled, Apply;
    if steps != [] {
      assert steps[0] in steps;
      StepLeavesAlone(m, s, steps[0], id);
      assert forall step | step in steps[1..] :: step in steps;
      RecordStays(m, Apply(m, s, steps[0]), steps[1..], id);
    }
  }

  lemma StepLeavesAlone(m: Meaning, s: System, step: Step, id: nat)
    requires Enabled(m, s, step) && id in s.links && LeavesAlone(step, id)
    ensures id in Apply(m, s, step).links && Apply(m, s, step).links[id].view == s.links[id].view
  {
    hide Receive, Join, Execute, Read, SendAsk;
  }

  /** What was asked for arrives: after any run, a request, and any further steps that leave the
      solver alone, a reply for the node, still unknown, fills the Or node of the request, and the
      record is that of before the request. */
  lemma AskedPartitionsArrive(m: Meaning, before: seq<Step>, id: nat, n: nat, between: seq<Step>, parts: seq<string>)
    requires Legal(m, START, before) && Enabled(m, Run(m, START, before), ServerAsk(id, n))
    requires Legal(m, Apply(m, Run(m, START, before), ServerAsk(id, n)), between)
    requires forall step | step in between :: LeavesAlone(step, id)
    ensures var s := Run(m, START, before); var s2 := Run(m, Apply(m, s, ServerAsk(id, n)), between);
      id in s.links && s.links[id].view.node.Some? && id in s2.links && s2.links[id].view.node == s.links[id].view.node
    ensures var s := Run(m, START, before); var at := s.links[id].view.node.value;
      at.name in s.trees && at.path in s.trees[at.name].arity
    ensures var s := Run(m, START, before); var s2 := Run(m, Apply(m, s, ServerAsk(id, n)), between);
      var v := s.links[id].view; var at := v.node.value;
      WaitingOk(s2.trees, s2.links[id].view) && IsNode(s2.trees, at) &&
      (s2.trees[at.name].status[at.path] == Unknown ==>
         var (trees3, v3) := Read(s2.trees, s2.links[id].view, Split(at, parts));
         var o := Kid(at.path, s.trees[at.name].arity[at.path]);
         && v3 == v && at.name in trees3 && o in trees3[at.name].arity && trees3[at.name].arity[o] == |Kept(parts)|
         && forall i: nat | i < |Kept(parts)| ::
              Kid(o, i) in trees3[at.name].smt && trees3[at.name].smt[Kid(o, i)] == "(assert " + Kept(parts)[i] + ")")
  {
    hide Legal, Run, SystemOk, Read, Kept;
    var s := Run(m, START, before);
    var s1 := Apply(m, s, ServerAsk(id, n));
    var s2 := Run(m, s1, between);
    var v, at := s.links[id].view, s.links[id].view.node.value;
    var o := Kid(at.path, s.trees[at.name].arity[at.path]);
    assert s1.links[id].view == View(v.node, v.waiting + [o]);
    RecordStays(m, s1, between, id);
    Reachable(m, before);
    StepKeepsSystem(m, s, ServerAsk(id, n));
    RunKeepsSystem(m, s1, between);
    WaitsInOrder(m, s2, id);
    if s2.trees[at.name].status[at.path] == Unknown {
      ReplyFillsWaiting(s2.trees, s2.links[id].view, o, v.waiting, parts);
    }
  }

  lemma WaitsInOrder(m: Meaning, s: System, id: nat)
    requires SystemOk(m, s) && id in s.links
    ensures WaitingOk(s.trees, s.links[id].view)
    ensures s.links[id].view.node.Some? ==> IsNode(s.trees, s.links[id].view.node.value)
  {
    assert LinkOk(m, s.trees, s.links[id]);
  }

  /** Every solve is reported at most once: reported solves are distinct, the one in progress is not
      among them and runs under the branch that a report would name, and the results in flight are
      of different reported solves. */
  lemma EachSolveReportedOnce(m: Meaning, steps: seq<Step>, id: nat)
    requires Legal(m, START, steps) && id in Run(m, START, steps).links
    ensures var c := Run(m, START, steps).links[id].client; var up := Run(m, START, steps).links[id].up;
      && (forall i, j | 0 <= i < j < |c.reported| :: c.reported[i] < c.reported[j])
      && (c.future.Some? ==>
            c.future.value.id !in c.reported && c.future.value.at == c.header && c.future.value.stack == c.stack)
      && (forall ans | ans in up && BySolve(ans) :: ans.solve.value in c.reported)
      && (forall i, j | 0 <= i < j < |up| && BySolve(up[i]) && BySolve(up[j]) :: up[i].solve != up[j].solve)
  {
    Reachable(m, steps);
    var s := Run(m, START, steps);
    assert LinkOk(m, s.trees, s.links[id]);
  }

  /** A result that a step puts into the channel is of the solve in progress, names the branch that
      this solve ran under, and is put on the list of reported solves for the first time. */
  lemma NewResultsAreNew(m: Meaning, steps: seq<Step>, step: Step, ans: Answer)
    requires Legal(m, START, steps) && Enabled(m, Run(m, START, steps), step) && !step.AddInstance? && !step.Connect?
    requires ans in Apply(m, Run(m, START, steps), step).links[step.id].up && BySolve(ans)
    requires ans !in Run(m, START, steps).links[step.id].up
    ensures var c := Run(m, START, steps).links[step.id].client;
      && c.future.Some? && ans.solve.value == c.future.value.id && ans.at == c.future.value.at
      && ans.solve.value !in c.reported
      && ans.solve.value in Apply(m, Run(m, START, steps), step).links[step.id].client.reported
  {
    hide Legal, Run;
    Reachable(m, steps);
    var s := Run(m, START, steps);
    assert LinkOk(m, s.trees, s.links[step.id]);
    ResultIsNew(m, s.trees, s.links[step.id], step, ans);
  }

  lemma ResultIsNew(m: Meaning, trees: Trees, l: Link, step: Step, ans: Answer)
    requires LinkOk(m, trees, l) && !step.AddInstance? && !step.Connect? && EnabledOn(m, trees, l, step)
    requires ans in ApplyOn(m, trees, l, step).1.up && BySolve(ans) && ans !in l.up
    ensures l.client.future.Some? && ans.solve.value == l.client.future.value.id && ans.at == l.client.future.value.at
    ensures ans.solve.value !in l.client.reported && ans.solve.value in ApplyOn(m, trees, l, step).1.client.reported
  {
    hide Replays, WaitingOk, AnswerOk, CorrectAt, Receive, Read, SendAsk, TrueResult;
    assert TaskOk(m, l.client);
  }

  /** In every reachable tree: below an unsat And node everything is unsat; above a sat node
      everything is sat, so nothing is sat while the root is unknown; a partitioned Or node is
      unsat exactly when its children are, and its parent with it. */
  lemma StatusesFitTogether(m: Meaning, steps: seq<Step>, name: string, p: Path, q: Path)
    requires Legal(m, START, steps) && name in Run(m, START, steps).trees
    requires p <= q && q in Run(m, START, steps).trees[name].arity
    ensures var t := Run(m, START, steps).trees[name];
      && t.Valid() && p in t.arity
      && (IsAnd(p) && IsAnd(q) && t.status[p] == Unsat ==> t.status[q] == Unsat)
      && (t.status[q] == Sat ==> t.status[p] == Sat)
      && (!IsAnd(q) && t.arity[q] > 0 ==> (t.status[q] == Unsat <==> t.ChildrenAre(q, Unsat)))
      && (!IsAnd(q) && t.status[q] == Unsat ==> t.status[Parent(q)] == Unsat)
  {
    Reachable(m, steps);
    var t := Run(m, START, steps).trees[name];
    assert TreeOk(m, t);
    PrefixesAttached(t, q, p);
    if !IsAnd(q) { assert OrMatches(t, q); }
    SatClimbsFar(t, p, q);
    if IsAnd(p) && IsAnd(q) { UnsatFallsFar(t, p, q); }
  }

  lemma {:induction false} SatClimbsFar(t: Tree, p: Path, q: Path)
    requires t.Valid() && SatClimbs(t) && q in t.arity && p <= q
    ensures p in t.arity && (t.status[q] == Sat ==> t.status[p] == Sat)
    decreases |q|
  {
    if p != q {
      Prefixes(p, q);
      SatClimbsFar(t, p, Parent(q));
    }
  }

  lemma {:induction false} UnsatFallsFar(t: Tree, p: Path, q: Path)
    requires t.Valid() && UnsatFalls(t) && q in t.arity && p <= q && IsAnd(p) && IsAnd(q)
    ensures p in t.arity && (t.status[p] == Unsat ==> t.status[q] == Unsat)
    decreases |q|
  {
    if p != q {
      Prefixes(p, q);
      var o := Parent(q);
      Prefixes(p, o);
      UnsatFallsFar(t, p, Parent(o));
    }
  }
}
