/** Every step of the protocol keeps what SystemOk says. */
module ProtocolProofs {
  import opened Wrappers
  import opened Paths
  import opened StatusTree
  import opened Verdicts
  import opened StatusInvariants
  import opened Growth
  import opened Scripts
  import opened Messages
  import opened ServerSide
  import opened ClientSide
  import opened Protocol

  // ---------- growing trees do not disturb a connection ----------

  ghost predicate TreesGrow(trees: Trees, trees1: Trees) {
    && trees.Keys <= trees1.Keys
    && (forall name | name in trees :: FormulasKept(trees[name], trees1[name]))
  }

  ghost predicate FormulasKept(t: Tree, t1: Tree) {
    && t.Valid() && t1.Valid()
    && t.arity.Keys <= t1.arity.Keys
    && t.smt.Keys <= t1.smt.Keys
    && (forall q | q in t.smt :: t1.smt[q] == t.smt[q])
  }

  lemma CorrectAtStable(trees: Trees, trees1: Trees, ref: NodeRef, stack: Stack)
    requires TreesGrow(trees, trees1) && CorrectAt(trees, ref, stack)
    ensures CorrectAt(trees1, ref, stack)
  {
    var t := trees[ref.name];
    forall q | q <= ref.path
      ensures q in t.smt
    {
      PrefixesAttached(t, ref.path, q);
    }
    StackIsFixed(t.smt, trees1[ref.name].smt, ref.path);
  }

  lemma {:induction false} ReplaysStable(trees: Trees, trees1: Trees, p: Place, cmds: seq<Command>, v: View)
    requires TreesGrow(trees, trees1) && Replays(trees, p, cmds, v)
    ensures Replays(trees1, p, cmds, v)
    decreases |cmds|
  {
    if p.At? { CorrectAtStable(trees, trees1, p.ref, p.stack); }
    if cmds != [] { ReplaysStable(trees, trees1, Advance(p, cmds[0]), cmds[1..], v); }
  }

  lemma AnswerStable(m: Meaning, trees: Trees, trees1: Trees, ans: Answer)
    requires TreesGrow(trees, trees1) && AnswerOk(m, trees, ans)
    ensures AnswerOk(m, trees1, ans)
  {
    var t := trees[ans.at.name];
    PartitionIsFixed(m, t, trees1[ans.at.name], ans.at.path);
  }

  lemma ClientStable(m: Meaning, trees: Trees, trees1: Trees, c: Client)
    requires TreesGrow(trees, trees1) && ClientOk(m, trees, c)
    ensures ClientOk(m, trees1, c)
  {
    if Running(c) { CorrectAtStable(trees, trees1, c.header, c.stack); }
    forall f | f in c.forks
      ensures CorrectAt(trees1, f.at, f.stack)
    {
      CorrectAtStable(trees, trees1, f.at, f.stack);
    }
  }

  /** Growing trees keep a connection in order, as long as its waiting Or nodes stay empty. */
  lemma LinkStable(m: Meaning, trees: Trees, trees1: Trees, l: Link)
    requires TreesGrow(trees, trees1) && WaitingOk(trees1, l.view)
    requires ClientOk(m, trees, l.client) && Replays(trees, PlaceOf(l.client), Pending(l), l.view)
    requires (forall ans | ans in l.up :: AnswerOk(m, trees, ans)) && ReportsOk(l.client, l.up)
    ensures LinkOk(m, trees1, l)
  {
    hide ReportsOk;
    ClientStable(m, trees, trees1, l.client);
    ReplaysStable(trees, trees1, PlaceOf(l.client), Pending(l), l.view);
    forall ans | ans in l.up
      ensures AnswerOk(m, trees1, ans)
    {
      AnswerStable(m, trees, trees1, ans);
    }
  }

  // ---------- sending a command ----------

  /** A command that is right for the node of the server's record is right at the end of the
      channel. */
  lemma {:induction false} ReplaysSend(trees: Trees, p: Place, cmds: seq<Command>, v: View, cmd: Command, v1: View)
    requires Replays(trees, p, cmds, v)
    requires forall q | Correct(trees, q) && Matches(q, v) ::
      Expected(q, cmd) && Correct(trees, Advance(q, cmd)) && Matches(Advance(q, cmd), v1)
    ensures Replays(trees, p, cmds + [cmd], v1)
    decreases |cmds|
  {
    if cmds == [] {
      assert cmds + [cmd] == [cmd] && [cmd][1..] == [];
      assert Replays(trees, Advance(p, cmd), [], v1);
    } else {
      assert (cmds + [cmd])[0] == cmds[0] && (cmds + [cmd])[1..] == cmds[1..] + [cmd];
      ReplaysSend(trees, Advance(p, cmds[0]), cmds[1..], v, cmd, v1);
    }
  }

  lemma SendKeepsLink(m: Meaning, trees: Trees, l: Link, cmd: Command, v1: View)
    requires LinkOk(m, trees, l) && WaitingOk(trees, v1)
    requires forall q | Correct(trees, q) && Matches(q, l.view) ::
      Expected(q, cmd) && Correct(trees, Advance(q, cmd)) && Matches(Advance(q, cmd), v1)
    ensures LinkOk(m, trees, l.(view := v1, down := l.down + [cmd]))
  {
    ReplaysSend(trees, PlaceOf(l.client), Pending(l), l.view, cmd, v1);
    assert Pending(l) + [cmd] == Pending(l.(view := v1, down := l.down + [cmd]));
  }

  lemma StopKeepsLink(m: Meaning, trees: Trees, l: Link)
    requires LinkOk(m, trees, l) && l.view.node.Some?
    ensures LinkOk(m, trees, l.(view := IDLE, down := l.down + [Stop(l.view.node.value)]))
    ensures forall q | Correct(trees, q) && Matches(q, l.view) :: Advance(q, Stop(l.view.node.value)) == Gone
  {
    SendKeepsLink(m, trees, l, Stop(l.view.node.value), IDLE);
  }

  lemma SolveFromIdleKeepsLink(m: Meaning, trees: Trees, l: Link, to: NodeRef)
    requires LinkOk(m, trees, l) && l.view == IDLE && IsNode(trees, to)
    ensures LinkOk(m, trees, l.(view := View(Some(to), []), down := l.down + [Solve(to, MoveTo(trees, to, None))]))
  {
    IncrementalEqualsFromScratch(trees[to.name].smt, [], to.path);
    SendKeepsLink(m, trees, l, Solve(to, MoveTo(trees, to, None)), View(Some(to), []));
  }

  lemma ServerSolveKeepsLink(m: Meaning, trees: Trees, l: Link, to: NodeRef)
    requires LinkOk(m, trees, l) && IsNode(trees, to)
    ensures var (v, out) := SendSolve(trees, l.view, to); LinkOk(m, trees, l.(view := v, down := l.down + out))
  {
    var solve := Solve(to, MoveTo(trees, to, None));
    match l.view.node
    case None => SolveFromIdleKeepsLink(m, trees, l, to);
    case Some(at) =>
      StopKeepsLink(m, trees, l);
      var l1 := l.(view := IDLE, down := l.down + [Stop(at)]);
      SolveFromIdleKeepsLink(m, trees, l1, to);
      assert l1.down + [solve] == l.down + [Stop(at), solve];
  }

  lemma ServerMoveKeepsLink(m: Meaning, trees: Trees, l: Link, path: Path)
    requires LinkOk(m, trees, l) && l.view.node.Some? && IsNode(trees, NodeRef(l.view.node.value.name, path))
    ensures var (v, out) := SendIncremental(trees, l.view, path); LinkOk(m, trees, l.(view := v, down := l.down + out))
  {
    hide ClientOk, AnswerOk, Replays, MoveScript;
    var at := l.view.node.value;
    var target := NodeRef(at.name, path);
    IncrementalEqualsFromScratch(trees[at.name].smt, at.path, path);
    SendKeepsLink(m, trees, l, Incremental(at, path, MoveTo(trees, target, Some(at.path))), View(Some(target), []));
  }

  // ---------- the trees ----------

  lemma ReadTreeOk(m: Meaning, t: Tree, waiting: seq<Path>, ans: Answer)
    requires TreeOk(m, t) && ans.at.path in t.arity && IsAnd(ans.at.path)
    requires forall o | o in waiting :: o != [] && o in t.arity && Parent(o) == ans.at.path && t.arity[o] == 0
    requires match ans
      case Solved(at, result, _) => result != UNKNOWN && TrueVerdict(m, t.smt, at.path, StatusOf(result))
      case Split(at, parts) => ReplyCovers(m, t.smt, at.path, parts)
      case Garbled(_) => true
    ensures TreeOk(m, ReadTree(t, waiting, ans)) && FormulasKept(t, ReadTree(t, waiting, ans))
  {
    match ans
    case Split(at, parts) =>
      if waiting != [] {
        var o := waiting[|waiting| - 1];
        OrSharesPartition(m, t, at.path, o);
        AttachSound(m, t, o, parts);
        AttachKeepsInv(t, o, parts);
      }
    case Garbled(_) =>
    case Solved(at, ERROR, _) =>
    case Solved(at, result, _) =>
      ReportSound(m, t, at.path, StatusOf(result));
      ReportKeepsInv(m, t, at.path, StatusOf(result));
  }

  lemma ReadGrows(m: Meaning, trees: Trees, v: View, ans: Answer)
    requires TreesOk(m, trees) && WaitingOk(trees, v) && AnswerOk(m, trees, ans)
    ensures var (trees1, v1) := Read(trees, v, ans);
      TreesGrow(trees, trees1) && TreesOk(m, trees1)
  {
    hide TreeOk, ReadTree, TrueVerdict, ReplyCovers, ReadWaiting, FormulasKept;
    forall name | name in trees
      ensures FormulasKept(trees[name], trees[name])
    {
      KeptAsIs(trees[name]);
    }
    if v.node == Some(ans.at) {
      ReadTreeOk(m, trees[ans.at.name], v.waiting, ans);
    }
  }

  lemma KeptAsIs(t: Tree)
    requires t.Valid()
    ensures FormulasKept(t, t)
  {
  }

  lemma OrSharesPartition(m: Meaning, t: Tree, p: Path, o: Path)
    requires o != [] && Parent(o) == p && IsAnd(p)
    ensures !IsAnd(o) && forall a: Assignment :: InF(m, t.smt, o, a) == InF(m, t.smt, p, a)
  {
  }

  lemma AskGrows(m: Meaning, trees: Trees, v: View, n: nat)
    requires TreesOk(m, trees)
    requires v.node.Some? && IsNode(trees, v.node.value)
    requires trees[v.node.value.name].arity[v.node.value.path] == 0
    ensures var (trees1, v1, out) := SendAsk(trees, v, n);
      TreesGrow(trees, trees1) && TreesOk(m, trees1)
  {
    hide AddChild, Inv, Sound, Covered;
    var t := trees[v.node.value.name];
    AskSound(m, t, v.node.value.path);
    AddChildKeepsInv(t, v.node.value.path, "");
    AddChildGrows(t, v.node.value.path, "");
  }

  /** Reading an answer fills at most the Or node that this solver waited for last. */
  lemma ReadTouches(trees: Trees, v: View, ans: Answer, name: string, q: Path)
    requires WaitingOk(trees, v) && IsNode(trees, ans.at) && name in trees && trees[name].Valid() && q in trees[name].arity
    ensures var (trees1, v1) := Read(trees, v, ans);
      name in trees1 && q in trees1[name].arity &&
      (trees1[name].arity[q] == trees[name].arity[q] ||
       (v.waiting != [] && v1.waiting == DropLast(v.waiting) && v.node == Some(ans.at) && name == ans.at.name &&
        q == v.waiting[|v.waiting| - 1]))
  {
    hide AddPartitions, Report;
    if v.node == Some(ans.at) && ans.Split? && v.waiting != [] {
      AddPartitionsKids(trees[ans.at.name], v.waiting[|v.waiting| - 1], ans.parts);
    }
    if v.node == Some(ans.at) && ans.Solved? {
      ReportKeepsShape(trees[ans.at.name], ans.at.path, StatusOf(ans.result));
    }
  }

  lemma ReportKeepsShape(t: Tree, p: Path, s: Status)
    requires t.Valid() && p in t.arity
    ensures Report(t, p, s).arity == t.arity
  {
  }

  lemma ReadKeepsLink(m: Meaning, trees: Trees, l: Link)
    requires TreesOk(m, trees) && LinkOk(m, trees, l) && l.up != []
    ensures var (trees1, v) := Read(trees, l.view, l.up[0]); LinkOk(m, trees1, l.(view := v, up := l.up[1..]))
  {
    hide TreesOk, Read, ClientOk, TreesGrow, AnswerOk, Replays;
    var ans := l.up[0];
    var (trees1, v) := Read(trees, l.view, ans);
    ReadGrows(m, trees, l.view, ans);
    ReadKeepsNode(trees, l.view, ans);
    ReplaysSameNode(trees, PlaceOf(l.client), Pending(l), l.view, v);
    assert IsNode(trees, ans.at) by { AnswerNamesNode(m, trees, ans); }
    ReadKeepsWaiting(trees, trees1, l.view, ans);
    LinkStable(m, trees, trees1, l.(view := v, up := l.up[1..]));
  }

  lemma AnswerNamesNode(m: Meaning, trees: Trees, ans: Answer)
    requires AnswerOk(m, trees, ans)
    ensures IsNode(trees, ans.at)
  {
  }

  lemma ReadKeepsNode(trees: Trees, v: View, ans: Answer)
    requires WaitingOk(trees, v)
    ensures Read(trees, v, ans).1.node == v.node
  {
  }

  lemma ReadKeepsWaiting(trees: Trees, trees1: Trees, v: View, ans: Answer)
    requires WaitingOk(trees, v) && IsNode(trees, ans.at) && trees1 == Read(trees, v, ans).0
    requires TreesGrow(trees, trees1)
    ensures WaitingOk(trees1, Read(trees, v, ans).1)
  {
    hide Read, TreesGrow;
    ReadShrinksWaiting(trees, v, ans);
    var v1 := Read(trees, v, ans).1;
    if v.node.Some? {
      var name := v.node.value.name;
      forall o | o in v1.waiting
        ensures name in trees1 && o in trees1[name].arity && trees1[name].arity[o] == 0
      {
        ReadTouches(trees, v, ans, name, o);
      }
      assert trees1[name].Valid() by { GrownIsValid(trees, trees1, name); }
      ReadTouches(trees, v, ans, name, v.node.value.path);
    }
  }

  lemma GrownIsValid(trees: Trees, trees1: Trees, name: string)
    requires TreesGrow(trees, trees1) && name in trees
    ensures name in trees1 && trees1[name].Valid()
  {
  }

  lemma ReadShrinksWaiting(trees: Trees, v: View, ans: Answer)
    requires WaitingOk(trees, v)
    ensures var v1 := Read(trees, v, ans).1;
      && v1.node == v.node
      && (forall o | o in v1.waiting :: o in v.waiting)
      && (forall i, j | 0 <= i < j < |v1.waiting| :: v1.waiting[i] != v1.waiting[j])
      && (v1.waiting != v.waiting ==> v1.waiting == DropLast(v.waiting) && v.waiting[|v.waiting| - 1] !in v1.waiting)
  {
    DropLastKeeps(v.waiting);
  }

  lemma DropLastKeeps(w: seq<Path>)
    requires forall i, j | 0 <= i < j < |w| :: w[i] != w[j]
    ensures forall i, j | 0 <= i < j < |DropLast(w)| :: DropLast(w)[i] != DropLast(w)[j]
    ensures forall o | o in DropLast(w) :: o in w && o != w[|w| - 1]
  {
  }

  lemma {:induction false} ReplaysSameNode(trees: Trees, p: Place, cmds: seq<Command>, v: View, v1: View)
    requires Replays(trees, p, cmds, v) && v1.node == v.node
    ensures Replays(trees, p, cmds, v1)
    decreases |cmds|
  {
    if cmds != [] { ReplaysSameNode(trees, Advance(p, cmds[0]), cmds[1..], v, v1); }
  }

  lemma AskKeepsWaiting(trees: Trees, v: View, n: nat)
    requires WaitingOk(trees, v) && v.node.Some?
    ensures var (trees1, v1, out) := SendAsk(trees, v, n); WaitingOk(trees1, v) && WaitingOk(trees1, v1)
  {
    var at := v.node.value;
    AddChildGrows(trees[at.name], at.path, "");
    assert Parent(Kid(at.path, trees[at.name].arity[at.path])) == at.path;
  }

  lemma AskKeepsLink(m: Meaning, trees: Trees, l: Link, n: nat)
    requires TreesOk(m, trees) && LinkOk(m, trees, l)
    requires l.view.node.Some? && IsNode(trees, l.view.node.value)
    requires trees[l.view.node.value.name].arity[l.view.node.value.path] == 0
    ensures var (trees1, v, out) := SendAsk(trees, l.view, n);
      LinkOk(m, trees1, l.(view := v, down := l.down + out))
  {
    hide TreesOk, ClientOk, TreesGrow, AnswerOk, Replays, AddChild;
    var (trees1, v, out) := SendAsk(trees, l.view, n);
    AskGrows(m, trees, l.view, n);
    AskKeepsWaiting(trees, l.view, n);
    LinkStable(m, trees, trees1, l);
    PartitionKeepsLink(m, trees1, l, n, v);
  }

  lemma PartitionKeepsLink(m: Meaning, trees: Trees, l: Link, n: nat, v: View)
    requires LinkOk(m, trees, l) && l.view.node.Some? && v.node == l.view.node && WaitingOk(trees, v)
    ensures LinkOk(m, trees, l.(view := v, down := l.down + [Partition(l.view.node.value, n)]))
  {
    SendKeepsLink(m, trees, l, Partition(l.view.node.value, n), v);
  }
}
