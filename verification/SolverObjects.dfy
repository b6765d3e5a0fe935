/** The server's record of one solver as an object that works on the linked tree.

    Every method is specified by the function of ServerSide that the protocol is proved with. */
module SolverObjects {
  import opened Wrappers
  import opened Paths
  import ST = StatusTree
  import opened Growth
  import opened Scripts
  import opened Messages
  import opened ServerSide
  import opened Framework
  import ProtocolProofs

  /** Every attached node is still attached. */
  ghost predicate Keeps(s: Shape, s1: Shape) {
    s.nodes.Keys <= s1.nodes.Keys && forall p | p in s.nodes :: s1.nodes[p] == s.nodes[p]
  }

  ghost function RefOf(n: Node): NodeRef {
    NodeRef(n.root.name, n.pos)
  }

  lemma WithChildKeeps(s: Shape, o: Node, n: Node)
    requires s.Valid() && o.pos in s.nodes && s.nodes[o.pos] == o && o.pos in s.kids && n.pos == Kid(o.pos, |s.kids[o.pos]|)
    ensures o.pos in s.kids && o.pos in s.tree.arity && Keeps(s, s.WithChild(o, n))
    ensures s.WithChild(o, n).tree == ST.AddChild(s.tree, o.pos, n.smt)
  {
    hide ST.Tree.Valid, Kid, ST.AddChild, Shape.NodeAt, Shape.UpAt, Shape.KidsAt;
    ShapeAt(s, o.pos);
  }

  /** One And node for each entry of a reply that is not empty. */
  method AddPartitions(o: Node, parts: seq<string>)
    requires o.Attached()
    modifies o`children, o.root`shape
    ensures o.Attached() && Keeps(old(o.root.shape), o.root.shape)
    ensures o.pos in old(o.root.shape.tree.arity)
    ensures o.root.shape.tree == ST.AddPartitions(old(o.root.shape.tree), o.pos, parts)
  {
    hide Root.Valid, ST.Tree.Valid, ST.AddChild, Keeps, ST.AddPartitions, Shape.WithChild;
    NodeInTree(o);
    assert parts[0..] == parts;
    KeepsItself(o.root.shape);
    for i := 0 to |parts|
      invariant o.Attached() && Keeps(old(o.root.shape), o.root.shape)
      invariant o.root.shape.tree.Valid() && o.pos in o.root.shape.tree.arity
      invariant ST.AddPartitions(old(o.root.shape.tree), o.pos, parts) == ST.AddPartitions(o.root.shape.tree, o.pos, parts[i..])
    {
      NextPart(o.root.shape.tree, o.pos, parts, i);
      if parts[i] != "" {
        ghost var s := o.root.shape;
        ShapeIsValid(o);
        var child := o.NewChild(ST.Assertion(parts[i]));
        WithChildKeeps(s, o, child);
        KeepsChains(old(o.root.shape), s, o.root.shape);
        ShapeIsValid(o);
      }
    }
    NoPartsLeft(o.root.shape.tree, o.pos, parts);
  }

  lemma KeepsItself(s: Shape)
    ensures Keeps(s, s)
  {
  }

  lemma KeepsChains(s: Shape, s1: Shape, s2: Shape)
    requires Keeps(s, s1) && Keeps(s1, s2)
    ensures Keeps(s, s2)
  {
  }

  lemma NoPartsLeft(t: ST.Tree, o: Path, parts: seq<string>)
    requires t.Valid() && o in t.arity
    ensures ST.AddPartitions(t, o, parts[|parts|..]) == t
  {
  }

  /** The Or node of a request, and the path that the request names; other waiting Or nodes stay. */
  method OpenRequest(node: Node, waiting: seq<Node>) returns (o: Node, path: Path)
    requires node.Attached() && node.isAnd && forall w | w in waiting :: w.root == node.root && w.Attached()
    modifies node`children, node.root`shape
    ensures node.Attached() && Keeps(old(node.root.shape), node.root.shape)
    ensures path == node.pos && o.root == node.root && o.Attached()
    ensures forall w | w in waiting :: w.root == node.root && w.Attached()
    ensures old(node.root.shape.tree.Valid() && node.pos in node.root.shape.tree.arity)
    ensures o.pos == Kid(node.pos, old(node.root.shape.tree.arity[node.pos]))
    ensures node.root.shape.tree == ST.AddChild(old(node.root.shape.tree), node.pos, "")
  {
    hide Root.Valid, ST.Tree.Valid, ST.AddChild, Shape.WithChild, Kid;
    ghost var s := node.root.shape;
    ShapeIsValid(node);
    NodeInTree(node);
    path := node.PathOf();
    o := node.NewChild("");
    WithChildKeeps(s, node, o);
  }

  lemma NextPart(t: ST.Tree, o: Path, parts: seq<string>, i: nat)
    requires t.Valid() && o in t.arity && i < |parts|
    ensures ST.AddPartitions(t, o, parts[i..]) ==
      ST.AddPartitions(if parts[i] == "" then t else ST.AddChild(t, o, ST.Assertion(parts[i])), o, parts[i + 1..])
  {
    assert parts[i..][1..] == parts[i + 1..];
  }

  lemma ShapeIsValid(n: Node)
    requires n.Attached()
    ensures n.root.shape.Valid() && n.root.shape.tree.Valid() && n.pos in n.root.shape.tree.arity
    ensures var s := n.root.shape;
      && n.pos in s.nodes && s.nodes[n.pos] == n && n.pos in s.kids && s.kids[n.pos] == n.children
  {
    assert n.root.Linked(n.pos);
    ShapeAt(n.root.shape, n.pos);
  }

  /** A reply for an Or node without children: under a solved parent its partitions are cleared. */
  method Fill(o: Node, parts: seq<string>)
    requires o.Attached() && !o.isAnd && o.children == []
    modifies o`children, o.root`shape
    ensures o.Attached() && Keeps(old(o.root.shape), o.root.shape)
    ensures o.pos != [] && old(o.root.shape.tree.Valid() && o.pos in o.root.shape.tree.arity)
    ensures old(o.root.shape.tree.arity[o.pos]) == 0
    ensures o.root.shape.tree == ST.Attach(old(o.root.shape.tree), o.pos, parts)
  {
    hide Root.Valid, ST.Tree.Valid, ST.AddPartitions, ST.Clear, Keeps, Kept, Shape.Without, Parent;
    ghost var s := o.root.shape;
    ShapeIsValid(o);
    NodeInTree(o);
    AddPartitions(o, parts);
    ghost var s1 := o.root.shape;
    ShapeIsValid(o);
    ReplyGrows(s.tree, o.pos, parts);
    ParentOf(o);
    NodeInTree(o.parent);
    if o.parent.status != ST.Unknown {
      ClearUndoesReply(s.tree, o.pos, parts);
      o.Clear();
      ClearedBack(s, s1, o.pos);
    }
  }

  lemma ReplyGrows(t: ST.Tree, o: Path, parts: seq<string>)
    requires t.Valid() && o in t.arity && !IsAnd(o)
    ensures o != [] && Parent(o) in t.status && Parent(o) in ST.AddPartitions(t, o, parts).status
    ensures ST.AddPartitions(t, o, parts).status[Parent(o)] == t.status[Parent(o)]
  {
    hide ST.AddPartitions;
    AddPartitionsKids(t, o, parts);
  }

  lemma ClearedBack(s: Shape, s1: Shape, o: Path)
    requires s.Valid() && s1.Valid() && Keeps(s, s1) && o in s.nodes && s.tree.arity[o] == 0
    requires o in s1.tree.arity
    ensures Keeps(s, s1.Without(o)) && s1.Without(o).tree == ST.Clear(s1.tree, o)
  {
    hide ST.Tree.Valid, ST.Clear, Parent, Shape.NodeAt, Shape.UpAt, Shape.KidsAt;
    NothingBeneath(s.tree, o);
    forall p | p in s.nodes
      ensures p !in ST.Beneath(s1.tree, o)
    {
      assert p !in ST.Beneath(s.tree, o);
    }
  }

  // ---------- a verdict arrives ----------

  /** The verdict of a solver for its node; `Unsat` also goes to every unknown And node below. */
  method Record(node: Node, s: Status)
    requires node.Attached()
    modifies node.root`shape, node.root.shape.nodes.Values`status
    ensures node.Attached() && old(node.root.shape.tree.Valid() && node.pos in node.root.shape.tree.arity)
    ensures node.root.shape == old(node.root.shape).(tree := ST.Report(old(node.root.shape.tree), node.pos, s))
  {
    hide Root.Valid, ST.Tree.Valid, ST.SetStatus, ST.PushUnsat, ST.All, Positions;
    ShapeIsValid(node);
    ghost var t := node.root.shape.tree;
    node.SetStatus(s);
    if s == ST.Unsat {
      SameWalk(t, node.root.shape.tree, node.pos);
      ST.AllBelow(t, node.pos);
      var nodes := node.All();
      MarkUnknown(node, nodes);
    }
  }

  /** Marking the And nodes of a list that are still unknown. */
  method MarkUnknown(top: Node, nodes: seq<Node>)
    requires top.Attached() && forall n | n in nodes :: n.Attached() && n.root == top.root
    modifies top.root`shape, top.root.shape.nodes.Values`status
    ensures top.Attached()
    ensures old(top.root.shape.tree.Valid()) && forall q | q in Positions(nodes) :: q in old(top.root.shape.tree.arity)
    ensures top.root.shape == old(top.root.shape).(tree := ST.PushUnsat(old(top.root.shape.tree), Positions(nodes)))
  {
    hide Root.Valid, ST.Tree.Valid, ST.SetStatus, ST.PushUnsat;
    ghost var ps := Positions(nodes);
    ListIsAttached(top, nodes);
    assert ps[0..] == ps;
    for i := 0 to |nodes|
      invariant top.Attached() && top.root.shape == old(top.root.shape).(tree := top.root.shape.tree)
      invariant top.root.shape.tree.Valid() && forall q | q in ps[i..] :: q in top.root.shape.tree.arity
      invariant ST.PushUnsat(old(top.root.shape.tree), ps) == ST.PushUnsat(top.root.shape.tree, ps[i..])
    {
      var child := nodes[i];
      NodeInTree(child);
      NextPushed(top.root.shape.tree, ps, i);
      if child.status == ST.Unknown && child.isAnd {
        child.SetStatus(ST.Unsat);
      }
    }
    NothingPushed(top.root.shape.tree, ps);
  }

  lemma ListIsAttached(top: Node, nodes: seq<Node>)
    requires top.Attached() && forall n | n in nodes :: n.Attached() && n.root == top.root
    ensures top.root.shape.tree.Valid() && forall q | q in Positions(nodes) :: q in top.root.shape.tree.arity
  {
    ShapeIsValid(top);
    forall n | n in nodes
      ensures n.pos in top.root.shape.tree.arity
    {
      ShapeIsValid(n);
    }
  }

  lemma NextPushed(t: ST.Tree, ps: seq<Path>, i: nat)
    requires t.Valid() && i < |ps| && forall q | q in ps[i..] :: q in t.arity
    ensures ps[i] in t.arity && (forall q | q in ps[i + 1..] :: q in t.arity)
    ensures ST.PushUnsat(t, ps[i..]) ==
      ST.PushUnsat(if t.status[ps[i]] == ST.Unknown && IsAnd(ps[i]) then ST.SetStatus(t, ps[i], ST.Unsat) else t, ps[i + 1..])
  {
    assert ps[i..][1..] == ps[i + 1..] && ps[i..][0] == ps[i];
  }

  lemma NothingPushed(t: ST.Tree, ps: seq<Path>)
    requires t.Valid()
    ensures ST.PushUnsat(t, ps[|ps|..]) == t
  {
  }

  /** The walk depends on the links only. */
  lemma {:induction false} SameWalk(t: ST.Tree, t1: ST.Tree, p: Path)
    requires t.Valid() && t1.Valid() && t1.arity == t.arity && p in t.arity
    ensures ST.All(t1, p) == ST.All(t, p)
    decreases |ST.Below(t, p)|, t.arity[p] + 1
  {
    SameWalkFrom(t, t1, p, 0);
  }

  lemma {:induction false} SameWalkFrom(t: ST.Tree, t1: ST.Tree, p: Path, i: nat)
    requires t.Valid() && t1.Valid() && t1.arity == t.arity && p in t.arity && i <= t.arity[p]
    ensures ST.AllFrom(t1, p, i) == ST.AllFrom(t, p, i)
    decreases |ST.Below(t, p)|, t.arity[p] - i
  {
    if i < t.arity[p] {
      ST.BelowShrinks(t, p, i);
      SameWalk(t, t1, Kid(p, i));
      SameWalkFrom(t, t1, p, i + 1);
    }
  }

  // ---------- the record of a solver ----------

  /** A connected solver: the node it works on, the Or nodes that wait for its partitions, and what
      was written to its socket. */
  class Solver {
    var node: Node?
    var orWaiting: seq<Node>
    var sent: seq<Command>

    constructor ()
      ensures Valid() && Record() == IDLE && sent == []
    {
      node, orWaiting, sent := null, [], [];
    }

    ghost function Record(): View
      reads this
    {
      View(if node == null then None else Some(RefOf(node)), Positions(orWaiting))
    }

    ghost predicate Valid()
      reads this, if node == null then {} else {node.root}
      reads if node == null then {} else node.root.shape.nodes.Values
    {
      if node == null then orWaiting == []
      else
        && node.Attached() && node.isAnd
        && (forall o | o in orWaiting :: o.root == node.root && o.Attached())
        && WaitingOk(map[node.root.name := node.root.shape.tree], Record())
    }

    /** The trees of all instances, as far as this solver is concerned. */
    ghost predicate Shows(trees: Trees)
      reads this, if node == null then {} else {node.root}
    {
      node != null ==> node.root.name in trees && trees[node.root.name] == node.root.shape.tree
    }

    method Solve(to: Node, ghost trees: Trees)
      requires Valid() && to.Attached() && to.isAnd
      requires to.root.name in trees && trees[to.root.name] == to.root.shape.tree
      modifies this
      ensures Valid()
      ensures var (v, out) := SendSolve(trees, old(Record()), RefOf(to)); Record() == v && sent == old(sent) + out
    {
      hide Root.Valid, MoveScript, ST.Tree.Valid;
      NodeInTree(to);
      if node != null { StopSolver(); }
      node := to;
      var smt := to.root.ToString(to, null);
      var path := to.PathOf();
      sent := sent + [Command.Solve(NodeRef(to.root.name, path), smt)];
      assert forall a: seq<Command>, x, y :: a + [x] + [y] == a + [x, y];
    }

    method Incremental(to: Node, ghost trees: Trees)
      requires Valid() && node != null && to.Attached() && to.isAnd && to.root == node.root && Shows(trees)
      modifies this
      ensures Valid()
      ensures var (v, out) := SendIncremental(trees, old(Record()), to.pos); Record() == v && sent == old(sent) + out
    {
      hide Root.Valid, MoveScript;
      NodeInTree(to);
      var smt := node.root.ToString(to, node);
      var path := node.PathOf();
      var path1 := to.PathOf();
      sent := sent + [Command.Incremental(NodeRef(node.root.name, path), path1, smt)];
      orWaiting := [];
      node := to;
    }

    method StopSolver()
      requires Valid() && node != null
      modifies this
      ensures Valid() && (Record(), sent) == (SendStop(old(Record())).0, old(sent) + SendStop(old(Record())).1)
    {
      hide Root.Valid;
      var path := node.PathOf();
      var name := node.root.name;
      node, orWaiting := null, [];
      sent := sent + [Command.Stop(NodeRef(name, path))];
    }

    /** A request adds an Or node below the solver's node and makes it wait. */
    method AskPartitions(n: nat, ghost trees: Trees)
      requires Valid() && node != null && Shows(trees)
      modifies this, node.root`shape, node`children
      ensures node == old(node) && Valid()
      ensures Keeps(old(node.root.shape), node.root.shape)
      ensures WaitingOk(trees, old(Record()))
      ensures var (trees1, v, out) := SendAsk(trees, old(Record()), n);
        Shows(trees1) && Record() == v && sent == old(sent) + out
    {
      hide Root.Valid, ST.AddChild, ST.Tree.Valid, WaitingOk, Keeps;
      ghost var t := node.root.shape.tree;
      ghost var v := Record();
      WaitingIsLocal(trees, map[node.root.name := t], v);
      var o, path := OpenRequest(node, orWaiting);
      PositionsConcat(orWaiting, [o]);
      orWaiting := orWaiting + [o];
      sent := sent + [Command.Partition(NodeRef(node.root.name, path), n)];
      AskedWaits(node.root.name, t, v, node.root.shape.tree, Record());
    }

    /** A report arrives.  It counts only if it names the solver's node.  That partitions were
        received is announced to the scheduler, also if they were cleared again. */
    method Read(answer: Answer, ghost trees: Trees) returns (received: bool)
      requires Valid() && Shows(trees)
      modifies this
      modifies if node == null then {} else {node.root}
      modifies if node == null then {} else node.root.shape.nodes.Values
      ensures node == old(node) && Valid() && sent == old(sent)
      ensures received <==> answer.Split? && old(orWaiting) != [] && node != null && RefOf(node) == answer.at
      ensures WaitingOk(trees, old(Record()))
      ensures var (trees1, v) := ServerSide.Read(trees, old(Record()), answer); Shows(trees1) && Record() == v
    {
      hide Root.Valid, ST.Tree.Valid, WaitingOk, ReadTree;
      received := false;
      if node == null { ShownWaiting(trees); return; }
      ShownWaiting(trees);
      var path := node.PathOf();
      if NodeRef(node.root.name, path) != answer.at { return; }
      ghost var t := node.root.shape.tree;
      ghost var v := Record();
      WaitersAreEmpty();
      Accept(node, orWaiting, answer);
      received := answer.Split? && orWaiting != [];
      if orWaiting != [] && !(answer.Solved? && answer.result == ERROR) {
        orWaiting := orWaiting[..|orWaiting| - 1];
      }
      AnsweredWaits(node.root.name, t, v, answer, node.root.shape.tree, Record());
    }

    lemma WaitersAreEmpty()
      requires Valid()
      ensures forall w | w in orWaiting :: !w.isAnd && w.children == []
    {
      hide Root.Valid, ST.Tree.Valid;
      forall i | 0 <= i < |orWaiting|
        ensures !orWaiting[i].isAnd && orWaiting[i].children == []
      {
        NodeInTree(orWaiting[i]);
        assert Positions(orWaiting)[i] in Record().waiting;
      }
    }

    lemma ShownWaiting(trees: Trees)
      requires Valid() && Shows(trees)
      ensures WaitingOk(trees, Record())
    {
      if node != null { WaitingIsLocal(map[node.root.name := node.root.shape.tree], trees, Record()); }
    }
  }

  /** What an answer does to the tree. */
  method Accept(node: Node, waiting: seq<Node>, answer: Answer)
    requires node.Attached() && node.pos == answer.at.path
    requires forall w | w in waiting :: w.root == node.root && w.Attached() && !w.isAnd && w.children == []
    modifies node.root`shape, node.root.shape.nodes.Values`status, node.root.shape.nodes.Values`children
    ensures node.Attached() && Keeps(old(node.root.shape), node.root.shape)
    ensures old(Fillable(node.root.shape.tree, Positions(waiting), answer))
    ensures node.root.shape.tree == ReadTree(old(node.root.shape.tree), Positions(waiting), answer)
  {
    hide Root.Valid, ST.Tree.Valid, ST.Attach, ST.Report;
    WaitingIsFillable(node, waiting, answer);
    if !answer.Solved? && waiting != [] {
      var o := waiting[|waiting| - 1];
      assert o in waiting && node.root.shape.nodes[o.pos] == o;
      if answer.Split? {
        Fill(o, answer.parts);
      } else {
        NothingToClear(o);
        o.Clear();
      }
    } else if answer.Solved? && answer.result != ERROR {
      Record(node, StatusOf(answer.result));
    }
  }

  ghost predicate Fillable(t: ST.Tree, waiting: seq<Path>, answer: Answer) {
    t.Valid() && answer.at.path in t.arity && forall o | o in waiting :: o != [] && o in t.arity && t.arity[o] == 0
  }

  lemma WaitingIsFillable(node: Node, waiting: seq<Node>, answer: Answer)
    requires node.Attached() && node.pos == answer.at.path
    requires forall w | w in waiting :: w.root == node.root && w.Attached() && !w.isAnd && w.children == []
    ensures Fillable(node.root.shape.tree, Positions(waiting), answer)
  {
    NodeInTree(node);
    forall w | w in waiting
      ensures w.pos != [] && w.pos in node.root.shape.tree.arity && node.root.shape.tree.arity[w.pos] == 0
    {
      NodeInTree(w);
    }
  }

  /** An unreadable reply clears an Or node that is still empty. */
  lemma NothingToClear(o: Node)
    requires o.Attached() && o.children == []
    ensures o.root.shape.tree.Valid() && o.pos in o.root.shape.tree.arity
    ensures o.root.shape.Without(o.pos).tree == o.root.shape.tree && Keeps(o.root.shape, o.root.shape.Without(o.pos))
  {
    hide Root.Valid;
    ShapeIsValid(o);
    NodeInTree(o);
    ClearUndoesReply(o.root.shape.tree, o.pos, []);
    ClearedBack(o.root.shape, o.root.shape, o.pos);
  }

  lemma AnsweredWaits(name: string, t: ST.Tree, v: View, answer: Answer, t1: ST.Tree, v1: View)
    requires WaitingOk(map[name := t], v) && v.node == Some(answer.at) && answer.at.name == name
    requires Fillable(t, v.waiting, answer) && t1 == ReadTree(t, v.waiting, answer)
    requires v1 == View(v.node, ReadWaiting(v.waiting, answer))
    ensures WaitingOk(map[name := t1], v1)
  {
    hide ReadTree, WaitingOk;
    var trees, trees1 := map[name := t], map[name := t1];
    assert trees[name := t1] == trees1;
    assert ServerSide.Read(trees, v, answer) == (trees1, v1);
    ReadKeepsFormulas(t, v.waiting, answer);
    WaitingNamesNode(trees, v);
    ProtocolProofs.ReadKeepsWaiting(trees, trees1, v, answer);
  }

  lemma WaitingNamesNode(trees: Trees, v: View)
    requires WaitingOk(trees, v) && v.node.Some?
    ensures IsNode(trees, v.node.value)
  {
  }

  lemma ReadKeepsFormulas(t: ST.Tree, waiting: seq<Path>, answer: Answer)
    requires Fillable(t, waiting, answer)
    ensures ProtocolProofs.FormulasKept(t, ReadTree(t, waiting, answer))
  {
    hide ST.AddPartitions, ST.Report;
    if answer.Split? && waiting != [] {
      AddPartitionsKids(t, waiting[|waiting| - 1], answer.parts);
    }
  }

  lemma AskedWaits(name: string, t: ST.Tree, v: View, t1: ST.Tree, v1: View)
    requires WaitingOk(map[name := t], v) && v.node.Some? && v.node.value.name == name
    requires t.Valid() && v.node.value.path in t.arity && t1 == ST.AddChild(t, v.node.value.path, "")
    requires v1 == View(v.node, v.waiting + [Kid(v.node.value.path, t.arity[v.node.value.path])])
    ensures WaitingOk(map[name := t1], v1)
  {
    hide ST.AddChild;
    ProtocolProofs.AskKeepsWaiting(map[name := t], v, 0);
    WaitingIsLocal(SendAsk(map[name := t], v, 0).0, map[name := t1], v1);
  }

  lemma WaitingIsLocal(trees: Trees, trees1: Trees, v: View)
    requires v.node.Some? ==> v.node.value.name in trees && v.node.value.name in trees1
    requires v.node.Some? ==> trees1[v.node.value.name] == trees[v.node.value.name]
    ensures WaitingOk(trees, v) == WaitingOk(trees1, v)
  {
  }
}
