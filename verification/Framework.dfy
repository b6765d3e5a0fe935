/** The partition tree as the server holds it: linked node objects, updated in place.

    Each method is specified by the functions on tree values in StatusTree and Scripts. */
module Framework {
  import opened Wrappers
  import opened Paths
  import ST = StatusTree
  import opened Growth
  import opened Scripts

  type Status = ST.Status

  /** What the links of a tree are: the attached nodes by position, their parents and children, and
      the tree they represent. */
  datatype Shape = Shape(nodes: map<Path, Node>, up: map<Path, Node?>, kids: map<Path, seq<Node>>, tree: ST.Tree)
  {
    ghost predicate Valid() {
      && tree.Valid()
      && (forall p | p in tree.arity :: p in nodes)
      && (forall p | p in nodes :: p in tree.arity && NodeAt(p) && UpAt(p) && KidsAt(p))
    }

    ghost predicate NodeAt(p: Path) {
      p in nodes && p in tree.smt && nodes[p].pos == p && nodes[p].isAnd == IsAnd(p) && nodes[p].smt == tree.smt[p]
    }

    ghost predicate UpAt(p: Path) {
      p in up && if p == [] then up[p] == null else Parent(p) in nodes && up[p] == nodes[Parent(p)]
    }

    ghost predicate KidsAt(p: Path) {
      && p in kids && p in tree.arity && |kids[p]| == tree.arity[p]
      && forall i: nat | i < |kids[p]| :: Kid(p, i) in nodes && kids[p][i] == nodes[Kid(p, i)]
    }

    /** The shape after `n` was linked below `parent`. */
    ghost function WithChild(parent: Node, n: Node): Shape
      requires parent.pos in kids && tree.Valid() && parent.pos in tree.arity
    {
      Shape(nodes[n.pos := n],
            up[n.pos := parent],
            kids[parent.pos := kids[parent.pos] + [n]][n.pos := []],
            ST.AddChild(tree, parent.pos, n.smt))
    }

    /** The shape after the children of the node at `o` were dropped. */
    ghost function Without(o: Path): Shape
      requires tree.Valid() && o in tree.arity
    {
      var gone := ST.Beneath(tree, o);
      Shape(nodes - gone, up - gone, (kids - gone)[o := []], ST.Clear(tree, o))
    }
  }

  lemma WithoutValid(s: Shape, o: Path)
    requires s.Valid() && o in s.nodes
    ensures o in s.tree.arity && s.Without(o).Valid()
    ensures forall p | p == o || p == [] :: p in s.nodes && p in s.Without(o).nodes && s.Without(o).nodes[p] == s.nodes[p]
  {
    hide ST.Beneath, ST.Tree.Valid, Kid, Parent, IsAnd;
    ShapeAt(s, o);
    var s1 := s.Without(o);
    ST.ClearedIsValid(s.tree, o);
    ST.RootIsAttached(s.tree);
    forall q | q in s1.nodes
      ensures s1.NodeAt(q) && s1.UpAt(q) && s1.KidsAt(q)
    {
      hide Shape.Valid, Shape.NodeAt, Shape.UpAt, Shape.KidsAt;
      ShapeAt(s, q);
      NodeSurvives(s, o, q);
    }
  }

  lemma NodeSurvives(s: Shape, o: Path, q: Path)
    requires s.tree.Valid() && o in s.tree.arity && o in s.nodes
    requires q in s.nodes && q in s.tree.arity && q !in ST.Beneath(s.tree, o) && s.NodeAt(q) && s.UpAt(q) && s.KidsAt(q)
    ensures s.Without(o).NodeAt(q) && s.Without(o).UpAt(q) && s.Without(o).KidsAt(q)
  {
    hide ST.Beneath, ST.Clear, ST.Tree.Valid, Kid, Parent, IsAnd;
    ClearedEntry(s.tree, o, q);
    if q != [] { ST.ParentSurvives(s.tree, o, q); }
    if q != o {
      forall i: nat {:trigger Kid(q, i)} | i < s.tree.arity[q]
        ensures Kid(q, i) !in ST.Beneath(s.tree, o)
      {
        ST.OtherKidsStay(s.tree, o, q, i);
      }
    }
  }

  lemma WithoutEntry(s: Shape, o: Path, p: Path)
    requires s.Valid() && o in s.nodes && p in s.Without(o).nodes
    ensures p in s.nodes && p in s.up && p in s.kids && p in s.tree.status
    ensures var s1 := s.Without(o);
      && p in s1.up && p in s1.kids && p in s1.tree.status
      && s1.nodes[p] == s.nodes[p] && s1.up[p] == s.up[p] && s1.tree.status[p] == s.tree.status[p]
      && s1.kids[p] == (if p == o then [] else s.kids[p]) && (s.nodes[p] == s.nodes[o] <==> p == o)
  {
    hide ST.Clear, ST.Beneath, ST.Tree.Valid;
    ShapeAt(s, p);
    AttachedElsewhere(s, o, p);
    ClearedEntry(s.tree, o, p);
  }

  lemma ClearedEntry(t: ST.Tree, o: Path, q: Path)
    requires t.Valid() && o in t.arity && q in t.arity && q !in ST.Beneath(t, o)
    ensures q in t.smt && q in t.status
    ensures var r := ST.Clear(t, o);
      && q in r.arity && q in r.smt && q in r.status
      && r.smt[q] == t.smt[q] && r.status[q] == t.status[q] && r.arity[q] == if q == o then 0 else t.arity[q]
  {
    hide ST.Beneath, ST.Tree.Valid;
    assert t.smt.Keys == t.arity.Keys == t.status.Keys by { KeysAgree(t); }
  }

  lemma KeysAgree(t: ST.Tree)
    requires t.Valid()
    ensures t.smt.Keys == t.arity.Keys == t.status.Keys
  {
  }

  lemma AddedStatus(t: ST.Tree, p: Path, smt: string)
    requires t.Valid() && p in t.arity
    ensures Kid(p, t.arity[p]) !in t.status
    ensures ST.AddChild(t, p, smt).status == t.status[Kid(p, t.arity[p]) := ST.Unknown]
  {
    AddedNode(t, p, smt);
  }

  lemma WithChildValid(s: Shape, parent: Node, n: Node)
    requires s.Valid() && parent.pos in s.nodes && s.nodes[parent.pos] == parent
    requires n.pos == Kid(parent.pos, s.tree.arity[parent.pos]) && n.isAnd == !parent.isAnd
    ensures parent.pos in s.kids && parent.pos in s.tree.arity && n.pos !in s.nodes
    ensures s.WithChild(parent, n).Valid()
  {
    hide ST.AddChild, ST.Tree.Valid, Kid, Parent, IsAnd;
    AddedNode(s.tree, parent.pos, n.smt);
    ShapeAt(s, parent.pos);
    var s1 := s.WithChild(parent, n);
    forall q | q in s1.nodes
      ensures s1.NodeAt(q) && s1.UpAt(q) && s1.KidsAt(q)
    {
      hide Shape.Valid, Shape.NodeAt, Shape.UpAt, Shape.KidsAt;
      if q in s.nodes {
        ShapeAt(s, q);
        OldNodeStays(s, parent, n, q);
      } else {
        NewNodeFits(s, parent, n);
      }
    }
  }

  lemma ShapeAt(s: Shape, p: Path)
    requires s.Valid() && p in s.nodes
    ensures s.tree.Valid() && p in s.tree.arity && s.NodeAt(p) && s.UpAt(p) && s.KidsAt(p)
    ensures Kid(p, s.tree.arity[p]) !in s.nodes && |s.kids[p]| == s.tree.arity[p]
    ensures s.nodes[p].pos == p && (forall q | q in s.nodes :: s.nodes[q].pos == q)
  {
    AddedNode(s.tree, p, "");
    assert forall q | q in s.nodes :: s.NodeAt(q);
  }

  lemma OldNodeStays(s: Shape, parent: Node, n: Node, q: Path)
    requires s.tree.Valid() && parent.pos in s.nodes && parent.pos in s.kids && parent.pos in s.tree.arity
    requires n.pos == Kid(parent.pos, s.tree.arity[parent.pos]) && n.pos !in s.nodes
    requires q in s.nodes && q in s.tree.arity && s.NodeAt(q) && s.UpAt(q) && s.KidsAt(q)
    ensures s.WithChild(parent, n).NodeAt(q) && s.WithChild(parent, n).UpAt(q) && s.WithChild(parent, n).KidsAt(q)
  {
    hide ST.AddChild, ST.Tree.Valid, Kid, Parent, IsAnd;
    AddedNode(s.tree, parent.pos, n.smt);
  }

  lemma NewNodeFits(s: Shape, parent: Node, n: Node)
    requires s.tree.Valid() && parent.pos in s.nodes && parent.pos in s.kids && parent.pos in s.tree.arity
    requires n.pos == Kid(parent.pos, s.tree.arity[parent.pos]) && n.pos !in s.nodes && n.isAnd == !parent.isAnd
    requires s.NodeAt(parent.pos) && s.nodes[parent.pos] == parent
    ensures s.WithChild(parent, n).NodeAt(n.pos) && s.WithChild(parent, n).UpAt(n.pos) && s.WithChild(parent, n).KidsAt(n.pos)
  {
    hide ST.AddChild, ST.Tree.Valid, Kid, Parent, IsAnd;
    AddedNode(s.tree, parent.pos, n.smt);
  }

  /** An And or Or node.  `pos` is where it is attached. */
  class Node {
    const root: Root
    const isAnd: bool
    const smt: string
    var parent: Node?
    var children: seq<Node>
    var status: Status
    ghost const pos: Path

    constructor (root: Root, parent: Node?, smt: string, isAnd: bool, ghost pos: Path)
      ensures this.root == root && this.parent == parent && this.smt == smt && this.isAnd == isAnd
      ensures children == [] && status == ST.Unknown && this.pos == pos
    {
      this.root, this.smt, this.isAnd := root, smt, isAnd;
      this.parent, this.children, this.status, this.pos := parent, [], ST.Unknown, pos;
    }

    /** An attached node of a valid tree. */
    ghost predicate Attached()
      reads root, root.shape.nodes.Values
    {
      root.Valid() && pos in root.shape.nodes && root.shape.nodes[pos] == this
    }

    /** A new node is linked as the last child of its parent. */
    method NewChild(smt: string) returns (n: Node)
      requires Attached()
      modifies this`children, root`shape
      ensures fresh(n) && n.Attached() && n.root == root && n.smt == smt && n.status == ST.Unknown
      ensures n.pos == Kid(pos, old(|children|)) && children == old(children) + [n] && n.children == []
      ensures root.shape == old(root.shape).WithChild(this, n)
    {
      hide Shape.Valid, Shape.NodeAt, Shape.UpAt, Shape.KidsAt, ST.AddChild, ST.Tree.Valid, Kid, Parent, IsAnd;
      ghost var s := root.shape;
      ShapeAt(s, pos);
      n := new Node(root, this, smt, !isAnd, Kid(pos, |children|));
      WithChildValid(s, this, n);
      AddedStatus(s.tree, pos, smt);
      children := children + [n];
      root.shape := s.WithChild(this, n);
      forall p | p in root.shape.nodes
        ensures root.Linked(p)
      {
        if p in s.nodes {
          assert old(root.Linked(p)) && s.nodes[p] != n && (p != pos ==> s.nodes[p] != this);
        }
      }
    }

    /** Dropping all children of a node, and with them everything below. */
    method Clear()
      requires Attached()
      modifies this`children, root`shape
      ensures old(root.shape.tree.Valid() && pos in root.shape.tree.arity)
      ensures root.shape == old(root.shape).Without(pos)
      ensures Attached() && children == []
    {
      hide Shape.Valid, Shape.NodeAt, Shape.UpAt, Shape.KidsAt, Shape.Without, ST.Tree.Valid;
      ghost var s := root.shape;
      ShapeAt(s, pos);
      WithoutValid(s, pos);
      children := [];
      root.shape := s.Without(pos);
      forall p | p in root.shape.nodes
        ensures root.Linked(p)
      {
        WithoutEntry(s, pos, p);
        assert old(root.Linked(p));
      }
    }

    /** `if node.parent`: a parent counts only if it has children. */
    predicate HasParent()
      reads this, parent
    {
      parent != null && |parent.children| > 0
    }

    /** Position of a child among its siblings. */
    method IndexOf(child: Node) returns (i: nat)
      requires exists j: nat :: j < |children| && children[j] == child
      ensures i < |children| && children[i] == child && child !in children[..i]
    {
      i := 0;
      while children[i] != child
        invariant i < |children| && child !in children[..i]
        decreases |children| - i
      {
        i := i + 1;
      }
    }

    /** The child indices from the root to this node. */
    method PathOf() returns (path: seq<nat>)
      requires Attached()
      ensures path == pos
    {
      hide Root.Valid;
      var node: Node := this;
      path := [];
      if node.pos == [] { NodeInTree(node); } else { ParentOf(node); }
      while node.HasParent()
        invariant node.Attached() && node.root == root && node.pos + Reversed(path) == pos
        invariant node.HasParent() <==> node.pos != []
        decreases |node.pos|
      {
        ParentOf(node);
        var i := node.parent.IndexOf(node);
        KidOf(node.parent, i);
        ReversedSnoc(path, i);
        assert node.pos == node.parent.pos + [i];
        path := path + [i];
        node := node.parent;
        if node.pos == [] { NodeInTree(node); } else { ParentOf(node); }
      }
      path := Reversed(path);
    }

    /** The node is the attached node at `p` of the tree `r`. */
    ghost predicate IsAt(r: Root, p: Path)
      reads root, root.shape.nodes.Values
    {
      Attached() && root == r && pos == p
    }

    /** The And nodes from the root to this node. */
    method PathToNode() returns (path: seq<Node>)
      requires Attached() && isAnd
      ensures |path| == |pos| / 2 + 1
      ensures forall i | 0 <= i < |path| :: path[i].IsAt(root, pos[..2 * i])
    {
      hide Root.Valid, Node.Attached, Node.HasParent, IsAnd, Parent;
      var node: Node := this;
      path := [node];
      ghost var depth: nat := |pos|;
      assert pos == pos[..depth];
      AtDepth(node, pos, depth);
      assert |pos| % 2 == 0;
      while node.HasParent()
        invariant depth <= |pos| && node.IsAt(root, pos[..depth]) && node.HasParent() == (depth > 0)
        invariant |path| == (|pos| - depth) / 2 + 1
        invariant forall i | 0 <= i < |path| :: 2 * i <= |pos| && path[i].IsAt(root, pos[..|pos| - 2 * i])
        decreases depth
      {
        ParentAtDepth(node, pos, depth);
        if node.parent.isAnd {
          path := path + [node.parent];
        }
        node := node.parent;
        depth := depth - 1;
        AtDepth(node, pos, depth);
      }
      ghost var upward := path;
      path := Reversed(path);
      ClimbReversed(root, pos, upward);
    }

    /** Whether every child has the status `s`. */
    method ChildrenHave(s: Status) returns (all: bool)
      requires Attached()
      ensures all <==> root.shape.tree.ChildrenAre(pos, s)
    {
      hide Root.Valid, ST.Tree.Valid;
      NodeInTree(this);
      for i := 0 to |children|
        invariant forall j: nat | j < i :: root.shape.tree.status[Kid(pos, j)] == s
      {
        KidOf(this, i);
        NodeInTree(children[i]);
        if children[i].status != s { return false; }
      }
      return true;
    }

    /** Writing the status field. */
    method Mark(s: Status)
      requires Attached()
      modifies this`status, root`shape
      ensures Attached() && root.shape == Marked(old(root.shape), pos, s)
    {
      hide ST.Tree.Valid, Shape.Valid;
      ghost var shape := root.shape;
      AttachedAt(root, pos);
      MarkedShape(shape, pos, s);
      status := s;
      root.shape := Marked(shape, pos, s);
      forall p | p in root.shape.nodes
        ensures root.Linked(p)
      {
        AttachedElsewhere(shape, pos, p);
        assert old(root.Linked(p));
      }
    }

    /** Assigning a status, which may climb: from an And node when it is `Sat` or shared by all
        siblings, from an Or node always. */
    method SetStatus(s: Status)
      requires Attached()
      modifies root`shape, root.shape.nodes.Values`status
      ensures Attached()
      ensures root.shape == old(root.shape).(tree := ST.SetStatus(old(root.shape.tree), pos, s))
      decreases |pos|
    {
      hide ST.Tree.Valid, Shape.Valid, Root.Valid;
      NodeInTree(this);
      Mark(s);
      if pos == [] { NodeInTree(this); } else { ParentOf(this); }
      if HasParent() {
        if isAnd {
          var shared := s == ST.Sat;
          if !shared { shared := parent.ChildrenHave(s); }
          if shared { parent.SetStatus(s); }
        } else {
          parent.SetStatus(s);
        }
      }
    }

    /** This node and everything below it, in the order of a depth-first walk. */
    method All() returns (nodes: seq<Node>)
      requires Attached()
      ensures Positions(nodes) == ST.All(root.shape.tree, pos)
      ensures forall n | n in nodes :: n.Attached() && n.root == root
      decreases |ST.Below(root.shape.tree, pos)|
    {
      hide Root.Valid, ST.Tree.Valid, Node.Attached, Kid;
      NodeInTree(this);
      nodes := [this];
      for i := 0 to |children|
        invariant ST.All(root.shape.tree, pos) == Positions(nodes) + ST.AllFrom(root.shape.tree, pos, i)
        invariant forall n | n in nodes :: n.Attached() && n.root == root
      {
        KidOf(this, i);
        ST.BelowShrinks(root.shape.tree, pos, i);
        var below := children[i].All();
        PositionsConcat(nodes, below);
        nodes := nodes + below;
      }
    }

    /** The And children of the first Or child that are not solved yet. */
    method Childeren() returns (childs: seq<Node>)
      requires Attached() && isAnd && |children| > 0
      ensures Positions(childs) == ST.UnknownKids(root.shape.tree, Kid(pos, 0), 0)
      ensures forall n | n in childs :: n.Attached() && n.root == root && n.isAnd
    {
      hide Root.Valid, ST.Tree.Valid;
      KidOf(this, 0);
      var or := children[0];
      NodeInTree(or);
      childs := [];
      for i := 0 to |or.children|
        invariant forall n | n in childs :: n.Attached() && n.root == root && n.isAnd
        invariant ST.UnknownKids(root.shape.tree, or.pos, 0) == Positions(childs) + ST.UnknownKids(root.shape.tree, or.pos, i)
      {
        KidOf(or, i);
        NodeInTree(or.children[i]);
        if or.children[i].status == ST.Unknown {
          childs := childs + [or.children[i]];
        }
      }
    }

    /** Whether this node is `node` or above it; nodes of different trees cannot be compared. */
    method IsAncestor(node: Node) returns (r: Option<bool>)
      requires Attached() && node.Attached()
      ensures r == if root == node.root then Some(pos <= node.pos) else None
    {
      hide Root.Valid;
      if root != node.root { return None; }
      var selfp := PathOf();
      var nodep := node.PathOf();
      if |selfp| > |nodep| { return Some(false); }
      for i := 0 to |selfp|
        invariant selfp[..i] == nodep[..i]
      {
        if selfp[i] != nodep[i] { return Some(false); }
      }
      return Some(true);
    }
  }

  // ---------- finding one's way in a valid tree ----------

  lemma TopIsRoot(tree: Root)
    requires tree.Valid()
    ensures tree.top != null && tree.top.IsAt(tree, [])
  {
    ShapeAt(tree.shape, []);
    assert tree.Linked([]);
  }

  /** One step down a path either finds the next node or proves that there is none. */
  lemma StepDown(tree: Root, n: Node, path: Path, i: nat)
    requires i < |path| && n.IsAt(tree, path[..i])
    ensures path[i] < |n.children| ==> n.children[path[i]].IsAt(tree, path[..i + 1])
    ensures path[i] >= |n.children| ==> path !in tree.shape.nodes
  {
    hide Root.Valid, ST.Tree.Valid;
    var q := path[..i + 1];
    assert q == Kid(path[..i], path[i]);
    NodeInTree(n);
    if path[i] < |n.children| {
      KidOf(n, path[i]);
    } else if path in tree.shape.nodes {
      AttachedAt(tree, path);
      PrefixesAttached(tree.shape.tree, path, q);
      IndexIsInRange(tree.shape.tree, q);
    }
  }

  lemma ClimbOnce(s: Node, n: Path)
    requires s.Attached() && !(s.pos <= n)
    ensures s.parent != null && s.parent.Attached() && s.parent.root == s.root && s.parent.pos == Parent(s.pos)
    ensures Climbed(s.pos, n) == Climbed(s.parent.pos, n) + (if s.isAnd then 1 else 0)
    ensures Meet(s.pos, n) == Meet(s.parent.pos, n)
  {
    hide Root.Valid;
    ParentOf(s);
    NodeInTree(s);
  }

  lemma Arrived(s: Path, n: Path)
    requires s <= n
    ensures Climbed(s, n) == 0 && Meet(s, n) == s
  {
  }

  lemma MoveScriptParts(smt: map<Path, string>, n: Path, start: Option<Path>, pops: nat, meet: Option<Path>)
    requires start.None? ==> pops == 0 && meet == None
    requires start.Some? ==> pops == Climbed(start.value, n) && meet == Some(Meet(start.value, n))
    ensures MoveScript(smt, n, start) == Pops(pops) + Down(smt, meet, n)
  {
    assert Pops(0) + Down(smt, None, n) == Down(smt, None, n);
  }

  /** What the second loop of `ToString` has collected in `list`, and what is still above `n`. */
  ghost function Collected(smt: map<Path, string>, q: Option<Path>, n: Node?, list: Script): Script {
    (if n == null then [] else Down(smt, q, n.pos)) + Reversed(list)
  }

  /** One round of that loop. */
  lemma ClimbDown(n: Node, q: Option<Path>, stop: Node?, list: Script)
    requires n.Attached() && n != stop && q == if stop == null then None else Some(stop.pos)
    requires stop != null ==> stop.Attached() && stop.root == n.root && stop.pos <= n.pos
    ensures n.parent == null <==> n.pos == []
    ensures n.parent != null ==>
      n.parent.Attached() && n.parent.root == n.root && |n.parent.pos| < |n.pos| && (stop != null ==> stop.pos <= n.parent.pos)
    ensures n.parent == null ==> stop == null
    ensures Collected(n.root.shape.tree.smt, q, n, list) == Collected(n.root.shape.tree.smt, q, n.parent,
      if !n.isAnd then list else if n == n.root.top then list + [Assert(n.smt)] else list + [Assert(n.smt)] + [Push])
  {
    hide Root.Valid;
    NodeInTree(n);
    if stop != null { SameNode(n, stop); }
    if n.pos != [] {
      ParentOf(n);
      if stop != null { Prefixes(stop.pos, n.pos); }
    }
    EnterReversed(n, list);
  }

  lemma StillToCollect(n: Node, list: Script)
    requires list == []
    ensures forall smt, q :: Collected(smt, q, n, list) == Down(smt, q, n.pos)
  {
  }

  lemma NothingLeft(smt: map<Path, string>, q: Option<Path>, n: Node?, list: Script)
    requires q == if n == null then None else Some(n.pos)
    ensures Collected(smt, q, n, list) == Reversed(list)
  {
  }

  lemma EnterReversed(n: Node, list: Script)
    requires n.Attached()
    ensures n.root.Valid() && (n == n.root.top <==> n.pos == [])
    ensures Enter(n.root.shape.tree.smt, n.pos) + Reversed(list) ==
      Reversed(if !n.isAnd then list else if n == n.root.top then list + [Assert(n.smt)] else list + [Assert(n.smt)] + [Push])
  {
    hide Root.Valid;
    NodeInTree(n);
    TopIsRoot(n.root);
    SameNode(n, n.root.top);
    ReversedSnoc(list, Assert(n.smt));
    ReversedSnoc(list + [Assert(n.smt)], Push);
  }

  lemma ClimbReversed(tree: Root, p: Path, upward: seq<Node>)
    requires |p| % 2 == 0 && |upward| == |p| / 2 + 1
    requires forall j | 0 <= j < |upward| :: upward[j].IsAt(tree, p[..|p| - 2 * j])
    ensures forall i | 0 <= i < |upward| :: Reversed(upward)[i].IsAt(tree, p[..2 * i])
  {
    hide Node.IsAt;
    forall i | 0 <= i < |upward|
      ensures Reversed(upward)[i].IsAt(tree, p[..2 * i])
    {
      var j := |upward| - 1 - i;
      assert |p| - 2 * j == 2 * i;
      assert upward[j].IsAt(tree, p[..|p| - 2 * j]);
      ReversedAt(upward, i);
    }
  }

  lemma AtDepth(n: Node, p: Path, depth: nat)
    requires n.Attached() && depth <= |p| && n.pos == p[..depth]
    ensures n.HasParent() == (depth > 0) && n.isAnd == (depth % 2 == 0) && (depth == |p| ==> p[..depth] == p)
  {
    hide Root.Valid;
    NodeInTree(n);
    if depth > 0 { ParentOf(n); }
  }

  lemma ParentAtDepth(n: Node, p: Path, depth: nat)
    requires n.Attached() && 0 < depth <= |p| && n.pos == p[..depth]
    ensures n.parent != null && n.parent.IsAt(n.root, p[..depth - 1]) && n.parent.isAnd == ((depth - 1) % 2 == 0)
  {
    hide Root.Valid;
    ParentOf(n);
    NodeInTree(n.parent);
    assert p[..depth][..depth - 1] == p[..depth - 1];
  }

  lemma AttachedAt(tree: Root, p: Path)
    requires tree.Valid() && p in tree.shape.nodes
    ensures var s := tree.shape; var n := s.nodes[p];
      && s.tree.Valid() && p in s.tree.arity && s.NodeAt(p) && s.UpAt(p) && s.KidsAt(p)
      && n.Attached() && n.root == tree && n.pos == p
      && n.parent == s.up[p] && n.children == s.kids[p] && p in s.tree.status && n.status == s.tree.status[p]
  {
    ShapeAt(tree.shape, p);
    assert tree.Linked(p);
  }

  lemma ParentOf(n: Node)
    requires n.Attached() && n.pos != []
    ensures n.parent != null && n.parent.Attached() && n.parent.root == n.root
    ensures n.parent.pos == Parent(n.pos) && n.parent.isAnd == !n.isAnd
    ensures Index(n.pos) < |n.parent.children| && n.parent.children[Index(n.pos)] == n
  {
    hide Root.Valid, ST.Tree.Valid;
    var s := n.root.shape;
    AttachedAt(n.root, n.pos);
    AttachedAt(n.root, Parent(n.pos));
    IndexIsInRange(s.tree, n.pos);
  }

  lemma IndexIsInRange(t: ST.Tree, p: Path)
    requires t.Valid() && p in t.arity && p != []
    ensures Parent(p) in t.arity && Index(p) < t.arity[Parent(p)] && Kid(Parent(p), Index(p)) == p
  {
  }

  lemma KidOf(n: Node, i: nat)
    requires n.Attached() && i < |n.children|
    ensures n.children[i].Attached() && n.children[i].root == n.root && n.children[i].pos == Kid(n.pos, i)
    ensures n.children[i].isAnd == !n.isAnd
  {
    hide Root.Valid, ST.Tree.Valid;
    AttachedAt(n.root, n.pos);
    AttachedAt(n.root, Kid(n.pos, i));
  }

  /** What an attached node says about itself is what the tree says at its position. */
  lemma NodeInTree(n: Node)
    requires n.Attached()
    ensures n.root.shape.tree.Valid() && n.pos in n.root.shape.tree.arity && n.isAnd == IsAnd(n.pos)
    ensures n.smt == n.root.shape.tree.smt[n.pos] && n.status == n.root.shape.tree.status[n.pos]
    ensures |n.children| == n.root.shape.tree.arity[n.pos]
    ensures n.pos == [] ==> n.parent == null
  {
    ShapeAt(n.root.shape, n.pos);
    assert n.root.Linked(n.pos);
  }

  /** Nodes are told apart by their positions. */
  lemma SameNode(n: Node, m: Node)
    requires n.Attached() && m.Attached() && n.root == m.root
    ensures n == m <==> n.pos == m.pos
  {
  }

  ghost function Positions(nodes: seq<Node>): (r: seq<Path>)
    ensures |r| == |nodes| && forall i | 0 <= i < |r| :: r[i] == nodes[i].pos
  {
    seq(|nodes|, i requires 0 <= i < |nodes| => nodes[i].pos)
  }

  lemma PositionsConcat(a: seq<Node>, b: seq<Node>)
    ensures Positions(a + b) == Positions(a) + Positions(b)
  {
  }

  /** The shape after the status at `p` was assigned. */
  ghost function Marked(s: Shape, p: Path, status: Status): Shape {
    s.(tree := s.tree.(status := s.tree.status[p := status]))
  }

  lemma MarkedShape(s: Shape, p: Path, status: Status)
    requires s.Valid() && p in s.nodes
    ensures Marked(s, p, status).Valid()
  {
    var s1 := Marked(s, p, status);
    ShapeAt(s, p);
    assert s1.tree.Valid();
    forall q | q in s1.nodes
      ensures q in s1.tree.arity && s1.NodeAt(q) && s1.UpAt(q) && s1.KidsAt(q)
    {
      ShapeAt(s, q);
    }
  }

  lemma AttachedElsewhere(s: Shape, p: Path, q: Path)
    requires s.Valid() && p in s.nodes && q in s.nodes
    ensures s.nodes[p] == s.nodes[q] <==> p == q
  {
    ShapeAt(s, p);
  }

  /** `list.reverse()`. */
  function Reversed<T>(s: seq<T>): (r: seq<T>)
    ensures |r| == |s|
  {
    if s == [] then [] else Reversed(s[1..]) + [s[0]]
  }

  lemma {:induction false} ReversedAt<T>(s: seq<T>, i: nat)
    requires i < |s|
    ensures Reversed(s)[i] == s[|s| - 1 - i]
    decreases |s|
  {
    if i < |s| - 1 { ReversedAt(s[1..], i); }
  }

  lemma {:induction false} ReversedSnoc<T>(s: seq<T>, x: T)
    ensures Reversed(s + [x]) == [x] + Reversed(s)
  {
    if s != [] {
      assert (s + [x])[1..] == s[1..] + [x];
      ReversedSnoc(s[1..], x);
    }
  }

  /** The root of an instance's tree.  `shape` keeps track of what the objects represent. */
  class Root {
    const name: string
    var top: Node?
    ghost var shape: Shape

    ghost predicate Valid()
      reads this, shape.nodes.Values
    {
      && shape.Valid()
      && [] in shape.nodes && shape.nodes[[]] == top
      && forall p | p in shape.nodes :: Linked(p)
    }

    /** The object at `p` is linked and marked as `shape` says. */
    ghost predicate Linked(p: Path)
      requires p in shape.nodes
      reads this, shape.nodes.Values
    {
      var n := shape.nodes[p];
      && p in shape.up && p in shape.kids && p in shape.tree.status
      && n.root == this && n.parent == shape.up[p] && n.children == shape.kids[p] && n.status == shape.tree.status[p]
    }

    /** A new instance: a single And node with the submitted formula. */
    constructor (name: string, smt: string)
      ensures this.name == name && Valid() && fresh(shape.nodes.Values)
      ensures top != null && fresh(top) && top.root == this && top.pos == [] && top.isAnd && top.Attached()
      ensures shape.tree == ST.Tree(map[[] := smt], map[[] := 0], map[[] := ST.Unknown])
    {
      this.name, this.top := name, null;
      shape := Shape(map[], map[], map[], ST.Tree(map[], map[], map[]));
      new;
      top := new Node(this, null, smt, true, []);
      shape := Shape(map[[] := top], map[[] := null], map[[] := []],
                     ST.Tree(map[[] := smt], map[[] := 0], map[[] := ST.Unknown]));
    }

    /** The node at a path of child indices, if there is one. */
    method Child(path: Path) returns (r: Option<Node>)
      requires Valid()
      ensures r == if path in shape.nodes then Some(shape.nodes[path]) else None
    {
      hide Root.Valid, Kid, Parent;
      TopIsRoot(this);
      var node: Node := top;
      assert path[..0] == [];
      for i := 0 to |path|
        invariant node.IsAt(this, path[..i])
      {
        StepDown(this, node, path, i);
        if path[i] >= |node.children| { return None; }
        node := node.children[path[i]];
      }
      assert path[..|path|] == path;
      return Some(node);
    }

    /** The script that takes a solver from `start`, or from nothing, to `node`. */
    method ToString(node: Node, start: Node?) returns (script: Script)
      requires node.Attached() && node.root == this
      requires start != null ==> start.Attached() && start.root == this
      ensures script == MoveScript(shape.tree.smt, node.pos, if start == null then None else Some(start.pos))
    {
      hide Root.Valid, MoveScript, Climbed, Meet, Down, Pops;
      var nPop := 0;
      var stop := start;
      if stop != null {
        var above := stop.IsAncestor(node);
        while above == Some(false)
          invariant stop != null && stop.Attached() && stop.root == this
          invariant above == Some(stop.pos <= node.pos)
          invariant Climbed(start.pos, node.pos) == nPop + Climbed(stop.pos, node.pos)
          invariant Meet(start.pos, node.pos) == Meet(stop.pos, node.pos)
          decreases |stop.pos|
        {
          ClimbOnce(stop, node.pos);
          if stop.isAnd { nPop := nPop + 1; }
          stop := stop.parent;
          above := stop.IsAncestor(node);
        }
        Arrived(stop.pos, node.pos);
      }
      script := Below(node, stop);
      script := Pops(nPop) + script;
      assert MoveScript(shape.tree.smt, node.pos, if start == null then None else Some(start.pos)) == script by {
        MoveScriptParts(shape.tree.smt, node.pos, if start == null then None else Some(start.pos),
                        nPop, if stop == null then None else Some(stop.pos));
      }
    }

    /** The second loop of `ToString`: the formulas from below `stop` down to `node`, collected
        from the end. */
    method Below(node: Node, stop: Node?) returns (script: Script)
      requires node.Attached() && node.root == this
      requires stop != null ==> stop.Attached() && stop.root == this && stop.pos <= node.pos
      ensures script == Down(shape.tree.smt, if stop == null then None else Some(stop.pos), node.pos)
    {
      hide Root.Valid, Down, Enter, Collected, Reversed;
      var smt: Script := [];
      var n: Node? := node;
      ghost var q := if stop == null then None else Some(stop.pos);
      StillToCollect(node, smt);
      while n != stop
        invariant n != null ==> n.Attached() && n.root == this && (stop != null ==> stop.pos <= n.pos)
        invariant n == null ==> stop == null
        invariant Down(shape.tree.smt, q, node.pos) == Collected(shape.tree.smt, q, n, smt)
        decreases if n == null then 0 else |n.pos| + 1
      {
        ClimbDown(n, q, stop, smt);
        if n.isAnd {
          smt := smt + [Assert(n.smt)];
          if n != top { smt := smt + [Push]; }
        }
        n := n.parent;
      }
      NothingLeft(shape.tree.smt, q, n, smt);
      script := Reversed(smt);
    }
  }
}
