/** Positions of And nodes as the lemma server and the splitter see them: the lemma server keeps
    only the And components of a path, the splitter keeps (or, and) pairs. */
module Branches {
  import opened Paths
  import opened StatusTree
  import opened Verdicts
  import opened StatusInvariants

  /** The components at odd places: which partition was taken at each And level. */
  function AndIndices(p: Path): (r: seq<nat>)
    ensures |r| == |p| / 2 && forall i | 0 <= i < |r| :: r[i] == p[2 * i + 1]
    decreases |p|
  {
    if |p| < 2 then [] else AndIndices(p[..|p| - 2]) + (if IsAnd(p) then [p[|p| - 1]] else [p[|p| - 2]])
  }

  /** The position with given And components in a tree where every node has one Or child. */
  function Expand(q: seq<nat>): (p: Path)
    ensures IsAnd(p) && |p| == 2 * |q|
    decreases |q|
  {
    if q == [] then [] else Expand(q[..|q| - 1]) + [0, q[|q| - 1]]
  }

  /** An And node below the root, seen from its And grandparent. */
  lemma TwoUp(t: Tree, p: Path) returns (g: Path, i: nat, k: nat)
    requires t.Valid() && p in t.arity && IsAnd(p) && p != []
    ensures g in t.arity && IsAnd(g) && |g| == |p| - 2 && i < t.arity[g]
    ensures Kid(g, i) in t.arity && k < t.arity[Kid(g, i)] && p == Kid(Kid(g, i), k)
    ensures AndIndices(p) == AndIndices(g) + [k]
  {
    var o := Parent(p);
    g, i, k := Parent(o), Index(o), Index(p);
    assert Kid(g, i) == o && Kid(o, k) == p && g == p[..|p| - 2];
  }

  /** With one Or child per node, the And components say everything. */
  lemma {:induction false} ExpandInverts(t: Tree, p: Path)
    requires t.Valid() && PartitionedOnce(t) && p in t.arity && IsAnd(p)
    ensures Expand(AndIndices(p)) == p
    decreases |p|
  {
    if p != [] {
      var g, i, k := TwoUp(t, p);
      hide Tree.Valid;
      ExpandInverts(t, g);
      assert i == 0 && p == g + [0, k];
      assert AndIndices(p)[..|p| / 2 - 1] == AndIndices(g);
    }
  }

  /** At most one Or child of an And node has partitions. */
  ghost predicate OneSplitting(t: Tree)
    requires t.Valid()
  {
    forall p, i: nat, j: nat {:trigger Kid(p, i), Kid(p, j)} | p in t.arity && IsAnd(p) && i < t.arity[p] && j < t.arity[p] &&
      t.arity[Kid(p, i)] > 0 && t.arity[Kid(p, j)] > 0 :: i == j
  }

  ghost predicate KeysIdentifyNodes(t: Tree) {
    forall p, q | p in t.arity && q in t.arity && IsAnd(p) && IsAnd(q) && AndIndices(p) == AndIndices(q) :: p == q
  }

  /** The lemma server's keys tell And nodes apart exactly if no node was split twice. */
  lemma KeysIdentifyNodesExactlyWhen(t: Tree)
    requires t.Valid()
    ensures KeysIdentifyNodes(t) <==> OneSplitting(t)
  {
    if OneSplitting(t) {
      forall p, q | p in t.arity && q in t.arity && IsAnd(p) && IsAnd(q) && AndIndices(p) == AndIndices(q)
        ensures p == q
      {
        SameKeySameNode(t, p, q);
      }
    }
    if KeysIdentifyNodes(t) {
      forall p, i: nat, j: nat {:trigger Kid(p, i), Kid(p, j)} | p in t.arity && IsAnd(p) && i < t.arity[p] && j < t.arity[p] &&
          t.arity[Kid(p, i)] > 0 && t.arity[Kid(p, j)] > 0
        ensures i == j
      {
        FirstPartitionsShareKey(t, p, i, j);
      }
    }
  }

  lemma FirstPartitionsShareKey(t: Tree, p: Path, i: nat, j: nat)
    requires t.Valid() && p in t.arity && IsAnd(p) && i < t.arity[p] && j < t.arity[p]
    requires t.arity[Kid(p, i)] > 0 && t.arity[Kid(p, j)] > 0
    ensures var a := Kid(Kid(p, i), 0); var b := Kid(Kid(p, j), 0);
      a in t.arity && b in t.arity && IsAnd(a) && IsAnd(b) && AndIndices(a) == AndIndices(b) && (a == b ==> i == j)
  {
    var a, b := Kid(Kid(p, i), 0), Kid(Kid(p, j), 0);
    assert a[..|a| - 2] == p && b[..|b| - 2] == p;
    assert a[|p|] == i && b[|p|] == j;
  }

  lemma {:induction false} SameKeySameNode(t: Tree, p: Path, q: Path)
    requires t.Valid() && OneSplitting(t) && p in t.arity && q in t.arity && IsAnd(p) && IsAnd(q)
    requires AndIndices(p) == AndIndices(q)
    ensures p == q
    decreases |p|
  {
    hide Tree.Valid, Kid, AndIndices;
    assert |p| == |q|;
    if p != [] {
      var g, i, k := TwoUp(t, p);
      var h, j, l := TwoUp(t, q);
      assert AndIndices(g) == AndIndices(p)[..|p| / 2 - 1] == AndIndices(h);
      assert k == AndIndices(p)[|p| / 2 - 1] == l;
      SameKeySameNode(t, g, h);
    }
  }
}
