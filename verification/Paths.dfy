/** Positions in the partition tree.

    A position is the list of child indices from the root.  Levels alternate: the root and
    every position of even length is an And node, every position of odd length an Or node. */
module Paths {
  type Path = seq<nat>

  predicate IsAnd(p: Path) {
    |p| % 2 == 0
  }

  function Kid(p: Path, i: nat): Path {
    p + [i]
  }

  function Parent(p: Path): Path
    requires p != []
  {
    p[..|p| - 1]
  }

  function Index(p: Path): nat
    requires p != []
  {
    p[|p| - 1]
  }

  lemma Prefixes(p: Path, q: Path)
    requires p <= q && p != q
    ensures q != [] && p <= Parent(q)
  {
  }

  lemma PrefixTransitive(p: Path, q: Path, r: Path)
    requires p <= q && q <= r
    ensures p <= r
  {
    assert forall i | 0 <= i < |p| :: p[i] == q[i] == r[i];
  }

  lemma PrefixesOfOneAreComparable(p: Path, q: Path, r: Path)
    requires p <= r && q <= r && |p| <= |q|
    ensures p <= q
  {
    assert forall i | 0 <= i < |p| :: p[i] == r[i] == q[i];
  }

  lemma BelowKid(p: Path, i: nat, q: Path)
    ensures Kid(p, i) <= q <==> p <= q && p != q && q[|p|] == i
  {
    if p <= q && p != q && q[|p|] == i {
      assert q[..|p| + 1] == Kid(p, i);
    }
    if Kid(p, i) <= q {
      PrefixTransitive(p, Kid(p, i), q);
      assert Kid(p, i)[|p|] == q[|p|];
    }
  }
}
