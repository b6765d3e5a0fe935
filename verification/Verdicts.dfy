/** What the verdicts of the partition tree mean, and why reports keep them true. */
module Verdicts {
  import opened Paths
  import opened StatusTree

  /** An assignment of values to symbols, and the reading of a formula's text. */
  type Assignment = imap<string, int>
  type Meaning = (string, Assignment) -> bool

  /** `a` satisfies the formulas of all And nodes from the root down to `p`: the partition that
      the node stands for. */
  ghost predicate InF(m: Meaning, smt: map<Path, string>, p: Path, a: Assignment)
    decreases |p|
  {
    && (p != [] ==> InF(m, smt, Parent(p), a))
    && (IsAnd(p) ==> p in smt && m(smt[p], a))
  }

  ghost predicate Empty(m: Meaning, smt: map<Path, string>, p: Path) {
    forall a: Assignment :: !InF(m, smt, p, a)
  }

  /** The children of a partitioned Or node cover the partition of their grandparent. */
  ghost predicate Covers(m: Meaning, t: Tree, o: Path)
    requires o in t.arity
  {
    forall a: Assignment | InF(m, t.smt, o, a) ::
      exists i: nat :: i < t.arity[o] && InF(m, t.smt, Kid(o, i), a)
  }

  ghost predicate Covered(m: Meaning, t: Tree) {
    forall o | o in t.arity && !IsAnd(o) && t.arity[o] > 0 :: Covers(m, t, o)
  }

  /** Every verdict in the tree is semantically true. */
  ghost predicate Sound(m: Meaning, t: Tree)
    requires t.Valid()
  {
    forall p | p in t.arity :: TrueVerdict(m, t.smt, p, t.status[p])
  }

  ghost predicate TrueVerdict(m: Meaning, smt: map<Path, string>, p: Path, s: Status) {
    && (s == Unsat ==> Empty(m, smt, p))
    && (s == Sat ==> !Empty(m, smt, p))
  }

  // ---------- what assigning a status changes ----------

  lemma {:induction false} SetStatusFrame(t: Tree, p: Path, s: Status)
    requires t.Valid() && p in t.arity
    ensures SetStatus(t, p, s).status[p] == s
    ensures forall q | q in t.arity ::
      SetStatus(t, p, s).status[q] == if q <= p && SetStatus(t, p, s).status[q] == s then s else t.status[q]
    decreases |p|
  {
    var t1 := t.(status := t.status[p := s]);
    if p != [] && !(IsAnd(p) && s != Sat && !t1.ChildrenAre(Parent(p), s)) {
      SetStatusFrame(t1, Parent(p), s);
    }
  }

  lemma {:induction false} SatReachesTheRoot(t: Tree, p: Path, q: Path)
    requires t.Valid() && p in t.arity && q <= p
    ensures q in t.arity && SetStatus(t, p, Sat).status[q] == Sat
    decreases |p|
  {
    var t1 := t.(status := t.status[p := Sat]);
    if p == q {
      SetStatusFrame(t, p, Sat);
    } else {
      Prefixes(q, p);
      SatReachesTheRoot(t1, Parent(p), q);
    }
  }

  /** An And node passes a status on if it is `Sat` or if all its siblings have it already. */
  ghost predicate PassesOn(t: Tree, x: Path, s: Status)
    requires t.Valid() && x in t.arity && x != []
  {
    s == Sat || forall i: nat | i < t.arity[Parent(x)] && i != Index(x) :: t.status[Kid(Parent(x), i)] == s
  }

  /** Every And node from below `q` down to `p` passes the status on. */
  ghost predicate AllPassOn(t: Tree, q: Path, p: Path, s: Status)
    requires t.Valid()
  {
    forall n | |q| < n <= |p| && n % 2 == 0 && p[..n] in t.arity :: PassesOn(t, p[..n], s)
  }

  /** An assignment reaches exactly the nodes above `p` from which every And node down to `p` passes
      the status on; all other nodes keep theirs. */
  lemma {:induction false} ClimbsExactlyWhen(t: Tree, p: Path, s: Status, q: Path)
    requires t.Valid() && p in t.arity && q in t.arity
    ensures SetStatus(t, p, s).status[q] == if q <= p && AllPassOn(t, q, p, s) then s else t.status[q]
    decreases |p|
  {
    hide Tree.Valid, AllPassOn, PassesOn;
    SetStatusFrame(t, p, s);
    if q == p {
      assert AllPassOn(t, q, p, s) by { NothingBetween(t, p, s); }
    } else if q <= p {
      Prefixes(q, p);
      OneStepUp(t, p, s);
      AllPassOnStep(t, q, p, s);
      var t1 := t.(status := t.status[p := s]);
      if !IsAnd(p) || PassesOn(t, p, s) { ClimbsExactlyWhen(t1, Parent(p), s, q); }
    }
  }

  lemma NothingBetween(t: Tree, p: Path, s: Status)
    requires t.Valid()
    ensures AllPassOn(t, p, p, s)
  {
  }

  lemma AllPassOnStep(t: Tree, q: Path, p: Path, s: Status)
    requires t.Valid() && p in t.arity && q <= p && q != p
    ensures var t1 := t.(status := t.status[p := s]);
      t1.Valid() && (AllPassOn(t, q, p, s) <==> (IsAnd(p) ==> PassesOn(t, p, s)) && AllPassOn(t1, q, Parent(p), s))
  {
    hide Tree.Valid, PassesOn;
    OneStepUp(t, p, s);
    var t1, o := t.(status := t.status[p := s]), Parent(p);
    assert p[..|p|] == p;
    forall n | |q| < n <= |o|
      ensures o[..n] == p[..n]
      ensures p[..n] in t.arity ==> PassesOn(t1, p[..n], s) == PassesOn(t, p[..n], s)
    {
      if p[..n] in t.arity { OnlyOneChanged(t, p, s, p[..n]); }
    }
  }

  lemma OneStepUp(t: Tree, p: Path, s: Status)
    requires t.Valid() && p in t.arity && p != []
    ensures var t1 := t.(status := t.status[p := s]);
      && t1.Valid() && Parent(p) in t1.arity
      && (PassesOn(t, p, s) <==> s == Sat || t1.ChildrenAre(Parent(p), s))
      && SetStatus(t, p, s) ==
        if IsAnd(p) && s != Sat && !t1.ChildrenAre(Parent(p), s) then t1 else SetStatus(t1, Parent(p), s)
  {
    var t1 := t.(status := t.status[p := s]);
    assert Kid(Parent(p), Index(p)) == p;
    forall i: nat | i < t.arity[Parent(p)]
      ensures t1.status[Kid(Parent(p), i)] == if i == Index(p) then s else t.status[Kid(Parent(p), i)]
    {
      assert Index(Kid(Parent(p), i)) == i;
    }
  }

  lemma OnlyOneChanged(t: Tree, p: Path, s: Status, x: Path)
    requires t.Valid() && p in t.arity && x in t.arity && x != [] && |x| < |p|
    ensures var t1 := t.(status := t.status[p := s]); t1.Valid() && PassesOn(t1, x, s) == PassesOn(t, x, s)
  {
    assert forall i: nat | i < t.arity[Parent(x)] :: Kid(Parent(x), i) != p;
  }

  // ---------- soundness ----------

  lemma {:induction false} InFUpward(m: Meaning, smt: map<Path, string>, q: Path, p: Path, a: Assignment)
    requires q <= p && InF(m, smt, p, a)
    ensures InF(m, smt, q, a)
    decreases |p|
  {
    if p != q {
      Prefixes(q, p);
      InFUpward(m, smt, q, Parent(p), a);
    }
  }

  lemma EmptyDownward(m: Meaning, smt: map<Path, string>, q: Path, p: Path)
    requires q <= p && Empty(m, smt, q)
    ensures Empty(m, smt, p)
  {
    forall a: Assignment | InF(m, smt, p, a)
      ensures false
    {
      InFUpward(m, smt, q, p, a);
    }
  }

  /** A true verdict climbs to true verdicts. */
  lemma {:induction false} SetStatusSound(m: Meaning, t: Tree, p: Path, s: Status)
    requires t.Valid() && p in t.arity && Covered(m, t) && Sound(m, t)
    requires TrueVerdict(m, t.smt, p, s)
    ensures Sound(m, SetStatus(t, p, s))
    decreases |p|
  {
    var t1 := t.(status := t.status[p := s]);
    if p != [] && !(IsAnd(p) && s != Sat && !t1.ChildrenAre(Parent(p), s)) {
      ClimbSound(m, t1, p, s);
      CoveredDependsOnShape(m, t, t1);
      SetStatusSound(m, t1, Parent(p), s);
    }
  }

  lemma ClimbSound(m: Meaning, t: Tree, p: Path, s: Status)
    requires t.Valid() && p in t.arity && p != [] && Sound(m, t) && t.status[p] == s
    requires !IsAnd(Parent(p)) && t.arity[Parent(p)] > 0 ==> Covers(m, t, Parent(p))
    requires IsAnd(p) ==> s == Sat || t.ChildrenAre(Parent(p), s)
    ensures TrueVerdict(m, t.smt, Parent(p), s)
  {
    assert TrueVerdict(m, t.smt, p, s);
    var o := Parent(p);
    if s == Sat && Empty(m, t.smt, o) {
      EmptyDownward(m, t.smt, o, p);
    }
    if s == Unsat && IsAnd(p) {
      forall i: nat | i < t.arity[o]
        ensures Empty(m, t.smt, Kid(o, i))
      {
        assert t.status[Kid(o, i)] == Unsat;
      }
    } else if s == Unsat {
      assert forall a: Assignment :: InF(m, t.smt, p, a) == InF(m, t.smt, o, a);
    }
  }

  lemma {:induction false} PushUnsatSound(m: Meaning, t: Tree, nodes: seq<Path>)
    requires t.Valid() && forall q | q in nodes :: q in t.arity && Empty(m, t.smt, q)
    requires Covered(m, t) && Sound(m, t)
    ensures Sound(m, PushUnsat(t, nodes))
    decreases |nodes|
  {
    if nodes != [] {
      var q := nodes[0];
      var t1 := if t.status[q] == Unknown && IsAnd(q) then SetStatus(t, q, Unsat) else t;
      if t.status[q] == Unknown && IsAnd(q) {
        SetStatusSound(m, t, q, Unsat);
        CoveredDependsOnShape(m, t, t1);
      }
      PushUnsatSound(m, t1, nodes[1..]);
    }
  }

  lemma CoveredDependsOnShape(m: Meaning, t: Tree, t1: Tree)
    requires t1.smt == t.smt && t1.arity == t.arity && Covered(m, t)
    ensures Covered(m, t1)
  {
    forall o | o in t1.arity && !IsAnd(o) && t1.arity[o] > 0
      ensures Covers(m, t1, o)
    {
      assert Covers(m, t, o);
    }
  }

  /** A true report leaves only true verdicts in the tree, wherever it climbs or is pushed. */
  lemma ReportSound(m: Meaning, t: Tree, p: Path, s: Status)
    requires t.Valid() && p in t.arity && Covered(m, t) && Sound(m, t)
    requires TrueVerdict(m, t.smt, p, s)
    ensures Sound(m, Report(t, p, s)) && Covered(m, Report(t, p, s))
  {
    var t1 := SetStatus(t, p, s);
    SetStatusSound(m, t, p, s);
    CoveredDependsOnShape(m, t, t1);
    CoveredDependsOnShape(m, t, Report(t, p, s));
    if s == Unsat {
      AllBelow(t, p);
      forall q | q in All(t, p)
        ensures Empty(m, t.smt, q)
      {
        EmptyDownward(m, t.smt, p, q);
      }
      PushUnsatSound(m, t1, All(t, p));
    }
  }
}
