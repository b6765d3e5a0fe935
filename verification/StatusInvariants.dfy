/** What every reachable status tree looks like, whatever was reported in whatever order. */
module StatusInvariants {
  import opened Paths
  import opened StatusTree
  import opened Verdicts

  /** A partitioned Or node is unsat exactly when all its children are; an unpartitioned one
      never gets a verdict. */
  ghost predicate OrMatchesChildren(t: Tree)
    requires t.Valid()
  {
    forall o | o in t.arity && !IsAnd(o) :: OrMatches(t, o)
  }

  ghost predicate OrMatches(t: Tree, o: Path)
    requires t.Valid() && o in t.arity
  {
    if t.arity[o] == 0 then t.status[o] == Unknown
    else t.status[o] == Unsat <==> t.ChildrenAre(o, Unsat)
  }

  /** The And parent of an unsat Or node is unsat. */
  ghost predicate UnsatClimbs(t: Tree)
    requires t.Valid()
  {
    forall o {:trigger Parent(o)} | o in t.arity && !IsAnd(o) && t.status[o] == Unsat :: t.status[Parent(o)] == Unsat
  }

  /** A sat verdict is shared by every node above it. */
  ghost predicate SatClimbs(t: Tree)
    requires t.Valid()
  {
    forall q {:trigger Parent(q)} | q in t.arity && q != [] && t.status[q] == Sat :: t.status[Parent(q)] == Sat
  }

  /** The And grandchildren of an unsat And node are unsat. */
  ghost predicate UnsatFalls(t: Tree)
    requires t.Valid()
  {
    forall q {:trigger Parent(Parent(q))} | q in t.arity && q != [] && IsAnd(q) && t.status[Parent(Parent(q))] == Unsat ::
      t.status[q] == Unsat
  }

  /** An And node is partitioned at most once: the default partition policy. */
  ghost predicate PartitionedOnce(t: Tree) {
    forall p | p in t.arity && IsAnd(p) :: t.arity[p] <= 1
  }

  ghost predicate Inv(t: Tree) {
    && t.Valid()
    && OrMatchesChildren(t)
    && UnsatClimbs(t)
    && SatClimbs(t)
    && UnsatFalls(t)
    && PartitionedOnce(t)
  }

  // ---------- single assignments ----------

  lemma {:induction false} SetUnsatKeepsOrMatches(t: Tree, p: Path)
    requires t.Valid() && p in t.arity && IsAnd(p) && OrMatchesChildren(t)
    ensures OrMatchesChildren(SetStatus(t, p, Unsat))
    decreases |p|
  {
    hide OrMatchesChildren, OrMatches;
    var t1 := t.(status := t.status[p := Unsat]);
    if p != [] && t1.ChildrenAre(Parent(p), Unsat) {
      var o := Parent(p);
      var t2 := t1.(status := t1.status[o := Unsat]);
      assert t2.ChildrenAre(o, Unsat) && t2.arity[o] > 0;
      OneKidChanged(t, t2, p);
      SetUnsatKeepsOrMatches(t2, Parent(o));
    } else {
      OneKidChanged(t, t1, p);
    }
  }

  /** Marking an And node, and its Or parent if that is now due, keeps Or nodes and children in
      agreement. */
  lemma OneKidChanged(t: Tree, t1: Tree, p: Path)
    requires t.Valid() && t1.Valid() && t1.arity == t.arity && OrMatchesChildren(t)
    requires p in t.arity && IsAnd(p) && t1.status[p] == Unsat
    requires forall q | q in t.arity && q != p && (p == [] || q != Parent(p)) :: t1.status[q] == t.status[q]
    requires p != [] ==>
      t1.status[Parent(p)] == if t1.ChildrenAre(Parent(p), Unsat) then Unsat else t.status[Parent(p)]
    ensures OrMatchesChildren(t1)
  {
    forall x | x in t1.arity && !IsAnd(x)
      ensures OrMatches(t1, x)
    {
      assert OrMatches(t, x);
      if p != [] && x == Parent(p) {
        assert Kid(x, Index(p)) == p;
      } else {
        forall i: nat | i < t.arity[x]
          ensures t1.status[Kid(x, i)] == t.status[Kid(x, i)]
        {
          assert Parent(Kid(x, i)) == x;
        }
      }
    }
  }

  lemma {:induction false} SetUnsatKeepsUnsatClimbs(t: Tree, p: Path)
    requires t.Valid() && p in t.arity && IsAnd(p)
    requires forall o {:trigger Parent(o)} | o in t.arity && !IsAnd(o) && Parent(o) != p && t.status[o] == Unsat ::
      t.status[Parent(o)] == Unsat
    ensures UnsatClimbs(SetStatus(t, p, Unsat))
    decreases |p|
  {
    var t1 := t.(status := t.status[p := Unsat]);
    if p != [] && t1.ChildrenAre(Parent(p), Unsat) {
      var o := Parent(p);
      SetUnsatKeepsUnsatClimbs(t1.(status := t1.status[o := Unsat]), Parent(o));
    }
  }

  /** Only `Unsat` is written by an unsat assignment, and only on the way up. */
  lemma SetUnsatChanges(t: Tree, p: Path, x: Path)
    requires t.Valid() && p in t.arity && x in t.arity
    ensures SetStatus(t, p, Unsat).status[p] == Unsat
    ensures var r := SetStatus(t, p, Unsat).status[x]; r == t.status[x] || (r == Unsat && x <= p)
  {
    SetStatusFrame(t, p, Unsat);
  }

  /** A node above `p` only changes because its child towards `p` did. */
  lemma {:induction false} ChangedFromBelow(t: Tree, p: Path, s: Status, x: Path)
    requires t.Valid() && p in t.arity && x <= p && x != p
    requires x in t.arity && SetStatus(t, p, s).status[x] != t.status[x]
    ensures p[..|x| + 1] in t.arity && SetStatus(t, p, s).status[p[..|x| + 1]] == s
    decreases |p|
  {
    SetStatusFrame(t, p, s);
    Prefixes(x, p);
    if x == Parent(p) {
      assert p[..|x| + 1] == p;
    } else {
      assert Parent(p)[..|x| + 1] == p[..|x| + 1];
      var t1 := t.(status := t.status[p := s]);
      ChangedFromBelow(t1, Parent(p), s, x);
    }
  }

  // ---------- the push down the subtree ----------

  lemma {:induction false} PushUnsatKeepsOrInvariants(t: Tree, nodes: seq<Path>)
    requires t.Valid() && forall q | q in nodes :: q in t.arity
    requires OrMatchesChildren(t) && UnsatClimbs(t)
    ensures OrMatchesChildren(PushUnsat(t, nodes)) && UnsatClimbs(PushUnsat(t, nodes))
    decreases |nodes|
  {
    if nodes != [] {
      assert forall x | x in nodes[1..] :: x in nodes;
      var q := nodes[0];
      var mark := t.status[q] == Unknown && IsAnd(q);
      if mark {
        SetUnsatKeepsOrMatches(t, q);
        SetUnsatKeepsUnsatClimbs(t, q);
      }
      PushUnsatKeepsOrInvariants(if mark then SetStatus(t, q, Unsat) else t, nodes[1..]);
    }
  }

  /** The push writes `Unsat` only, on the subtree of `n` and above it. */
  lemma {:induction false} PushUnsatChanges(t: Tree, nodes: seq<Path>, n: Path, x: Path)
    requires t.Valid() && (forall q | q in nodes :: q in t.arity && n <= q) && x in t.arity
    ensures var r := PushUnsat(t, nodes).status[x]; r == t.status[x] || (r == Unsat && (n <= x || x <= n))
    decreases |nodes|
  {
    if nodes != [] {
      assert forall x | x in nodes[1..] :: x in nodes;
      var q := nodes[0];
      var mark := t.status[q] == Unknown && IsAnd(q);
      if mark {
        SetUnsatChanges(t, q, x);
        if x <= q {
          if |x| <= |n| { PrefixesOfOneAreComparable(x, n, q); } else { PrefixesOfOneAreComparable(n, x, q); }
        }
      }
      PushUnsatChanges(if mark then SetStatus(t, q, Unsat) else t, nodes[1..], n, x);
    }
  }

  /** No listed And node stays unknown. */
  lemma {:induction false} PushUnsatReaches(t: Tree, nodes: seq<Path>, n: Path, x: Path)
    requires t.Valid() && (forall q | q in nodes :: q in t.arity && n <= q) && x in nodes && IsAnd(x)
    ensures PushUnsat(t, nodes).status[x] != Unknown
    decreases |nodes|
  {
    assert forall y | y in nodes[1..] :: y in nodes;
    var q := nodes[0];
    var mark := t.status[q] == Unknown && IsAnd(q);
    var t1 := if mark then SetStatus(t, q, Unsat) else t;
    if x == q {
      if mark { SetUnsatChanges(t, q, x); }
      PushUnsatChanges(t1, nodes[1..], n, x);
    } else {
      PushUnsatReaches(t1, nodes[1..], n, x);
    }
  }

  lemma {:induction false} PushChangedFromBelow(t: Tree, nodes: seq<Path>, n: Path, x: Path)
    requires t.Valid() && (forall q | q in nodes :: q in t.arity && n <= q)
    requires x in t.arity && x <= n && x != n && PushUnsat(t, nodes).status[x] != t.status[x]
    ensures n[..|x| + 1] in t.arity && PushUnsat(t, nodes).status[n[..|x| + 1]] == Unsat
    decreases |nodes|
  {
    assert forall y | y in nodes[1..] :: y in nodes;
    var q := nodes[0];
    var mark := t.status[q] == Unknown && IsAnd(q);
    var t1 := if mark then SetStatus(t, q, Unsat) else t;
    if t1.status[x] != t.status[x] {
      PrefixTransitive(x, n, q);
      ChangedFromBelow(t, q, Unsat, x);
      assert q[..|x| + 1] == n[..|x| + 1];
      PushUnsatChanges(t1, nodes[1..], n, n[..|x| + 1]);
    } else {
      PushChangedFromBelow(t1, nodes[1..], n, x);
    }
  }

  // ---------- whole reports ----------

  /** A report on `n` changes nothing outside the subtree of `n` and the nodes above it, and
      writes nothing but the reported status. */
  lemma ReportChanges(t: Tree, n: Path, s: Status, x: Path)
    requires t.Valid() && n in t.arity && x in t.arity
    ensures Report(t, n, s).status[n] == s
    ensures var r := Report(t, n, s).status[x];
      r == t.status[x] || (r == s && (x <= n || (s == Unsat && n <= x)))
  {
    SetStatusFrame(t, n, s);
    if s == Unsat {
      AllBelow(t, n);
      var t1 := SetStatus(t, n, s);
      PushUnsatChanges(t1, All(t, n), n, x);
      PushUnsatChanges(t1, All(t, n), n, n);
    }
  }

  lemma UnsatReportKeepsUnsatFalls(m: Meaning, t: Tree, n: Path, q: Path)
    requires Inv(t) && n in t.arity && IsAnd(n) && Sound(m, t) && Covered(m, t) && Empty(m, t.smt, n)
    requires q in t.arity && q != [] && IsAnd(q)
    requires Report(t, n, Unsat).status[Parent(Parent(q))] == Unsat
    ensures Report(t, n, Unsat).status[q] == Unsat
  {
    hide Report, OrMatchesChildren, UnsatClimbs, SatClimbs, Covered, Sound, Empty;
    var p := Parent(Parent(q));
    ReportChanges(t, n, Unsat, p);
    ReportChanges(t, n, Unsat, q);
    if t.status[p] == Unsat {
      assert t.status[q] == Unsat;
    } else if n <= p {
      PrefixTransitive(n, p, q);
      UnsatReportFillsSubtree(m, t, n, q);
    } else {
      UnsatReportFillsSiblings(t, n, p, q);
    }
  }

  /** An unsat report that climbs to `p` went through its one Or child, so all And children of
      that are unsat. */
  lemma UnsatReportFillsSiblings(t: Tree, n: Path, p: Path, q: Path)
    requires t.Valid() && PartitionedOnce(t) && OrMatchesChildren(t) && UnsatClimbs(t)
    requires n in t.arity && IsAnd(n) && p in t.arity && p <= n && p != n
    requires q in t.arity && q != [] && IsAnd(q) && p == Parent(Parent(q))
    requires Report(t, n, Unsat).status[p] != t.status[p]
    ensures Report(t, n, Unsat).status[q] == Unsat
  {
    hide Report, OrMatchesChildren, UnsatClimbs;
    UnsatReportFillsOr(t, n, p);
    var o := n[..|p| + 1];
    assert Parent(o) == p && !IsAnd(o);
    OnlyOrChild(t, o, Parent(q));
    ReportKeepsOrInvariants(t, n);
    UnsatOrHasUnsatKids(Report(t, n, Unsat), q);
  }

  lemma OnlyOrChild(t: Tree, o: Path, x: Path)
    requires t.Valid() && PartitionedOnce(t) && o in t.arity && x in t.arity && !IsAnd(o) && !IsAnd(x)
    requires Parent(o) == Parent(x)
    ensures o == x
  {
    assert Index(o) == 0 && Index(x) == 0;
    assert o == Parent(o) + [0] && x == Parent(x) + [0];
  }

  lemma UnsatOrHasUnsatKids(r: Tree, q: Path)
    requires r.Valid() && OrMatchesChildren(r) && q in r.arity && q != [] && IsAnd(q)
    requires Parent(q) in r.arity && r.status[Parent(q)] == Unsat
    ensures r.status[q] == Unsat
  {
    assert OrMatches(r, Parent(q));
    assert Kid(Parent(q), Index(q)) == q;
  }

  lemma ReportKeepsOrInvariants(t: Tree, n: Path)
    requires t.Valid() && OrMatchesChildren(t) && UnsatClimbs(t) && n in t.arity && IsAnd(n)
    ensures OrMatchesChildren(Report(t, n, Unsat)) && UnsatClimbs(Report(t, n, Unsat))
  {
    AllBelow(t, n);
    SetUnsatKeepsOrMatches(t, n);
    SetUnsatKeepsUnsatClimbs(t, n);
    PushUnsatKeepsOrInvariants(SetStatus(t, n, Unsat), All(t, n));
  }

  lemma UnsatReportFillsSubtree(m: Meaning, t: Tree, n: Path, q: Path)
    requires t.Valid() && n in t.arity && q in t.arity && n <= q && IsAnd(q)
    requires Sound(m, t) && Covered(m, t) && Empty(m, t.smt, n)
    ensures Report(t, n, Unsat).status[q] == Unsat
  {
    AllBelow(t, n);
    AllVisitsBelow(t, n, q);
    PushUnsatReaches(SetStatus(t, n, Unsat), All(t, n), n, q);
    ReportSound(m, t, n, Unsat);
    EmptyDownward(m, t.smt, n, q);
    assert TrueVerdict(m, t.smt, q, Report(t, n, Unsat).status[q]);
  }

  /** The Or node through which an unsat report climbed is unsat afterwards. */
  lemma UnsatReportFillsOr(t: Tree, n: Path, p: Path)
    requires t.Valid() && n in t.arity && p in t.arity && p <= n && p != n
    requires Report(t, n, Unsat).status[p] != t.status[p]
    ensures n[..|p| + 1] in t.arity && Report(t, n, Unsat).status[n[..|p| + 1]] == Unsat
  {
    AllBelow(t, n);
    var t1 := SetStatus(t, n, Unsat);
    if t1.status[p] != t.status[p] {
      ChangedFromBelow(t, n, Unsat, p);
      PushUnsatChanges(t1, All(t, n), n, n[..|p| + 1]);
    } else {
      PushChangedFromBelow(t1, All(t, n), n, p);
    }
  }

  lemma ReportKeepsSatClimbs(m: Meaning, t: Tree, n: Path, s: Status)
    requires Inv(t) && n in t.arity && s != Unknown
    requires Sound(m, t) && Covered(m, t) && TrueVerdict(m, t.smt, n, s)
    ensures SatClimbs(Report(t, n, s))
  {
    var r := Report(t, n, s);
    ReportSound(m, t, n, s);
    forall q {:trigger Parent(q)} | q in t.arity && q != [] && r.status[q] == Sat
      ensures r.status[Parent(q)] == Sat
    {
      ReportChanges(t, n, s, q);
      ReportChanges(t, n, s, Parent(q));
      assert TrueVerdict(m, t.smt, Parent(q), t.status[Parent(q)]);
      assert TrueVerdict(m, t.smt, Parent(q), r.status[Parent(q)]);
      if t.status[q] != Sat {
        SatReachesTheRoot(t, n, Parent(q));
      }
    }
  }

  lemma SatReportStatuses(t: Tree, n: Path, x: Path)
    requires t.Valid() && n in t.arity && x in t.arity
    ensures Report(t, n, Sat).status[x] == if x <= n then Sat else t.status[x]
  {
    ReportChanges(t, n, Sat, x);
    if x <= n { SatReachesTheRoot(t, n, x); }
  }

  lemma SatReportKeepsOrInvariants(m: Meaning, t: Tree, n: Path)
    requires Inv(t) && n in t.arity && IsAnd(n) && Sound(m, t) && Covered(m, t) && !Empty(m, t.smt, n)
    ensures OrMatchesChildren(Report(t, n, Sat)) && UnsatClimbs(Report(t, n, Sat))
  {
    ReportSound(m, t, n, Sat);
    forall o {:trigger Parent(o)} {:trigger o in t.arity} | o in t.arity && !IsAnd(o)
      ensures OrMatches(Report(t, n, Sat), o)
      ensures Report(t, n, Sat).status[o] == Unsat ==> Report(t, n, Sat).status[Parent(o)] == Unsat
    {
      SatReportAtOr(t, n, o);
      assert TrueVerdict(m, t.smt, Parent(o), t.status[Parent(o)]);
      assert TrueVerdict(m, t.smt, Parent(o), Report(t, n, Sat).status[Parent(o)]);
      SatReportStatuses(t, n, o);
      SatReportStatuses(t, n, Parent(o));
    }
  }

  lemma SatReportAtOr(t: Tree, n: Path, o: Path)
    requires t.Valid() && n in t.arity && IsAnd(n) && o in t.arity && !IsAnd(o) && OrMatches(t, o)
    ensures OrMatches(Report(t, n, Sat), o)
  {
    var r := Report(t, n, Sat);
    SatReportStatuses(t, n, o);
    forall i: nat | i < t.arity[o]
      ensures r.status[Kid(o, i)] == if Kid(o, i) <= n then Sat else t.status[Kid(o, i)]
      ensures Kid(o, i) <= n ==> o <= n
    {
      SatReportStatuses(t, n, Kid(o, i));
      BelowKid(o, i, n);
    }
    if o <= n {
      KidTowards(t, o, n);
      assert r.status[Kid(o, n[|o|])] == Sat;
    }
  }

  lemma SatReportKeepsUnsatFalls(t: Tree, n: Path, q: Path)
    requires Inv(t) && n in t.arity && q in t.arity && q != [] && IsAnd(q)
    requires Report(t, n, Sat).status[Parent(Parent(q))] == Unsat
    ensures Report(t, n, Sat).status[q] == Unsat
  {
    assert q <= n ==> Parent(Parent(q)) <= n;
    SatReportStatuses(t, n, q);
    SatReportStatuses(t, n, Parent(Parent(q)));
  }

  /** True sat and unsat reports keep the shape of the statuses. */
  lemma ReportKeepsInv(m: Meaning, t: Tree, n: Path, s: Status)
    requires Inv(t) && n in t.arity && IsAnd(n) && s != Unknown
    requires Sound(m, t) && Covered(m, t) && TrueVerdict(m, t.smt, n, s)
    ensures Inv(Report(t, n, s))
  {
    hide Report, OrMatchesChildren, UnsatClimbs, SatClimbs, Covered, Sound, Empty;
    ReportKeepsSatClimbs(m, t, n, s);
    if s == Sat {
      SatReportKeepsOrInvariants(m, t, n);
    } else {
      ReportKeepsOrInvariants(t, n);
    }
    forall q {:trigger Parent(Parent(q))} | q in t.arity && q != [] && IsAnd(q) &&
        Report(t, n, s).status[Parent(Parent(q))] == Unsat
      ensures Report(t, n, s).status[q] == Unsat
    {
      if s == Sat { SatReportKeepsUnsatFalls(t, n, q); } else { UnsatReportKeepsUnsatFalls(m, t, n, q); }
    }
  }
}
