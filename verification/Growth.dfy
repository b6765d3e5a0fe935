/** How the tree grows: requests add empty Or nodes, replies add And nodes under them. */
module Growth {
  import opened Paths
  import opened StatusTree
  import opened Verdicts
  import opened StatusInvariants

  /** `t1` has the nodes of `t`, with their formulas and statuses, and perhaps more. */
  ghost predicate Grows(t: Tree, t1: Tree) {
    && t1.Valid()
    && t.arity.Keys <= t1.arity.Keys
    && t.smt.Keys <= t1.smt.Keys
    && t.status.Keys <= t1.status.Keys
    && (forall q | q in t.smt :: t1.smt[q] == t.smt[q])
    && (forall q | q in t.status :: t1.status[q] == t.status[q])
  }

  lemma {:induction false} InFStable(m: Meaning, smt: map<Path, string>, smt1: map<Path, string>, p: Path, a: Assignment)
    requires smt.Keys <= smt1.Keys && forall q | q in smt :: smt1[q] == smt[q]
    requires forall q | q <= p :: q in smt
    ensures InF(m, smt1, p, a) == InF(m, smt, p, a)
    decreases |p|
  {
    if p != [] {
      forall q | q <= Parent(p)
        ensures q in smt
      {
        PrefixTransitive(q, Parent(p), p);
      }
      InFStable(m, smt, smt1, Parent(p), a);
    }
  }

  lemma {:induction false} PrefixesAttached(t: Tree, p: Path, q: Path)
    requires t.Valid() && p in t.arity && q <= p
    ensures q in t.arity && q in t.smt
    decreases |p|
  {
    if q != p {
      Prefixes(q, p);
      PrefixesAttached(t, Parent(p), q);
    }
  }

  /** The partition of a node never changes once the node is attached. */
  lemma PartitionIsFixed(m: Meaning, t: Tree, t1: Tree, p: Path)
    requires t.Valid() && p in t.arity && t.smt.Keys <= t1.smt.Keys && forall q | q in t.smt :: t1.smt[q] == t.smt[q]
    ensures forall a: Assignment :: InF(m, t1.smt, p, a) == InF(m, t.smt, p, a)
    ensures Empty(m, t1.smt, p) == Empty(m, t.smt, p)
  {
    forall a: Assignment
      ensures InF(m, t1.smt, p, a) == InF(m, t.smt, p, a)
    {
      forall q | q <= p
        ensures q in t.smt
      {
        PrefixesAttached(t, p, q);
      }
      InFStable(m, t.smt, t1.smt, p, a);
    }
  }

  // ---------- one more child ----------

  /** A new child adds one entry and counts at its parent. */
  lemma AddedNode(t: Tree, p: Path, smt: string)
    requires t.Valid() && p in t.arity
    ensures var t1 := AddChild(t, p, smt); var c := Kid(p, t.arity[p]);
      && t1.Valid() && [] in t.arity && c !in t.arity && c != [] && IsAnd(c) == !IsAnd(p) && Parent(c) == p
      && t1.arity.Keys == t.arity.Keys + {c}
      && t1.smt[c] == smt && t1.arity[c] == 0 && t1.status[c] == Unknown
      && forall q | q in t.arity ::
           t1.smt[q] == t.smt[q] && t1.status[q] == t.status[q] && t1.arity[q] == if q == p then t.arity[q] + 1 else t.arity[q]
  {
    var c := Kid(p, t.arity[p]);
    assert Parent(c) == p && Index(c) == t.arity[p];
  }

  lemma AddChildGrows(t: Tree, p: Path, smt: string)
    requires t.Valid() && p in t.arity
    ensures Kid(p, t.arity[p]) !in t.arity && Grows(t, AddChild(t, p, smt))
  {
    var q := Kid(p, t.arity[p]);
    assert Parent(q) == p && Index(q) == t.arity[p];
  }

  lemma AddChildSound(m: Meaning, t: Tree, p: Path, smt: string)
    requires t.Valid() && p in t.arity && Sound(m, t)
    ensures Sound(m, AddChild(t, p, smt))
  {
    AddChildGrows(t, p, smt);
    var t1 := AddChild(t, p, smt);
    forall x | x in t1.arity
      ensures TrueVerdict(m, t1.smt, x, t1.status[x])
    {
      if x in t.arity {
        PartitionIsFixed(m, t, t1, x);
        assert TrueVerdict(m, t.smt, x, t.status[x]);
      }
    }
  }

  lemma AddChildKeepsCovers(m: Meaning, t: Tree, p: Path, smt: string, o: Path)
    requires t.Valid() && p in t.arity && o in t.arity && o != p && Covers(m, t, o)
    ensures Covers(m, AddChild(t, p, smt), o)
  {
    AddChildGrows(t, p, smt);
    var t1 := AddChild(t, p, smt);
    PartitionIsFixed(m, t, t1, o);
    forall a: Assignment | InF(m, t1.smt, o, a)
      ensures exists i: nat :: i < t1.arity[o] && InF(m, t1.smt, Kid(o, i), a)
    {
      var i: nat :| i < t.arity[o] && InF(m, t.smt, Kid(o, i), a);
      PartitionIsFixed(m, t, t1, Kid(o, i));
    }
  }

  lemma AddChildKeepsInv(t: Tree, p: Path, smt: string)
    requires Inv(t) && p in t.arity
    requires if IsAnd(p) then t.arity[p] == 0 else t.status[p] != Unsat && t.status[Parent(p)] != Unsat
    ensures Inv(AddChild(t, p, smt))
  {
    hide AddChild, UnsatClimbs, SatClimbs, UnsatFalls;
    AddChildGrows(t, p, smt);
    AddChildKeepsOrMatches(t, p, smt);
    AddChildKeepsClimbs(t, p, smt);
    assert PartitionedOnce(AddChild(t, p, smt)) by { AddChildArity(t, p, smt); }
  }

  lemma AddChildArity(t: Tree, p: Path, smt: string)
    requires t.Valid() && p in t.arity
    ensures AddChild(t, p, smt).arity == t.arity[p := t.arity[p] + 1][Kid(p, t.arity[p]) := 0]
  {
  }

  lemma AddChildKeepsOrMatches(t: Tree, p: Path, smt: string)
    requires t.Valid() && OrMatchesChildren(t) && p in t.arity
    requires !IsAnd(p) ==> t.status[p] != Unsat
    ensures OrMatchesChildren(AddChild(t, p, smt))
  {
    var t1 := AddChild(t, p, smt);
    var c := Kid(p, t.arity[p]);
    AddChildGrows(t, p, smt);
    assert Parent(c) == p;
    forall o | o in t1.arity && !IsAnd(o)
      ensures OrMatches(t1, o)
    {
      if o != c && o != p {
        assert OrMatches(t, o);
      } else if o == p {
        assert t1.status[Kid(o, t.arity[o])] == Unknown;
      }
    }
  }

  lemma AddChildKeepsClimbs(t: Tree, p: Path, smt: string)
    requires t.Valid() && UnsatClimbs(t) && SatClimbs(t) && UnsatFalls(t) && p in t.arity
    requires !IsAnd(p) ==> t.status[Parent(p)] != Unsat
    ensures var t1 := AddChild(t, p, smt); UnsatClimbs(t1) && SatClimbs(t1) && UnsatFalls(t1)
  {
    AddChildGrows(t, p, smt);
    var c := Kid(p, t.arity[p]);
    assert Parent(c) == p;
    var t1 := AddChild(t, p, smt);
    forall q {:trigger Parent(q)} | q in t1.arity && q != []
      ensures Parent(q) in t.arity && (q != c ==> q in t.arity)
    {
    }
  }

  // ---------- a whole reply ----------

  /** The partitions of a reply that count. */
  function Kept(parts: seq<string>): (r: seq<string>) {
    if parts == [] then []
    else if parts[0] == "" then Kept(parts[1..])
    else [parts[0]] + Kept(parts[1..])
  }

  lemma {:induction false} KeptIsNonEmptyParts(parts: seq<string>, part: string)
    ensures part in Kept(parts) <==> part in parts && part != ""
    decreases |parts|
  {
    if parts != [] {
      KeptIsNonEmptyParts(parts[1..], part);
    }
  }

  /** A reply attaches one And node per non-empty entry, in order, and nothing else. */
  lemma {:induction false} AddPartitionsKids(t: Tree, o: Path, parts: seq<string>)
    requires t.Valid() && o in t.arity
    ensures var r := AddPartitions(t, o, parts);
      && Grows(t, r) && r.arity[o] == t.arity[o] + |Kept(parts)|
      && (forall q | q in t.arity && q != o :: r.arity[q] == t.arity[q])
      && (forall q | q in r.arity && q !in t.arity :: q != [] && Parent(q) == o && r.arity[q] == 0 && r.status[q] == Unknown)
    decreases |parts|
  {
    if parts != [] {
      if parts[0] == "" {
        AddPartitionsKids(t, o, parts[1..]);
      } else {
        var text := Assertion(parts[0]);
        var t1 := AddChild(t, o, text);
        AddChildGrows(t, o, text);
        AddPartitionsKids(t1, o, parts[1..]);
        assert Parent(Kid(o, t.arity[o])) == o;
      }
    }
  }

  /** The i-th entry that counts becomes the formula of the i-th new child. */
  lemma {:induction false} AddPartitionsText(t: Tree, o: Path, parts: seq<string>, i: nat, c: Path)
    requires t.Valid() && o in t.arity && i < |Kept(parts)| && c == Kid(o, t.arity[o] + i)
    ensures c in AddPartitions(t, o, parts).smt && AddPartitions(t, o, parts).smt[c] == "(assert " + Kept(parts)[i] + ")"
    decreases |parts|
  {
    if parts[0] == "" {
      AddPartitionsText(t, o, parts[1..], i, c);
    } else {
      var t1 := AddChild(t, o, Assertion(parts[0]));
      AddChildGrows(t, o, Assertion(parts[0]));
      if i == 0 {
        assert c in t1.smt && t1.smt[c] == Assertion(parts[0]);
        AddPartitionsKids(t1, o, parts[1..]);
      } else {
        assert o != Kid(o, t.arity[o]);
        assert t1.arity[o] == t.arity[o] + 1;
        AddPartitionsText(t1, o, parts[1..], i - 1, c);
      }
    }
  }

  /** The non-empty entries among the first `n`. */
  function NonEmpty(parts: seq<string>, n: nat): set<nat> {
    set i: nat | i < n && i < |parts| && parts[i] != ""
  }

  lemma {:induction false} KeptConcat(a: seq<string>, b: seq<string>)
    ensures Kept(a + b) == Kept(a) + Kept(b)
    decreases |a|
  {
    if a == [] {
      assert a + b == b;
    } else {
      assert (a + b)[1..] == a[1..] + b;
      KeptConcat(a[1..], b);
    }
  }

  lemma {:induction false} KeptCounts(parts: seq<string>, n: nat)
    requires n <= |parts|
    ensures |Kept(parts[..n])| == |NonEmpty(parts, n)|
    decreases n
  {
    if n == 0 {
      assert NonEmpty(parts, 0) == {};
    } else {
      KeptCounts(parts, n - 1);
      assert parts[..n] == parts[..n - 1] + [parts[n - 1]];
      KeptConcat(parts[..n - 1], [parts[n - 1]]);
      assert NonEmpty(parts, n) == NonEmpty(parts, n - 1) + if parts[n - 1] != "" then {n - 1} else {};
    }
  }

  /** Every non-empty entry of a reply becomes an assertion at a child of its own: the entry with `k`
      non-empty entries in front of it the k-th new child; there are no other new children. */
  lemma EntryBecomesChild(t: Tree, o: Path, parts: seq<string>, i: nat)
    requires t.Valid() && o in t.arity && i < |parts| && parts[i] != ""
    ensures var r := AddPartitions(t, o, parts); var c := Kid(o, t.arity[o] + |NonEmpty(parts, i)|);
      && o in r.arity && r.arity[o] == t.arity[o] + |NonEmpty(parts, |parts|)|
      && |NonEmpty(parts, i)| < |NonEmpty(parts, |parts|)|
      && c in r.smt && r.smt[c] == "(assert " + parts[i] + ")"
  {
    hide AddPartitions, Grows;
    AddPartitionsKids(t, o, parts);
    KeptCounts(parts, i);
    KeptCounts(parts, |parts|);
    assert parts[..|parts|] == parts == parts[..i] + parts[i..];
    KeptConcat(parts[..i], parts[i..]);
    assert Kept(parts)[|Kept(parts[..i])|] == parts[i];
    AddPartitionsText(t, o, parts, |Kept(parts[..i])|, Kid(o, t.arity[o] + |Kept(parts[..i])|));
  }

  lemma {:induction false} AddPartitionsKeepsInv(t: Tree, o: Path, parts: seq<string>)
    requires Inv(t) && o in t.arity && !IsAnd(o) && t.status[o] != Unsat && t.status[Parent(o)] != Unsat
    ensures Inv(AddPartitions(t, o, parts))
    decreases |parts|
  {
    if parts != [] {
      if parts[0] == "" {
        AddPartitionsKeepsInv(t, o, parts[1..]);
      } else {
        var text := Assertion(parts[0]);
        AddChildKeepsInv(t, o, text);
        AddChildGrows(t, o, text);
        AddPartitionsKeepsInv(AddChild(t, o, text), o, parts[1..]);
      }
    }
  }

  /** What a splitter promises of a reply: the kept entries cover the partition it was asked for. */
  ghost predicate ReplyCovers(m: Meaning, smt: map<Path, string>, p: Path, parts: seq<string>) {
    forall a: Assignment | InF(m, smt, p, a) :: exists part :: part in parts && part != "" && m(Assertion(part), a)
  }

  lemma {:induction false} AddPartitionsSound(m: Meaning, t: Tree, o: Path, parts: seq<string>)
    requires t.Valid() && o in t.arity && Sound(m, t)
    ensures Sound(m, AddPartitions(t, o, parts))
    decreases |parts|
  {
    if parts != [] {
      if parts[0] == "" {
        AddPartitionsSound(m, t, o, parts[1..]);
      } else {
        var text := Assertion(parts[0]);
        AddChildSound(m, t, o, text);
        AddChildGrows(t, o, text);
        AddPartitionsSound(m, AddChild(t, o, text), o, parts[1..]);
      }
    }
  }

  lemma {:induction false} AddPartitionsKeepsCovers(m: Meaning, t: Tree, o: Path, parts: seq<string>, x: Path)
    requires t.Valid() && o in t.arity && x in t.arity && x != o && Covers(m, t, x)
    ensures x in AddPartitions(t, o, parts).arity && Covers(m, AddPartitions(t, o, parts), x)
    decreases |parts|
  {
    if parts != [] {
      if parts[0] == "" {
        AddPartitionsKeepsCovers(m, t, o, parts[1..], x);
      } else {
        var text := Assertion(parts[0]);
        AddChildKeepsCovers(m, t, o, text, x);
        AddChildGrows(t, o, text);
        AddPartitionsKeepsCovers(m, AddChild(t, o, text), o, parts[1..], x);
      }
    }
  }

  lemma KidInF(m: Meaning, smt: map<Path, string>, o: Path, i: nat, a: Assignment)
    requires !IsAnd(o) && InF(m, smt, o, a) && Kid(o, i) in smt && m(smt[Kid(o, i)], a)
    ensures InF(m, smt, Kid(o, i), a)
  {
    assert Parent(Kid(o, i)) == o;
  }

  lemma AddPartitionsCovers(m: Meaning, t: Tree, o: Path, parts: seq<string>)
    requires t.Valid() && o in t.arity && !IsAnd(o) && t.arity[o] == 0 && ReplyCovers(m, t.smt, o, parts)
    ensures o in AddPartitions(t, o, parts).arity && Covers(m, AddPartitions(t, o, parts), o)
  {
    hide AddPartitions, Empty, Kept;
    var r := AddPartitions(t, o, parts);
    AddPartitionsKids(t, o, parts);
    PartitionIsFixed(m, t, r, o);
    forall a: Assignment | InF(m, r.smt, o, a)
      ensures exists i: nat :: i < r.arity[o] && InF(m, r.smt, Kid(o, i), a)
    {
      assert InF(m, t.smt, o, a);
      var part :| part in parts && part != "" && m(Assertion(part), a);
      KeptIsNonEmptyParts(parts, part);
      var i: nat :| i < |Kept(parts)| && Kept(parts)[i] == part;
      AddPartitionsText(t, o, parts, i, Kid(o, i));
      KidInF(m, r.smt, o, i, a);
    }
  }

  /** A covering reply keeps the whole tree covered and its verdicts true. */
  lemma AttachSound(m: Meaning, t: Tree, o: Path, parts: seq<string>)
    requires t.Valid() && o in t.arity && !IsAnd(o) && t.arity[o] == 0 && Sound(m, t) && Covered(m, t)
    requires ReplyCovers(m, t.smt, o, parts)
    ensures Sound(m, Attach(t, o, parts)) && Covered(m, Attach(t, o, parts))
  {
    if t.status[Parent(o)] == Unknown {
      var r := AddPartitions(t, o, parts);
      AddPartitionsSound(m, t, o, parts);
      AddPartitionsKids(t, o, parts);
      forall x | x in r.arity && !IsAnd(x) && r.arity[x] > 0
        ensures Covers(m, r, x)
      {
        if x == o {
          AddPartitionsCovers(m, t, o, parts);
        } else {
          AddPartitionsKeepsCovers(m, t, o, parts, x);
        }
      }
    }
  }

  /** Replies keep the shape of the statuses; under a solved node they change nothing. */
  lemma AttachKeepsInv(t: Tree, o: Path, parts: seq<string>)
    requires Inv(t) && o in t.arity && !IsAnd(o) && t.arity[o] == 0
    ensures Inv(Attach(t, o, parts)) && Grows(t, Attach(t, o, parts))
    ensures t.status[Parent(o)] != Unknown ==> Attach(t, o, parts) == t
  {
    if t.status[Parent(o)] == Unknown {
      assert OrMatches(t, o);
      AddPartitionsKids(t, o, parts);
      AddPartitionsKeepsInv(t, o, parts);
    }
  }

  /** A request adds an empty Or node to a node that has none. */
  lemma AskSound(m: Meaning, t: Tree, p: Path)
    requires t.Valid() && p in t.arity && IsAnd(p) && Sound(m, t) && Covered(m, t)
    ensures Sound(m, AddChild(t, p, "")) && Covered(m, AddChild(t, p, ""))
  {
    var t1 := AddChild(t, p, "");
    AddChildSound(m, t, p, "");
    AddChildGrows(t, p, "");
    forall x | x in t1.arity && !IsAnd(x) && t1.arity[x] > 0
      ensures Covers(m, t1, x)
    {
      AddChildKeepsCovers(m, t, p, "", x);
    }
  }

  /** Clearing an Or node right after a reply was attached gives the tree of before. */
  lemma ClearUndoesReply(t: Tree, o: Path, parts: seq<string>)
    requires t.Valid() && o in t.arity && t.arity[o] == 0
    ensures var r := AddPartitions(t, o, parts); o in r.arity && Clear(r, o) == t
  {
    hide AddPartitions, Kept, Grows;
    var r := AddPartitions(t, o, parts);
    AddPartitionsKids(t, o, parts);
    NewNodesAreBeneath(t, r, o);
    OnlyNewNodesAreGone(t, r, o);
  }

  lemma NothingBeneath(t: Tree, o: Path)
    requires t.Valid() && o in t.arity && t.arity[o] == 0
    ensures Beneath(t, o) == {}
  {
    forall q | q in Beneath(t, o)
      ensures false
    {
      KidTowards(t, o, q);
    }
  }

  lemma NewNodesAreBeneath(t: Tree, r: Tree, o: Path)
    requires t.Valid() && r.Valid() && Grows(t, r) && o in t.arity && t.arity[o] == 0
    requires forall q | q in r.arity && q !in t.arity :: q != [] && Parent(q) == o
    ensures Beneath(r, o) == r.arity.Keys - t.arity.Keys
  {
    NothingBeneath(t, o);
    forall q | q in Beneath(r, o)
      ensures q !in t.arity
    {
      assert q !in Beneath(t, o);
    }
  }

  lemma OnlyNewNodesAreGone(t: Tree, r: Tree, o: Path)
    requires t.Valid() && r.Valid() && Grows(t, r) && o in t.arity && t.arity[o] == 0
    requires forall q | q in t.arity && q != o :: r.arity[q] == t.arity[q]
    requires Beneath(r, o) == r.arity.Keys - t.arity.Keys
    ensures Cleared(r, o) == t
  {
    hide Beneath, Parent, Kid;
    var gone := Beneath(r, o);
    assert r.smt - gone == t.smt;
    assert (r.arity - gone)[o := 0] == t.arity;
    assert r.status - gone == t.status;
  }
}
