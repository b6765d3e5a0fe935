/** The And/Or partition tree as a value, and how verdicts travel in it.

    This is the specification of the objects in Framework.dfy: one entry per attached node,
    keyed by the node's position. */
module StatusTree {
  import opened Wrappers
  import opened Paths

  datatype Status = Unknown | Sat | Unsat

  datatype Tree = Tree(smt: map<Path, string>, arity: map<Path, nat>, status: map<Path, Status>)
  {
    /** The entries form a tree: closed under parents, with children numbered without gaps. */
    ghost predicate Valid() {
      && smt.Keys == arity.Keys == status.Keys
      && [] in arity
      && (forall p {:trigger Parent(p)} | p in arity && p != [] :: Parent(p) in arity && Index(p) < arity[Parent(p)])
      && (forall p, i: nat {:trigger Kid(p, i)} | p in arity && i < arity[p] :: Kid(p, i) in arity)
    }

    /** Every child of `o` has status `s`. */
    predicate ChildrenAre(o: Path, s: Status)
      requires Valid() && o in arity
    {
      forall i: nat | i < arity[o] :: status[Kid(o, i)] == s
    }
  }

  /** Assigning a status to a node.  An And node passes `Sat` on to its Or parent at once and any
      status that all its siblings share; an Or node always passes its status on. */
  function SetStatus(t: Tree, p: Path, s: Status): (r: Tree)
    requires t.Valid() && p in t.arity
    ensures r.Valid() && r.smt == t.smt && r.arity == t.arity
    decreases |p|
  {
    var t1 := t.(status := t.status[p := s]);
    if p == [] then t1
    else if IsAnd(p) && s != Sat && !t1.ChildrenAre(Parent(p), s) then t1
    else SetStatus(t1, Parent(p), s)
  }

  /** The nodes below `p`, `p` included. */
  ghost function Below(t: Tree, p: Path): set<Path> {
    set q | q in t.arity && p <= q
  }

  lemma BelowShrinks(t: Tree, p: Path, i: nat)
    requires t.Valid() && p in t.arity && i < t.arity[p]
    ensures |Below(t, Kid(p, i))| < |Below(t, p)|
  {
    forall q | q in Below(t, Kid(p, i))
      ensures q in Below(t, p) - {p}
    {
      PrefixTransitive(p, Kid(p, i), q);
    }
    SubsetSize(Below(t, Kid(p, i)), Below(t, p) - {p});
  }

  /** The nodes below `p` in the order of a depth-first walk. */
  function All(t: Tree, p: Path): (r: seq<Path>)
    requires t.Valid() && p in t.arity
    decreases |Below(t, p)|, t.arity[p] + 1
  {
    [p] + AllFrom(t, p, 0)
  }

  function AllFrom(t: Tree, p: Path, i: nat): (r: seq<Path>)
    requires t.Valid() && p in t.arity && i <= t.arity[p]
    decreases |Below(t, p)|, t.arity[p] - i
  {
    if i == t.arity[p] then []
    else
      BelowShrinks(t, p, i);
      All(t, Kid(p, i)) + AllFrom(t, p, i + 1)
  }

  /** The walk visits exactly the nodes below `p`. */
  lemma {:induction false} AllVisitsBelow(t: Tree, p: Path, q: Path)
    requires t.Valid() && p in t.arity
    ensures q in All(t, p) <==> q in Below(t, p)
    decreases |Below(t, p)|, t.arity[p] + 1
  {
    AllFromVisitsBelow(t, p, 0, q);
    if q in Below(t, p) && q != p {
      KidTowards(t, p, q);
    }
  }

  lemma {:induction false} AllFromVisitsBelow(t: Tree, p: Path, i: nat, q: Path)
    requires t.Valid() && p in t.arity && i <= t.arity[p]
    ensures q in AllFrom(t, p, i) <==> q in t.arity && p <= q && p != q && q[|p|] >= i
    decreases |Below(t, p)|, t.arity[p] - i
  {
    if i < t.arity[p] {
      BelowShrinks(t, p, i);
      AllVisitsBelow(t, Kid(p, i), q);
      AllFromVisitsBelow(t, p, i + 1, q);
      BelowKid(p, i, q);
    } else if q in t.arity && p <= q && p != q {
      KidTowards(t, p, q);
    }
  }

  /** The walk comes to every node once, and to a node before the nodes below it. */
  lemma {:induction false} AllInOrder(t: Tree, p: Path, i: nat, j: nat)
    requires t.Valid() && p in t.arity && i < j < |All(t, p)|
    ensures !(All(t, p)[j] <= All(t, p)[i])
    decreases |Below(t, p)|, t.arity[p] + 1
  {
    AllFromVisitsBelow(t, p, 0, All(t, p)[j]);
    assert All(t, p)[j] == AllFrom(t, p, 0)[j - 1];
    if i > 0 { AllFromInOrder(t, p, 0, i - 1, j - 1); }
  }

  lemma {:induction false} AllFromInOrder(t: Tree, p: Path, k: nat, i: nat, j: nat)
    requires t.Valid() && p in t.arity && k <= t.arity[p] && i < j < |AllFrom(t, p, k)|
    ensures !(AllFrom(t, p, k)[j] <= AllFrom(t, p, k)[i])
    decreases |Below(t, p)|, t.arity[p] - k
  {
    BelowShrinks(t, p, k);
    var first, rest := All(t, Kid(p, k)), AllFrom(t, p, k + 1);
    if j < |first| {
      AllInOrder(t, Kid(p, k), i, j);
    } else if i >= |first| {
      AllFromInOrder(t, p, k + 1, i - |first|, j - |first|);
    } else {
      AllVisitsBelow(t, Kid(p, k), first[i]);
      AllFromVisitsBelow(t, p, k + 1, rest[j - |first|]);
      BelowKid(p, k, first[i]);
    }
  }

  /** The child of `p` on the way down to `q`. */
  lemma {:induction false} KidTowards(t: Tree, p: Path, q: Path)
    requires t.Valid() && q in t.arity && p <= q && p != q
    ensures p in t.arity && q[|p|] < t.arity[p] && Kid(p, q[|p|]) in t.arity && Kid(p, q[|p|]) <= q
    decreases |q|
  {
    assert Kid(p, q[|p|]) == q[..|p| + 1];
    if |q| > |p| + 1 {
      Prefixes(p, q);
      KidTowards(t, p, Parent(q));
    } else {
      assert p == Parent(q);
    }
  }

  // ---------- reports and partitions arriving at the server ----------

  /** Marking the And nodes of a list that are still unknown, in the order of the list. */
  function PushUnsat(t: Tree, nodes: seq<Path>): (r: Tree)
    requires t.Valid() && forall q | q in nodes :: q in t.arity
    ensures r.Valid() && r.smt == t.smt && r.arity == t.arity
    decreases |nodes|
  {
    if nodes == [] then t
    else
      var q := nodes[0];
      var t1 := if t.status[q] == Unknown && IsAnd(q) then SetStatus(t, q, Unsat) else t;
      PushUnsat(t1, nodes[1..])
  }

  /** A solver reports a status for the node it is at; `Unsat` is also pushed down. */
  function Report(t: Tree, p: Path, s: Status): (r: Tree)
    requires t.Valid() && p in t.arity
    ensures r.Valid() && r.smt == t.smt && r.arity == t.arity
  {
    AllBelow(t, p);
    var t1 := SetStatus(t, p, s);
    if s == Unsat then PushUnsat(t1, All(t, p)) else t1
  }

  lemma AllBelow(t: Tree, p: Path)
    requires t.Valid() && p in t.arity
    ensures forall q | q in All(t, p) :: q in t.arity && p <= q
  {
    forall q | q in All(t, p)
      ensures q in t.arity && p <= q
    {
      AllVisitsBelow(t, p, q);
    }
  }

  /** A new child below `p`: an Or node for a request, an And node for one partition. */
  function AddChild(t: Tree, p: Path, smt: string): (r: Tree)
    requires t.Valid() && p in t.arity
    ensures r.Valid()
  {
    var q := Kid(p, t.arity[p]);
    assert Parent(q) == p;
    Tree(t.smt[q := smt], t.arity[p := t.arity[p] + 1][q := 0], t.status[q := Unknown])
  }

  /** The children of `o`, from the i-th on, that are not solved yet. */
  function UnknownKids(t: Tree, o: Path, i: nat): (r: seq<Path>)
    requires t.Valid() && o in t.arity && i <= t.arity[o]
    decreases t.arity[o] - i
  {
    if i == t.arity[o] then []
    else (if t.status[Kid(o, i)] == Unknown then [Kid(o, i)] else []) + UnknownKids(t, o, i + 1)
  }

  function Assertion(part: string): string {
    "(assert " + part + ")"
  }

  /** The And nodes for the partitions of a reply; empty entries are skipped. */
  function AddPartitions(t: Tree, o: Path, parts: seq<string>): (r: Tree)
    requires t.Valid() && o in t.arity
    ensures r.Valid()
    decreases |parts|
  {
    if parts == [] then t
    else if parts[0] == "" then AddPartitions(t, o, parts[1..])
    else AddPartitions(AddChild(t, o, Assertion(parts[0])), o, parts[1..])
  }

  /** A partition reply for the empty Or node `o`: under a solved parent it is cleared again. */
  function Attach(t: Tree, o: Path, parts: seq<string>): (r: Tree)
    requires t.Valid() && o in t.arity && o != [] && t.arity[o] == 0
    ensures r.Valid()
  {
    if t.status[Parent(o)] == Unknown then AddPartitions(t, o, parts) else t
  }

  /** The nodes strictly below `o`. */
  ghost function Beneath(t: Tree, o: Path): (r: set<Path>)
    ensures forall q :: q in r <==> q in t.arity && o <= q && q != o
  {
    set q | q in t.arity && o <= q && q != o
  }

  /** Dropping the children of a node, and with them everything below. */
  ghost function Clear(t: Tree, o: Path): (r: Tree)
    requires t.Valid() && o in t.arity
    ensures r.Valid()
  {
    ClearedIsValid(t, o);
    Cleared(t, o)
  }

  ghost function Cleared(t: Tree, o: Path): Tree
    requires t.Valid() && o in t.arity
  {
    var gone := Beneath(t, o);
    Tree(t.smt - gone, (t.arity - gone)[o := 0], t.status - gone)
  }

  lemma ClearedIsValid(t: Tree, o: Path)
    requires t.Valid() && o in t.arity
    ensures Cleared(t, o).Valid()
  {
    hide Cleared, Kid, Parent;
    ClearedKeys(t, o);
    ClearedKeepsParents(t, o);
    ClearedKeepsKids(t, o);
  }

  lemma ClearedKeys(t: Tree, o: Path)
    requires t.Valid() && o in t.arity
    ensures var r := Cleared(t, o); r.smt.Keys == r.arity.Keys == r.status.Keys
  {
    hide Kid, Parent, Beneath;
    assert o !in Beneath(t, o);
  }

  lemma ClearedKeepsParents(t: Tree, o: Path)
    requires t.Valid() && o in t.arity
    ensures var r := Cleared(t, o);
      [] in r.arity && forall p {:trigger Parent(p)} | p in r.arity && p != [] ::
        Parent(p) in r.arity && Index(p) < r.arity[Parent(p)]
  {
    hide Beneath, Parent, Kid, Tree.Valid;
    var r := Cleared(t, o);
    forall p {:trigger Parent(p)} | p in r.arity && p != []
      ensures Parent(p) in r.arity && Index(p) < r.arity[Parent(p)]
    {
      ParentSurvives(t, o, p);
    }
    RootIsAttached(t);
    assert [] !in Beneath(t, o);
  }

  lemma RootIsAttached(t: Tree)
    requires t.Valid()
    ensures [] in t.arity
  {
  }

  lemma ParentSurvives(t: Tree, o: Path, p: Path)
    requires t.Valid() && o in t.arity && p in t.arity && p != [] && p !in Beneath(t, o)
    ensures Parent(p) in t.arity && Parent(p) !in Beneath(t, o) && Parent(p) != o && Index(p) < t.arity[Parent(p)]
  {
    if o <= Parent(p) { PrefixTransitive(o, Parent(p), p); }
  }

  lemma ClearedKeepsKids(t: Tree, o: Path)
    requires t.Valid() && o in t.arity
    ensures var r := Cleared(t, o);
      forall p, i: nat {:trigger Kid(p, i)} | p in r.arity && i < r.arity[p] :: Kid(p, i) in r.arity
  {
    hide Beneath, Kid, Tree.Valid;
    var r := Cleared(t, o);
    forall p, i: nat {:trigger Kid(p, i)} | p in r.arity && i < r.arity[p]
      ensures Kid(p, i) in r.arity
    {
      OtherKidsStay(t, o, p, i);
    }
  }

  lemma OtherKidsStay(t: Tree, o: Path, q: Path, i: nat)
    requires t.Valid() && o in t.arity && q in t.arity && q != o && q !in Beneath(t, o) && i < t.arity[q]
    ensures Kid(q, i) in t.arity && Kid(q, i) !in Beneath(t, o)
  {
    if o <= Kid(q, i) && o != Kid(q, i) { Prefixes(o, Kid(q, i)); }
  }
}
