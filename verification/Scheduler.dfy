/** The scheduler's pass over the tree of the current instance: marking solved nodes, finding new
    places for the solvers of solved nodes, and spreading solvers over a new partition. */
module Scheduler {
  import opened Wrappers
  import opened Paths
  import opened StatusTree
  import opened Verdicts
  import opened StatusInvariants
  import opened Growth

  /** The node that each solver works on. */
  type Places = map<nat, Path>

  function SolversAt(at: Places, p: Path): set<nat> {
    set s | s in at && at[s] == p
  }

  /** A processed node that is still unknown has a partitioned Or child: its solvers have
      somewhere to go. */
  ghost predicate ProcessedOk(t: Tree, processed: set<Path>)
    requires t.Valid()
  {
    forall p | p in processed :: p in t.arity && IsAnd(p) && (t.status[p] == Unknown ==> Partitioned(t, p))
  }

  predicate Partitioned(t: Tree, p: Path)
    requires t.Valid() && p in t.arity
  {
    t.arity[p] > 0 && Kid(p, 0) in t.arity && t.arity[Kid(p, 0)] > 0
  }

  /** `all_active_nodes`: the unknown And nodes of a list that are not processed. */
  predicate Active(t: Tree, processed: set<Path>, p: Path)
  {
    p in t.status && t.status[p] == Unknown && IsAnd(p) && p !in processed
  }

  lemma ActiveMeans(t: Tree, processed: set<Path>, q: Path)
    ensures Active(t, processed, q) <==> q in t.status && t.status[q] == Unknown && IsAnd(q) && q !in processed
  {
  }

  // ---------- there is always somewhere to go ----------

  lemma NoSatBelowUnknown(t: Tree, p: Path)
    requires t.Valid() && SatClimbs(t) && t.status[[]] == Unknown && p in t.arity
    ensures t.status[p] != Sat
    decreases |p|
  {
    if p != [] { NoSatBelowUnknown(t, Parent(p)); }
  }

  lemma UnknownKid(t: Tree, p: Path) returns (i: nat)
    requires Inv(t) && t.status[[]] == Unknown
    requires p in t.arity && IsAnd(p) && t.status[p] == Unknown && Partitioned(t, p)
    ensures i < t.arity[Kid(p, 0)] && Kid(Kid(p, 0), i) in t.arity && t.status[Kid(Kid(p, 0), i)] == Unknown
  {
    var o := Kid(p, 0);
    assert Parent(o) == p;
    assert OrMatches(t, o);
    i :| i < t.arity[o] && t.status[Kid(o, i)] != Unsat;
    NoSatBelowUnknown(t, Kid(o, i));
  }

  /** Below every unknown And node there is an unknown And node that is not processed. */
  lemma {:induction false} ActiveNodeBelow(t: Tree, processed: set<Path>, p: Path) returns (q: Path)
    requires Inv(t) && t.status[[]] == Unknown && ProcessedOk(t, processed)
    requires p in t.arity && IsAnd(p) && t.status[p] == Unknown
    ensures p <= q && IsAnd(q) && q in t.arity && q in t.status && t.status[q] == Unknown && q !in processed
    decreases |StatusTree.Below(t, p)|
  {
    if p !in processed {
      q := p;
    } else {
      var o := Kid(p, 0);
      var i := UnknownKid(t, p);
      BelowShrinks(t, p, 0);
      BelowShrinks(t, o, i);
      q := ActiveNodeBelow(t, processed, Kid(o, i));
      PrefixTransitive(o, Kid(o, i), q);
      PrefixTransitive(p, o, q);
    }
  }

  function ActiveOf(t: Tree, processed: set<Path>, nodes: seq<Path>): (r: seq<Path>)
    ensures forall q :: q in r <==> q in nodes && q in t.status && t.status[q] == Unknown && IsAnd(q) && q !in processed
    decreases |nodes|
  {
    if nodes == [] then []
    else (if Active(t, processed, nodes[0]) then [nodes[0]] else []) + ActiveOf(t, processed, nodes[1..])
  }

  /** The first of the listed nodes with the fewest solvers. */
  method LeastLoaded(at: Places, nodes: seq<Path>) returns (best: Path)
    requires nodes != []
    ensures best in nodes && forall q | q in nodes :: |SolversAt(at, best)| <= |SolversAt(at, q)|
  {
    best := nodes[0];
    for i := 1 to |nodes|
      invariant best in nodes && forall j | 0 <= j < i :: |SolversAt(at, best)| <= |SolversAt(at, nodes[j])|
    {
      if |SolversAt(at, nodes[i])| < |SolversAt(at, best)| { best := nodes[i]; }
    }
  }

  // ---------- dealing out solvers in turns ----------

  /** How many solvers of `s` are below `c`. */
  function Share(s: set<nat>, at: Places, c: Path): nat {
    |Below(s, at, c)|
  }

  function Below(s: set<nat>, at: Places, c: Path): set<nat> {
    set x | x in s && x in at && c <= at[x]
  }

  lemma ShareGrows(s: set<nat>, at: Places, x: nat, p: Path, c: Path)
    requires x !in s
    ensures Share(s + {x}, at[x := p], c) == Share(s, at, c) + if c <= p then 1 else 0
  {
    assert Below(s + {x}, at[x := p], c) == Below(s, at, c) + if c <= p then {x} else {};
  }

  /** None of the nodes is above another. */
  ghost predicate Apart(nodes: seq<Path>) {
    forall j, k | 0 <= j < |nodes| && 0 <= k < |nodes| && j != k :: !(nodes[j] <= nodes[k])
  }

  ghost predicate Even(s: set<nat>, at: Places, nodes: seq<Path>) {
    forall j, k | 0 <= j < |nodes| && 0 <= k < |nodes| :: Share(s, at, nodes[j]) <= Share(s, at, nodes[k]) + 1
  }

  /** In a round of turns, the nodes before the i-th have had theirs, as far as there were solvers. */
  ghost predicate Turns(s: set<nat>, at: Places, nodes: seq<Path>, i: nat, r: nat, left: bool) {
    && (forall k | 0 <= k < |nodes| :: r <= Share(s, at, nodes[k]) <= r + 1)
    && (forall k | i <= k < |nodes| :: Share(s, at, nodes[k]) == r)
    && (left ==> forall k | 0 <= k < i && k < |nodes| :: Share(s, at, nodes[k]) == r + 1)
  }

  lemma TakeTurn(s: set<nat>, at: Places, nodes: seq<Path>, i: nat, r: nat, x: nat, p: Path, left: bool)
    requires Apart(nodes) && i < |nodes| && Turns(s, at, nodes, i, r, true) && x !in s && nodes[i] <= p
    ensures Turns(s + {x}, at[x := p], nodes, i + 1, r, left)
  {
    forall k | 0 <= k < |nodes|
      ensures Share(s + {x}, at[x := p], nodes[k]) == Share(s, at, nodes[k]) + if k == i then 1 else 0
    {
      ShareGrows(s, at, x, p, nodes[k]);
      if nodes[k] <= p {
        if |nodes[k]| <= |nodes[i]| {
          PrefixesOfOneAreComparable(nodes[k], nodes[i], p);
        } else {
          PrefixesOfOneAreComparable(nodes[i], nodes[k], p);
        }
      }
    }
  }

  lemma TurnsAreEven(s: set<nat>, at: Places, nodes: seq<Path>, i: nat, r: nat, left: bool)
    requires Turns(s, at, nodes, i, r, left)
    ensures Even(s, at, nodes)
    ensures left && i == |nodes| ==> Turns(s, at, nodes, 0, r + 1, true)
  {
  }

  // ---------- solvers of solved nodes ----------

  lemma {:induction false} UnknownKidsListed(t: Tree, o: Path, i: nat)
    requires t.Valid() && o in t.arity && i <= t.arity[o]
    ensures forall c | c in UnknownKids(t, o, i) ::
      c in t.arity && c != [] && Parent(c) == o && i <= Index(c) && c in t.status && t.status[c] == Unknown
    ensures Apart(UnknownKids(t, o, i))
    decreases t.arity[o] - i
  {
    hide Tree.Valid;
    if i < t.arity[o] {
      UnknownKidsListed(t, o, i + 1);
      KidIsAttached(t, o, i);
      var rest := UnknownKids(t, o, i + 1);
      forall k | 0 <= k < |rest|
        ensures !(Kid(o, i) <= rest[k]) && !(rest[k] <= Kid(o, i))
      {
        assert rest[k] in rest;
        Siblings(o, rest[k], i);
      }
    }
  }

  /** Children are listed by their indices. */
  predicate InOrder(kids: seq<Path>) {
    forall j, k | 0 <= j < k < |kids| && kids[j] != [] && kids[k] != [] :: Index(kids[j]) < Index(kids[k])
  }

  lemma {:induction false} UnknownKidsInOrder(t: Tree, o: Path, i: nat)
    requires t.Valid() && o in t.arity && i <= t.arity[o]
    ensures InOrder(UnknownKids(t, o, i))
    decreases t.arity[o] - i
  {
    hide Tree.Valid;
    if i < t.arity[o] {
      UnknownKidsInOrder(t, o, i + 1);
      UnknownKidsListed(t, o, i + 1);
      KidIsAttached(t, o, i);
      var rest := UnknownKids(t, o, i + 1);
      assert forall k | 0 <= k < |rest| :: rest[k] in rest;
    }
  }

  lemma {:induction false} UnknownKidIsListed(t: Tree, o: Path, i: nat, j: nat)
    requires t.Valid() && o in t.arity && i <= j < t.arity[o] && Kid(o, j) in t.status && t.status[Kid(o, j)] == Unknown
    ensures Kid(o, j) in UnknownKids(t, o, i)
    decreases t.arity[o] - i
  {
    if i < j { UnknownKidIsListed(t, o, i + 1, j); }
  }

  lemma KidIsAttached(t: Tree, o: Path, i: nat)
    requires t.Valid() && o in t.arity && i < t.arity[o]
    ensures Kid(o, i) in t.arity && Kid(o, i) in t.status && Kid(o, i) != []
    ensures Parent(Kid(o, i)) == o && Index(Kid(o, i)) == i
  {
  }

  lemma Siblings(o: Path, c: Path, i: nat)
    requires c != [] && Parent(c) == o && Index(c) != i
    ensures !(Kid(o, i) <= c) && !(c <= Kid(o, i))
  {
    assert Kid(o, i)[|o|] == i && c[|o|] == Index(c);
  }

  /** The least loaded active node below a child of the root. */
  method PlaceBelow(t: Tree, processed: set<Path>, at: Places, child: Path) returns (ch: Path)
    requires t.Valid() && Inv(t) && ProcessedOk(t, processed) && t.status[[]] == Unknown
    requires child in t.arity && IsAnd(child) && t.status[child] == Unknown
    ensures child <= ch && IsAnd(ch) && ch in t.status && t.status[ch] == Unknown && ch !in processed
    ensures forall q | child <= q && IsAnd(q) && q in t.status && t.status[q] == Unknown && q !in processed ::
      |SolversAt(at, ch)| <= |SolversAt(at, q)|
  {
    hide Inv, ProcessedOk;
    ghost var q := ActiveNodeBelow(t, processed, child);
    AllVisitsBelow(t, child, q);
    var active := ActiveOf(t, processed, All(t, child));
    ch := LeastLoaded(at, active);
    AllBelow(t, child);
    forall q | child <= q && IsAnd(q) && q in t.status && t.status[q] == Unknown && q !in processed
      ensures q in active
    {
      AllVisitsBelow(t, child, q);
    }
  }

  /** One round over the children: a solver for each, as long as there are solvers. */
  method Round(t: Tree, processed: set<Path>, at: Places, solved: set<nat>, left: set<nat>, childs: seq<Path>, ghost r: nat)
    returns (at1: Places, left1: set<nat>)
    requires t.Valid() && Inv(t) && ProcessedOk(t, processed) && t.status[[]] == Unknown
    requires Apart(childs) && forall c | c in childs :: c in t.arity && IsAnd(c) && t.status[c] == Unknown
    requires left <= solved <= at.Keys && left != {} && childs != [] && Turns(solved - left, at, childs, 0, r, true)
    ensures left1 < left && at1.Keys == at.Keys
    ensures forall s | s in at && s !in left - left1 :: at1[s] == at[s]
    ensures forall s | s in left - left1 :: Active(t, processed, at1[s])
    ensures Turns(solved - left1, at1, childs, |childs|, r, left1 != {})
  {
    hide Inv, ProcessedOk, Active, Turns, Apart;
    at1, left1 := at, left;
    for i := 0 to |childs|
      invariant left1 <= left && at1.Keys == at.Keys && (i > 0 ==> left1 < left)
      invariant forall s | s in at && s !in left - left1 :: at1[s] == at[s]
      invariant forall s | s in left - left1 :: Active(t, processed, at1[s])
      invariant Turns(solved - left1, at1, childs, i, r, left1 != {})
    {
      if left1 != {} {
        var s :| s in left1;
        var ch := PlaceBelow(t, processed, at1, childs[i]);
        assert Active(t, processed, ch) by { ActiveMeans(t, processed, ch); }
        TakeTurn(solved - left1, at1, childs, i, r, s, ch, left1 - {s} != {});
        assert solved - left1 + {s} == solved - (left1 - {s});
        left1 := left1 - {s};
        at1 := at1[s := ch];
      } else {
        TurnsAreOver(solved - left1, at1, childs, i, r);
      }
    }
  }

  /** `while 0 != len(solved_solvers)`: the solvers of solved nodes go, one per turn, to the least
      loaded active node below each unknown child of the root. */
  method Reassign(t: Tree, processed: set<Path>, at: Places, solved: set<nat>) returns (at1: Places)
    requires t.Valid() && Inv(t) && ProcessedOk(t, processed) && t.status[[]] == Unknown && solved <= at.Keys
    requires solved != {} ==> [] in t.arity && Partitioned(t, [])
    ensures at1.Keys == at.Keys && forall s | s in at && s !in solved :: at1[s] == at[s]
    ensures forall s | s in solved :: at1[s] in t.status && t.status[at1[s]] == Unknown && IsAnd(at1[s]) && at1[s] !in processed
    ensures solved != {} ==> Even(solved, at1, UnknownKids(t, Kid([], 0), 0))
  {
    hide Inv, ProcessedOk, Active, Turns, Apart, Even;
    at1 := at;
    if solved == {} { return; }
    var childs := UnknownKids(t, Kid([], 0), 0);
    UnknownKidsListed(t, Kid([], 0), 0);
    ghost var i0 := UnknownKid(t, []);
    UnknownKidIsListed(t, Kid([], 0), 0, i0);
    assert childs != [];
    var left := solved;
    ghost var rounds := 0;
    NobodyYet(at, childs);
    assert solved - left == {};
    while left != {}
      invariant left <= solved && at1.Keys == at.Keys
      invariant forall s | s in at && (s !in solved || s in left) :: at1[s] == at[s]
      invariant forall s | s in solved - left :: Active(t, processed, at1[s])
      invariant left != {} ==> Turns(solved - left, at1, childs, 0, rounds, true)
      invariant left == {} ==> Even(solved, at1, childs)
      decreases left
    {
      at1, left := Round(t, processed, at1, solved, left, childs, rounds);
      TurnsAreEven(solved - left, at1, childs, |childs|, rounds, left != {});
      assert left == {} ==> solved - left == solved;
      rounds := rounds + 1;
    }
    assert solved - left == solved;
    forall s | s in solved
      ensures at1[s] in t.status && t.status[at1[s]] == Unknown && IsAnd(at1[s]) && at1[s] !in processed
    {
      ActiveMeans(t, processed, at1[s]);
    }
  }

  lemma NobodyYet(at: Places, nodes: seq<Path>)
    ensures Turns({}, at, nodes, 0, 0, true)
  {
    forall k | 0 <= k < |nodes|
      ensures Share({}, at, nodes[k]) == 0
    {
      assert Below({}, at, nodes[k]) == {};
    }
  }

  lemma TurnsAreOver(s: set<nat>, at: Places, nodes: seq<Path>, i: nat, r: nat)
    requires Turns(s, at, nodes, i, r, false)
    ensures Turns(s, at, nodes, i + 1, r, false)
  {
  }

  // ---------- marking solved and timed-out nodes ----------

  /** A node whose solvers must be moved: it became unsat, or one of its partitions did while it is
      still unknown itself. */
  ghost predicate Freed(t: Tree, processed: set<Path>, nodes: seq<Path>, p: Path)
    requires t.Valid() && forall n | n in nodes :: n in t.arity
  {
    exists n :: n in nodes && Frees(t, processed, n, p)
  }

  predicate Frees(t: Tree, processed: set<Path>, n: Path, p: Path)
    requires t.Valid() && n in t.arity
  {
    NewlyUnsat(t, processed, n) && (p == n || IsUnknownGrandparent(t, n, p))
  }

  predicate NewlyUnsat(t: Tree, processed: set<Path>, n: Path)
    requires t.Valid() && n in t.arity
  {
    IsAnd(n) && t.status[n] == Unsat && n !in processed
  }

  predicate IsUnknownGrandparent(t: Tree, n: Path, p: Path)
    requires t.Valid()
  {
    |n| >= 2 && p == Parent(Parent(n)) && p in t.arity && t.status[p] == Unknown
  }

  /** A node that the scheduler may ask to be partitioned. */
  predicate Splittable(t: Tree, processed: set<Path>, partitioning: set<Path>, n: Path)
    requires t.Valid() && n in t.arity
  {
    IsAnd(n) && t.status[n] == Unknown && t.arity[n] == 0 && n !in partitioning && n !in processed
  }

  predicate SortedByDepth(nodes: seq<Path>) {
    forall i, j | 0 <= i < j < |nodes| :: |nodes[i]| <= |nodes[j]|
  }

  /** What one visit of the marking loop works on. */
  datatype Marks = Marks(processed: set<Path>, idle: set<nat>, assumed: set<Path>, solved: set<nat>)

  /** A node that is out of time. */
  predicate Overdue(t: Tree, timedOut: set<Path>, n: Path) {
    IsAnd(n) && n in t.status && t.status[n] == Unknown && n in timedOut
  }

  /** One that has partitions to go to. */
  predicate Exhausted(t: Tree, timedOut: set<Path>, partitioning: set<Path>, n: Path) {
    Overdue(t, timedOut, n) && n in partitioning && Kid(n, 0) in t.arity && t.arity[Kid(n, 0)] > 0
  }

  /** What one visit does: it frees the solvers of a newly unsat node and of its unknown grandparent,
      and both are processed; a node out of time is processed if it has partitions, and assumed to
      have timed out if not, and the first time its solvers become idle. */
  ghost predicate Visited(t: Tree, at: Places, m: Marks, n: Path, timedOut: set<Path>, partitioning: set<Path>, m1: Marks)
    requires t.Valid() && n in t.arity
  {
    && (forall q :: q in m1.processed <==>
          q in m.processed || Frees(t, m.processed, n, q) || (q == n && Exhausted(t, timedOut, partitioning, n)))
    && (forall q :: q in m1.assumed <==>
          q in m.assumed ||
          (q == n && n !in m.processed && Overdue(t, timedOut, n) && !Exhausted(t, timedOut, partitioning, n)))
    && (forall s :: s in m1.solved <==> s in m.solved || (s in at && Frees(t, m.processed, n, at[s])))
    && (forall s :: s in m1.idle <==>
          !(s in at && Frees(t, m.processed, n, at[s])) &&
          (s in m.idle ||
           (s in at && at[s] == n && n !in m.processed && Overdue(t, timedOut, n) &&
            (Exhausted(t, timedOut, partitioning, n) || n !in m.assumed))))
  }

  /** What the whole pass does: the solvers of newly unsat nodes and of their unknown grandparents are
      freed; these nodes, and the nodes out of time that have partitions, are processed; other nodes
      out of time are assumed to be so; and idle are, of the solvers not freed, those that were and
      those whose node ran out of time now. */
  ghost predicate Passed(t: Tree, at: Places, start: Marks, nodes: seq<Path>, timedOut: set<Path>, partitioning: set<Path>,
      end: Marks)
    requires t.Valid() && forall n | n in nodes :: n in t.arity
  {
    && (forall q :: q in end.processed <==>
          q in start.processed || Freed(t, start.processed, nodes, q) ||
          (q in nodes && Exhausted(t, timedOut, partitioning, q)))
    && (forall q :: q in end.assumed <==>
          q in start.assumed ||
          (q in nodes && q !in start.processed && Overdue(t, timedOut, q) && !Exhausted(t, timedOut, partitioning, q)))
    && (forall s :: s in end.solved <==> s in at && Freed(t, start.processed, nodes, at[s]))
    && (forall s :: s in end.idle <==>
          s !in end.solved &&
          (s in start.idle ||
           (s in at && at[s] in nodes && at[s] !in start.processed && Overdue(t, timedOut, at[s]) &&
            (Exhausted(t, timedOut, partitioning, at[s]) || at[s] !in start.assumed))))
  }

  /** One more visit.  Nodes are visited before the nodes below them. */
  lemma PassedOneMore(t: Tree, at: Places, start: Marks, nodes: seq<Path>, i: nat, timedOut: set<Path>, partitioning: set<Path>,
      m: Marks, m1: Marks)
    requires t.Valid() && (forall n | n in nodes :: n in t.arity) && SortedByDepth(nodes) && i < |nodes|
    requires forall n | n in nodes[..i] :: n in t.arity
    requires Passed(t, at, start, nodes[..i], timedOut, partitioning, m)
    requires Visited(t, at, m, nodes[i], timedOut, partitioning, m1)
    ensures forall n | n in nodes[..i + 1] :: n in t.arity
    ensures Passed(t, at, start, nodes[..i + 1], timedOut, partitioning, m1)
  {
    hide Overdue, Frees, Freed;
    var n := nodes[i];
    assert nodes[..i + 1] == nodes[..i] + [n];
    NotFreedYet(t, start.processed, nodes, i);
    forall p
      ensures Freed(t, start.processed, nodes[..i + 1], p) <==>
        Freed(t, start.processed, nodes[..i], p) || Frees(t, m.processed, n, p)
    {
      FreesSame(t, start.processed, m.processed, nodes, i, timedOut, partitioning, p);
    }
    if Overdue(t, timedOut, n) { OverdueIsUnknown(t, timedOut, n); }
  }

  lemma OverdueIsUnknown(t: Tree, timedOut: set<Path>, n: Path)
    requires t.Valid() && n in t.arity && Overdue(t, timedOut, n)
    ensures t.status[n] == Unknown
  {
  }

  lemma FreesSame(t: Tree, processed: set<Path>, processed1: set<Path>, nodes: seq<Path>, i: nat, timedOut: set<Path>,
      partitioning: set<Path>, p: Path)
    requires t.Valid() && (forall n | n in nodes :: n in t.arity) && i < |nodes| && forall n | n in nodes[..i] :: n in t.arity
    requires forall q :: q in processed1 <==>
      q in processed || Freed(t, processed, nodes[..i], q) || (q in nodes[..i] && Exhausted(t, timedOut, partitioning, q))
    ensures forall n | n in nodes[..i + 1] :: n in t.arity
    ensures Freed(t, processed, nodes[..i + 1], p) <==> Freed(t, processed, nodes[..i], p) || Frees(t, processed1, nodes[i], p)
  {
    assert nodes[..i + 1] == nodes[..i] + [nodes[i]];
    if Freed(t, processed, nodes[..i + 1], p) {
      var n :| n in nodes[..i + 1] && Frees(t, processed, n, p);
      if n !in nodes[..i] {
        assert n == nodes[i] && Frees(t, processed1, n, p);
      }
    }
    if Frees(t, processed1, nodes[i], p) {
      assert nodes[i] in nodes[..i + 1] && Frees(t, processed, nodes[i], p);
    }
  }

  lemma UnsatVisited(t: Tree, at: Places, m: Marks, n: Path, timedOut: set<Path>, partitioning: set<Path>, freed: set<Path>,
      m1: Marks)
    requires t.Valid() && n in t.arity && NewlyUnsat(t, m.processed, n)
    requires forall p :: p in freed <==> p == n || IsUnknownGrandparent(t, n, p)
    requires m1.processed == m.processed + freed && m1.assumed == m.assumed
    requires forall s :: s in m1.solved <==> s in m.solved || (s in at && at[s] in freed)
    requires forall s :: s in m1.idle <==> s in m.idle && !(s in at && at[s] in freed)
    ensures Visited(t, at, m, n, timedOut, partitioning, m1)
  {
    hide IsUnknownGrandparent;
    assert forall p :: Frees(t, m.processed, n, p) <==> p in freed;
  }

  lemma NothingToFree(t: Tree, at: Places, m: Marks, n: Path, timedOut: set<Path>, partitioning: set<Path>, m1: Marks)
    requires t.Valid() && n in t.arity && !NewlyUnsat(t, m.processed, n) && m1.solved == m.solved
    requires m1.processed == m.processed + if n !in m.processed && Exhausted(t, timedOut, partitioning, n) then {n} else {}
    requires m1.assumed == m.assumed +
      if n !in m.processed && Overdue(t, timedOut, n) && !Exhausted(t, timedOut, partitioning, n) then {n} else {}
    requires m1.idle == m.idle +
      if n !in m.processed && Overdue(t, timedOut, n) && (Exhausted(t, timedOut, partitioning, n) || n !in m.assumed)
      then SolversAt(at, n) else {}
    ensures Visited(t, at, m, n, timedOut, partitioning, m1)
  {
    hide Overdue, Exhausted, NewlyUnsat;
    assert forall p :: !Frees(t, m.processed, n, p);
  }

  /** Visiting one node. */
  method Visit(t: Tree, at: Places, m: Marks, n: Path, timedOut: set<Path>, partitioning: set<Path>) returns (m1: Marks)
    requires t.Valid() && Inv(t) && t.status[[]] == Unknown && ProcessedOk(t, m.processed) && n in t.arity
    requires forall p | p in partitioning :: p in t.arity && t.arity[p] > 0
    ensures m.processed <= m1.processed && ProcessedOk(t, m1.processed)
    ensures IsAnd(n) && t.status[n] == Unsat ==> n in m1.processed
    ensures forall q | q in m1.processed - m.processed ::
      q in t.arity && IsAnd(q) && ((q == n && t.status[q] == Unsat) || (t.status[q] == Unknown && Partitioned(t, q)))
    ensures Visited(t, at, m, n, timedOut, partitioning, m1)
  {
    hide OrMatchesChildren, UnsatClimbs, SatClimbs, UnsatFalls, Parent, Visited;
    var processed, idle, assumed, solved := m.processed, m.idle, m.assumed, m.solved;
    if IsAnd(n) && n !in processed {
      assert t.status[n] != Sat by { NoSatBelowUnknown(t, n); }
      if t.status[n] == Unsat {
        ghost var freed := {n};
        if n != [] {
          GrandparentIsPartitioned(t, n);
          var g := Parent(Parent(n));
          if t.status[g] == Unknown {
            solved := solved + SolversAt(at, g);
            idle := idle - SolversAt(at, g);
            processed := processed + {g};
            freed := {g, n};
          }
        }
        processed := processed + {n};
        solved := solved + SolversAt(at, n);
        idle := idle - SolversAt(at, n);
        UnsatVisited(t, at, m, n, timedOut, partitioning, freed, Marks(processed, idle, assumed, solved));
      } else if n in timedOut {
        if n in partitioning && t.arity[Kid(n, 0)] > 0 {
          idle := idle + SolversAt(at, n);
          processed := processed + {n};
        } else if n !in assumed {
          idle := idle + SolversAt(at, n);
          assumed := assumed + {n};
        }
      }
    }
    m1 := Marks(processed, idle, assumed, solved);
    if !NewlyUnsat(t, m.processed, n) { NothingToFree(t, at, m, n, timedOut, partitioning, m1); }
  }

  /** An And node below the root hangs under the only Or child of its grandparent. */
  lemma GrandparentIsPartitioned(t: Tree, n: Path)
    requires t.Valid() && PartitionedOnce(t) && n in t.arity && n != [] && IsAnd(n)
    ensures |n| >= 2 && Parent(n) != [] && Parent(Parent(n)) in t.arity
    ensures IsAnd(Parent(Parent(n))) && Partitioned(t, Parent(Parent(n)))
  {
    var o := Parent(n);
    var g := Parent(o);
    assert Index(o) == 0 && o == g + [0] && o == Kid(g, 0);
  }

  /** The pass over all nodes: solved nodes and timed-out partitioned nodes become processed, their
      solvers are freed or become idle, and the shallowest leaf that can be partitioned is found. */
  method Mark(t: Tree, nodes: seq<Path>, at: Places, start: Marks, timedOut: set<Path>, partitioning: set<Path>)
    returns (end: Marks, target: Option<Path>)
    requires t.Valid() && Inv(t) && t.status[[]] == Unknown && ProcessedOk(t, start.processed)
    requires (forall n | n in nodes :: n in t.arity) && SortedByDepth(nodes) && start.solved == {}
    requires forall p | p in partitioning :: p in t.arity && t.arity[p] > 0
    ensures start.processed <= end.processed && OnlyExpected(t, start.processed, end.processed, nodes)
    ensures ProcessedOk(t, end.processed)
    ensures forall n | n in nodes && IsAnd(n) && t.status[n] == Unsat :: n in end.processed
    ensures Passed(t, at, start, nodes, timedOut, partitioning, end) && end.solved !! end.idle
    ensures end.solved != {} ==> [] in t.arity && Partitioned(t, [])
    ensures target.None? ==> forall n | n in nodes :: !Splittable(t, start.processed, partitioning, n)
    ensures target.Some? ==> target.value in nodes && Splittable(t, start.processed, partitioning, target.value)
    ensures target.Some? ==> target.value !in end.processed
    ensures target.Some? ==> forall n | n in nodes && Splittable(t, start.processed, partitioning, n) :: |target.value| <= |n|
  {
    hide OrMatchesChildren, UnsatClimbs, SatClimbs, UnsatFalls, Parent, ProcessedOk, OnlyExpected, Splittable, Visited, Passed;
    end, target := start, None;
    assert nodes[..0] == [];
    NothingPassed(t, at, start, timedOut, partitioning);
    for i := 0 to |nodes|
      invariant start.processed <= end.processed && ProcessedOk(t, end.processed)
      invariant forall j | 0 <= j < i && IsAnd(nodes[j]) && t.status[nodes[j]] == Unsat :: nodes[j] in end.processed
      invariant OnlyExpected(t, start.processed, end.processed, nodes[..i])
      invariant (forall n | n in nodes[..i] :: n in t.arity) && Passed(t, at, start, nodes[..i], timedOut, partitioning, end)
      invariant target.None? ==> forall j | 0 <= j < i :: !Splittable(t, start.processed, partitioning, nodes[j])
      invariant target.Some? ==> target.value in nodes && Splittable(t, start.processed, partitioning, target.value)
      invariant target.Some? ==> forall j | 0 <= j < |nodes| && |nodes[j]| < |target.value| ::
        !Splittable(t, start.processed, partitioning, nodes[j])
    {
      var n := nodes[i];
      ghost var before := end;
      end := Visit(t, at, end, n, timedOut, partitioning);
      PassedOneMore(t, at, start, nodes, i, timedOut, partitioning, before, end);
      ExpectedGrows(t, start.processed, before.processed, end.processed, nodes, i);
      CanSplit(t, start.processed, end.processed, nodes[..i + 1], partitioning, n);
      if IsAnd(n) && n !in partitioning && n !in end.processed && t.arity[n] == 0 && target == None {
        target := Some(n);
      }
    }
    assert nodes[..|nodes|] == nodes;
    FreedSolvers(t, at, start, nodes, timedOut, partitioning, end);
    if target.Some? { NotProcessed(t, start.processed, end.processed, nodes, partitioning, target.value); }
  }

  /** The scheduler's test finds exactly the leaves that can be partitioned. */
  lemma CanSplit(t: Tree, processed: set<Path>, processed1: set<Path>, visited: seq<Path>, partitioning: set<Path>, n: Path)
    requires t.Valid() && SatClimbs(t) && t.status[[]] == Unknown && n in t.arity && processed <= processed1
    requires OnlyExpected(t, processed, processed1, visited) && (IsAnd(n) && t.status[n] == Unsat ==> n in processed1)
    ensures Splittable(t, processed, partitioning, n) <==>
      IsAnd(n) && n !in partitioning && n !in processed1 && t.arity[n] == 0
  {
    NoSatBelowUnknown(t, n);
  }

  lemma NotProcessed(t: Tree, processed: set<Path>, processed1: set<Path>, visited: seq<Path>, partitioning: set<Path>, n: Path)
    requires t.Valid() && n in t.arity && Splittable(t, processed, partitioning, n)
    requires OnlyExpected(t, processed, processed1, visited)
    ensures n !in processed1
  {
  }

  lemma FreedMeansPartitioned(t: Tree, processed: set<Path>, nodes: seq<Path>, p: Path)
    requires t.Valid() && PartitionedOnce(t) && t.status[[]] == Unknown && forall n | n in nodes :: n in t.arity
    requires Freed(t, processed, nodes, p)
    ensures [] in t.arity && Partitioned(t, [])
  {
    var n :| n in nodes && Frees(t, processed, n, p);
    RootIsPartitioned(t, n);
  }

  lemma {:induction false} RootIsPartitioned(t: Tree, n: Path)
    requires t.Valid() && PartitionedOnce(t) && n in t.arity && n != [] && IsAnd(n)
    ensures [] in t.arity && Partitioned(t, [])
    decreases |n|
  {
    GrandparentIsPartitioned(t, n);
    var g := Parent(Parent(n));
    if g != [] { RootIsPartitioned(t, g); }
  }

  /** What the pass has added to the processed nodes. */
  ghost predicate OnlyExpected(t: Tree, processed: set<Path>, processed1: set<Path>, visited: seq<Path>)
    requires t.Valid()
  {
    forall q | q in processed1 - processed ::
      q in t.arity && IsAnd(q) && ((q in visited && t.status[q] == Unsat) || (t.status[q] == Unknown && Partitioned(t, q)))
  }

  /** Nodes are visited before the nodes below them, so an unknown node is visited before any of its
      partitions can free its solvers. */
  lemma NotFreedYet(t: Tree, processed: set<Path>, nodes: seq<Path>, i: nat)
    requires t.Valid() && (forall n | n in nodes :: n in t.arity) && SortedByDepth(nodes) && i < |nodes|
    ensures forall n | n in nodes[..i] :: n in t.arity
    ensures t.status[nodes[i]] == Unknown ==> !Freed(t, processed, nodes[..i], nodes[i])
  {
    assert forall j | 0 <= j < i :: nodes[j] in nodes[..i];
  }

  lemma ExpectedGrows(t: Tree, processed: set<Path>, processed1: set<Path>, processed2: set<Path>, nodes: seq<Path>, i: nat)
    requires t.Valid() && i < |nodes| && OnlyExpected(t, processed, processed1, nodes[..i])
    requires forall q | q in processed2 - processed1 ::
      q in t.arity && IsAnd(q) && ((q == nodes[i] && t.status[q] == Unsat) || (t.status[q] == Unknown && Partitioned(t, q)))
    ensures OnlyExpected(t, processed, processed2, nodes[..i + 1])
  {
    assert nodes[..i + 1] == nodes[..i] + [nodes[i]];
  }

  lemma NothingPassed(t: Tree, at: Places, start: Marks, timedOut: set<Path>, partitioning: set<Path>)
    requires t.Valid() && start.solved == {}
    ensures Passed(t, at, start, [], timedOut, partitioning, start)
    ensures OnlyExpected(t, start.processed, start.processed, [])
  {
  }

  lemma FreedSolvers(t: Tree, at: Places, start: Marks, nodes: seq<Path>, timedOut: set<Path>, partitioning: set<Path>,
      end: Marks)
    requires t.Valid() && PartitionedOnce(t) && t.status[[]] == Unknown && forall n | n in nodes :: n in t.arity
    requires Passed(t, at, start, nodes, timedOut, partitioning, end)
    ensures end.solved !! end.idle && (end.solved != {} ==> [] in t.arity && Partitioned(t, []))
  {
    if end.solved != {} {
      var s :| s in end.solved;
      FreedMeansPartitioned(t, start.processed, nodes, at[s]);
    }
  }

  // ---------- spreading solvers over a new partition ----------

  /** `path_to_node`: the And nodes from the root down to `p`. */
  function PathToNode(p: Path): seq<Path>
    decreases |p|
  {
    if p == [] then [[]]
    else if IsAnd(p) then PathToNode(Parent(p)) + [p]
    else PathToNode(Parent(p))
  }

  lemma {:induction false} PathToNodeLists(p: Path, q: Path)
    ensures q in PathToNode(p) <==> q <= p && IsAnd(q)
    decreases |p|
  {
    if p != [] {
      PathToNodeLists(Parent(p), q);
      if q <= p && q != p { Prefixes(q, p); }
    }
  }

  /** The solvers that may leave one node: busy ones, down to the portfolio minimum. */
  method MovableAt(here: set<nat>, idle: set<nat>, portfolioMin: int) returns (movable: seq<nat>)
    ensures NoRepeats(movable) && forall s | s in movable :: s in here && s !in idle
    ensures movable != [] ==> 0 <= portfolioMin < |here|
    ensures |here| - |movable| >= Min(|here|, portfolioMin)
    ensures 0 <= portfolioMin < |here| - |movable| ==> forall s | s in here && s !in idle :: s in movable
  {
    var counter := |here|;
    movable := [];
    var todo := here;
    while todo != {}
      invariant todo <= here && counter == |here| - |movable| && NoRepeats(movable)
      invariant forall s | s in movable :: s in here - todo && s !in idle
      invariant movable != [] ==> 0 <= portfolioMin < |here|
      invariant counter >= Min(|here|, portfolioMin)
      invariant 0 <= portfolioMin < counter ==> forall s | s in here - todo && s !in idle :: s in movable
      decreases todo
    {
      var solver :| solver in todo;
      todo := todo - {solver};
      if 0 <= portfolioMin < counter && solver !in idle {
        counter := counter - 1;
        movable := movable + [solver];
      }
    }
  }

  predicate NoRepeats<T(==)>(s: seq<T>) {
    forall i, j | 0 <= i < j < |s| :: s[i] != s[j]
  }

  /** The solvers that move when partitions of `p` have arrived. */
  method Movable(at: Places, p: Path, idle: set<nat>, portfolioMin: int) returns (movable: seq<nat>)
    ensures NoRepeats(movable) && forall s | s in movable :: s in at && at[s] <= p && s !in idle
    ensures forall q | q <= p && IsAnd(q) :: Trimmed(SolversAt(at, q), Elements(movable), idle, portfolioMin)
    ensures movable != [] <==> exists q :: q <= p && IsAnd(q) && CanSpare(at, q, idle, portfolioMin)
  {
    hide Trimmed, SolversAt, CanSpare, PathToNode;
    var nodes := PathToNode(p);
    PathHasNoRepeats(p);
    assert forall q :: q in nodes <==> q <= p && IsAnd(q) by {
      forall q ensures q in nodes <==> q <= p && IsAnd(q) { PathToNodeLists(p, q); }
    }
    movable := [];
    for i := 0 to |nodes|
      invariant MovedFrom(at, nodes[..i], movable, idle)
      invariant forall j | 0 <= j < i :: Trimmed(SolversAt(at, nodes[j]), Elements(movable), idle, portfolioMin)
      invariant movable != [] ==> exists q :: q in nodes && CanSpare(at, q, idle, portfolioMin)
    {
      var more := MovableAt(SolversAt(at, nodes[i]), idle, portfolioMin);
      MoreMoved(at, nodes, i, movable, more, idle, portfolioMin);
      if more != [] { SparesSome(at, nodes[i], idle, portfolioMin, more[0]); }
      movable := movable + more;
    }
    assert nodes[..|nodes|] == nodes;
    forall q | movable == [] && q in nodes
      ensures !CanSpare(at, q, idle, portfolioMin)
    {
      SparesNone(at, q, idle, portfolioMin);
    }
  }

  /** A node has a busy solver above the portfolio minimum. */
  ghost predicate CanSpare(at: Places, q: Path, idle: set<nat>, portfolioMin: int) {
    0 <= portfolioMin < |SolversAt(at, q)| && !(SolversAt(at, q) <= idle)
  }

  lemma SparesSome(at: Places, q: Path, idle: set<nat>, portfolioMin: int, s: nat)
    requires 0 <= portfolioMin < |SolversAt(at, q)| && s in SolversAt(at, q) && s !in idle
    ensures CanSpare(at, q, idle, portfolioMin)
  {
  }

  lemma SparesNone(at: Places, q: Path, idle: set<nat>, portfolioMin: int)
    requires Trimmed(SolversAt(at, q), Elements([]), idle, portfolioMin)
    ensures !CanSpare(at, q, idle, portfolioMin)
  {
    assert SolversAt(at, q) - Elements([]) == SolversAt(at, q);
  }

  ghost predicate MovedFrom(at: Places, nodes: seq<Path>, movable: seq<nat>, idle: set<nat>) {
    NoRepeats(movable) && forall s | s in movable :: s in at && at[s] in nodes && s !in idle
  }

  lemma MoreMoved(at: Places, nodes: seq<Path>, i: nat, movable: seq<nat>, more: seq<nat>, idle: set<nat>, portfolioMin: int)
    requires NoRepeats(nodes) && i < |nodes| && MovedFrom(at, nodes[..i], movable, idle)
    requires forall j | 0 <= j < i :: Trimmed(SolversAt(at, nodes[j]), Elements(movable), idle, portfolioMin)
    requires NoRepeats(more) && (forall s | s in more :: s in SolversAt(at, nodes[i]) && s !in idle)
    requires |SolversAt(at, nodes[i])| - |more| >= Min(|SolversAt(at, nodes[i])|, portfolioMin)
    requires 0 <= portfolioMin < |SolversAt(at, nodes[i])| - |more| ==>
      forall s | s in SolversAt(at, nodes[i]) && s !in idle :: s in more
    ensures MovedFrom(at, nodes[..i + 1], movable + more, idle)
    ensures forall j | 0 <= j < i + 1 :: Trimmed(SolversAt(at, nodes[j]), Elements(movable + more), idle, portfolioMin)
  {
    hide Trimmed, Elements, Min;
    forall s | s in movable
      ensures s !in SolversAt(at, nodes[i])
    {
      var j :| 0 <= j < i && nodes[..i][j] == at[s];
      assert at[s] == nodes[j] && nodes[j] != nodes[i];
    }
    MovedFromMore(at, nodes, i, movable, more, idle);
    TrimmedOne(SolversAt(at, nodes[i]), movable, more, idle, portfolioMin);
    forall j | 0 <= j < i
      ensures Trimmed(SolversAt(at, nodes[j]), Elements(movable + more), idle, portfolioMin)
    {
      NotTouched(at, nodes[j], nodes[i], movable, more, idle, portfolioMin);
    }
  }

  lemma MovedFromMore(at: Places, nodes: seq<Path>, i: nat, movable: seq<nat>, more: seq<nat>, idle: set<nat>)
    requires i < |nodes| && MovedFrom(at, nodes[..i], movable, idle)
    requires NoRepeats(more) && (forall s | s in more :: s in SolversAt(at, nodes[i]) && s !in idle && s !in movable)
    ensures MovedFrom(at, nodes[..i + 1], movable + more, idle)
  {
    assert nodes[..i + 1] == nodes[..i] + [nodes[i]];
    forall a, b | 0 <= a < b < |movable + more|
      ensures (movable + more)[a] != (movable + more)[b]
    {
      assert b >= |movable| ==> (movable + more)[b] in more;
      assert a < |movable| ==> (movable + more)[a] in movable;
    }
  }

  lemma NotTouched(at: Places, q: Path, p: Path, movable: seq<nat>, more: seq<nat>, idle: set<nat>, portfolioMin: int)
    requires q != p && forall s | s in more :: s in SolversAt(at, p)
    requires Trimmed(SolversAt(at, q), Elements(movable), idle, portfolioMin)
    ensures Trimmed(SolversAt(at, q), Elements(movable + more), idle, portfolioMin)
  {
    assert SolversAt(at, q) - Elements(movable + more) == SolversAt(at, q) - Elements(movable);
  }

  /** What is left at a node: at least the portfolio minimum, and no busy solver above it. */
  ghost predicate Trimmed(here: set<nat>, moved: set<nat>, idle: set<nat>, portfolioMin: int) {
    && |here - moved| >= Min(|here|, portfolioMin)
    && (0 <= portfolioMin < |here - moved| ==> here - moved <= idle)
  }

  ghost function Elements(s: seq<nat>): set<nat> {
    set x | x in s
  }

  lemma TrimmedOne(here: set<nat>, movable: seq<nat>, more: seq<nat>, idle: set<nat>, portfolioMin: int)
    requires NoRepeats(more) && (forall s | s in more :: s in here && s !in idle) && forall s | s in movable :: s !in here
    requires |here| - |more| >= Min(|here|, portfolioMin)
    requires 0 <= portfolioMin < |here| - |more| ==> forall s | s in here && s !in idle :: s in more
    ensures Trimmed(here, Elements(movable + more), idle, portfolioMin)
  {
    SizeOfElements(more);
    assert here - Elements(movable + more) == here - Elements(more);
    assert here == (here - Elements(more)) + Elements(more);
  }

  lemma {:induction false} SizeOfElements(s: seq<nat>)
    requires NoRepeats(s)
    ensures |Elements(s)| == |s|
    decreases |s|
  {
    if s != [] {
      var init := s[..|s| - 1];
      SizeOfElements(init);
      assert Elements(s) == Elements(init) + {s[|s| - 1]};
      assert s[|s| - 1] !in Elements(init);
    }
  }

  lemma {:induction false} PathHasNoRepeats(p: Path)
    ensures NoRepeats(PathToNode(p))
    decreases |p|
  {
    if p != [] {
      PathHasNoRepeats(Parent(p));
      PathToNodeLists(Parent(p), p);
      assert p !in PathToNode(Parent(p));
    }
  }

  /** `while 0 != len(movable_solvers)`: the i-th solver goes to the i-th child, in turns.  The loop
      ends because there is a child, or nobody to move. */
  method Spread(at: Places, kids: seq<Path>, movable: seq<nat>) returns (at1: Places)
    requires NoRepeats(movable) && (forall s | s in movable :: s in at) && Apart(kids)
    requires movable != [] ==> kids != []
    ensures at1.Keys == at.Keys && forall s | s in at && s !in movable :: at1[s] == at[s]
    ensures forall s | s in movable :: at1[s] in kids
    ensures Even(Elements(movable), at1, kids)
  {
    hide Turns, Apart, Even, LeftAfter;
    NoRoundYet(movable, kids);
    at1 := at;
    var left := movable;
    ghost var rounds := 0;
    NobodyYet(at, kids);
    TurnsAreEven({}, at, kids, 0, 0, true);
    assert Elements(movable[..0]) == {};
    while left != []
      invariant |left| <= |movable| && left == movable[|movable| - |left|..] && at1.Keys == at.Keys
      invariant forall s | s in at && s !in movable[..|movable| - |left|] :: at1[s] == at[s]
      invariant forall s | s in movable[..|movable| - |left|] :: at1[s] in kids
      invariant left != [] ==> Turns(Elements(movable[..|movable| - |left|]), at1, kids, 0, rounds, true)
      invariant Even(Elements(movable[..|movable| - |left|]), at1, kids)
      invariant left == LeftAfter(rounds, movable, kids)
      decreases |left|
    {
      OneMoreRound(rounds, movable, kids);
      at1, left := SpreadRound(at, at1, kids, movable, left, rounds);
      TurnsAreEven(Elements(movable[..|movable| - |left|]), at1, kids, |kids|, rounds, left != []);
      rounds := rounds + 1;
    }
    assert movable[..|movable|] == movable;
  }

  /** One round of that loop: a solver for each child, as long as there are solvers.  Without a child
      nobody moves. */
  method SpreadRound(ghost at: Places, at0: Places, kids: seq<Path>, ghost movable: seq<nat>, waiting: seq<nat>, ghost r: nat)
    returns (at1: Places, left: seq<nat>)
    requires NoRepeats(movable) && (forall s | s in movable :: s in at) && Apart(kids)
    requires 0 < |waiting| <= |movable| && waiting == movable[|movable| - |waiting|..] && at0.Keys == at.Keys
    requires forall s | s in at && s !in movable[..|movable| - |waiting|] :: at0[s] == at[s]
    requires forall s | s in movable[..|movable| - |waiting|] :: at0[s] in kids
    requires Turns(Elements(movable[..|movable| - |waiting|]), at0, kids, 0, r, true)
    ensures left == AfterRound(waiting, kids) && |left| <= |waiting|
    ensures left == movable[|movable| - |left|..] && at1.Keys == at.Keys
    ensures forall s | s in at && s !in movable[..|movable| - |left|] :: at1[s] == at[s]
    ensures forall s | s in movable[..|movable| - |left|] :: at1[s] in kids
    ensures Turns(Elements(movable[..|movable| - |left|]), at1, kids, |kids|, r, left != [])
  {
    hide Turns, Apart;
    at1, left := at0, waiting;
    for i := 0 to |kids|
      invariant |left| == (if i < |waiting| then |waiting| - i else 0) && left == movable[|movable| - |left|..]
      invariant at1.Keys == at.Keys
      invariant forall s | s in at && s !in movable[..|movable| - |left|] :: at1[s] == at[s]
      invariant forall s | s in movable[..|movable| - |left|] :: at1[s] in kids
      invariant Turns(Elements(movable[..|movable| - |left|]), at1, kids, i, r, left != [])
    {
      ghost var done := |movable| - |left|;
      if left == [] {
        TurnsAreOver(Elements(movable[..done]), at1, kids, i, r);
      } else {
        var solver := left[0];
        assert solver == movable[done] && movable[..done + 1] == movable[..done] + [solver];
        assert Elements(movable[..done + 1]) == Elements(movable[..done]) + {solver};
        TakeTurn(Elements(movable[..done]), at1, kids, i, r, solver, kids[i], |left| > 1);
        left := left[1..];
        at1 := at1[solver := kids[i]];
      }
    }
  }

  /** `list(self.solvers(True))`: every busy solver. */
  method AllSolvers(at: Places) returns (list: seq<nat>)
    ensures NoRepeats(list) && Elements(list) == at.Keys
  {
    list := [];
    var todo := at.Keys;
    while todo != {}
      invariant todo <= at.Keys && NoRepeats(list) && Elements(list) == at.Keys - todo
      decreases todo
    {
      var solver :| solver in todo;
      todo := todo - {solver};
      assert Elements(list + [solver]) == Elements(list) + {solver};
      assert forall i | 0 <= i < |list| :: list[i] in Elements(list);
      list := list + [solver];
    }
  }

  /** Partitions of `p` have arrived: solvers on the way to `p`, beyond the portfolio minimum of
      each node, are spread over the children of `p`; without a minimum, all solvers are. */
  method EntrustPartition(t: Tree, at: Places, p: Path, idle: set<nat>, portfolioMin: int) returns (at1: Places)
    requires t.Valid() && p in t.arity && IsAnd(p) && Kid(p, 0) in t.arity
    requires UnknownKids(t, Kid(p, 0), 0) != [] || !SomeoneMoves(at, p, idle, portfolioMin)
    ensures at1.Keys == at.Keys
    ensures portfolioMin != 0 ==>
      forall s | s in at && at1[s] != at[s] :: at[s] <= p && s !in idle && at1[s] in UnknownKids(t, Kid(p, 0), 0)
    ensures forall q | portfolioMin != 0 && q <= p && IsAnd(q) :: |SolversAt(at1, q)| >= Min(|SolversAt(at, q)|, portfolioMin)
    ensures forall q | q <= p && IsAnd(q) && 0 < portfolioMin < |SolversAt(at1, q)| :: SolversAt(at1, q) <= idle
    ensures portfolioMin != 0 ==> exists moved ::
      Even(moved, at1, UnknownKids(t, Kid(p, 0), 0)) && forall s | s in at :: s in moved <==> at1[s] != at[s]
    ensures portfolioMin == 0 ==>
      Even(at.Keys, at1, UnknownKids(t, Kid(p, 0), 0)) && forall s | s in at :: at1[s] in UnknownKids(t, Kid(p, 0), 0)
  {
    hide Even, Apart, Trimmed;
    var kids := UnknownKids(t, Kid(p, 0), 0);
    UnknownKidsListed(t, Kid(p, 0), 0);
    if portfolioMin == 0 {
      var all := AllSolvers(at);
      assert forall s | s in at :: s in Elements(all);
      assert all != [] ==> all[0] in Elements(all);
      at1 := Spread(at, kids, all);
      return;
    }
    var movable := Movable(at, p, idle, portfolioMin);
    at1 := Spread(at, kids, movable);
    KidsAreElsewhere(p, kids);
    forall q | q <= p && IsAnd(q)
      ensures |SolversAt(at1, q)| >= Min(|SolversAt(at, q)|, portfolioMin)
      ensures 0 < portfolioMin < |SolversAt(at1, q)| ==> SolversAt(at1, q) <= idle
    {
      assert Trimmed(SolversAt(at, q), Elements(movable), idle, portfolioMin);
      StayBehind(at, at1, q, movable, kids);
      TrimmedMeans(SolversAt(at, q), Elements(movable), idle, portfolioMin);
    }
    assert forall s | s in at :: s in Elements(movable) <==> at1[s] != at[s];
  }

  lemma KidsAreElsewhere(p: Path, kids: seq<Path>)
    requires forall c | c in kids :: c != [] && Parent(c) == Kid(p, 0)
    ensures forall c | c in kids :: !(c <= p)
  {
  }

  lemma StayBehind(at: Places, at1: Places, q: Path, movable: seq<nat>, kids: seq<Path>)
    requires at1.Keys == at.Keys && (forall s | s in at && s !in movable :: at1[s] == at[s])
    requires (forall s | s in movable :: s in at && at1[s] in kids) && q !in kids
    ensures SolversAt(at1, q) == SolversAt(at, q) - Elements(movable)
  {
  }

  lemma TrimmedMeans(here: set<nat>, moved: set<nat>, idle: set<nat>, portfolioMin: int)
    requires Trimmed(here, moved, idle, portfolioMin)
    ensures |here - moved| >= Min(|here|, portfolioMin)
    ensures 0 <= portfolioMin < |here - moved| ==> here - moved <= idle
  {
  }

  // ---------- when the loop over the movable solvers ends ----------

  /** The solvers that still have to move after one round. */
  function AfterRound(waiting: seq<nat>, kids: seq<Path>): (r: seq<nat>)
    ensures |r| <= |waiting|
  {
    if |kids| < |waiting| then waiting[|kids|..] else []
  }

  function LeftAfter(rounds: nat, movable: seq<nat>, kids: seq<Path>): (r: seq<nat>)
    ensures |r| <= |movable|
  {
    if rounds == 0 then movable else AfterRound(LeftAfter(rounds - 1, movable, kids), kids)
  }

  lemma NoRoundYet(movable: seq<nat>, kids: seq<Path>)
    ensures LeftAfter(0, movable, kids) == movable
  {
  }

  lemma OneMoreRound(rounds: nat, movable: seq<nat>, kids: seq<Path>)
    ensures LeftAfter(rounds + 1, movable, kids) == AfterRound(LeftAfter(rounds, movable, kids), kids)
  {
  }

  /** Rounds of the loop use up the solvers exactly when there is nobody to move or a child to move
      to. */
  lemma RoundsEndExactlyWhen(movable: seq<nat>, kids: seq<Path>)
    ensures (exists n: nat :: LeftAfter(n, movable, kids) == []) <==> movable == [] || kids != []
  {
    if movable == [] {
      assert LeftAfter(0, movable, kids) == [];
    } else if kids != [] {
      RoundsUseUp(|movable|, movable, kids);
      assert LeftAfter(|movable|, movable, kids) == [];
    } else {
      forall n: nat
        ensures LeftAfter(n, movable, kids) == movable
      {
        NobodyToGoTo(n, movable);
      }
    }
  }

  lemma {:induction false} RoundsUseUp(n: nat, movable: seq<nat>, kids: seq<Path>)
    requires kids != [] && n <= |movable|
    ensures |LeftAfter(n, movable, kids)| <= |movable| - n
    decreases n
  {
    if n > 0 { RoundsUseUp(n - 1, movable, kids); }
  }

  lemma {:induction false} NobodyToGoTo(n: nat, movable: seq<nat>)
    ensures LeftAfter(n, movable, []) == movable
    decreases n
  {
    if n > 0 {
      NobodyToGoTo(n - 1, movable);
      assert movable[0..] == movable;
    }
  }

  /** The solvers that the scheduler wants to move when a partition of `p` is announced. */
  ghost predicate SomeoneMoves(at: Places, p: Path, idle: set<nat>, portfolioMin: int) {
    if portfolioMin == 0 then at != map[]
    else exists q :: q <= p && IsAnd(q) && CanSpare(at, q, idle, portfolioMin)
  }

  /** An accepted reply leaves the node without an unknown child exactly if none of its entries
      counts: the Or node then stays empty, and the node unknown. */
  lemma ReplyLeavesKids(t: Tree, o: Path, parts: seq<string>)
    requires t.Valid() && o in t.arity && o != [] && t.arity[o] == 0 && t.status[Parent(o)] == Unknown
    ensures o in Attach(t, o, parts).arity
    ensures UnknownKids(Attach(t, o, parts), o, 0) == [] <==> Kept(parts) == []
  {
    hide AddPartitions, Kept;
    var r := Attach(t, o, parts);
    AddPartitionsKids(t, o, parts);
    if Kept(parts) != [] {
      NothingBeneath(t, o);
      assert Kid(o, 0) !in Beneath(t, o);
      UnknownKidIsListed(r, o, 0, 0);
    }
  }

  /** Such a reply covers what it was asked for only if there is nothing to cover. */
  lemma EmptyReplyCoversExactlyWhen(m: Meaning, smt: map<Path, string>, p: Path, parts: seq<string>)
    requires Kept(parts) == []
    ensures ReplyCovers(m, smt, p, parts) <==> Empty(m, smt, p)
  {
    forall part | part in parts
      ensures part == ""
    {
      KeptIsNonEmptyParts(parts, part);
    }
  }

  /** The loop over the movable solvers, run for an accepted reply, ends exactly if some entry of the
      reply counts or there is no solver to move. */
  lemma MoverLoopEndsExactlyWhen(t: Tree, at: Places, p: Path, parts: seq<string>, idle: set<nat>, portfolioMin: int,
      movable: seq<nat>)
    requires t.Valid() && Kid(p, 0) in t.arity && t.arity[Kid(p, 0)] == 0 && p in t.status && t.status[p] == Unknown
    requires movable != [] <==> SomeoneMoves(at, p, idle, portfolioMin)
    ensures Parent(Kid(p, 0)) == p && Kid(p, 0) in Attach(t, Kid(p, 0), parts).arity
    ensures var kids := UnknownKids(Attach(t, Kid(p, 0), parts), Kid(p, 0), 0);
      (exists n: nat :: LeftAfter(n, movable, kids) == []) <==>
        Kept(parts) != [] || !SomeoneMoves(at, p, idle, portfolioMin)
  {
    hide Attach, Kept, SomeoneMoves;
    ReplyLeavesKids(t, Kid(p, 0), parts);
    RoundsEndExactlyWhen(movable, UnknownKids(Attach(t, Kid(p, 0), parts), Kid(p, 0), 0));
  }

  /** The smallest case without an end: two busy solvers at a leaf, the default portfolio minimum, and a
      reply whose only entry is empty. */
  lemma EmptyReplyNeverEnds(t: Tree, p: Path, movable: seq<nat>)
    requires t.Valid() && p in t.arity && IsAnd(p) && t.arity[p] == 0 && t.status[p] == Unknown && movable != []
    ensures Kid(p, 0) in AddChild(t, p, "").arity && AddChild(t, p, "").arity[Kid(p, 0)] == 0
    ensures SomeoneMoves(map[0 := p, 1 := p], p, {}, 1)
    ensures Kid(p, 0) != [] && Kid(p, 0) in Attach(AddChild(t, p, ""), Kid(p, 0), [""]).arity
    ensures var kids := UnknownKids(Attach(AddChild(t, p, ""), Kid(p, 0), [""]), Kid(p, 0), 0);
      kids == [] && forall n: nat :: LeftAfter(n, movable, kids) == movable
  {
    hide Attach, AddChild;
    var at: Places := map[0 := p, 1 := p];
    AddedNode(t, p, "");
    assert Parent(Kid(p, 0)) == p;
    assert Kept([""]) == [] by { assert [""][1..] == []; }
    ReplyLeavesKids(AddChild(t, p, ""), Kid(p, 0), [""]);
    assert SolversAt(at, p) == {0, 1};
    assert p <= p && CanSpare(at, p, {}, 1);
    forall n: nat
      ensures LeftAfter(n, movable, []) == movable
    {
      NobodyToGoTo(n, movable);
    }
  }

  /** A reply is accepted and the scheduler spreads solvers over the new children, in all cases in
      which it comes to an end. */
  method ReceivePartitions(t: Tree, at: Places, p: Path, parts: seq<string>, idle: set<nat>, portfolioMin: int)
    returns (t1: Tree, at1: Places)
    requires t.Valid() && p in t.arity && IsAnd(p) && t.status[p] == Unknown
    requires Kid(p, 0) in t.arity && t.arity[Kid(p, 0)] == 0
    requires Kept(parts) != [] || !SomeoneMoves(at, p, idle, portfolioMin)
    ensures Parent(Kid(p, 0)) == p && t1 == Attach(t, Kid(p, 0), parts) && Kid(p, 0) in t1.arity
    ensures at1.Keys == at.Keys
    ensures forall s | s in at && at1[s] != at[s] :: at1[s] in UnknownKids(t1, Kid(p, 0), 0)
    ensures forall q | portfolioMin != 0 && q <= p && IsAnd(q) :: |SolversAt(at1, q)| >= Min(|SolversAt(at, q)|, portfolioMin)
  {
    hide Attach, Kept, SomeoneMoves;
    ReplyLeavesKids(t, Kid(p, 0), parts);
    t1 := Attach(t, Kid(p, 0), parts);
    NodeStays(t, Kid(p, 0), parts, p);
    at1 := EntrustPartition(t1, at, p, idle, portfolioMin);
  }

  lemma NodeStays(t: Tree, o: Path, parts: seq<string>, p: Path)
    requires t.Valid() && o in t.arity && o != [] && t.arity[o] == 0 && p in t.arity
    ensures p in Attach(t, o, parts).arity
  {
    AddPartitionsKids(t, o, parts);
  }
}
