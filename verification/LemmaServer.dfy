/** The server through which solvers share learned clauses.

    A stored clause is known by its instance, the tree node it was stored at (the And components of
    the node's position) and its text; each client has marks for the clauses it already has. */
module LemmaServer {
  import opened Wrappers

  type Branch = seq<nat>

  datatype Id = Id(name: string, node: Branch, clause: string)

  datatype Lemma = Lemma(level: nat, score: nat)

  /** A clause as it is pushed. */
  datatype Learnt = Learnt(clause: string, level: nat)

  /** A client's mark for a clause: true if the client has the clause. */
  datatype Mark = Mark(client: int, id: Id)

  datatype Memory = Memory(lemmas: map<Id, Lemma>, marks: map<Mark, bool>, size: nat)
  {
    predicate Has(client: int, id: Id) {
      Mark(client, id) in marks && marks[Mark(client, id)]
    }
  }

  const NOTHING := Memory(map[], map[], 0)

  /** `cut_size` of the garbage collector. */
  const CUT: nat := 50000

  // ---------- storing ----------

  /** One clause pushed by a client at a branch: its score rises if it is known already. */
  function Store(m: Memory, name: string, client: int, branch: Branch, learnt: Learnt): Memory
    requires learnt.level <= |branch|
  {
    var id := Id(name, branch[..learnt.level], learnt.clause);
    var l := if id in m.lemmas then m.lemmas[id].(score := m.lemmas[id].score + 1) else Lemma(learnt.level, 0);
    m.(lemmas := m.lemmas[id := l], marks := m.marks[Mark(client, id) := true])
  }

  function StoreAll(m: Memory, name: string, client: int, branch: Branch, batch: seq<Learnt>): Memory
    requires forall l | l in batch :: l.level <= |branch|
    decreases |batch|
  {
    if batch == [] then m else StoreAll(Store(m, name, client, branch, batch[0]), name, client, branch, batch[1..])
  }

  lemma NextStored(m: Memory, name: string, client: int, branch: Branch, batch: seq<Learnt>, i: nat)
    requires i < |batch| && forall l | l in batch[i..] :: l.level <= |branch|
    ensures batch[i].level <= |branch| && forall l | l in batch[i + 1..] :: l.level <= |branch|
    ensures StoreAll(m, name, client, branch, batch[i..]) ==
      StoreAll(Store(m, name, client, branch, batch[i]), name, client, branch, batch[i + 1..])
  {
    assert batch[i..][1..] == batch[i + 1..] && batch[i..][0] == batch[i];
  }

  // ---------- collecting ----------

  /** The marks of all clients for clauses of an instance. */
  ghost function Entries(m: Memory, name: string): set<Mark> {
    set e | e in m.marks && e.id.name == name
  }

  /** What the collector may do when a batch arrives: beyond the threshold it erases marks of the
      instance, in no particular order, until the counter is down to `CUT`. */
  ghost predicate Collects(m: Memory, name: string, batch: nat, m1: Memory) {
    var erased := m.marks.Keys - m1.marks.Keys;
    && m1.lemmas == m.lemmas
    && m1.marks == m.marks - erased
    && erased <= Entries(m, name)
    && m1.size == m.size + batch - |erased|
    && |erased| == if m.size + batch > 2 * CUT then Min(|Entries(m, name)|, m.size + batch - CUT) else 0
  }

  // ---------- sending ----------

  ghost predicate OnBranch(name: string, branch: Branch, id: Id) {
    id.name == name && id.node <= branch
  }

  /** The clauses on the way to a branch that the client does not have. */
  ghost function Missing(m: Memory, name: string, client: int, branch: Branch): set<Id> {
    set id | id in m.lemmas && OnBranch(name, branch, id) && !m.Has(client, id)
  }

  /** The choice among too many clauses: the lowest levels of a window of lowest scores. */
  ghost predicate Chosen(lemmas: map<Id, Lemma>, missing: set<Id>, request: nat, sent: seq<Id>) {
    exists window: set<Id> :: IsWindow(lemmas, missing, request, window) && LowestLevels(lemmas, window, sent)
  }

  ghost predicate IsWindow(lemmas: map<Id, Lemma>, missing: set<Id>, request: nat, window: set<Id>) {
    && window <= missing && |window| == Min(2 * request, |missing|)
    && forall a, b | a in window && b in missing - window && a in lemmas && b in lemmas :: lemmas[a].score <= lemmas[b].score
  }

  ghost predicate LowestLevels(lemmas: map<Id, Lemma>, window: set<Id>, sent: seq<Id>) {
    && (forall id | id in sent :: id in window)
    && (forall i, j | 0 <= i < j < |sent| && sent[i] in lemmas && sent[j] in lemmas ::
          lemmas[sent[i]].level <= lemmas[sent[j]].level)
    && (forall a, b | a in sent && b in window && b !in sent && a in lemmas && b in lemmas ::
          lemmas[a].level <= lemmas[b].level)
  }

  /** What a client may be sent. */
  ghost predicate Answers(m: Memory, name: string, client: int, branch: Branch, request: nat, sent: seq<Id>) {
    var missing := Missing(m, name, client, branch);
    && (forall i, j | 0 <= i < j < |sent| :: sent[i] != sent[j])
    && (forall id | id in sent :: id in missing)
    && |sent| == Min(request, |missing|)
    && (|missing| > request ==> Chosen(m.lemmas, missing, request, sent))
  }

  /** Looking marks up creates the missing ones, as false. */
  ghost function LookedUp(marks: map<Mark, bool>, client: int, ids: set<Id>): map<Mark, bool> {
    map e | e in marks.Keys + (set id | id in ids :: Mark(client, id)) :: e in marks && marks[e]
  }

  /** Marking sent clauses. */
  ghost function SentMarks(marks: map<Mark, bool>, client: int, sent: seq<Id>): map<Mark, bool> {
    map e | e in marks.Keys + (set id | id in sent :: Mark(client, id)) ::
      (e.client == client && e.id in sent) || (e in marks && marks[e])
  }

  /** The clauses on the way to a branch. */
  ghost function OnPath(m: Memory, name: string, branch: Branch): set<Id> {
    set id | id in m.lemmas && OnBranch(name, branch, id)
  }

  /** The memory after a client was sent some clauses. */
  ghost function AfterPull(m: Memory, name: string, client: int, branch: Branch, sent: seq<Id>, sendAgain: bool): Memory {
    var marks := LookedUp(m.marks, client, OnPath(m, name, branch));
    m.(marks := if sendAgain then marks else SentMarks(marks, client, sent))
  }

  ghost predicate Pushes(m: Memory, name: string, client: int, branch: Branch, batch: seq<Learnt>, m1: Memory)
    requires forall l | l in batch :: l.level <= |branch|
  {
    exists m0 :: Collects(m, name, |batch|, m0) && m1 == StoreAll(m0, name, client, branch, batch)
  }

  /** A client has left: its marks are gone, and only they. */
  ghost predicate Leaves(m: Memory, client: int, m1: Memory) {
    && m1.lemmas == m.lemmas && m1.size == m.size
    && (forall e :: e in m1.marks <==> e in m.marks && e.client != client)
    && (forall e | e in m1.marks :: m1.marks[e] == m.marks[e])
  }

  // ---------- choosing ----------

  predicate NoRepeats(s: seq<Id>) {
    forall i, j | 0 <= i < j < |s| :: s[i] != s[j]
  }

  ghost predicate SameIds(s: seq<Id>, t: seq<Id>) {
    |s| == |t| && NoRepeats(s) && NoRepeats(t) && forall id :: id in s <==> id in t
  }

  predicate Sorted(s: seq<Id>, key: Id -> int) {
    forall i, j | 0 <= i < j < |s| :: key(s[i]) <= key(s[j])
  }

  predicate Before(s: seq<Id>, t: seq<Id>, key: Id -> int) {
    forall a, b | a in s && b in t :: key(a) <= key(b)
  }

  /** Moves the `k` smallest to the front, in order. */
  method SmallestFirst(v: seq<Id>, k: nat, key: Id -> int) returns (r: seq<Id>)
    requires k <= |v| && NoRepeats(v)
    ensures SameIds(r, v) && Sorted(r[..k], key) && Before(r[..k], r[k..], key)
  {
    r := v;
    for i := 0 to k
      invariant SameIds(r, v) && Sorted(r[..i], key) && Before(r[..i], r[i..], key)
    {
      var least := i;
      for j := i + 1 to |r|
        invariant i <= least < |r| && forall x | i <= x < j :: key(r[least]) <= key(r[x])
      {
        if key(r[j]) < key(r[least]) { least := j; }
      }
      Swapped(r, v, i, least, key);
      r := r[i := r[least]][least := r[i]];
    }
  }

  lemma Swapped(r: seq<Id>, v: seq<Id>, i: nat, least: nat, key: Id -> int)
    requires i <= least < |r| && SameIds(r, v) && Sorted(r[..i], key) && Before(r[..i], r[i..], key)
    requires forall x | i <= x < |r| :: key(r[least]) <= key(r[x])
    ensures var s := r[i := r[least]][least := r[i]];
      SameIds(s, v) && Sorted(s[..i + 1], key) && Before(s[..i + 1], s[i + 1..], key)
  {
    var s := r[i := r[least]][least := r[i]];
    SwapKeepsIds(r, i, least);
    assert s[..i + 1] == r[..i] + [r[least]];
    assert r[least] in r[i..];
    forall x | i < x < |r|
      ensures s[x] in r[i..] && key(r[least]) <= key(s[x])
    {
      assert s[x] == if x == least then r[i] else r[x];
      assert r[i..][x - i] == r[x] && r[i..][0] == r[i];
    }
  }

  lemma SwapKeepsIds(r: seq<Id>, i: nat, j: nat)
    requires i <= j < |r| && NoRepeats(r)
    ensures SameIds(r[i := r[j]][j := r[i]], r)
  {
    var s := r[i := r[j]][j := r[i]];
    forall id | id in r
      ensures id in s
    {
      var x :| 0 <= x < |r| && r[x] == id;
      assert s[if x == i then j else if x == j then i else x] == id;
    }
  }

  function Score(lemmas: map<Id, Lemma>): Id -> int {
    id => if id in lemmas then lemmas[id].score else 0
  }

  function Level(lemmas: map<Id, Lemma>): Id -> int {
    id => if id in lemmas then lemmas[id].level else 0
  }

  /** The first reordering cuts out a window of lowest scores, the second puts its lowest levels
      in front. */
  lemma WindowChosen(lemmas: map<Id, Lemma>, missing: set<Id>, request: nat, filtered: seq<Id>, cut: nat, window: seq<Id>)
    requires NoRepeats(filtered) && (forall id :: id in filtered <==> id in missing) && |filtered| == |missing|
    requires request < |filtered| && cut == Min(2 * request, |filtered|) && request <= cut
    requires Before(filtered[..cut], filtered[cut..], Score(lemmas)) && SameIds(window, filtered[..cut])
    requires Sorted(window[..request], Level(lemmas)) && Before(window[..request], window[request..], Level(lemmas))
    ensures NoRepeats(window + filtered[cut..]) && forall id :: id in window + filtered[cut..] <==> id in missing
    ensures Chosen(lemmas, missing, request, (window + filtered[cut..])[..request])
  {
    hide Before, Sorted, Score, Level, IsWindow, LowestLevels;
    var w := set id | id in window;
    WindowIsPart(missing, filtered, cut, window, w);
    assert (window + filtered[cut..])[..request] == window[..request];
    ScoresInWindow(lemmas, missing, request, filtered, cut, w);
    LevelsInWindow(lemmas, w, request, window);
  }

  lemma WindowIsPart(missing: set<Id>, filtered: seq<Id>, cut: nat, window: seq<Id>, w: set<Id>)
    requires NoRepeats(filtered) && (forall id :: id in filtered <==> id in missing) && cut <= |filtered|
    requires SameIds(window, filtered[..cut]) && forall id :: id in w <==> id in window
    ensures NoRepeats(window + filtered[cut..]) && forall id :: id in window + filtered[cut..] <==> id in missing
    ensures |w| == cut && w <= missing
    ensures (forall id | id in w :: id in filtered[..cut]) && forall id | id in missing - w :: id in filtered[cut..]
  {
    assert filtered == filtered[..cut] + filtered[cut..];
    SizeOfList(window, w);
    var rest := filtered[cut..];
    forall j | 0 <= j < |rest|
      ensures rest[j] !in window
    {
      assert rest[j] == filtered[cut + j];
      assert forall k | 0 <= k < cut :: filtered[..cut][k] == filtered[k] != filtered[cut + j];
    }
  }

  lemma ScoresInWindow(lemmas: map<Id, Lemma>, missing: set<Id>, request: nat, filtered: seq<Id>, cut: nat, w: set<Id>)
    requires cut <= |filtered| && Before(filtered[..cut], filtered[cut..], Score(lemmas))
    requires w <= missing && |w| == cut == Min(2 * request, |missing|)
    requires (forall id | id in w :: id in filtered[..cut]) && forall id | id in missing - w :: id in filtered[cut..]
    ensures IsWindow(lemmas, missing, request, w)
  {
    forall a, b | a in w && b in missing - w && a in lemmas && b in lemmas
      ensures lemmas[a].score <= lemmas[b].score
    {
      assert Score(lemmas)(a) <= Score(lemmas)(b);
    }
  }

  lemma LevelsInWindow(lemmas: map<Id, Lemma>, w: set<Id>, request: nat, window: seq<Id>)
    requires request <= |window| && forall id :: id in w <==> id in window
    requires Sorted(window[..request], Level(lemmas)) && Before(window[..request], window[request..], Level(lemmas))
    ensures LowestLevels(lemmas, w, window[..request])
  {
    assert window == window[..request] + window[request..];
    LevelsInOrder(lemmas, w, window[..request]);
  }

  lemma LevelsInOrder(lemmas: map<Id, Lemma>, w: set<Id>, sent: seq<Id>)
    requires Sorted(sent, Level(lemmas)) && (forall id | id in sent :: id in w)
    requires forall a, b | a in sent && b in w && b !in sent :: Level(lemmas)(a) <= Level(lemmas)(b)
    ensures LowestLevels(lemmas, w, sent)
  {
    forall i, j | 0 <= i < j < |sent| && sent[i] in lemmas && sent[j] in lemmas
      ensures lemmas[sent[i]].level <= lemmas[sent[j]].level
    {
      assert Level(lemmas)(sent[i]) <= Level(lemmas)(sent[j]);
    }
    forall a, b | a in sent && b in w && b !in sent && a in lemmas && b in lemmas
      ensures lemmas[a].level <= lemmas[b].level
    {
      assert Level(lemmas)(a) <= Level(lemmas)(b);
    }
  }

  lemma {:induction false} SizeOfList(s: seq<Id>, ids: set<Id>)
    requires NoRepeats(s) && forall id :: id in s <==> id in ids
    ensures |s| == |ids|
    decreases |s|
  {
    if s != [] {
      var last := s[|s| - 1];
      assert s == s[..|s| - 1] + [last];
      SizeOfList(s[..|s| - 1], ids - {last});
    } else {
      assert ids == {};
    }
  }

  // ---------- looking marks up ----------

  /** The index of one node. */
  function StoredAt(lemmas: map<Id, Lemma>, name: string, node: Branch): set<Id> {
    set id | id in lemmas && id.name == name && id.node == node
  }

  /** The clauses of the first `d` nodes on the way to a branch. */
  ghost function Above(lemmas: map<Id, Lemma>, name: string, branch: Branch, d: nat): set<Id> {
    set id | id in lemmas && OnBranch(name, branch, id) && |id.node| < d
  }

  lemma AboveGrows(lemmas: map<Id, Lemma>, name: string, branch: Branch, d: nat)
    requires d <= |branch|
    ensures Above(lemmas, name, branch, d + 1) == Above(lemmas, name, branch, d) + StoredAt(lemmas, name, branch[..d])
    ensures Above(lemmas, name, branch, d) !! StoredAt(lemmas, name, branch[..d])
  {
    assert forall id | id in lemmas && id.node <= branch && |id.node| == d :: id.node == branch[..d];
  }

  lemma AllAbove(m: Memory, name: string, branch: Branch)
    ensures Above(m.lemmas, name, branch, |branch| + 1) == OnPath(m, name, branch)
    ensures Above(m.lemmas, name, branch, 0) == {}
  {
  }

  lemma LookedUpNothing(marks: map<Mark, bool>, client: int)
    ensures LookedUp(marks, client, {}) == marks
  {
  }

  lemma LookedUpOne(marks: map<Mark, bool>, client: int, ids: set<Id>, id: Id)
    ensures LookedUp(marks, client, ids + {id}) ==
      LookedUp(marks, client, ids)[Mark(client, id) := Mark(client, id) in marks && marks[Mark(client, id)]]
  {
  }

  lemma SameHas(marks: map<Mark, bool>, client: int, ids: set<Id>, more: set<Id>)
    ensures LookedUp(LookedUp(marks, client, ids), client, more) == LookedUp(marks, client, ids + more)
    ensures forall e :: e in LookedUp(marks, client, ids) && LookedUp(marks, client, ids)[e] <==> e in marks && marks[e]
  {
  }

  lemma SentNothing(marks: map<Mark, bool>, client: int)
    ensures SentMarks(marks, client, []) == marks
  {
  }

  lemma SentOne(marks: map<Mark, bool>, client: int, sent: seq<Id>, n: nat)
    requires n < |sent|
    ensures SentMarks(marks, client, sent[..n + 1]) == SentMarks(marks, client, sent[..n])[Mark(client, sent[n]) := true]
  {
    assert sent[..n + 1] == sent[..n] + [sent[n]];
  }

  // ---------- the server ----------

  class LemmaServer {
    const sendAgain: bool
    var lemmas: map<Id, Lemma>
    var marks: map<Mark, bool>
    var lemmasSize: nat

    constructor (sendAgain: bool)
      ensures State() == NOTHING && this.sendAgain == sendAgain
    {
      this.sendAgain := sendAgain;
      lemmas, marks, lemmasSize := map[], map[], 0;
    }

    function State(): Memory
      reads this
    {
      Memory(lemmas, marks, lemmasSize)
    }

    /** Storing one clause: `Node::get`, then `increase` or `add_lemma`. */
    method PushOne(name: string, client: int, branch: Branch, learnt: Learnt)
      requires learnt.level <= |branch|
      modifies this`lemmas, this`marks
      ensures State() == Store(old(State()), name, client, branch, learnt)
    {
      var id := Id(name, branch[..learnt.level], learnt.clause);
      if id in lemmas {
        lemmas := lemmas[id := lemmas[id].(score := lemmas[id].score + 1)];
        if !(Mark(client, id) in marks && marks[Mark(client, id)]) {
          marks := marks[Mark(client, id) := true];
        }
      } else {
        lemmas := lemmas[id := Lemma(learnt.level, 0)];
        marks := marks[Mark(client, id) := true];
      }
      assert marks == old(marks)[Mark(client, id) := true];
    }

    /** A batch of clauses arrives from a client at a branch. */
    method Push(name: string, client: int, branch: Branch, batch: seq<Learnt>)
      requires forall l | l in batch :: l.level <= |branch|
      modifies this
      ensures Pushes(old(State()), name, client, branch, batch, State())
    {
      hide Store, Collects;
      GarbageCollect(|batch|, name);
      ghost var m0 := State();
      assert batch[0..] == batch;
      for i := 0 to |batch|
        invariant forall l | l in batch[i..] :: l.level <= |branch|
        invariant StoreAll(m0, name, client, branch, batch) == StoreAll(State(), name, client, branch, batch[i..])
      {
        NextStored(State(), name, client, branch, batch, i);
        PushOne(name, client, branch, batch[i]);
      }
    }

    /** The clauses stored at one node that the client does not have are appended to a list. */
    method Filter(name: string, node: Branch, client: int, list: seq<Id>) returns (list1: seq<Id>)
      requires NoRepeats(list) && forall id | id in list :: id.node != node
      modifies this`marks
      ensures marks == LookedUp(old(marks), client, StoredAt(lemmas, name, node))
      ensures NoRepeats(list1)
      ensures forall id :: id in list1 <==> id in list || (id in StoredAt(lemmas, name, node) && !old(State()).Has(client, id))
    {
      list1 := list;
      var todo := StoredAt(lemmas, name, node);
      LookedUpNothing(marks, client);
      while todo != {}
        invariant todo <= StoredAt(lemmas, name, node) && NoRepeats(list1)
        invariant marks == LookedUp(old(marks), client, StoredAt(lemmas, name, node) - todo)
        invariant forall id :: id in list1 <==>
          id in list || (id in StoredAt(lemmas, name, node) - todo && !old(State()).Has(client, id))
        decreases todo
      {
        var id :| id in todo;
        LookedUpOne(old(marks), client, StoredAt(lemmas, name, node) - todo, id);
        assert StoredAt(lemmas, name, node) - todo + {id} == StoredAt(lemmas, name, node) - (todo - {id});
        todo := todo - {id};
        if Mark(client, id) !in marks { marks := marks[Mark(client, id) := false]; }
        if !marks[Mark(client, id)] { list1 := list1 + [id]; }
      }
      assert StoredAt(lemmas, name, node) - {} == StoredAt(lemmas, name, node);
    }

    /** A client at a branch asks for clauses it does not have. */
    method Pull(name: string, client: int, branch: Branch, request: nat) returns (sent: seq<Id>)
      requires request >= 1
      modifies this`marks
      ensures Answers(old(State()), name, client, branch, request, sent)
      ensures State() == AfterPull(old(State()), name, client, branch, sent, sendAgain)
    {
      hide Chosen, Missing, LookedUp, OnPath;
      var filtered := Collect(name, client, branch);
      ghost var missing := Missing(old(State()), name, client, branch);
      SizeOfList(filtered, missing);
      if |filtered| > request {
        var cut := Min(2 * request, |filtered|);
        filtered := SmallestFirst(filtered, cut, Score(lemmas));
        var window := SmallestFirst(filtered[..cut], request, Level(lemmas));
        WindowChosen(lemmas, missing, request, filtered, cut, window);
        filtered := window + filtered[cut..];
      }
      sent := filtered[..Min(request, |filtered|)];
      MarkSent(client, sent);
    }

    /** Marking what is sent, unless clauses may be sent again. */
    method MarkSent(client: int, sent: seq<Id>)
      modifies this`marks
      ensures marks == if sendAgain then old(marks) else SentMarks(old(marks), client, sent)
    {
      SentNothing(marks, client);
      for n := 0 to |sent|
        invariant marks == if sendAgain then old(marks) else SentMarks(old(marks), client, sent[..n])
      {
        SentOne(old(marks), client, sent, n);
        if !sendAgain { marks := marks[Mark(client, sent[n]) := true]; }
      }
      assert sent[..|sent|] == sent;
    }

    /** The unmarked clauses of all nodes on the way to the branch. */
    method Collect(name: string, client: int, branch: Branch) returns (filtered: seq<Id>)
      modifies this`marks
      ensures marks == LookedUp(old(marks), client, OnPath(old(State()), name, branch))
      ensures NoRepeats(filtered) && forall id :: id in filtered <==> id in Missing(old(State()), name, client, branch)
    {
      filtered := [];
      LookedUpNothing(marks, client);
      for d := 0 to |branch| + 1
        invariant NoRepeats(filtered)
        invariant marks == LookedUp(old(marks), client, Above(lemmas, name, branch, d))
        invariant forall id :: id in filtered <==> id in Above(lemmas, name, branch, d) && !old(State()).Has(client, id)
      {
        AboveGrows(lemmas, name, branch, d);
        SameHas(old(marks), client, Above(lemmas, name, branch, d), StoredAt(lemmas, name, branch[..d]));
        filtered := Filter(name, branch[..d], client, filtered);
      }
      AllAbove(old(State()), name, branch);
    }

    /** A client's connection is closed: its marks are erased, instance by instance. */
    method HandleClose(client: int)
      modifies this`marks
      ensures lemmas == old(lemmas) && lemmasSize == old(lemmasSize)
      ensures forall e :: e in marks <==> e in old(marks) && e.client != client
      ensures forall e | e in marks :: marks[e] == old(marks[e])
    {
      var names := set e | e in marks :: e.id.name;
      while names != {}
        invariant forall e | e in marks :: e in old(marks) && marks[e] == old(marks[e])
        invariant forall e | e in old(marks) && (e.client != client || e.id.name in names) :: e in marks
        invariant forall e | e in marks && e.client == client :: e.id.name in names
        decreases names
      {
        var name :| name in names;
        names := names - {name};
        if exists e | e in marks :: e.id.name == name && e.client == client {
          marks := marks - EntriesOf(marks, name, client);
        }
      }
    }

    /** Erasing the marks of one client for an instance, until the counter is down to `CUT`. */
    method EraseClient(name: string, client: int) returns (done: bool, ghost erased: set<Mark>)
      requires lemmasSize > CUT
      modifies this`marks, this`lemmasSize
      ensures erased <= EntriesOf(old(marks), name, client) && marks == old(marks) - erased
      ensures lemmasSize == old(lemmasSize) - |erased| && lemmasSize >= CUT
      ensures done <==> lemmasSize == CUT
      ensures !done ==> erased == EntriesOf(old(marks), name, client)
    {
      var entries := EntriesOf(marks, name, client);
      erased := {};
      assert marks - {} == marks;
      while entries != {}
        invariant lemmasSize > CUT && lemmasSize == old(lemmasSize) - |erased|
        invariant entries !! erased && entries + erased == EntriesOf(old(marks), name, client)
        invariant marks == old(marks) - erased
        decreases entries
      {
        var e :| e in entries;
        entries := entries - {e};
        erased := erased + {e};
        marks := marks - {e};
        assert marks == old(marks) - erased;
        lemmasSize := lemmasSize - 1;
        if lemmasSize == CUT { return true, erased; }
      }
      return false, erased;
    }

    /** Erasing the marks for an instance, client by client. */
    method EraseMarks(name: string) returns (ghost erased: set<Mark>)
      requires lemmasSize > CUT
      modifies this`marks, this`lemmasSize
      ensures erased <= Entries(old(State()), name) && marks == old(marks) - erased
      ensures lemmasSize == old(lemmasSize) - |erased| && lemmasSize >= CUT
      ensures lemmasSize == CUT || erased == Entries(old(State()), name)
    {
      hide Entries, EntriesOf, Erasing;
      erased := {};
      var clients := set e | e in marks && e.id.name == name :: e.client;
      StartErasing(State(), name, clients);
      while clients != {}
        invariant lemmasSize > CUT && Erasing(old(State()), name, erased, clients, marks, lemmasSize)
        decreases clients
      {
        var c :| c in clients;
        ghost var before := State();
        var done, more := EraseClient(name, c);
        ClientErased(old(State()), name, erased, clients, before.marks, before.size, c, more);
        clients := clients - {c};
        erased := erased + more;
        if done { return; }
      }
      AllErased(old(State()), name, erased, marks, lemmasSize);
    }

    /** Counts a batch and, beyond the threshold, erases marks. */
    method GarbageCollect(batchSize: nat, name: string)
      modifies this`marks, this`lemmasSize
      ensures Collects(old(State()), name, batchSize, State())
    {
      lemmasSize := lemmasSize + batchSize;
      if lemmasSize <= 2 * CUT {
        assert marks - {} == marks;
        return;
      }
      var erased := EraseMarks(name);
      EnoughErased(old(State()), name, batchSize, State(), erased);
    }
  }

  /** The marks erased so far, and the clients whose marks may still be there. */
  ghost predicate Erasing(m: Memory, name: string, erased: set<Mark>, clients: set<int>, marks: map<Mark, bool>, size: nat) {
    && erased <= Entries(m, name) && marks == m.marks - erased && size == m.size - |erased|
    && forall e | e in Entries(m, name) && e !in erased :: e.client in clients
  }

  lemma StartErasing(m: Memory, name: string, clients: set<int>)
    requires forall e | e in m.marks && e.id.name == name :: e.client in clients
    ensures Erasing(m, name, {}, clients, m.marks, m.size)
  {
    assert m.marks - {} == m.marks;
  }

  lemma ClientErased(m: Memory, name: string, erased: set<Mark>, clients: set<int>, marks: map<Mark, bool>, size: nat, c: int,
      more: set<Mark>)
    requires Erasing(m, name, erased, clients, marks, size) && more <= EntriesOf(marks, name, c) && |more| <= size
    ensures erased + more <= Entries(m, name) && marks - more == m.marks - (erased + more)
    ensures size - |more| == m.size - |erased + more|
    ensures more == EntriesOf(marks, name, c) ==> Erasing(m, name, erased + more, clients - {c}, marks - more, size - |more|)
  {
    assert erased !! more;
    assert |erased + more| == |erased| + |more|;
    assert marks - more == m.marks - (erased + more);
  }

  lemma AllErased(m: Memory, name: string, erased: set<Mark>, marks: map<Mark, bool>, size: nat)
    requires Erasing(m, name, erased, {}, marks, size)
    ensures erased == Entries(m, name) && marks == m.marks - erased && size == m.size - |erased|
  {
  }

  function EntriesOf(marks: map<Mark, bool>, name: string, client: int): set<Mark> {
    set e | e in marks && e.id.name == name && e.client == client
  }

  lemma EnoughErased(m: Memory, name: string, batch: nat, m1: Memory, erased: set<Mark>)
    requires erased <= Entries(m, name) && |erased| <= m.size + batch
    requires m1 == Memory(m.lemmas, m.marks - erased, m.size + batch - |erased|)
    requires m.size + batch > 2 * CUT && m1.size >= CUT
    requires m1.size == CUT || erased == Entries(m, name)
    ensures Collects(m, name, batch, m1)
  {
    assert m.marks.Keys - m1.marks.Keys == erased;
    SubsetSize(erased, Entries(m, name));
  }
}
