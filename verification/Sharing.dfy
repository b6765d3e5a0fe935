/** Whole runs of the lemma server: what is shared is sound, and nothing is sent twice. */
module Sharing {
  import opened Wrappers
  import opened Paths
  import opened StatusTree
  import opened Verdicts
  import opened StatusInvariants
  import opened Growth
  import opened ServerSide
  import opened Protocol
  import opened ProtocolProofs
  import opened EndToEnd
  import opened Branches
  import opened LemmaServer

  /** What happens at the lemma server.  `at` is the position of the node the client works on. */
  datatype Event =
    | Push(name: string, client: int, at: Path, batch: seq<Learnt>)
    | Pull(name: string, client: int, at: Path, request: nat, sent: seq<Id>)
    | Close(client: int)

  ghost predicate Next(m: Memory, e: Event, m1: Memory, sendAgain: bool) {
    match e
    case Push(name, client, at, batch) =>
      && (forall l | l in batch :: l.level <= |AndIndices(at)|)
      && Pushes(m, name, client, AndIndices(at), batch, m1)
    case Pull(name, client, at, request, sent) =>
      && request >= 1
      && Answers(m, name, client, AndIndices(at), request, sent)
      && m1 == AfterPull(m, name, client, AndIndices(at), sent, sendAgain)
    case Close(client) => Leaves(m, client, m1)
  }

  ghost predicate IsRun(ms: seq<Memory>, es: seq<Event>, sendAgain: bool) {
    && |ms| == |es| + 1 && ms[0] == NOTHING
    && forall i | 0 <= i < |es| :: Next(ms[i], es[i], ms[i + 1], sendAgain)
  }

  // ---------- where a stored clause comes from ----------

  /** The event pushes the clause `id` from a branch that runs through its node. */
  ghost predicate Brings(e: Event, id: Id) {
    && e.Push? && e.name == id.name && id.node <= AndIndices(e.at)
    && Learnt(id.clause, |id.node|) in e.batch
  }

  lemma {:induction false} StoredByBatch(m: Memory, name: string, client: int, branch: Branch, batch: seq<Learnt>, id: Id)
    requires forall l | l in batch :: l.level <= |branch|
    ensures var m1 := StoreAll(m, name, client, branch, batch);
      id in m1.lemmas <==> id in m.lemmas || (id.name == name && id.node <= branch && Learnt(id.clause, |id.node|) in batch)
    decreases |batch|
  {
    if batch != [] {
      var l := batch[0];
      StoredByBatch(Store(m, name, client, branch, l), name, client, branch, batch[1..], id);
      assert id == Id(name, branch[..l.level], l.clause) <==>
        id.name == name && id.node <= branch && Learnt(id.clause, |id.node|) == l;
    }
  }

  lemma {:induction false} LevelsByBatch(m: Memory, name: string, client: int, branch: Branch, batch: seq<Learnt>)
    requires (forall l | l in batch :: l.level <= |branch|) && forall id | id in m.lemmas :: m.lemmas[id].level == |id.node|
    ensures var m1 := StoreAll(m, name, client, branch, batch); forall id | id in m1.lemmas :: m1.lemmas[id].level == |id.node|
    decreases |batch|
  {
    if batch != [] {
      LevelsByBatch(Store(m, name, client, branch, batch[0]), name, client, branch, batch[1..]);
    }
  }

  /** Every stored clause was pushed, and is stored under its level. */
  lemma {:induction false} StoredWasPushed(ms: seq<Memory>, es: seq<Event>, sendAgain: bool, i: nat, id: Id)
    requires IsRun(ms, es, sendAgain) && i < |ms| && id in ms[i].lemmas
    ensures exists k :: 0 <= k < i && Brings(es[k], id)
    decreases i
  {
    if i > 0 {
      assert Next(ms[i - 1], es[i - 1], ms[i], sendAgain);
      if id in ms[i - 1].lemmas {
        StoredWasPushed(ms, es, sendAgain, i - 1, id);
      } else {
        var e := es[i - 1];
        NewByPush(ms[i - 1], e, ms[i], sendAgain, id);
      }
    }
  }

  lemma NewByPush(m: Memory, e: Event, m1: Memory, sendAgain: bool, id: Id)
    requires Next(m, e, m1, sendAgain) && id in m1.lemmas && id !in m.lemmas
    ensures Brings(e, id)
  {
    if e.Push? {
      var m0 :| Collects(m, e.name, |e.batch|, m0) && m1 == StoreAll(m0, e.name, e.client, AndIndices(e.at), e.batch);
      StoredByBatch(m0, e.name, e.client, AndIndices(e.at), e.batch, id);
    }
  }

  /** A stored clause keeps the level of its node, so the level of a clause that is sent is within
      the branch of the receiver. */
  lemma {:induction false} LevelIsDepth(ms: seq<Memory>, es: seq<Event>, sendAgain: bool, i: nat)
    requires IsRun(ms, es, sendAgain) && i < |ms|
    ensures forall id | id in ms[i].lemmas :: ms[i].lemmas[id].level == |id.node|
    decreases i
  {
    if i > 0 {
      hide Next;
      LevelIsDepth(ms, es, sendAgain, i - 1);
      assert Next(ms[i - 1], es[i - 1], ms[i], sendAgain);
      StepKeepsLevels(ms[i - 1], es[i - 1], ms[i], sendAgain);
    }
  }

  lemma StepKeepsLevels(m: Memory, e: Event, m1: Memory, sendAgain: bool)
    requires Next(m, e, m1, sendAgain) && forall id | id in m.lemmas :: m.lemmas[id].level == |id.node|
    ensures forall id | id in m1.lemmas :: m1.lemmas[id].level == |id.node|
  {
    hide StoreAll, Collects, Answers, LookedUp, SentMarks, OnPath;
    if e.Push? {
      var m0 :| Collects(m, e.name, |e.batch|, m0) && m1 == StoreAll(m0, e.name, e.client, AndIndices(e.at), e.batch);
      CollectionKeeps(m, e.name, |e.batch|, m0);
      LevelsByBatch(m0, e.name, e.client, AndIndices(e.at), e.batch);
    }
  }

  /** A collection keeps the clauses, and the marks for other instances. */
  lemma CollectionKeeps(m: Memory, name: string, batch: nat, m1: Memory)
    requires Collects(m, name, batch, m1)
    ensures m1.lemmas == m.lemmas
    ensures forall c: int, id: Id | id.name != name || m.size + batch <= 2 * CUT :: m1.Has(c, id) == m.Has(c, id)
  {
    var erased := m.marks.Keys - m1.marks.Keys;
    if m.size + batch <= 2 * CUT { assert erased == {}; }
  }

  lemma SentLevelsFit(ms: seq<Memory>, es: seq<Event>, sendAgain: bool, i: nat, id: Id)
    requires IsRun(ms, es, sendAgain) && i < |es| && es[i].Pull? && id in es[i].sent
    ensures id in ms[i].lemmas && ms[i].lemmas[id].level <= |AndIndices(es[i].at)|
  {
    assert Next(ms[i], es[i], ms[i + 1], sendAgain);
    LevelIsDepth(ms, es, sendAgain, i);
  }

  /** A clause that is sent was pushed earlier, from a branch that agrees with the receiver's on as
      many partitions as the clause depends on. */
  lemma SentWasPushed(ms: seq<Memory>, es: seq<Event>, sendAgain: bool, i: nat, id: Id)
    requires IsRun(ms, es, sendAgain) && i < |es| && es[i].Pull? && id in es[i].sent
    ensures id.name == es[i].name && id.node <= AndIndices(es[i].at)
    ensures exists k :: 0 <= k < i && Brings(es[k], id)
  {
    assert Next(ms[i], es[i], ms[i + 1], sendAgain);
    StoredWasPushed(ms, es, sendAgain, i, id);
  }

  // ---------- what scores count ----------

  /** How often a clause was pushed, as far as the memory knows. */
  function Seen(m: Memory, id: Id): nat {
    if id in m.lemmas then m.lemmas[id].score + 1 else 0
  }

  function TimesIn(name: string, branch: Branch, batch: seq<Learnt>, id: Id): nat {
    if id.name == name && id.node <= branch then multiset(batch)[Learnt(id.clause, |id.node|)] else 0
  }

  /** How often a clause was pushed in the first `n` events. */
  function Times(es: seq<Event>, n: nat, id: Id): nat
    requires n <= |es|
  {
    if n == 0 then 0
    else
      var e := es[n - 1];
      Times(es, n - 1, id) + if e.Push? then TimesIn(e.name, AndIndices(e.at), e.batch, id) else 0
  }

  lemma {:induction false} SeenByBatch(m: Memory, name: string, client: int, branch: Branch, batch: seq<Learnt>, id: Id)
    requires forall l | l in batch :: l.level <= |branch|
    ensures Seen(StoreAll(m, name, client, branch, batch), id) == Seen(m, id) + TimesIn(name, branch, batch, id)
    decreases |batch|
  {
    if batch != [] {
      var l := batch[0];
      SeenByBatch(Store(m, name, client, branch, l), name, client, branch, batch[1..], id);
      assert batch == [l] + batch[1..];
      assert id == Id(name, branch[..l.level], l.clause) <==>
        id.name == name && id.node <= branch && Learnt(id.clause, |id.node|) == l;
    }
  }

  /** The score of a clause is the number of times it was pushed again. */
  lemma {:induction false} ScoreCountsPushes(ms: seq<Memory>, es: seq<Event>, sendAgain: bool, i: nat, id: Id)
    requires IsRun(ms, es, sendAgain) && i < |ms|
    ensures Seen(ms[i], id) == Times(es, i, id)
    decreases i
  {
    hide Next, TimesIn;
    if i > 0 {
      ScoreCountsPushes(ms, es, sendAgain, i - 1, id);
      assert Next(ms[i - 1], es[i - 1], ms[i], sendAgain);
      StepSeen(ms[i - 1], es[i - 1], ms[i], sendAgain, id);
    }
  }

  lemma StepSeen(m: Memory, e: Event, m1: Memory, sendAgain: bool, id: Id)
    requires Next(m, e, m1, sendAgain)
    ensures Seen(m1, id) == Seen(m, id) + if e.Push? then TimesIn(e.name, AndIndices(e.at), e.batch, id) else 0
  {
    hide StoreAll, Collects, Answers, LookedUp, SentMarks, OnPath, TimesIn;
    if e.Push? {
      var m0 :| Collects(m, e.name, |e.batch|, m0) && m1 == StoreAll(m0, e.name, e.client, AndIndices(e.at), e.batch);
      CollectionKeeps(m, e.name, |e.batch|, m0);
      SeenByBatch(m0, e.name, e.client, AndIndices(e.at), e.batch, id);
    }
  }

  // ---------- soundness ----------

  /** A clause holds in the whole partition of a node. */
  ghost predicate Implied(m: Meaning, smt: map<Path, string>, p: Path, clause: string) {
    forall a: Assignment | InF(m, smt, p, a) :: m(clause, a)
  }

  /** Clients work on attached nodes, and what they push follows from the partitions it names. */
  ghost predicate Honest(m: Meaning, trees: Trees, e: Event) {
    !e.Close? ==>
      && e.name in trees && trees[e.name].Valid() && OneSplitting(trees[e.name])
      && e.at in trees[e.name].arity && IsAnd(e.at)
      && (e.Push? ==> forall l | l in e.batch ::
            l.level <= |e.at| / 2 && Implied(m, trees[e.name].smt, e.at[..2 * l.level], l.clause))
  }

  lemma {:induction false} AndIndicesPrefix(p: Path, l: nat)
    requires IsAnd(p) && l <= |p| / 2
    ensures AndIndices(p[..2 * l]) == AndIndices(p)[..l]
    decreases |p|
  {
    if l == |p| / 2 {
      assert p[..2 * l] == p;
    } else {
      AndIndicesPrefix(p[..|p| - 2], l);
      assert p[..|p| - 2][..2 * l] == p[..2 * l];
    }
  }

  /** Two branches with a common key prefix pass through the same node. */
  lemma CommonNode(t: Tree, p: Path, q: Path, l: nat)
    requires t.Valid() && OneSplitting(t) && p in t.arity && q in t.arity && IsAnd(p) && IsAnd(q)
    requires l <= |p| / 2 && l <= |q| / 2 && AndIndices(p)[..l] == AndIndices(q)[..l]
    ensures p[..2 * l] == q[..2 * l]
  {
    PrefixesAttached(t, p, p[..2 * l]);
    PrefixesAttached(t, q, q[..2 * l]);
    AndIndicesPrefix(p, l);
    AndIndicesPrefix(q, l);
    SameKeySameNode(t, p[..2 * l], q[..2 * l]);
  }

  lemma ImpliedLater(m: Meaning, t: Tree, t1: Tree, p: Path, clause: string)
    requires FormulasKept(t, t1) && p in t.arity && Implied(m, t.smt, p, clause)
    ensures Implied(m, t1.smt, p, clause)
  {
    PartitionIsFixed(m, t, t1, p);
  }

  /** The trees at the time of each event; they only grow. */
  ghost predicate Growing(ts: seq<Trees>) {
    forall i, j | 0 <= i <= j < |ts| :: TreesGrow(ts[i], ts[j])
  }

  /** Whatever was pushed and pulled before, in whatever trees: a clause that a client receives is a
      consequence of the partition that the client works on. */
  lemma SharingIsSound(m: Meaning, ts: seq<Trees>, ms: seq<Memory>, es: seq<Event>, sendAgain: bool, i: nat, id: Id)
    requires IsRun(ms, es, sendAgain) && |ts| == |es| && Growing(ts)
    requires forall k | 0 <= k < |es| :: Honest(m, ts[k], es[k])
    requires i < |es| && es[i].Pull? && id in es[i].sent
    ensures es[i].name in ts[i] && Implied(m, ts[i][es[i].name].smt, es[i].at, id.clause)
  {
    hide IsRun, AndIndices, OneSplitting, Implied;
    SentWasPushed(ms, es, sendAgain, i, id);
    var k :| 0 <= k < i && Brings(es[k], id);
    assert Honest(m, ts[k], es[k]) && Honest(m, ts[i], es[i]) && TreesGrow(ts[k], ts[i]);
    ReceivedIsImplied(m, ts[k][es[i].name], ts[i][es[i].name], es[k].at, es[i].at, id);
  }

  lemma ReceivedIsImplied(m: Meaning, t: Tree, t1: Tree, p: Path, q: Path, id: Id)
    requires FormulasKept(t, t1) && OneSplitting(t1) && p in t.arity && q in t1.arity && IsAnd(p) && IsAnd(q)
    requires id.node <= AndIndices(p) && id.node <= AndIndices(q)
    requires Implied(m, t.smt, p[..2 * |id.node|], id.clause)
    ensures Implied(m, t1.smt, q, id.clause)
  {
    hide OneSplitting, FormulasKept;
    var l := |id.node|;
    FormulasAreKept(t, t1);
    PrefixesAttached(t, p, p[..2 * l]);
    ImpliedLater(m, t, t1, p[..2 * l], id.clause);
    CommonNode(t1, p, q, l);
    forall a: Assignment | InF(m, t1.smt, q, a)
      ensures m(id.clause, a)
    {
      InFUpward(m, t1.smt, q[..2 * l], q, a);
    }
  }

  lemma FormulasAreKept(t: Tree, t1: Tree)
    requires FormulasKept(t, t1)
    ensures t.Valid() && t1.Valid() && t.arity.Keys <= t1.arity.Keys
  {
  }

  /** What is asked of the clients of a running system: they work on attached nodes, and what they
      push follows from the partitions that it names, at the time. */
  ghost predicate HonestIn(m: Meaning, trees: Trees, e: Event) {
    !e.Close? ==>
      && e.name in trees && e.at in trees[e.name].arity && IsAnd(e.at)
      && (e.Push? ==> forall l | l in e.batch ::
            l.level <= |e.at| / 2 && Implied(m, trees[e.name].smt, e.at[..2 * l.level], l.clause))
  }

  /** The lemma server beside a running system: event `k` happens after the first `cuts[k]` steps.
      Every clause that is received follows from the receiver's partition in the tree of that time;
      that keys are unambiguous is a fact about reachable trees. */
  lemma SharingIsSoundInRuns(m: Meaning, steps: seq<Step>, cuts: seq<nat>, ms: seq<Memory>, es: seq<Event>,
      sendAgain: bool, i: nat, id: Id)
    requires Legal(m, START, steps) && IsRun(ms, es, sendAgain) && |cuts| == |es|
    requires (forall k | 0 <= k < |cuts| :: cuts[k] <= |steps|) && forall j, k | 0 <= j <= k < |cuts| :: cuts[j] <= cuts[k]
    requires forall k | 0 <= k < |es| :: HonestIn(m, TreesAfter(m, steps, cuts[k]), es[k])
    requires i < |es| && es[i].Pull? && id in es[i].sent
    ensures var trees := TreesAfter(m, steps, cuts[i]);
      es[i].name in trees && Implied(m, trees[es[i].name].smt, es[i].at, id.clause)
  {
    hide Legal, Run, IsRun, TreesGrow, Implied;
    var ts := seq(|cuts|, k requires 0 <= k < |cuts| => TreesAfter(m, steps, cuts[k]));
    forall j, k | 0 <= j <= k < |ts|
      ensures TreesGrow(ts[j], ts[k])
    {
      TreesGrowBetween(m, steps, cuts[j], cuts[k]);
    }
    forall k | 0 <= k < |es|
      ensures Honest(m, ts[k], es[k])
    {
      HonestSuffices(m, steps, cuts[k], es[k]);
    }
    SharingIsSound(m, ts, ms, es, sendAgain, i, id);
  }

  ghost function TreesAfter(m: Meaning, steps: seq<Step>, k: nat): Trees
    requires Legal(m, START, steps) && k <= |steps|
  {
    RunSplits(m, START, steps, k);
    Run(m, START, steps[..k]).trees
  }

  lemma TreesGrowBetween(m: Meaning, steps: seq<Step>, j: nat, k: nat)
    requires Legal(m, START, steps) && j <= k <= |steps|
    ensures TreesGrow(TreesAfter(m, steps, j), TreesAfter(m, steps, k))
  {
    hide Legal, Run, SystemOk, TreesGrow;
    RunSplits(m, START, steps, k);
    RunSplits(m, START, steps[..k], j);
    assert steps[..k][..j] == steps[..j];
    Reachable(m, steps[..j]);
    RunGrows(m, Run(m, START, steps[..j]), steps[..k][j..]);
  }

  lemma HonestSuffices(m: Meaning, steps: seq<Step>, k: nat, e: Event)
    requires Legal(m, START, steps) && k <= |steps| && HonestIn(m, TreesAfter(m, steps, k), e)
    ensures Honest(m, TreesAfter(m, steps, k), e)
  {
    hide Legal, Run, Implied, OneSplitting;
    RunSplits(m, START, steps, k);
    Reachable(m, steps[..k]);
    if !e.Close? {
      var t := TreesAfter(m, steps, k)[e.name];
      assert TreeOk(m, t);
      OnceIsOneSplitting(t);
    }
  }

  lemma OnceIsOneSplitting(t: Tree)
    requires t.Valid() && PartitionedOnce(t)
    ensures OneSplitting(t)
  {
  }

  /** If two nodes have the same key, a clause that only holds in one of them can be sent to the
      other: the condition on the trees is needed. */
  lemma CollidingKeysShare(name: string, p: Path, q: Path, clause: string, sendAgain: bool)
    requires AndIndices(p) == AndIndices(q)
    ensures exists ms :: IsRun(ms,
      [Push(name, 1, p, [Learnt(clause, |AndIndices(p)|)]), Pull(name, 2, q, 1, [Id(name, AndIndices(p), clause)])], sendAgain)
  {
    hide Pushes, Answers, AfterPull, AndIndices;
    var key := AndIndices(p);
    var batch := [Learnt(clause, |key|)];
    var id := Id(name, key, clause);
    var es := [Push(name, 1, p, batch), Pull(name, 2, q, 1, [id])];
    var m1 := Memory(map[id := Lemma(|key|, 0)], map[Mark(1, id) := true], 1);
    var m2 := AfterPull(m1, name, 2, key, [id], sendAgain);
    assert Next(NOTHING, es[0], m1, sendAgain) by { FirstPush(name, key, clause); }
    assert Next(m1, es[1], m2, sendAgain) by { FirstPull(name, key, clause); }
    hide Next;
    assert IsRun([NOTHING, m1, m2], es, sendAgain);
  }

  lemma FirstPush(name: string, key: seq<nat>, clause: string)
    ensures var id := Id(name, key, clause);
      Pushes(NOTHING, name, 1, key, [Learnt(clause, |key|)], Memory(map[id := Lemma(|key|, 0)], map[Mark(1, id) := true], 1))
  {
    var batch := [Learnt(clause, |key|)];
    var m0 := NOTHING.(size := 1);
    assert Collects(NOTHING, name, 1, m0) by { assert NOTHING.marks - {} == NOTHING.marks; }
    assert batch[1..] == [] && key[..|key|] == key;
    assert StoreAll(Store(m0, name, 1, key, batch[0]), name, 1, key, []) == Store(m0, name, 1, key, batch[0]);
  }

  lemma FirstPull(name: string, key: seq<nat>, clause: string)
    ensures var id := Id(name, key, clause);
      Answers(Memory(map[id := Lemma(|key|, 0)], map[Mark(1, id) := true], 1), name, 2, key, 1, [id])
  {
    var id := Id(name, key, clause);
    assert Missing(Memory(map[id := Lemma(|key|, 0)], map[Mark(1, id) := true], 1), name, 2, key) == {id};
  }

  // ---------- nothing is sent twice ----------

  /** After the event the client has the clause: it pushed it or was sent it. */
  ghost predicate Gives(e: Event, client: int, id: Id) {
    match e
    case Push(_, c, _, _) => c == client && Brings(e, id)
    case Pull(_, c, _, _, sent) => c == client && id in sent
    case Close(_) => false
  }

  /** The event may erase the client's mark for the clause: the client leaves, or the collector
      runs for the instance. */
  ghost predicate MayForget(m: Memory, e: Event, client: int, id: Id) {
    match e
    case Push(name, _, _, batch) => name == id.name && m.size + |batch| > 2 * CUT
    case Pull(_, _, _, _, _) => false
    case Close(c) => c == client
  }

  lemma {:induction false} BatchMarks(m: Memory, name: string, client: int, branch: Branch, batch: seq<Learnt>, c: int, id: Id)
    requires forall l | l in batch :: l.level <= |branch|
    ensures var m1 := StoreAll(m, name, client, branch, batch);
      m1.Has(c, id) <==>
        m.Has(c, id) || (c == client && id.name == name && id.node <= branch && Learnt(id.clause, |id.node|) in batch)
    decreases |batch|
  {
    if batch != [] {
      var l := batch[0];
      BatchMarks(Store(m, name, client, branch, l), name, client, branch, batch[1..], c, id);
      assert id == Id(name, branch[..l.level], l.clause) <==>
        id.name == name && id.node <= branch && Learnt(id.clause, |id.node|) == l;
    }
  }

  lemma StepMarks(m: Memory, e: Event, m1: Memory, client: int, id: Id)
    requires Next(m, e, m1, false)
    requires Gives(e, client, id) || (m.Has(client, id) && !MayForget(m, e, client, id))
    ensures m1.Has(client, id)
  {
    hide Pushes, Answers, AfterPull, Memory.Has;
    match e
    case Push(name, c, at, batch) => PushMarks(m, name, c, AndIndices(at), batch, m1, client, id);
    case Pull(name, c, at, _, sent) => PullMarks(m, name, c, AndIndices(at), sent, client, id);
    case Close(c) => CloseMarks(m, c, m1, client, id);
  }

  lemma CloseMarks(m: Memory, c: int, m1: Memory, client: int, id: Id)
    requires c != client && Leaves(m, c, m1)
    ensures m1.Has(client, id) == m.Has(client, id)
  {
  }

  lemma PushMarks(m: Memory, name: string, c: int, branch: Branch, batch: seq<Learnt>, m1: Memory, client: int, id: Id)
    requires (forall l | l in batch :: l.level <= |branch|) && Pushes(m, name, c, branch, batch, m1)
    ensures c == client && name == id.name && id.node <= branch && Learnt(id.clause, |id.node|) in batch ==> m1.Has(client, id)
    ensures m.Has(client, id) && (name != id.name || m.size + |batch| <= 2 * CUT) ==> m1.Has(client, id)
  {
    hide StoreAll, Collects, Memory.Has;
    var m0 :| Collects(m, name, |batch|, m0) && m1 == StoreAll(m0, name, c, branch, batch);
    CollectionKeeps(m, name, |batch|, m0);
    BatchMarks(m0, name, c, branch, batch, client, id);
  }

  lemma PullMarks(m: Memory, name: string, c: int, branch: Branch, sent: seq<Id>, client: int, id: Id)
    ensures var m1 := AfterPull(m, name, c, branch, sent, false);
      (c == client && id in sent) || m.Has(client, id) ==> m1.Has(client, id)
  {
    hide OnPath;
  }

  /** Unless clauses may be sent again, a client is never sent a clause that it was sent or pushed
      itself, until its marks are erased. */
  lemma {:induction false} NothingSentTwice(ms: seq<Memory>, es: seq<Event>, i: nat, j: nat, client: int, id: Id)
    requires IsRun(ms, es, false) && i < j < |es| && Gives(es[i], client, id)
    requires forall k | i < k < j :: !MayForget(ms[k], es[k], client, id)
    ensures es[j].Pull? && es[j].client == client ==> id !in es[j].sent
  {
    StillMarked(ms, es, i, j, client, id);
    assert Next(ms[j], es[j], ms[j + 1], false);
  }

  lemma {:induction false} StillMarked(ms: seq<Memory>, es: seq<Event>, i: nat, j: nat, client: int, id: Id)
    requires IsRun(ms, es, false) && i < j < |es| && Gives(es[i], client, id)
    requires forall k | i < k < j :: !MayForget(ms[k], es[k], client, id)
    ensures ms[j].Has(client, id)
    decreases j
  {
    hide Next, Gives, MayForget;
    assert Next(ms[j - 1], es[j - 1], ms[j], false);
    if j - 1 > i { StillMarked(ms, es, i, j - 1, client, id); }
    StepMarks(ms[j - 1], es[j - 1], ms[j], client, id);
  }

  // ---------- nothing is held back ----------

  /** A mark has a reason: the client pushed the clause or was sent it, and has not left since. */
  lemma {:induction false} MarkedWasGiven(ms: seq<Memory>, es: seq<Event>, sendAgain: bool, i: nat, client: int, id: Id)
    requires IsRun(ms, es, sendAgain) && i < |ms| && ms[i].Has(client, id)
    ensures exists k :: 0 <= k < i && Gives(es[k], client, id) && forall j | k < j < i :: es[j] != Close(client)
    decreases i
  {
    hide Next, Gives, Memory.Has;
    if i == 0 {
      NothingMarked(client, id);
      assert false;
    } else {
      assert Next(ms[i - 1], es[i - 1], ms[i], sendAgain);
      MarkHasReason(ms[i - 1], es[i - 1], ms[i], sendAgain, client, id);
      if !Gives(es[i - 1], client, id) { MarkedWasGiven(ms, es, sendAgain, i - 1, client, id); }
    }
  }

  lemma NothingMarked(client: int, id: Id)
    ensures !NOTHING.Has(client, id)
  {
  }

  lemma MarkHasReason(m: Memory, e: Event, m1: Memory, sendAgain: bool, client: int, id: Id)
    requires Next(m, e, m1, sendAgain) && m1.Has(client, id)
    ensures Gives(e, client, id) || (m.Has(client, id) && e != Close(client))
  {
    hide StoreAll, Collects, Answers, OnPath;
    match e
    case Push(name, c, at, batch) =>
      var m0 :| Collects(m, name, |batch|, m0) && m1 == StoreAll(m0, name, c, AndIndices(at), batch);
      BatchMarks(m0, name, c, AndIndices(at), batch, client, id);
      if m0.Has(client, id) { CollectionAddsNothing(m, name, |batch|, m0, client, id); }
    case Pull(name, c, at, _, sent) =>
    case Close(c) =>
  }

  lemma CollectionAddsNothing(m: Memory, name: string, batch: nat, m1: Memory, client: int, id: Id)
    requires Collects(m, name, batch, m1) && m1.Has(client, id)
    ensures m.Has(client, id)
  {
  }

  /** What is stored stays stored. */
  lemma {:induction false} StoredStays(ms: seq<Memory>, es: seq<Event>, sendAgain: bool, i: nat, j: nat, id: Id)
    requires IsRun(ms, es, sendAgain) && i <= j < |ms| && id in ms[i].lemmas
    ensures id in ms[j].lemmas
    decreases j
  {
    hide Next;
    if i < j {
      assert Next(ms[j - 1], es[j - 1], ms[j], sendAgain);
      StoredStays(ms, es, sendAgain, i, j - 1, id);
      StepStores(ms[j - 1], es[j - 1], ms[j], sendAgain, id);
    }
  }

  lemma StepStores(m: Memory, e: Event, m1: Memory, sendAgain: bool, id: Id)
    requires Next(m, e, m1, sendAgain)
    ensures id in m1.lemmas <==> id in m.lemmas || Brings(e, id)
  {
    hide StoreAll, Collects, Answers, LookedUp, SentMarks, OnPath;
    if e.Push? {
      var m0 :| Collects(m, e.name, |e.batch|, m0) && m1 == StoreAll(m0, e.name, e.client, AndIndices(e.at), e.batch);
      CollectionKeeps(m, e.name, |e.batch|, m0);
      StoredByBatch(m0, e.name, e.client, AndIndices(e.at), e.batch, id);
    }
  }

  /** A clause that was pushed on the way to the receiver's branch, and that the receiver has neither
      pushed nor been sent, is in the next answer that is not full. */
  lemma UnseenIsSent(ms: seq<Memory>, es: seq<Event>, sendAgain: bool, k: nat, i: nat, id: Id)
    requires IsRun(ms, es, sendAgain) && k < i < |es| && Brings(es[k], id)
    requires es[i].Pull? && es[i].name == id.name && id.node <= AndIndices(es[i].at)
    requires forall j | 0 <= j < i :: !Gives(es[j], es[i].client, id)
    ensures id in es[i].sent || |es[i].sent| == es[i].request
  {
    hide Next, Gives, Brings, Memory.Has, AndIndices;
    assert Next(ms[k], es[k], ms[k + 1], sendAgain);
    StepStores(ms[k], es[k], ms[k + 1], sendAgain, id);
    StoredStays(ms, es, sendAgain, k + 1, i, id);
    if ms[i].Has(es[i].client, id) { MarkedWasGiven(ms, es, sendAgain, i, es[i].client, id); }
    assert Next(ms[i], es[i], ms[i + 1], sendAgain);
    AllOrFull(ms[i], es[i], ms[i + 1], sendAgain, id);
  }

  lemma AllOrFull(m: Memory, e: Event, m1: Memory, sendAgain: bool, id: Id)
    requires Next(m, e, m1, sendAgain) && e.Pull? && id in m.lemmas && !m.Has(e.client, id)
    requires e.name == id.name && id.node <= AndIndices(e.at)
    ensures id in e.sent || |e.sent| == e.request
  {
    hide Chosen, AfterPull, AndIndices;
    if |e.sent| != e.request {
      var missing := Missing(m, e.name, e.client, AndIndices(e.at));
      var sent := set x | x in e.sent;
      SizeOfList(e.sent, sent);
      SubsetSize(sent, missing);
      assert id in missing;
    }
  }

  // ---------- the collector's counter ----------

  /** A triggered collection stops at `CUT` or when the instance has no marks left; the counter
      never falls below `CUT`, and the stored clauses stay. */
  lemma CollectionStopsAtCut(m: Memory, name: string, batch: nat, m1: Memory)
    requires Collects(m, name, batch, m1) && m.size + batch > 2 * CUT
    ensures m1.size >= CUT && m1.lemmas == m.lemmas
    ensures m1.size == CUT || Entries(m1, name) == {}
    ensures forall e | e in m.marks && e.id.name != name :: e in m1.marks && m1.marks[e] == m.marks[e]
  {
    var erased := m.marks.Keys - m1.marks.Keys;
    if m1.size != CUT { SubsetSize(erased, Entries(m, name)); }
  }
}
