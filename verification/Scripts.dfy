/** The SMT-LIB scripts that carry a solver from one node of the tree to another, and the
    assertion stack they leave behind (section 4.1.4 of the SMT-LIB Standard 2.6). */
module Scripts {
  import opened Wrappers
  import opened Paths
  import opened StatusTree
  import opened Verdicts
  import opened Growth

  datatype Cmd = Assert(text: string) | Push | Pop

  type Script = seq<Cmd>
  type Stack = seq<seq<string>>

  /** Running a script; popping the base level is an error. */
  function Exec(script: Script, stack: Stack): Option<Stack>
    decreases |script|
  {
    if script == [] then Some(stack)
    else if |stack| == 0 then None
    else
      match script[0]
      case Assert(text) => Exec(script[1..], stack[..|stack| - 1] + [stack[|stack| - 1] + [text]])
      case Push => Exec(script[1..], stack + [[]])
      case Pop => if |stack| == 1 then None else Exec(script[1..], stack[..|stack| - 1])
  }

  /** An interpreter that has read nothing. */
  const EMPTY_STACK: Stack := [[]]

  /** The stack of a solver at `p`: one level for each And node from the root down to `p`. */
  function StackOf(smt: map<Path, string>, p: Path): (r: Stack)
    ensures |r| == |p| / 2 + 1
    decreases |p|
  {
    var text := if p in smt then smt[p] else "";
    if p == [] then [[text]]
    else if IsAnd(p) then StackOf(smt, Parent(p)) + [[text]]
    else StackOf(smt, Parent(p))
  }

  /** What one node contributes on the way down from the root. */
  function Enter(smt: map<Path, string>, p: Path): Script {
    var text := if p in smt then smt[p] else "";
    if p == [] then [Assert(text)]
    else if IsAnd(p) then [Push, Assert(text)]
    else []
  }

  /** The script for all nodes from below `q` down to `p`, or from the root if there is no `q`. */
  function Down(smt: map<Path, string>, q: Option<Path>, p: Path): Script
    decreases |p|
  {
    if q == Some(p) then []
    else if p == [] then Enter(smt, p)
    else Down(smt, q, Parent(p)) + Enter(smt, p)
  }

  /** The first node from `s` upwards that is `n` or above it. */
  function Meet(s: Path, n: Path): (q: Path)
    ensures q <= s && q <= n
    decreases |s|
  {
    if s <= n then s else Meet(Parent(s), n)
  }

  /** The And nodes passed while climbing from `s` to there. */
  function Climbed(s: Path, n: Path): (k: nat)
    decreases |s|
  {
    if s <= n then 0 else Climbed(Parent(s), n) + (if IsAnd(s) then 1 else 0)
  }

  function Pops(k: nat): Script {
    seq(k, _ => Pop)
  }

  /** The script that brings a solver from `start`, or from nothing, to `n`. */
  function MoveScript(smt: map<Path, string>, n: Path, start: Option<Path>): Script {
    match start
    case None => Down(smt, None, n)
    case Some(s) => Pops(Climbed(s, n)) + Down(smt, Some(Meet(s, n)), n)
  }

  // ---------- incremental scripts refine from-scratch scripts ----------

  lemma {:induction false} ExecConcat(a: Script, b: Script, stack: Stack)
    ensures Exec(a + b, stack) == match Exec(a, stack) case None => None case Some(s) => Exec(b, s)
    decreases |a|
  {
    if a == [] {
      assert a + b == b;
    } else if |stack| > 0 {
      assert (a + b)[0] == a[0] && (a + b)[1..] == a[1..] + b;
      match a[0]
      case Assert(text) => ExecConcat(a[1..], b, stack[..|stack| - 1] + [stack[|stack| - 1] + [text]]);
      case Push => ExecConcat(a[1..], b, stack + [[]]);
      case Pop => if |stack| > 1 { ExecConcat(a[1..], b, stack[..|stack| - 1]); }
    } else {
      assert (a + b)[0] == a[0];
    }
  }

  lemma EnterBuildsLevel(smt: map<Path, string>, p: Path)
    ensures Exec(Enter(smt, p), if p == [] then EMPTY_STACK else StackOf(smt, Parent(p))) == Some(StackOf(smt, p))
  {
    var text := if p in smt then smt[p] else "";
    assert [] + [text] == [text];
    if p == [] {
      AssertOnTop(text, [], []);
      assert [] + EMPTY_STACK == EMPTY_STACK && [] + [[text]] == [[text]];
    } else if IsAnd(p) {
      var below := StackOf(smt, Parent(p));
      assert [Push, Assert(text)][1..] == [Assert(text)];
      AssertOnTop(text, below, []);
    }
  }

  lemma AssertOnTop(text: string, below: Stack, top: seq<string>)
    ensures Exec([Assert(text)], below + [top]) == Some(below + [top + [text]])
  {
    var stack := below + [top];
    assert stack[..|below|] == below;
    assert [Assert(text)][1..] == [];
    assert Exec([], below + [top + [text]]) == Some(below + [top + [text]]);
  }

  lemma {:induction false} DownBuildsStack(smt: map<Path, string>, q: Option<Path>, p: Path)
    requires q.Some? ==> q.value <= p
    ensures Exec(Down(smt, q, p), if q.Some? then StackOf(smt, q.value) else EMPTY_STACK) == Some(StackOf(smt, p))
    decreases |p|
  {
    EnterBuildsLevel(smt, p);
    if q != Some(p) && p != [] {
      if q.Some? { Prefixes(q.value, p); }
      DownBuildsStack(smt, q, Parent(p));
      ExecConcat(Down(smt, q, Parent(p)), Enter(smt, p), if q.Some? then StackOf(smt, q.value) else EMPTY_STACK);
    }
  }

  lemma {:induction false} PopsUndoLevels(smt: map<Path, string>, s: Path, n: Path)
    ensures Exec(Pops(Climbed(s, n)), StackOf(smt, s)) == Some(StackOf(smt, Meet(s, n)))
    decreases |s|
  {
    if !(s <= n) {
      PopsUndoLevels(smt, Parent(s), n);
      if IsAnd(s) {
        assert Pops(Climbed(s, n))[1..] == Pops(Climbed(Parent(s), n));
        assert StackOf(smt, s)[..|StackOf(smt, s)| - 1] == StackOf(smt, Parent(s));
      }
    }
  }

  /** The incremental script, run on the stack of `s`, and the from-scratch script, run on an empty
      interpreter, leave the same stack: that of `n`.  The two positions are unrelated; the place
      where their paths part may be an Or node. */
  lemma IncrementalEqualsFromScratch(smt: map<Path, string>, s: Path, n: Path)
    ensures Exec(MoveScript(smt, n, Some(s)), StackOf(smt, s)) == Some(StackOf(smt, n))
    ensures Exec(MoveScript(smt, n, None), EMPTY_STACK) == Some(StackOf(smt, n))
  {
    PopsUndoLevels(smt, s, n);
    DownBuildsStack(smt, Some(Meet(s, n)), n);
    ExecConcat(Pops(Climbed(s, n)), Down(smt, Some(Meet(s, n)), n), StackOf(smt, s));
    DownBuildsStack(smt, None, n);
  }

  /** One script for a whole journey of incremental moves. */
  function Journey(smt: map<Path, string>, s: Path, stops: seq<Path>): Script
    decreases |stops|
  {
    if stops == [] then [] else MoveScript(smt, stops[0], Some(s)) + Journey(smt, stops[0], stops[1..])
  }

  function LastStop(s: Path, stops: seq<Path>): Path
    decreases |stops|
  {
    if stops == [] then s else LastStop(stops[0], stops[1..])
  }

  /** However a solver wandered, it ends with the stack of a fresh solve of its last stop. */
  lemma {:induction false} JourneyEqualsFromScratch(smt: map<Path, string>, s: Path, stops: seq<Path>)
    ensures Exec(Journey(smt, s, stops), StackOf(smt, s)) == Exec(MoveScript(smt, LastStop(s, stops), None), EMPTY_STACK)
    decreases |stops|
  {
    if stops == [] {
      IncrementalEqualsFromScratch(smt, s, s);
    } else {
      var move := MoveScript(smt, stops[0], Some(s));
      assert Exec(move, StackOf(smt, s)) == Some(StackOf(smt, stops[0])) by {
        IncrementalEqualsFromScratch(smt, s, stops[0]);
      }
      JourneyEqualsFromScratch(smt, stops[0], stops[1..]);
      ExecConcat(move, Journey(smt, stops[0], stops[1..]), StackOf(smt, s));
    }
  }

  /** The nodes below the meeting point are not shared: a level is popped only if `n` is not below
      its node, and everything down to the meeting point stays. */
  lemma {:induction false} MeetIsLowestCommonAncestor(s: Path, n: Path, q: Path)
    requires q <= s && q <= n
    ensures q <= Meet(s, n)
    decreases |s|
  {
    if !(s <= n) {
      Prefixes(q, s);
      MeetIsLowestCommonAncestor(Parent(s), n, q);
    }
  }

  // ---------- the stack means the partition ----------

  ghost predicate Satisfies(m: Meaning, stack: Stack, a: Assignment) {
    forall level, text | level in stack && text in level :: m(text, a)
  }

  /** A solver at `p` that is asked for satisfiability decides exactly the partition of `p`. */
  lemma {:induction false} StackMeansPartition(m: Meaning, t: Tree, p: Path, a: Assignment)
    requires t.Valid() && p in t.arity
    ensures Satisfies(m, StackOf(t.smt, p), a) <==> InF(m, t.smt, p, a)
    decreases |p|
  {
    if p == [] {
      assert t.smt[p] in [t.smt[p]] && [t.smt[p]] in StackOf(t.smt, p);
    } else {
      StackMeansPartition(m, t, Parent(p), a);
      if IsAnd(p) {
        assert t.smt[p] in [t.smt[p]];
        assert [t.smt[p]] in StackOf(t.smt, p);
        assert forall level | level in StackOf(t.smt, Parent(p)) :: level in StackOf(t.smt, p);
      }
    }
  }

  lemma {:induction false} StackIsFixed(smt: map<Path, string>, smt1: map<Path, string>, p: Path)
    requires smt.Keys <= smt1.Keys && forall q | q in smt :: smt1[q] == smt[q]
    requires forall q | q <= p :: q in smt
    ensures StackOf(smt1, p) == StackOf(smt, p)
    decreases |p|
  {
    if p != [] {
      forall q | q <= Parent(p)
        ensures q in smt
      {
        PrefixTransitive(q, Parent(p), p);
      }
      StackIsFixed(smt, smt1, Parent(p));
    }
  }
}
