/** Splitting the query of a fixed-point instance: every rule whose head is the query gets a query of
    its own, and the Or node of the instance one child per such rule. */
module Horn {
  import opened Wrappers
  import opened PathText

  datatype SExpr = Atom(name: string) | List(items: seq<SExpr>)

  // ---------- the transformation ----------

  /** The k-th generated query: `'{}{}'.format(self.query, len(queries))`. */
  function Name(query: string, k: nat): string {
    query + Decimal(k)
  }

  predicate StartsWith(f: SExpr, keyword: string) {
    f.List? && f.items != [] && f.items[0] == Atom(keyword)
  }

  /** The formula with another head, if it is an implication of the query below any number of
      `let`s.  Formulas of any other form, and those that are too short, are left alone. */
  function WithHead(f: SExpr, query: string, name: string): Option<SExpr> {
    if StartsWith(f, "let") then
      if |f.items| < 3 then None
      else
        match WithHead(f.items[2], query, name)
        case None => None
        case Some(g) => Some(List(f.items[2 := g]))
    else if StartsWith(f, "=>") && |f.items| >= 3 && f.items[2] == Atom(query) then
      Some(List(f.items[2 := Atom(name)]))
    else None
  }

  function WithQuery(item: SExpr, query: string, name: string): Option<SExpr> {
    if StartsWith(item, "rule") && |item.items| >= 2 then
      match WithHead(item.items[1], query, name)
      case None => None
      case Some(g) => Some(List(item.items[1 := g]))
    else None
  }

  /** One `let` around a formula: its bindings, and what follows the formula. */
  datatype Let = Let(bindings: SExpr, more: seq<SExpr>)

  /** A formula inside of `let`s, the first one outermost. */
  function Under(lets: seq<Let>, f: SExpr): SExpr
    decreases |lets|
  {
    if lets == [] then f else List([Atom("let"), lets[0].bindings, Under(lets[1..], f)] + lets[0].more)
  }

  /** `(rule (let … (=> body head)))`, with whatever follows in each of the lists. */
  function RuleOf(lets: seq<Let>, body: SExpr, head: string, rest: seq<SExpr>, more: seq<SExpr>): SExpr {
    List([Atom("rule"), Under(lets, Implies(body, head, rest))] + more)
  }

  function Implies(body: SExpr, head: string, rest: seq<SExpr>): SExpr {
    List([Atom("=>"), body, Atom(head)] + rest)
  }

  ghost predicate IsRuleFor(item: SExpr, query: string) {
    exists lets, body, rest, more :: item == RuleOf(lets, body, query, rest, more)
  }

  /** The first item is a rule for `query`, the second the same rule for `name`. */
  ghost predicate Renamed(item: SExpr, query: string, name: string, item1: SExpr) {
    exists lets, body, rest, more ::
      item == RuleOf(lets, body, query, rest, more) && item1 == RuleOf(lets, body, name, rest, more)
  }

  lemma {:induction false} HeadUnder(lets: seq<Let>, body: SExpr, rest: seq<SExpr>, query: string, name: string)
    ensures WithHead(Under(lets, Implies(body, query, rest)), query, name) == Some(Under(lets, Implies(body, name, rest)))
    decreases |lets|
  {
    if lets == [] {
      assert Implies(body, query, rest).items[2 := Atom(name)] == Implies(body, name, rest).items;
    } else {
      HeadUnder(lets[1..], body, rest, query, name);
      var f, g := Under(lets, Implies(body, query, rest)), Under(lets, Implies(body, name, rest));
      assert f.items[2 := g.items[2]] == g.items;
    }
  }

  lemma {:induction false} HeadFound(f: SExpr, query: string, name: string)
      returns (lets: seq<Let>, body: SExpr, rest: seq<SExpr>)
    requires WithHead(f, query, name).Some?
    ensures f == Under(lets, Implies(body, query, rest))
  {
    if StartsWith(f, "let") {
      lets, body, rest := HeadFound(f.items[2], query, name);
      var here := Let(f.items[1], f.items[3..]);
      assert f.items == [Atom("let"), here.bindings, f.items[2]] + here.more;
      assert ([here] + lets)[1..] == lets;
      lets := [here] + lets;
    } else {
      lets, body, rest := [], f.items[1], f.items[3..];
      assert f.items == [Atom("=>"), body, Atom(query)] + rest;
    }
  }

  lemma RuleWithQuery(lets: seq<Let>, body: SExpr, query: string, name: string, rest: seq<SExpr>, more: seq<SExpr>)
    ensures WithQuery(RuleOf(lets, body, query, rest, more), query, name) == Some(RuleOf(lets, body, name, rest, more))
  {
    HeadUnder(lets, body, rest, query, name);
    var item, item1 := RuleOf(lets, body, query, rest, more), RuleOf(lets, body, name, rest, more);
    assert item.items[1 := item1.items[1]] == item1.items;
  }

  /** An item is rewritten exactly if it is a rule for the query: an implication of it below any number
      of `let`s; and then it becomes the same rule for the new name. */
  lemma RewrittenExactlyWhen(item: SExpr, query: string, name: string)
    ensures WithQuery(item, query, name).Some? <==> IsRuleFor(item, query)
    ensures forall item1 :: WithQuery(item, query, name) == Some(item1) <==> Renamed(item, query, name, item1)
  {
    hide RuleOf, WithHead;
    if WithQuery(item, query, name).Some? {
      var lets, body, rest := HeadFound(item.items[1], query, name);
      var more := item.items[2..];
      assert item == RuleOf(lets, body, query, rest, more) by { RuleParts(item, lets, body, query, rest); }
      RuleWithQuery(lets, body, query, name, rest, more);
    }
    if lets, body, rest, more :| item == RuleOf(lets, body, query, rest, more) {
      RuleWithQuery(lets, body, query, name, rest, more);
    }
    forall item1 | Renamed(item, query, name, item1)
      ensures WithQuery(item, query, name) == Some(item1)
    {
      var lets, body, rest, more :|
        item == RuleOf(lets, body, query, rest, more) && item1 == RuleOf(lets, body, name, rest, more);
      RuleWithQuery(lets, body, query, name, rest, more);
    }
  }

  lemma RuleParts(item: SExpr, lets: seq<Let>, body: SExpr, query: string, rest: seq<SExpr>)
    requires item.List? && |item.items| >= 2 && item.items[0] == Atom("rule")
    requires item.items[1] == Under(lets, Implies(body, query, rest))
    ensures item == RuleOf(lets, body, query, rest, item.items[2..])
  {
    assert item.items == [Atom("rule"), item.items[1]] + item.items[2..];
  }

  /** Every rule for the query is the same rule for a query of its own, numbered in the order of the
      rules, and nothing else has changed. */
  ghost predicate IsSplit(items: seq<SExpr>, query: string, split: seq<SExpr>) {
    && |split| == |items|
    && forall i | 0 <= i < |items| ::
         if IsRuleFor(items[i], query) then Renamed(items[i], query, Name(query, |RulesFor(items[..i], query)|), split[i])
         else split[i] == items[i]
  }

  /** All items with their queries split, and how many there are. */
  function SplitAll(items: seq<SExpr>, query: string): (r: (seq<SExpr>, nat))
    ensures |r.0| == |items| && r.1 <= |items|
    decreases |items|
  {
    if items == [] then ([], 0)
    else
      var n := |items| - 1;
      var (before, k) := SplitAll(items[..n], query);
      match WithQuery(items[n], query, Name(query, k))
      case None => (before + [items[n]], k)
      case Some(item) => (before + [item], k + 1)
  }

  function Names(query: string, n: nat): (r: seq<string>)
    ensures |r| == n && forall k | 0 <= k < n :: r[k] == Name(query, k)
  {
    seq(n, k requires 0 <= k < n => Name(query, k))
  }

  /** `['declare-rel', query, []]`. */
  function Declaration(name: string): SExpr {
    List([Atom("declare-rel"), Atom(name), List([])])
  }

  /** Declarations of the new queries, the last one first. */
  function Declarations(queries: seq<string>): (r: seq<SExpr>)
    ensures forall d | d in r :: StartsWith(d, "declare-rel")
    decreases |queries|
  {
    if queries == [] then [] else [Declaration(queries[|queries| - 1])] + Declarations(queries[..|queries| - 1])
  }

  /** The declarations go in front of the first one that is there, if there is one. */
  function Declared(items: seq<SExpr>, queries: seq<string>): seq<SExpr>
    decreases |items|
  {
    if items == [] then []
    else if StartsWith(items[0], "declare-rel") then Declarations(queries) + items
    else [items[0]] + Declared(items[1..], queries)
  }

  /** `obj` has the items in their order and, in front of the first declaration if there is one, a
      declaration `(declare-rel query ())` for each of the queries, the last one first. */
  ghost predicate Declares(items: seq<SExpr>, queries: seq<string>, obj: seq<SExpr>) {
    if forall j | 0 <= j < |items| :: !StartsWith(items[j], "declare-rel") then obj == items
    else exists i, added: seq<SExpr> ::
      && 0 <= i < |items| && StartsWith(items[i], "declare-rel")
      && (forall j | 0 <= j < i :: !StartsWith(items[j], "declare-rel"))
      && |added| == |queries|
      && (forall k | 0 <= k < |added| :: added[k] == List([Atom("declare-rel"), Atom(queries[|queries| - 1 - k]), List([])]))
      && obj == items[..i] + added + items[i..]
  }

  lemma {:induction false} DeclarationsAt(queries: seq<string>, k: nat)
    requires k < |queries|
    ensures |Declarations(queries)| == |queries|
    ensures Declarations(queries)[k] == List([Atom("declare-rel"), Atom(queries[|queries| - 1 - k]), List([])])
    decreases |queries|
  {
    var before := queries[..|queries| - 1];
    if before != [] { DeclarationsAt(before, if k == 0 then 0 else k - 1); }
  }

  lemma {:induction false} DeclaredAt(items: seq<SExpr>, queries: seq<string>, i: nat)
    requires i < |items| && StartsWith(items[i], "declare-rel")
    requires forall j | 0 <= j < i :: !StartsWith(items[j], "declare-rel")
    ensures Declared(items, queries) == items[..i] + Declarations(queries) + items[i..]
    decreases i
  {
    if i > 0 {
      DeclaredAt(items[1..], queries, i - 1);
      assert items[..i] == [items[0]] + items[1..][..i - 1];
    }
  }

  lemma {:induction false} NothingDeclared(items: seq<SExpr>, queries: seq<string>)
    requires forall j | 0 <= j < |items| :: !StartsWith(items[j], "declare-rel")
    ensures Declared(items, queries) == items
    decreases |items|
  {
    if items != [] { NothingDeclared(items[1..], queries); }
  }

  lemma FirstDeclaration(items: seq<SExpr>, n: nat) returns (i: nat)
    requires n < |items| && StartsWith(items[n], "declare-rel")
    ensures i <= n && StartsWith(items[i], "declare-rel") && forall j | 0 <= j < i :: !StartsWith(items[j], "declare-rel")
  {
    if j: nat :| j < n && StartsWith(items[j], "declare-rel") {
      i := FirstDeclaration(items, j);
    } else {
      i := n;
    }
  }

  lemma DeclaredOnce(items: seq<SExpr>, queries: seq<string>)
    ensures Declares(items, queries, Declared(items, queries))
  {
    hide StartsWith, Declared, Declarations;
    if n: nat :| n < |items| && StartsWith(items[n], "declare-rel") {
      var i := FirstDeclaration(items, n);
      DeclaredAt(items, queries, i);
      forall k: nat | k < |queries| && |Declarations(queries)| == |queries|
        ensures Declarations(queries)[k] == List([Atom("declare-rel"), Atom(queries[|queries| - 1 - k]), List([])])
      {
        DeclarationsAt(queries, k);
      }
      if queries == [] { NoDeclarations(); } else { DeclarationsAt(queries, 0); }
      var added := Declarations(queries);
      assert |added| == |queries|;
      assert Declared(items, queries) == items[..i] + added + items[i..];
    } else {
      NothingDeclared(items, queries);
    }
  }

  lemma NoDeclarations()
    ensures Declarations([]) == []
  {
  }

  /** The first loop: every rule for the query gets a query of its own. */
  method SplitRules(items: seq<SExpr>, query: string) returns (obj: seq<SExpr>, queries: seq<string>)
    ensures (obj, |queries|) == SplitAll(items, query) && queries == Names(query, |queries|)
  {
    hide WithQuery;
    obj := items;
    queries := [];
    for i := 0 to |items|
      invariant |obj| == |items| && obj[i..] == items[i..]
      invariant SplitAll(items[..i], query) == (obj[..i], |queries|) && queries == Names(query, |queries|)
    {
      assert items[..i + 1][..i] == items[..i] && obj[i] == obj[i..][0] == items[i..][0] == items[i];
      var item := WithQuery(obj[i], query, Name(query, |queries|));
      ghost var before := obj[..i];
      if item.Some? {
        queries := queries + [Name(query, |queries|)];
        obj := obj[i := item.value];
      }
      assert obj[..i + 1] == before + [obj[i]];
      assert obj[i + 1..] == items[i + 1..];
    }
    assert items[..|items|] == items && obj[..|items|] == obj;
  }

  /** The second loop: the new queries are declared, each in front of the one before. */
  method Declare(items: seq<SExpr>, queries: seq<string>) returns (obj: seq<SExpr>)
    ensures obj == Declared(items, queries) && Declares(items, queries, obj)
  {
    hide Declares;
    DeclaredOnce(items, queries);
    obj := items;
    var i := 0;
    while i < |obj|
      invariant i <= |items| && obj == items && Declared(items, queries) == items[..i] + Declared(items[i..], queries)
    {
      assert items[i..][1..] == items[i + 1..];
      if StartsWith(obj[i], "declare-rel") {
        for k := 0 to |queries|
          invariant obj == items[..i] + (Declarations(queries[..k]) + items[i..])
        {
          DeclareOne(items, queries, i, k);
          obj := obj[..i] + [Declaration(queries[k])] + obj[i..];
        }
        assert queries[..|queries|] == queries;
        return;
      }
      i := i + 1;
    }
  }

  lemma DeclareOne(items: seq<SExpr>, queries: seq<string>, i: nat, k: nat)
    requires i <= |items| && k < |queries|
    ensures var obj := items[..i] + (Declarations(queries[..k]) + items[i..]);
      obj[..i] + [Declaration(queries[k])] + obj[i..] == items[..i] + (Declarations(queries[..k + 1]) + items[i..])
  {
    assert queries[..k + 1][..k] == queries[..k];
  }

  /** `Fixedpoint.partition`: the text of the Or node and the queries of its children. */
  method Partition(items: seq<SExpr>, query: string) returns (obj: seq<SExpr>, queries: seq<string>)
    ensures queries == Names(query, SplitAll(items, query).1) && |queries| == |RulesFor(items, query)|
    ensures exists split :: IsSplit(items, query, split) && Declares(split, queries, obj)
    ensures obj == Declared(SplitAll(items, query).0, queries)
  {
    hide IsSplit, Declares, SplitAll;
    obj, queries := SplitRules(items, query);
    SplitMeans(items, query);
    OneChildPerRule(items, query);
    obj := Declare(obj, queries);
  }

  // ---------- what rules mean ----------

  /** A reading of formulas: for an assignment of the rule's variables, under the `let` bindings
      around a formula, the ground atoms that a body needs (if its constraints hold) and the ground
      atom that a head derives. */
  datatype Reading = Reading(
    needs: (SExpr, seq<SExpr>, int) -> Option<set<string>>,
    derives: (SExpr, seq<SExpr>, int) -> string)

  datatype Clause = Clause(body: set<string>, head: string)

  /** The ground clause of a formula for one assignment. */
  function ClauseOf(r: Reading, f: SExpr, lets: seq<SExpr>, v: int): Option<Clause> {
    if StartsWith(f, "let") && |f.items| >= 3 then ClauseOf(r, f.items[2], lets + [f.items[1]], v)
    else if StartsWith(f, "=>") && |f.items| >= 3 then
      match r.needs(f.items[1], lets, v)
      case None => None
      case Some(body) => Some(Clause(body, r.derives(f.items[2], lets, v)))
    else Some(Clause({}, r.derives(f, lets, v)))
  }

  function RuleClause(r: Reading, item: SExpr, v: int): Option<Clause> {
    if StartsWith(item, "rule") && |item.items| >= 2 then ClauseOf(r, item.items[1], [], v) else None
  }

  /** Derivations of at most `n` levels, from the clauses of all rules. */
  ghost predicate DerivableIn(r: Reading, items: seq<SExpr>, n: nat, a: string)
    decreases n, 0
  {
    n > 0 && exists item, v :: item in items && Derives(r, items, n - 1, a, RuleClause(r, item, v))
  }

  ghost predicate Derives(r: Reading, items: seq<SExpr>, n: nat, a: string, c: Option<Clause>)
    decreases n, 1
  {
    c.Some? && c.value.head == a && forall b | b in c.value.body :: DerivableIn(r, items, n, b)
  }

  ghost predicate Derivable(r: Reading, items: seq<SExpr>, a: string) {
    exists n: nat :: DerivableIn(r, items, n, a)
  }

  // ---------- splitting preserves the query ----------

  /** The relation names that splitting is about. */
  predicate Involved(query: string, count: nat, a: string) {
    a == query || exists k: nat :: k < count && a == Name(query, k)
  }

  /** The query is a plain relation that occurs only as the head of implications, and the generated
      names occur nowhere. */
  ghost predicate QueryOnlyInHeads(r: Reading, items: seq<SExpr>, query: string) {
    var count := SplitAll(items, query).1;
    && (forall a, lets, v | Involved(query, count, a) :: r.derives(Atom(a), lets, v) == a)
    && forall item, v | item in items && RuleClause(r, item, v).Some? :: ClauseIsClean(r, item, v, query, count)
  }

  ghost predicate ClauseIsClean(r: Reading, item: SExpr, v: int, query: string, count: nat)
    requires RuleClause(r, item, v).Some?
  {
    var c := RuleClause(r, item, v).value;
    && (forall b | b in c.body :: !Involved(query, count, b))
    && (!IsRuleFor(item, query) ==> !Involved(query, count, c.head))
  }

  /** Replacing the head changes what a clause derives, and nothing else. */
  lemma {:induction false} HeadReplaced(r: Reading, f: SExpr, lets: seq<SExpr>, v: int, query: string, name: string)
    requires forall l :: r.derives(Atom(query), l, v) == query && r.derives(Atom(name), l, v) == name
    ensures WithHead(f, query, name).Some? <==> WithHead(f, query, query).Some?
    ensures WithHead(f, query, name).Some? ==>
      match ClauseOf(r, f, lets, v)
      case None => ClauseOf(r, WithHead(f, query, name).value, lets, v) == None
      case Some(c) => c.head == query && ClauseOf(r, WithHead(f, query, name).value, lets, v) == Some(Clause(c.body, name))
  {
    if StartsWith(f, "let") && |f.items| >= 3 {
      HeadReplaced(r, f.items[2], lets + [f.items[1]], v, query, name);
    }
  }

  lemma RuleReplaced(r: Reading, item: SExpr, v: int, query: string, name: string)
    requires forall l, w :: r.derives(Atom(query), l, w) == query && r.derives(Atom(name), l, w) == name
    ensures WithQuery(item, query, name).Some? <==> WithQuery(item, query, query).Some?
    ensures WithQuery(item, query, name).Some? ==>
      match RuleClause(r, item, v)
      case None => RuleClause(r, WithQuery(item, query, name).value, v) == None
      case Some(c) => c.head == query && RuleClause(r, WithQuery(item, query, name).value, v) == Some(Clause(c.body, name))
  {
    if StartsWith(item, "rule") && |item.items| >= 2 {
      HeadReplaced(r, item.items[1], [], v, query, name);
    }
  }

  lemma {:induction false} AlwaysOrNever(f: SExpr, query: string, name: string)
    ensures WithHead(f, query, name).Some? <==> WithHead(f, query, query).Some?
  {
    if StartsWith(f, "let") && |f.items| >= 3 { AlwaysOrNever(f.items[2], query, name); }
  }

  /** What became of the i-th item. */
  lemma {:induction false} SplitAt(items: seq<SExpr>, query: string, i: nat) returns (k: nat)
    requires i < |items|
    ensures if WithQuery(items[i], query, query) == None then SplitAll(items, query).0[i] == items[i]
      else k < SplitAll(items, query).1 && WithQuery(items[i], query, Name(query, k)) == Some(SplitAll(items, query).0[i])
    ensures k == SplitAll(items[..i], query).1
    decreases |items|
  {
    var n := |items| - 1;
    if i < n {
      k := SplitAt(items[..n], query, i);
      assert items[..n][..i] == items[..i];
    } else {
      k := SplitAll(items[..n], query).1;
      if StartsWith(items[n], "rule") && |items[n].items| >= 2 {
        AlwaysOrNever(items[n].items[1], query, Name(query, k));
      }
    }
  }

  /** The rules for the query. */
  ghost function RulesFor(items: seq<SExpr>, query: string): set<nat> {
    set i: nat | i < |items| && IsRuleFor(items[i], query)
  }

  lemma SplitMeans(items: seq<SExpr>, query: string)
    ensures IsSplit(items, query, SplitAll(items, query).0)
  {
    hide WithQuery, Renamed, IsRuleFor;
    forall i: nat | i < |items|
      ensures if IsRuleFor(items[i], query)
        then Renamed(items[i], query, Name(query, |RulesFor(items[..i], query)|), SplitAll(items, query).0[i])
        else SplitAll(items, query).0[i] == items[i]
    {
      var k := SplitAt(items, query, i);
      OneChildPerRule(items[..i], query);
      RewrittenExactlyWhen(items[i], query, query);
      RewrittenExactlyWhen(items[i], query, Name(query, k));
    }
  }

  /** There are as many generated queries as rules for the query. */
  lemma {:induction false} OneChildPerRule(items: seq<SExpr>, query: string)
    ensures SplitAll(items, query).1 == |RulesFor(items, query)|
    decreases |items|
  {
    hide WithQuery, IsRuleFor, Renamed;
    if items == [] {
      assert RulesFor(items, query) == {};
    } else {
      var n := |items| - 1;
      OneChildPerRule(items[..n], query);
      var k := SplitAt(items, query, n);
      RewrittenExactlyWhen(items[n], query, Name(query, k));
      assert RulesFor(items, query) == RulesFor(items[..n], query) + if IsRuleFor(items[n], query) then {n} else {};
    }
  }

  /** Different rules for the query get different queries. */
  lemma DifferentRulesDifferentQueries(items: seq<SExpr>, query: string, i: nat, j: nat)
    requires i < j < |items| && i in RulesFor(items, query) && j in RulesFor(items, query)
    ensures var (split, count) := SplitAll(items, query);
      exists k, l :: 0 <= k < l < count && Name(query, k) != Name(query, l) &&
        Renamed(items[i], query, Name(query, k), split[i]) && Renamed(items[j], query, Name(query, l), split[j])
  {
    hide WithQuery, Renamed, IsRuleFor;
    var k := SplitAt(items, query, i);
    var l := SplitAt(items, query, j);
    CountsGrow(items, query, i, j);
    RewrittenExactlyWhen(items[i], query, query);
    RewrittenExactlyWhen(items[j], query, query);
    RewrittenExactlyWhen(items[i], query, Name(query, k));
    RewrittenExactlyWhen(items[j], query, Name(query, l));
    NamesAreDistinct(query, k, l);
  }

  lemma {:induction false} CountsGrow(items: seq<SExpr>, query: string, i: nat, j: nat)
    requires i < j <= |items| && i in RulesFor(items, query)
    ensures SplitAll(items[..i], query).1 < SplitAll(items[..j], query).1
    decreases j
  {
    assert items[..j][..j - 1] == items[..j - 1];
    if i == j - 1 {
      RewrittenExactlyWhen(items[i], query, Name(query, SplitAll(items[..i], query).1));
    } else {
      CountsGrow(items, query, i, j - 1);
    }
  }

  /** Every generated query belongs to a rule for the query. */
  lemma {:induction false} RuleOfQuery(items: seq<SExpr>, query: string, k: nat) returns (i: nat)
    requires k < SplitAll(items, query).1
    ensures i < |items| && Renamed(items[i], query, Name(query, k), SplitAll(items, query).0[i])
    decreases |items|
  {
    hide WithQuery, Renamed;
    var n := |items| - 1;
    RewrittenExactlyWhen(items[n], query, Name(query, SplitAll(items[..n], query).1));
    if k < SplitAll(items[..n], query).1 {
      i := RuleOfQuery(items[..n], query, k);
    } else {
      i := n;
    }
  }

  /** Ground atoms that splitting is not about are derived as before. */
  lemma {:induction false} OthersStay(r: Reading, items: seq<SExpr>, query: string, n: nat, a: string)
    requires QueryOnlyInHeads(r, items, query) && !Involved(query, SplitAll(items, query).1, a)
    ensures DerivableIn(r, items, n, a) <==> DerivableIn(r, SplitAll(items, query).0, n, a)
    decreases n, 0
  {
    hide WithQuery, IsRuleFor, Renamed;
    var split, count := SplitAll(items, query).0, SplitAll(items, query).1;
    if DerivableIn(r, items, n, a) {
      var item, v :| item in items && Derives(r, items, n - 1, a, RuleClause(r, item, v));
      var i :| 0 <= i < |items| && items[i] == item;
      assert ClauseIsClean(r, item, v, query, count);
      var k := SplitAt(items, query, i);
      RewrittenExactlyWhen(item, query, query);
      if WithQuery(item, query, query).Some? { RuleReplaced(r, item, v, query, query); }
      assert split[i] == item && item in split;
      BodiesStay(r, items, query, n - 1, RuleClause(r, item, v).value.body);
      assert Derives(r, split, n - 1, a, RuleClause(r, item, v));
    }
    if DerivableIn(r, split, n, a) {
      var item1, v :| item1 in split && Derives(r, split, n - 1, a, RuleClause(r, item1, v));
      var i :| 0 <= i < |split| && split[i] == item1;
      var item := items[i];
      assert item in items;
      var k := SplitAt(items, query, i);
      RewrittenExactlyWhen(item, query, query);
      if WithQuery(item, query, query).Some? { RuleReplaced(r, item, v, query, Name(query, k)); }
      assert item == item1;
      assert ClauseIsClean(r, item, v, query, count);
      BodiesStay(r, items, query, n - 1, RuleClause(r, item, v).value.body);
      assert Derives(r, items, n - 1, a, RuleClause(r, item, v));
    }
  }

  lemma {:induction false} BodiesStay(r: Reading, items: seq<SExpr>, query: string, n: nat, body: set<string>)
    requires QueryOnlyInHeads(r, items, query) && forall b | b in body :: !Involved(query, SplitAll(items, query).1, b)
    ensures forall b | b in body :: DerivableIn(r, items, n, b) <==> DerivableIn(r, SplitAll(items, query).0, n, b)
    decreases n, 1
  {
    forall b | b in body
      ensures DerivableIn(r, items, n, b) <==> DerivableIn(r, SplitAll(items, query).0, n, b)
    {
      OthersStay(r, items, query, n, b);
    }
  }

  /** The query is derived by one of its rules, and then so is the query generated for that rule. */
  lemma QuerySplits(r: Reading, items: seq<SExpr>, query: string, n: nat)
    requires QueryOnlyInHeads(r, items, query) && DerivableIn(r, items, n, query)
    ensures exists k: nat :: k < SplitAll(items, query).1 && DerivableIn(r, SplitAll(items, query).0, n, Name(query, k))
  {
    hide WithQuery, IsRuleFor, Renamed;
    var split, count := SplitAll(items, query).0, SplitAll(items, query).1;
    var item, v :| item in items && Derives(r, items, n - 1, query, RuleClause(r, item, v));
    var i :| 0 <= i < |items| && items[i] == item;
    assert ClauseIsClean(r, item, v, query, count);
    var k := SplitAt(items, query, i);
    RewrittenExactlyWhen(item, query, query);
    RuleReplaced(r, item, v, query, Name(query, k));
    BodiesStay(r, items, query, n - 1, RuleClause(r, item, v).value.body);
    assert split[i] in split && Derives(r, split, n - 1, Name(query, k), RuleClause(r, split[i], v));
  }

  lemma QueriesJoin(r: Reading, items: seq<SExpr>, query: string, n: nat, k: nat)
    requires QueryOnlyInHeads(r, items, query) && k < SplitAll(items, query).1
    requires DerivableIn(r, SplitAll(items, query).0, n, Name(query, k))
    ensures DerivableIn(r, items, n, query)
  {
    hide WithQuery, IsRuleFor, Renamed;
    var split, count := SplitAll(items, query).0, SplitAll(items, query).1;
    var name := Name(query, k);
    var item1, v :| item1 in split && Derives(r, split, n - 1, name, RuleClause(r, item1, v));
    var i :| 0 <= i < |split| && split[i] == item1;
    var item := items[i];
    assert item in items;
    var j := SplitAt(items, query, i);
    assert Involved(query, count, name) && Involved(query, count, query);
    RewrittenExactlyWhen(item, query, query);
    if WithQuery(item, query, query).Some? { RuleReplaced(r, item, v, query, Name(query, j)); }
    assert ClauseIsClean(r, item, v, query, count);
    BodiesStay(r, items, query, n - 1, RuleClause(r, item, v).value.body);
    assert Derives(r, items, n - 1, query, RuleClause(r, item, v));
  }

  /** Declarations add no rules. */
  lemma {:induction false} SameRules(items: seq<SExpr>, queries: seq<string>, item: SExpr)
    requires StartsWith(item, "rule")
    ensures item in Declared(items, queries) <==> item in items
    decreases |items|
  {
    if items != [] && !StartsWith(items[0], "declare-rel") { SameRules(items[1..], queries, item); }
  }

  lemma {:induction false} DeclarationsDeriveNothing(r: Reading, items: seq<SExpr>, queries: seq<string>, n: nat, a: string)
    ensures DerivableIn(r, Declared(items, queries), n, a) <==> DerivableIn(r, items, n, a)
    decreases n, 0
  {
    var obj := Declared(items, queries);
    if DerivableIn(r, obj, n, a) {
      var item, v :| item in obj && Derives(r, obj, n - 1, a, RuleClause(r, item, v));
      SameRules(items, queries, item);
      DeclarationsBelow(r, items, queries, n - 1, RuleClause(r, item, v).value.body);
      assert Derives(r, items, n - 1, a, RuleClause(r, item, v));
    }
    if DerivableIn(r, items, n, a) {
      var item, v :| item in items && Derives(r, items, n - 1, a, RuleClause(r, item, v));
      SameRules(items, queries, item);
      DeclarationsBelow(r, items, queries, n - 1, RuleClause(r, item, v).value.body);
      assert Derives(r, obj, n - 1, a, RuleClause(r, item, v));
    }
  }

  lemma {:induction false} DeclarationsBelow(r: Reading, items: seq<SExpr>, queries: seq<string>, n: nat, body: set<string>)
    ensures forall b | b in body :: DerivableIn(r, Declared(items, queries), n, b) <==> DerivableIn(r, items, n, b)
    decreases n, 1
  {
    forall b | b in body
      ensures DerivableIn(r, Declared(items, queries), n, b) <==> DerivableIn(r, items, n, b)
    {
      DeclarationsDeriveNothing(r, items, queries, n, b);
    }
  }

  /** The original query is derivable exactly if one of the generated queries is derivable from the
      rewritten rules; nothing else becomes derivable or stops being so. */
  lemma SplittingPreservesQuery(r: Reading, items: seq<SExpr>, query: string)
    requires QueryOnlyInHeads(r, items, query)
    ensures var (split, count) := SplitAll(items, query); var obj := Declared(split, Names(query, count));
      && (Derivable(r, items, query) <==> exists k: nat :: k < count && Derivable(r, obj, Name(query, k)))
      && forall a | !Involved(query, count, a) :: Derivable(r, items, a) <==> Derivable(r, obj, a)
  {
    var (split, count) := SplitAll(items, query);
    var queries := Names(query, count);
    var obj := Declared(split, queries);
    if Derivable(r, items, query) {
      var n: nat :| DerivableIn(r, items, n, query);
      QuerySplits(r, items, query, n);
      var k: nat :| k < count && DerivableIn(r, split, n, Name(query, k));
      DeclarationsDeriveNothing(r, split, queries, n, Name(query, k));
    }
    if k: nat :| k < count && Derivable(r, obj, Name(query, k)) {
      var n: nat :| DerivableIn(r, obj, n, Name(query, k));
      DeclarationsDeriveNothing(r, split, queries, n, Name(query, k));
      QueriesJoin(r, items, query, n, k);
    }
    forall a | !Involved(query, count, a)
      ensures Derivable(r, items, a) <==> Derivable(r, obj, a)
    {
      forall n: nat
        ensures DerivableIn(r, items, n, a) <==> DerivableIn(r, obj, n, a)
      {
        OthersStay(r, items, query, n, a);
        DeclarationsDeriveNothing(r, split, queries, n, a);
      }
    }
  }

  /** The generated names are distinct, and none is the query. */
  lemma NamesAreDistinct(query: string, j: nat, k: nat)
    ensures Name(query, j) == Name(query, k) <==> j == k
    ensures Name(query, j) != query
  {
    if Name(query, j) == Name(query, k) {
      assert Name(query, j)[|query|..] == Decimal(j) && Name(query, k)[|query|..] == Decimal(k);
      ValueOfDecimal(j);
      ValueOfDecimal(k);
    }
  }

  // ---------- why the names must be fresh ----------

  /** The plain reading of rules without variables and `let`s: a body needs the atom that it is. */
  const PLAIN_READING := Reading(
    (f: SExpr, lets: seq<SExpr>, v: int) => if f.Atom? then Some({f.name}) else Some({}),
    (f: SExpr, lets: seq<SExpr>, v: int) => if f.Atom? then f.name else "")

  /** If the instance already has a relation with the first generated name, splitting can make a
      query derivable that was not: here a rule for the query whose body never holds, beside a fact
      with that name. */
  lemma NamesMustBeFresh(query: string, other: string)
    requires other != query && other != Name(query, 0)
    ensures var items := [List([Atom("rule"), List([Atom("=>"), Atom(other), Atom(query)])]),
                          List([Atom("rule"), Atom(Name(query, 0))])];
      && SplitAll(items, query).1 == 1
      && !Derivable(PLAIN_READING, items, query)
      && Derivable(PLAIN_READING, Declared(SplitAll(items, query).0, Names(query, 1)), Name(query, 0))
  {
    var rule := List([Atom("rule"), List([Atom("=>"), Atom(other), Atom(query)])]);
    var fact := List([Atom("rule"), Atom(Name(query, 0))]);
    var items := [rule, fact];
    NamesAreDistinct(query, 0, 0);
    assert items[..1] == [rule] && items[..1][..0] == [];
    assert WithQuery(fact, query, Name(query, 1)) == None;
    assert WithQuery(rule, query, Name(query, 0)).Some?;
    assert SplitAll([], query) == ([], 0);
    assert SplitAll(items[..1], query).1 == 1;
    assert SplitAll(items, query).1 == 1 && SplitAll(items, query).0[1] == fact;
    NothingDerives(items, rule, fact, query, other);
    var split := SplitAll(items, query).0;
    assert fact in split && Derives(PLAIN_READING, split, 0, Name(query, 0), RuleClause(PLAIN_READING, fact, 0));
    assert DerivableIn(PLAIN_READING, split, 1, Name(query, 0));
    DeclarationsDeriveNothing(PLAIN_READING, split, Names(query, 1), 1, Name(query, 0));
  }

  lemma NothingDerives(items: seq<SExpr>, rule: SExpr, fact: SExpr, query: string, other: string)
    requires items == [rule, fact] && other != query && other != Name(query, 0) && Name(query, 0) != query
    requires rule == List([Atom("rule"), List([Atom("=>"), Atom(other), Atom(query)])])
    requires fact == List([Atom("rule"), Atom(Name(query, 0))])
    ensures !Derivable(PLAIN_READING, items, query)
  {
    forall n: nat
      ensures !DerivableIn(PLAIN_READING, items, n, other) && !DerivableIn(PLAIN_READING, items, n, query)
    {
      NothingDerivesIn(items, rule, fact, query, other, n);
    }
  }

  lemma {:induction false} NothingDerivesIn(items: seq<SExpr>, rule: SExpr, fact: SExpr, query: string, other: string, n: nat)
    requires items == [rule, fact] && other != query && other != Name(query, 0) && Name(query, 0) != query
    requires rule == List([Atom("rule"), List([Atom("=>"), Atom(other), Atom(query)])])
    requires fact == List([Atom("rule"), Atom(Name(query, 0))])
    ensures !DerivableIn(PLAIN_READING, items, n, other) && !DerivableIn(PLAIN_READING, items, n, query)
    decreases n
  {
    if n > 0 {
      NothingDerivesIn(items, rule, fact, query, other, n - 1);
      forall item, v | item in items
        ensures !Derives(PLAIN_READING, items, n - 1, other, RuleClause(PLAIN_READING, item, v))
        ensures !Derives(PLAIN_READING, items, n - 1, query, RuleClause(PLAIN_READING, item, v))
      {
        assert RuleClause(PLAIN_READING, rule, v) == Some(Clause({other}, query));
        assert RuleClause(PLAIN_READING, fact, v) == Some(Clause({}, Name(query, 0)));
      }
    }
  }
}
