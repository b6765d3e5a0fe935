/** The printer and the parser of SMT-LIB terms in `server/utils.py`: printing joins with spaces,
    parsing rewrites the text step by step until it is JSON. */
module Sexp {
  import opened Wrappers
  import opened Horn

  // ---------- printing ----------

  /** `json2smt` on one object: lists in parentheses, joined with spaces. */
  function Smt(obj: SExpr): string {
    match obj
    case Atom(name) => name
    case List(items) => "(" + SmtItems(items, ' ') + ")"
  }

  function SmtItems(items: seq<SExpr>, separator: char): string {
    if items == [] then ""
    else if |items| == 1 then Smt(items[0])
    else Smt(items[0]) + [separator] + SmtItems(items[1..], separator)
  }

  /** `json2smt`: the objects on lines of their own. */
  function Json2Smt(items: seq<SExpr>): string {
    SmtItems(items, '\n')
  }

  // ---------- the rewriting passes ----------

  /** `\s` of Python's regular expressions. */
  predicate IsSpace(c: char) {
    var n := c as int;
    9 <= n <= 13 || 28 <= n <= 32 || n == 0x85 || n == 0xA0 || n == 0x1680 || 0x2000 <= n <= 0x200A || n == 0x2028 ||
    n == 0x2029 || n == 0x202F || n == 0x205F || n == 0x3000
  }

  /** The characters of the class `[^\"\s()]`. */
  predicate IsWordChar(c: char) {
    c != '"' && c != '(' && c != ')' && !IsSpace(c)
  }

  function Word(s: string): (r: string)
    ensures r <= s && forall c | c in r :: IsWordChar(c)
    decreases |s|
  {
    if s == "" || !IsWordChar(s[0]) then "" else [s[0]] + Word(s[1..])
  }

  /** Putting every word in quotes, with a comma. */
  function Quote(s: string): string
    decreases |s|
  {
    if s == "" then ""
    else if IsWordChar(s[0]) then "\"" + Word(s) + "\", " + Quote(s[|Word(s)|..])
    else [s[0]] + Quote(s[1..])
  }

  /** `\s*` in front of something else. */
  function Trim(s: string): (r: string)
    ensures |r| <= |s|
    decreases |s|
  {
    if s != "" && IsSpace(s[0]) then Trim(s[1..]) else s
  }

  predicate Starts(s: string, c: char) {
    s != "" && s[0] == c
  }

  datatype Pass = NoCommaAtEnd | CommaBetweenLists | CommaAfterList

  /** A match of a pass at the start of a text: what replaces it, and the text after it. */
  function Match(pass: Pass, s: string): (r: Option<(string, string)>)
    requires s != ""
    ensures r.Some? ==> |r.value.1| < |s|
  {
    var after := Trim(s[1..]);
    match pass
    case NoCommaAtEnd => if s[0] == ',' && Starts(after, ')') then Some((")", after[1..])) else None
    case CommaBetweenLists => if s[0] == ')' && Starts(after, '(') then Some(("), (", after[1..])) else None
    case CommaAfterList => if s[0] == ')' && !Starts(after, ',') && !Starts(after, ')') then Some(("), ", s[1..])) else None
  }

  /** `re.sub`: all matches from left to right. */
  function Sub(pass: Pass, s: string): string
    decreases |s|
  {
    if s == "" then ""
    else
      match Match(pass, s)
      case Some((text, rest)) => text + Sub(pass, rest)
      case None => [s[0]] + Sub(pass, s[1..])
  }

  /** `,\s*$` is removed. */
  function NoLastComma(s: string): string
    decreases |s|
  {
    if s == "" then ""
    else if s[0] == ',' && Trim(s[1..]) == "" then ""
    else [s[0]] + NoLastComma(s[1..])
  }

  function Brackets(s: string): string
    decreases |s|
  {
    if s == "" then ""
    else [if s[0] == '(' then '[' else if s[0] == ')' then ']' else s[0]] + Brackets(s[1..])
  }

  // ---------- JSON ----------

  predicate IsJsonSpace(c: char) {
    c == ' ' || c == '\t' || c == '\n' || c == '\r'
  }

  function JsonTrim(s: string): (r: string)
    ensures |r| <= |s|
    decreases |s|
  {
    if s != "" && IsJsonSpace(s[0]) then JsonTrim(s[1..]) else s
  }

  /** The contents of a string up to its closing quote; escapes and control characters are not
      read. */
  function JsonString(s: string): (r: Option<(string, string)>)
    ensures r.Some? ==> |r.value.1| < |s|
    decreases |s|
  {
    if s == "" || s[0] == '\\' || (s[0] as int) < 32 then None
    else if s[0] == '"' then Some(("", s[1..]))
    else
      match JsonString(s[1..])
      case None => None
      case Some((text, rest)) => Some(([s[0]] + text, rest))
  }

  /** A value, an array or a string, and the text after it. */
  function JsonValue(s: string): (r: Option<(SExpr, string)>)
    ensures r.Some? ==> |r.value.1| < |s|
    decreases |s|, 0
  {
    var t := JsonTrim(s);
    if Starts(t, '"') then
      match JsonString(t[1..])
      case None => None
      case Some((text, rest)) => Some((Atom(text), rest))
    else if Starts(t, '[') then
      if Starts(JsonTrim(t[1..]), ']') then Some((List([]), JsonTrim(t[1..])[1..]))
      else
        match JsonItems(t[1..])
        case None => None
        case Some((items, rest)) => Some((List(items), rest))
    else None
  }

  /** The items of an array up to its closing bracket. */
  function JsonItems(s: string): (r: Option<(seq<SExpr>, string)>)
    ensures r.Some? ==> |r.value.1| < |s|
    decreases |s|, 1
  {
    match JsonValue(s)
    case None => None
    case Some((item, rest)) =>
      var t := JsonTrim(rest);
      if Starts(t, ']') then Some(([item], t[1..]))
      else if !Starts(t, ',') then None
      else
        match JsonItems(t[1..])
        case None => None
        case Some((more, last)) => Some(([item] + more, last))
  }

  /** `json.loads`. */
  function Loads(s: string): Option<SExpr> {
    match JsonValue(s)
    case None => None
    case Some((value, rest)) => if JsonTrim(rest) == "" then Some(value) else None
  }

  function Rewritten(smt: string): string {
    Brackets(NoLastComma(Sub(CommaAfterList, Sub(CommaBetweenLists, Sub(NoCommaAtEnd, Quote("(" + smt + ")"))))))
  }

  // ---------- terms as they are written ----------

  /** A term in a text: a word, or parentheses with the space behind the opening one and the items
      inside. */
  datatype Term = Bare(name: string) | Paren(lead: string, items: seq<Item>)

  /** A term and the space behind it. */
  datatype Item = Item(term: Term, after: string)

  function Show(t: Term): string {
    match t
    case Bare(name) => name
    case Paren(lead, items) => "(" + (lead + ShowItems(items)) + ")"
  }

  function ShowItems(items: seq<Item>): string {
    if items == [] then "" else Show(items[0].term) + (items[0].after + ShowItems(items[1..]))
  }

  function ValueOf(t: Term): SExpr {
    match t
    case Bare(name) => Atom(name)
    case Paren(_, items) => List(ValuesOf(items))
  }

  function ValuesOf(items: seq<Item>): seq<SExpr> {
    if items == [] then [] else [ValueOf(items[0].term)] + ValuesOf(items[1..])
  }

  /** An atom that needs no quoting. */
  predicate IsPlain(a: string) {
    a != "" && forall c | c in a :: IsWordChar(c) && c as int >= 32 && c != '\\' && c != '|' && c != ';' && c != '{' && c != '}'
  }

  predicate IsBlank(s: string) {
    forall c | c in s :: IsSpace(c)
  }

  /** Words are plain, all space is space for the regular expressions, and there is some between words. */
  ghost predicate Readable(t: Term) {
    match t
    case Bare(name) => IsPlain(name)
    case Paren(lead, items) => IsBlank(lead) && AllReadable(items)
  }

  ghost predicate AllReadable(items: seq<Item>) {
    items != [] ==>
      && Readable(items[0].term) && IsBlank(items[0].after) && AllReadable(items[1..])
      && (|items| > 1 && items[0].term.Bare? && items[1].term.Bare? ==> items[0].after != "")
  }

  // ---------- the text after each pass ----------

  /** What stands between an item and the next one after `k` passes, the quoting counted as one. */
  function Gap(item: Item, rest: seq<Item>, k: nat): string {
    if item.term.Bare? then (if rest == [] && k >= 2 then "" else ", " + item.after)
    else if rest == [] then item.after
    else if rest[0].term.Paren? then (if k >= 3 then ", " else item.after)
    else if k >= 4 then ", " + item.after else item.after
  }

  function Form(t: Term, k: nat): string {
    match t
    case Bare(name) => "\"" + name + "\""
    case Paren(lead, items) => "(" + (lead + Forms(items, k)) + ")"
  }

  function Forms(items: seq<Item>, k: nat): string {
    if items == [] then "" else Form(items[0].term, k) + (Gap(items[0], items[1..], k) + Forms(items[1..], k))
  }

  lemma Concat3(a: string, b: string, c: string)
    ensures a + b + c == a + (b + c)
  {
  }

  lemma Concat4(a: string, b: string, c: string, d: string)
    ensures a + b + c + d == a + (b + (c + d)) && a + (b + c) + d == a + (b + (c + d))
  {
  }

  // ---------- quoting ----------

  lemma {:induction false} WordIs(a: string, r: string)
    requires (forall c | c in a :: IsWordChar(c)) && r != "" && !IsWordChar(r[0])
    ensures Word(a + r) == a
    decreases |a|
  {
    if a == "" {
      assert a + r == r;
    } else {
      assert (a + r)[1..] == a[1..] + r;
      WordIs(a[1..], r);
    }
  }

  lemma QuoteWord(a: string, r: string)
    requires IsPlain(a) && r != "" && !IsWordChar(r[0])
    ensures Quote(a + r) == "\"" + a + "\"" + (", " + Quote(r))
  {
    WordIs(a, r);
    assert (a + r)[0] == a[0] && a[0] in a;
    assert (a + r)[|a|..] == r;
    Concat3("\"" + a, "\", ", Quote(r));
    assert "\", " == "\"" + ", ";
    Concat3("\"" + a, "\"", ", ");
    Concat3("\"" + a + "\"", ", ", Quote(r));
  }

  lemma QuoteOther(c: char, r: string)
    requires !IsWordChar(c)
    ensures Quote([c] + r) == [c] + Quote(r)
  {
  }

  lemma {:induction false} QuoteBlank(space: string, r: string)
    requires IsBlank(space)
    ensures Quote(space + r) == space + Quote(r)
    decreases |space|
  {
    if space == "" {
      assert space + r == r;
    } else {
      assert space[0] in space && space + r == [space[0]] + (space[1..] + r);
      assert forall c | c in space[1..] :: c in space;
      QuoteOther(space[0], space[1..] + r);
      QuoteBlank(space[1..], r);
      Concat3([space[0]], space[1..], Quote(r));
    }
  }

  lemma Parentheses()
    ensures !IsWordChar('(') && !IsWordChar(')') && !IsSpace('(') && !IsSpace(')') && !IsSpace('"')
  {
  }

  /** The text behind a word starts with something that ends the word. */
  lemma WordEnds(items: seq<Item>, r: string)
    requires AllReadable(items) && items != [] && Starts(r, ')')
    ensures var tail := items[0].after + (ShowItems(items[1..]) + r);
      tail != "" && (items[0].term.Bare? ==> !IsWordChar(tail[0]))
  {
    var rest := items[1..];
    if items[0].after != "" {
      assert items[0].after[0] in items[0].after;
    } else if rest == [] {
      assert items[0].after + (ShowItems(rest) + r) == r;
    } else {
      assert items[0].after + (ShowItems(rest) + r) == ShowItems(rest) + r;
      if rest[0].term.Paren? {
        assert Show(rest[0].term)[0] == '(';
      } else {
        assert Readable(rest[0].term);
      }
    }
  }

  lemma {:induction false} QuoteItems(items: seq<Item>, r: string)
    requires AllReadable(items) && Starts(r, ')')
    ensures Quote(ShowItems(items) + r) == Forms(items, 1) + Quote(r)
    decreases items
  {
    hide Quote, Show, Form, Readable, IsWordChar, IsSpace;
    if items == [] {
      assert ShowItems(items) + r == r;
    } else {
      var e, space, rest := items[0].term, items[0].after, items[1..];
      WordEnds(items, r);
      Concat4(Show(e), space, ShowItems(rest), r);
      QuoteItem(e, space + (ShowItems(rest) + r));
      QuoteBlank(space, ShowItems(rest) + r);
      QuoteItems(rest, r);
      QuotedGap(items, Forms(rest, 1), Quote(r));
    }
  }

  lemma QuotedGap(items: seq<Item>, f: string, q: string)
    requires items != []
    ensures var e := items[0].term;
      Form(e, 1) + ((if e.Bare? then ", " else "") + (items[0].after + (f + q))) ==
      Form(e, 1) + (Gap(items[0], items[1..], 1) + f) + q
  {
    hide Form;
    var e, gap := items[0].term, Gap(items[0], items[1..], 1);
    Concat4(Form(e, 1), gap, f, q);
    if e.Bare? { Concat3(", ", items[0].after, f + q); }
  }

  lemma {:induction false} QuoteItem(e: Term, tail: string)
    requires Readable(e) && tail != "" && (e.Bare? ==> !IsWordChar(tail[0]))
    ensures Quote(Show(e) + tail) == Form(e, 1) + ((if e.Bare? then ", " else "") + Quote(tail))
    decreases e
  {
    hide Quote, ShowItems, Forms, IsWordChar, IsSpace;
    match e
    case Bare(name) => QuoteWord(name, tail);
    case Paren(lead, items) =>
      var inner, f := ShowItems(items), Forms(items, 1);
      Parentheses();
      Concat4("(", lead + inner, ")", tail);
      Concat3(lead, inner, ")" + tail);
      QuoteOther('(', lead + (inner + (")" + tail)));
      QuoteBlank(lead, inner + (")" + tail));
      QuoteItems(items, ")" + tail);
      QuoteOther(')', tail);
      Concat3(lead, f, ")" + Quote(tail));
      Concat4("(", lead + f, ")", Quote(tail));
  }

  // ---------- the three comma passes ----------

  function PassOf(k: nat): Pass {
    if k == 2 then NoCommaAtEnd else if k == 3 then CommaBetweenLists else CommaAfterList
  }

  lemma SubOther(pass: Pass, c: char, r: string)
    requires c != ',' && c != ')'
    ensures Sub(pass, [c] + r) == [c] + Sub(pass, r)
  {
    assert ([c] + r)[1..] == r;
  }

  lemma {:induction false} SubBlank(pass: Pass, space: string, r: string)
    requires IsBlank(space)
    ensures Sub(pass, space + r) == space + Sub(pass, r)
    decreases |space|
  {
    hide Sub, IsSpace;
    if space == "" {
      assert space + r == r;
    } else {
      assert space[0] in space && space + r == [space[0]] + (space[1..] + r);
      assert forall c | c in space[1..] :: c in space;
      BlankIsNoValue(space[0]);
      SubOther(pass, space[0], space[1..] + r);
      SubBlank(pass, space[1..], r);
      Concat3([space[0]], space[1..], Sub(pass, r));
    }
  }

  /** Quoted text is copied: a comma in it is never the last thing before a parenthesis. */
  lemma {:induction false} SubQuoted(pass: Pass, w: string, r: string)
    requires w != "" && w[|w| - 1] == '"' && forall c | c in w :: c == '"' || IsWordChar(c)
    ensures Sub(pass, w + r) == w + Sub(pass, r)
    decreases |w|
  {
    var s := w + r;
    assert s[0] == w[0] && w[0] in w && s[1..] == w[1..] + r;
    if |w| > 1 {
      assert w[1] in w && Trim(s[1..]) == s[1..];
      SubQuoted(pass, w[1..], r);
    } else {
      assert w[1..] + r == r;
    }
  }

  /** What follows an item: the next one, or the end of the list. */
  ghost predicate Follows(tail: string, rest: seq<Item>) {
    tail != "" && tail[0] == if rest == [] then ')' else if rest[0].term.Bare? then '"' else '('
  }

  lemma {:induction false} TrimBlank(space: string, tail: string)
    requires IsBlank(space) && tail != "" && !IsSpace(tail[0])
    ensures Trim(space + tail) == tail
    decreases |space|
  {
    if space == "" {
      assert space + tail == tail;
    } else {
      assert space[0] in space && (space + tail)[1..] == space[1..] + tail;
      assert forall c | c in space[1..] :: c in space;
      TrimBlank(space[1..], tail);
    }
  }

  lemma SubComma(pass: Pass, r: string)
    requires pass != NoCommaAtEnd || !Starts(Trim(r), ')')
    ensures Sub(pass, [','] + r) == [','] + Sub(pass, r)
  {
    assert ([','] + r)[1..] == r;
  }

  /** The comma and the space that quoting puts behind a word. */
  lemma CommaAndSpace(space: string, tail: string)
    requires IsBlank(space) && tail != "" && !IsSpace(tail[0])
    ensures ", " + space + tail == [','] + (([' '] + space) + tail)
    ensures IsBlank([' '] + space) && Trim(([' '] + space) + tail) == tail
  {
    assert forall c | c in [' '] + space :: c == ' ' || c in space;
    TrimBlank([' '] + space, tail);
  }

  lemma SubAfterAtom(item: Item, rest: seq<Item>, k: nat, tail: string)
    requires item.term.Bare? && IsBlank(item.after) && 2 <= k <= 4 && Follows(tail, rest)
    ensures Sub(PassOf(k), Gap(item, rest, k - 1) + tail) == Gap(item, rest, k) + Sub(PassOf(k), tail)
  {
    hide IsSpace;
    var pass := PassOf(k);
    Parentheses();
    CommaAndSpace(item.after, tail);
    if rest == [] {
      if k == 2 {
        var s := [','] + (([' '] + item.after) + tail);
        assert Gap(item, rest, 1) + tail == s && s[1..] == ([' '] + item.after) + tail;
        assert Sub(pass, s) == ")" + Sub(pass, tail[1..]);
        assert Sub(pass, tail) == [tail[0]] + Sub(pass, tail[1..]);
      } else {
        assert Gap(item, rest, k - 1) + tail == tail;
      }
    } else {
      SubComma(pass, ([' '] + item.after) + tail);
      SubBlank(pass, [' '] + item.after, tail);
      assert ", " + item.after == [','] + ([' '] + item.after);
      Concat3([','], [' '] + item.after, Sub(pass, tail));
    }
  }

  lemma SubAfterList(item: Item, rest: seq<Item>, k: nat, tail: string)
    requires item.term.Paren? && IsBlank(item.after) && 2 <= k <= 4 && Follows(tail, rest)
    ensures Sub(PassOf(k), ")" + (Gap(item, rest, k - 1) + tail)) == ")" + (Gap(item, rest, k) + Sub(PassOf(k), tail))
  {
    hide Sub, IsSpace;
    Parentheses();
    var after := item.after;
    if rest == [] {
      SubClosed(PassOf(k), after, tail);
    } else if k == 4 && rest[0].term.Paren? {
      SubAfterComma(tail);
    } else if rest[0].term.Paren? && k == 3 {
      SubBetween(after, tail);
      Concat3(")", ", ", Sub(PassOf(3), tail));
    } else {
      SubSpaced(PassOf(k), after, tail);
      Concat3(", ", after, Sub(PassOf(k), tail));
    }
  }

  lemma SubClosed(pass: Pass, space: string, tail: string)
    requires IsBlank(space) && Starts(tail, ')')
    ensures Sub(pass, ")" + (space + tail)) == ")" + (space + Sub(pass, tail))
  {
    assert (")" + (space + tail))[1..] == space + tail;
    TrimBlank(space, tail);
    SubBlank(pass, space, tail);
  }

  lemma SubAfterComma(tail: string)
    ensures Sub(CommaAfterList, ")" + (", " + tail)) == ")" + (", " + Sub(CommaAfterList, tail))
  {
    var s := [','] + ([' '] + tail);
    assert ", " + tail == s && (")" + s)[1..] == s && Trim(s) == s;
    SubComma(CommaAfterList, [' '] + tail);
    SubOther(CommaAfterList, ' ', tail);
  }

  /** Space after a list: only the last pass puts a comma there, unless a list follows. */
  lemma SubSpaced(pass: Pass, space: string, tail: string)
    requires IsBlank(space) && tail != "" && (tail[0] == '"' || (tail[0] == '(' && pass == NoCommaAtEnd))
    ensures Sub(pass, ")" + (space + tail)) == ")" + ((if pass == CommaAfterList then ", " else "") + (space + Sub(pass, tail)))
  {
    var s := space + tail;
    assert (")" + s)[1..] == s;
    TrimBlank(space, tail);
    SubBlank(pass, space, tail);
    assert "), " == ")" + ", ";
  }

  lemma SubBetween(space: string, tail: string)
    requires IsBlank(space) && Starts(tail, '(')
    ensures Sub(CommaBetweenLists, ")" + (space + tail)) == ")" + ", " + Sub(CommaBetweenLists, tail)
  {
    var s := ")" + (space + tail);
    assert s[1..] == space + tail && tail == ['('] + tail[1..];
    TrimBlank(space, tail);
    SubOther(CommaBetweenLists, '(', tail[1..]);
    assert Match(CommaBetweenLists, s) == Some(("), (", tail[1..]));
    assert "), (" == ")" + ", " + "(";
  }

  lemma FormsStart(items: seq<Item>, k: nat, r: string)
    requires Starts(r, ')')
    ensures Follows(Forms(items, k) + r, items)
  {
    if items != [] {
      var f := Form(items[0].term, k);
      assert (Forms(items, k) + r)[0] == f[0];
    } else {
      assert Forms(items, k) + r == r;
    }
  }

  /** Each pass turns the text of one stage into the text of the next. */
  lemma {:induction false} SubForms(items: seq<Item>, k: nat, r: string)
    requires AllReadable(items) && 2 <= k <= 4 && Starts(r, ')')
    ensures Sub(PassOf(k), Forms(items, k - 1) + r) == Forms(items, k) + Sub(PassOf(k), r)
    decreases items
  {
    hide Sub, Gap, Form, Readable, IsSpace;
    if items == [] {
      assert Forms(items, k - 1) + r == r;
    } else {
      var item, rest := items[0], items[1..];
      var gap, gap1 := Gap(item, rest, k - 1), Gap(item, rest, k);
      FormsStart(rest, k - 1, r);
      Concat4(Form(item.term, k - 1), gap, Forms(rest, k - 1), r);
      SubItem(item, rest, k, Forms(rest, k - 1) + r);
      SubForms(rest, k, r);
      Concat4(Form(item.term, k), gap1, Forms(rest, k), Sub(PassOf(k), r));
    }
  }

  lemma {:induction false} SubItem(item: Item, rest: seq<Item>, k: nat, tail: string)
    requires Readable(item.term) && IsBlank(item.after) && 2 <= k <= 4 && Follows(tail, rest)
    ensures Sub(PassOf(k), Form(item.term, k - 1) + (Gap(item, rest, k - 1) + tail)) ==
      Form(item.term, k) + (Gap(item, rest, k) + Sub(PassOf(k), tail))
    decreases item
  {
    hide Sub, Gap, Forms, IsSpace, IsWordChar;
    var pass := PassOf(k);
    var gap, gap1 := Gap(item, rest, k - 1), Gap(item, rest, k);
    match item.term
    case Bare(name) =>
      AtomIsQuoted(name);
      SubQuoted(pass, Form(item.term, k - 1), gap + tail);
      SubAfterAtom(item, rest, k, tail);
    case Paren(lead, items) =>
      var closed := ")" + (gap + tail);
      var f, f1 := Forms(items, k - 1), Forms(items, k);
      Concat4("(", lead + f, ")", gap + tail);
      Concat3(lead, f, closed);
      SubOther(pass, '(', lead + (f + closed));
      SubBlank(pass, lead, f + closed);
      SubForms(items, k, closed);
      SubAfterList(item, rest, k, tail);
      Concat3(lead, f1, ")" + (gap1 + Sub(pass, tail)));
      Concat4("(", lead + f1, ")", gap1 + Sub(pass, tail));
  }

  lemma AtomIsQuoted(a: string)
    requires IsPlain(a)
    ensures var w := "\"" + a + "\""; w != "" && w[|w| - 1] == '"' && forall c | c in w :: c == '"' || IsWordChar(c)
  {
  }

  // ---------- the last comma and the brackets ----------

  /** Only a comma with nothing but space after it is removed. */
  lemma {:induction false} LastCommaGoes(s: string)
    requires s != "" && s[|s| - 1] == ')'
    ensures NoLastComma(s + ", ") == s
    decreases |s|
  {
    var t := s + ", ";
    assert t[0] == s[0] && t[1..] == s[1..] + ", ";
    if |s| > 1 {
      LastCommaGoes(s[1..]);
      CommaIsNotLast(s[1..]);
    } else {
      assert t[1..] == ", " && ", "[1..] == " " && " "[1..] == "";
      assert NoLastComma(", ") == "";
    }
  }

  lemma {:induction false} CommaIsNotLast(s: string)
    requires s != "" && s[|s| - 1] == ')'
    ensures Trim(s + ", ") != ""
    decreases |s|
  {
    assert (s + ", ")[0] == s[0] && (s + ", ")[1..] == s[1..] + ", ";
    if IsSpace(s[0]) { CommaIsNotLast(s[1..]); }
  }

  lemma {:induction false} BracketsConcat(a: string, b: string)
    ensures Brackets(a + b) == Brackets(a) + Brackets(b)
    decreases |a|
  {
    if a == "" {
      assert a + b == b;
    } else {
      assert (a + b)[1..] == a[1..] + b;
      BracketsConcat(a[1..], b);
    }
  }

  lemma {:induction false} NoParentheses(a: string)
    requires '(' !in a && ')' !in a
    ensures Brackets(a) == a
    decreases |a|
  {
    if a != "" { NoParentheses(a[1..]); }
  }

  // ---------- reading the JSON ----------

  /** Space that JSON ignores; the regular expressions know more of it. */
  predicate IsJsonBlank(s: string) {
    forall c | c in s :: c as int == 9 || c as int == 10 || c as int == 13 || c as int == 32
  }

  /** The space behind an item that is still there after all passes: that behind a word which is not
      the last item, and that behind a list which no other list follows. */
  predicate Survives(item: Item, rest: seq<Item>) {
    if item.term.Bare? then rest != [] else rest == [] || rest[0].term.Bare?
  }

  /** The space that is left after all passes is space for JSON. */
  ghost predicate Clean(t: Term) {
    t.Paren? ==> IsJsonBlank(t.lead) && AllClean(t.items)
  }

  ghost predicate AllClean(items: seq<Item>) {
    items != [] ==>
      && Clean(items[0].term) && (Survives(items[0], items[1..]) ==> IsJsonBlank(items[0].after)) && AllClean(items[1..])
  }

  lemma {:induction false} JsonAtom(a: string, r: string)
    requires forall c | c in a :: IsWordChar(c) && c as int >= 32 && c != '\\'
    ensures JsonString(a + ("\"" + r)) == Some((a, r))
    decreases |a|
  {
    var s := a + ("\"" + r);
    if a == "" {
      assert s == "\"" + r && s[1..] == r;
    } else {
      assert s[0] == a[0] && a[0] in a && s[1..] == a[1..] + ("\"" + r);
      assert forall c | c in a[1..] :: c in a;
      JsonAtom(a[1..], r);
      assert [a[0]] + a[1..] == a;
    }
  }

  /** Space that JSON knows is skipped; at any other nothing can be read. */
  lemma {:induction false} JsonSkips(space: string, tail: string)
    requires IsBlank(space) && tail != "" && !IsSpace(tail[0])
    ensures IsJsonBlank(space) ==>
      JsonTrim(space + tail) == tail && JsonValue(space + tail) == JsonValue(tail) && JsonItems(space + tail) == JsonItems(tail)
    ensures !IsJsonBlank(space) ==>
      && JsonItems(space + tail) == None
      && !Starts(JsonTrim(space + tail), ']') && !Starts(JsonTrim(space + tail), ',')
    decreases |space|
  {
    hide IsSpace;
    if space == "" {
      assert space + tail == tail;
      assert !IsJsonSpace(tail[0]) by { JsonSpaceIsSpace(tail[0]); }
    } else {
      assert space[0] in space && (space + tail)[1..] == space[1..] + tail;
      assert forall c | c in space[1..] :: c in space;
      assert forall c | c in space :: c == space[0] || c in space[1..];
      JsonSkips(space[1..], tail);
      if !IsJsonSpace(space[0]) { Parentheses(); BlankIsNoValue(space[0]); }
    }
  }

  lemma JsonSpaceIsSpace(c: char)
    ensures IsJsonSpace(c) ==> IsSpace(c)
  {
  }

  lemma BlankIsNoValue(c: char)
    requires IsSpace(c)
    ensures c != '"' && c != '(' && c != ')' && c != '[' && c != ']' && c != ','
  {
  }

  lemma {:induction false} BlankHasNoParentheses(space: string)
    requires IsBlank(space)
    ensures Brackets(space) == space && Brackets(", " + space) == ", " + space && Brackets(", ") == ", "
  {
    NoParentheses(space);
    NoParentheses(", " + space);
    NoParentheses(", ");
  }

  /** The final text of a term is read as the value of the term, exactly if JSON knows the space that
      is left in it. */
  lemma {:induction false} JsonReads(e: Term, r: string)
    requires Readable(e)
    ensures JsonValue(Brackets(Form(e, 4)) + r) == if Clean(e) then Some((ValueOf(e), r)) else None
    decreases e
  {
    hide Forms, IsWordChar, IsSpace, JsonItems;
    match e
    case Bare(name) =>
      AtomText(name);
      assert "\"" + name + "\"" + r == "\"" + (name + ("\"" + r));
      JsonAtom(name, r);
      var s := "\"" + (name + ("\"" + r));
      assert s[1..] == name + ("\"" + r) && JsonTrim(s) == s;
    case Paren(lead, items) =>
      var f := Brackets(Forms(items, 4));
      ListText(lead, Forms(items, 4), r);
      var s := "[" + (lead + (f + ("]" + r)));
      assert s[1..] == lead + (f + ("]" + r)) && JsonTrim(s) == s;
      JsonReadsItems(lead, items, r);
  }

  lemma ListText(lead: string, f: string, r: string)
    requires IsBlank(lead)
    ensures Brackets("(" + (lead + f) + ")") + r == "[" + (lead + (Brackets(f) + ("]" + r)))
  {
    BracketsConcat("(" + (lead + f), ")");
    BracketsConcat("(", lead + f);
    BracketsConcat(lead, f);
    BracketEnds();
    BlankHasNoParentheses(lead);
    Concat4("[", lead + Brackets(f), "]", r);
    Concat3(lead, Brackets(f), "]" + r);
    Concat3("[" + (lead + Brackets(f)), "]", r);
    Concat3("[", lead + Brackets(f), "]" + r);
  }

  lemma BracketEnds()
    ensures Brackets("(") == "[" && Brackets(")") == "]"
  {
    assert "("[1..] == "" && ")"[1..] == "";
  }

  lemma AtomText(a: string)
    requires IsPlain(a)
    ensures Brackets("\"" + a + "\"") == "\"" + a + "\""
    ensures forall c | c in a :: IsWordChar(c) && c as int >= 32 && c != '\\'
  {
    NoParentheses("\"" + a + "\"");
  }

  /** The same for the items of a list, from the space in front of them to the closing bracket. */
  lemma {:induction false} JsonReadsItems(lead: string, items: seq<Item>, r: string)
    requires IsBlank(lead) && AllReadable(items)
    ensures var s := lead + (Brackets(Forms(items, 4)) + ("]" + r));
      if items == [] && IsJsonBlank(lead) then Starts(JsonTrim(s), ']') && JsonTrim(s)[1..] == r
      else
        && !Starts(JsonTrim(s), ']')
        && JsonItems(s) == if IsJsonBlank(lead) && AllClean(items) then Some((ValuesOf(items), r)) else None
    decreases items
  {
    hide Form, Readable, Clean, IsSpace, IsWordChar, IsJsonBlank, JsonItems, JsonValue, JsonTrim, Brackets, Gap;
    if items == [] {
      assert Brackets("") == "" by { NoParentheses(""); }
      assert Brackets(Forms(items, 4)) + ("]" + r) == "]" + r;
      assert !IsSpace(']') by { NotSpace(); }
      JsonSkips(lead, "]" + r);
    } else {
      var e, rest := items[0].term, items[1..];
      var gap, f := Gap(items[0], rest, 4), Brackets(Forms(rest, 4)) + ("]" + r);
      FinalText(items[0], rest, r);
      FinalStart(e, gap + f);
      JsonSkips(lead, Brackets(Form(e, 4)) + (gap + f));
      JsonReads(e, gap + f);
      AfterItem(items[0], rest, f);
      if rest == [] {
        assert Brackets("") == "" by { NoParentheses(""); }
        assert Brackets(Forms(rest, 4)) + ("]" + r) == "]" + r;
        assert !IsSpace(']') by { NotSpace(); }
        JsonSkips(gap, f);
        assert f[1..] == r && ValuesOf(items) == [ValueOf(e)];
        assert !IsJsonBlank(gap) ==> !AllClean(items);
      } else {
        JsonReadsItems(SpaceAfterComma(items[0], rest), rest, r);
        assert ValuesOf(items) == [ValueOf(e)] + ValuesOf(rest);
      }
      ItemsOf(Brackets(Form(e, 4)) + (gap + f), gap + f);
    }
  }

  lemma NotSpace()
    ensures !IsSpace(']') && !IsSpace('[') && !IsSpace('"') && !IsSpace(',')
  {
  }

  /** Behind the comma after an item. */
  function SpaceAfterComma(item: Item, rest: seq<Item>): string {
    if rest != [] && item.term.Paren? && rest[0].term.Paren? then " " else " " + item.after
  }

  lemma AfterItem(item: Item, rest: seq<Item>, f: string)
    requires IsBlank(item.after)
    ensures rest == [] ==> IsBlank(Gap(item, rest, 4))
    ensures rest == [] ==> (IsJsonBlank(Gap(item, rest, 4)) <==> (Survives(item, rest) ==> IsJsonBlank(item.after)))
    ensures rest != [] ==>
      var space := SpaceAfterComma(item, rest);
      && IsBlank(space) && (IsJsonBlank(space) <==> (Survives(item, rest) ==> IsJsonBlank(item.after)))
      && Gap(item, rest, 4) + f == "," + (space + f)
      && JsonTrim(Gap(item, rest, 4) + f) == "," + (space + f) && ("," + (space + f))[1..] == space + f
  {
    if rest != [] {
      var space := SpaceAfterComma(item, rest);
      assert IsSpace(' ') && IsJsonSpace(' ');
      assert forall c | c in space :: c == ' ' || c in item.after;
      assert " " + item.after == [' '] + item.after;
      assert forall c | c in item.after :: c in " " + item.after;
      assert Gap(item, rest, 4) == "," + space;
      Concat3(",", space, f);
    }
  }

  /** What `JsonItems` does with the text after its first value. */
  lemma ItemsOf(s: string, after: string)
    ensures JsonValue(s) == None ==> JsonItems(s) == None
    ensures JsonValue(s).Some? && JsonValue(s).value.1 == after ==>
      var item, t := JsonValue(s).value.0, JsonTrim(after);
      JsonItems(s) ==
        if Starts(t, ']') then Some(([item], t[1..]))
        else if !Starts(t, ',') then None
        else match JsonItems(t[1..]) case None => None case Some((more, last)) => Some(([item] + more, last))
  {
  }

  lemma FinalText(item: Item, rest: seq<Item>, r: string)
    requires IsBlank(item.after)
    ensures var gap := Gap(item, rest, 4); var more := Forms(rest, 4);
      Brackets(Form(item.term, 4) + (gap + more)) + ("]" + r) == Brackets(Form(item.term, 4)) + (gap + (Brackets(more) + ("]" + r)))
  {
    hide Form, Forms, IsSpace;
    var gap, more := Gap(item, rest, 4), Forms(rest, 4);
    BracketsConcat(Form(item.term, 4), gap + more);
    BracketsConcat(gap, more);
    BlankHasNoParentheses(item.after);
    assert Brackets("") == "" by { NoParentheses(""); }
    assert Brackets(gap) == gap;
    Concat3(gap, Brackets(more), "]" + r);
    Concat3(Brackets(Form(item.term, 4)), gap + Brackets(more), "]" + r);
  }

  lemma FinalStart(e: Term, after: string)
    ensures var s := Brackets(Form(e, 4)) + after; s != "" && (s[0] == '"' || s[0] == '[') && JsonTrim(s) == s && !IsSpace(s[0])
  {
    assert Form(e, 4) != "" && (Form(e, 4)[0] == '"' || Form(e, 4)[0] == '(');
  }

  // ---------- the round trip ----------

  /** A text of plain words and parentheses, with any space anywhere and some between words, is read as
      what it says, exactly if JSON knows the space that is left in it. */
  lemma ReadExactlyWhen(lead: string, items: seq<Item>)
    requires IsBlank(lead) && AllReadable(items)
    ensures Loads(Rewritten(lead + ShowItems(items))) ==
      if IsJsonBlank(lead) && AllClean(items) then Some(List(ValuesOf(items))) else None
  {
    hide Quote, Sub, Forms, NoLastComma, Brackets, JsonItems, ShowItems, IsSpace, IsWordChar, IsJsonBlank, JsonTrim;
    TextAfterPasses(lead, items);
    var e := Paren(lead, items);
    assert Brackets(Form(e, 4)) + "" == Brackets(Form(e, 4));
    JsonReads(e, "");
    assert JsonTrim("") == "" by { NothingToTrim(); }
  }

  lemma NothingToTrim()
    ensures JsonTrim("") == ""
  {
  }

  lemma TextAfterPasses(lead: string, items: seq<Item>)
    requires IsBlank(lead) && AllReadable(items)
    ensures Rewritten(lead + ShowItems(items)) == Brackets(Form(Paren(lead, items), 4))
  {
    hide Quote, Sub, Forms, NoLastComma, Brackets, ShowItems, IsSpace, IsWordChar;
    Parentheses();
    var text := ShowItems(items);
    var f1, f2, f3, f4 := Forms(items, 1), Forms(items, 2), Forms(items, 3), Forms(items, 4);
    assert Quote("(" + (lead + text) + ")") == "(" + (lead + (f1 + ")")) by {
      Concat3("(", lead + text, ")");
      Concat3(lead, text, ")");
      QuoteOther('(', lead + (text + ")"));
      QuoteBlank(lead, text + ")");
      QuoteItems(items, ")");
      QuoteEnd();
    }
    SubTop(lead, items, 2);
    SubTop(lead, items, 3);
    SubTop(lead, items, 4);
    PassEnds();
    var s := "(" + (lead + f4) + ")";
    Concat4("(", lead + f4, ")", ", ");
    Concat3(lead, f4, "), ");
    assert ")" + ", " == "), ";
    LastCommaGoes(s);
  }

  lemma SubTop(lead: string, items: seq<Item>, k: nat)
    requires IsBlank(lead) && AllReadable(items) && 2 <= k <= 4
    ensures Sub(PassOf(k), "(" + (lead + (Forms(items, k - 1) + ")"))) == "(" + (lead + (Forms(items, k) + Sub(PassOf(k), ")")))
  {
    hide Sub, Forms, IsSpace;
    SubOther(PassOf(k), '(', lead + (Forms(items, k - 1) + ")"));
    SubBlank(PassOf(k), lead, Forms(items, k - 1) + ")");
    SubForms(items, k, ")");
  }

  lemma QuoteEnd()
    ensures Quote(")") == ")"
  {
    assert ")"[1..] == "" && [')'] + "" == ")";
  }

  lemma PassEnds()
    ensures Sub(PassOf(2), ")") == ")" && Sub(PassOf(3), ")") == ")" && Sub(PassOf(4), ")") == "), "
  {
    assert ")"[1..] == "" && [')'] + "" == ")";
  }

  // ---------- what was printed ----------

  ghost predicate Plain(e: SExpr) {
    match e
    case Atom(a) => IsPlain(a)
    case List(items) => forall i | 0 <= i < |items| :: Plain(items[i])
  }

  ghost predicate AllPlain(items: seq<SExpr>) {
    forall i | 0 <= i < |items| :: Plain(items[i])
  }

  /** A term as the printer writes it. */
  function Printed(e: SExpr): Term {
    match e
    case Atom(name) => Bare(name)
    case List(items) => Paren("", PrintedItems(items, ' '))
  }

  function PrintedItems(items: seq<SExpr>, separator: char): seq<Item> {
    if items == [] then []
    else [Item(Printed(items[0]), if |items| == 1 then "" else [separator])] + PrintedItems(items[1..], separator)
  }

  lemma {:induction false} PrintedShows(e: SExpr)
    requires Plain(e)
    ensures var t := Printed(e); Show(t) == Smt(e) && ValueOf(t) == e && Readable(t) && Clean(t)
    decreases e
  {
    hide ShowItems, SmtItems, AllReadable, AllClean;
    if e.List? {
      PrintedItemsShow(e.items, ' ');
      assert "" + ShowItems(PrintedItems(e.items, ' ')) == SmtItems(e.items, ' ');
    }
  }

  lemma {:induction false} PrintedItemsShow(items: seq<SExpr>, separator: char)
    requires AllPlain(items) && (separator == ' ' || separator == '\n')
    ensures var p := PrintedItems(items, separator);
      |p| == |items| && ShowItems(p) == SmtItems(items, separator) && ValuesOf(p) == items && AllReadable(p) && AllClean(p)
    decreases items
  {
    hide Show, Smt, ValueOf, Readable, Clean, Plain;
    if items != [] {
      var p, rest := PrintedItems(items, separator), PrintedItems(items[1..], separator);
      assert p[1..] == rest;
      PrintedShows(items[0]);
      PrintedItemsShow(items[1..], separator);
      if |items| == 1 {
        assert Show(p[0].term) + ("" + "") == Smt(items[0]);
      } else {
        Concat3(Smt(items[0]), [separator], SmtItems(items[1..], separator));
      }
      assert [items[0]] + items[1..] == items;
    }
  }

  /** Parsing the printed text of plain terms returns the terms. */
  lemma ParseInvertsPrint(items: seq<SExpr>)
    requires AllPlain(items)
    ensures Loads(Rewritten(Json2Smt(items))) == Some(List(items))
  {
    hide Loads, Rewritten, ShowItems, SmtItems, AllReadable, AllClean, ValuesOf;
    PrintedItemsShow(items, '\n');
    ReadExactlyWhen("", PrintedItems(items, '\n'));
    assert "" + Json2Smt(items) == Json2Smt(items);
  }

  /** `smt2json` on a text without comments, quoted symbols and string literals: plain words and
      parentheses are read as they are meant, whatever space is between them, unless space is left that
      JSON does not know; so what was printed from plain terms is read back. */
  method Smt2Json(smt: string) returns (json: Option<SExpr>)
    ensures forall lead, items | IsBlank(lead) && AllReadable(items) && smt == lead + ShowItems(items) ::
      json == if IsJsonBlank(lead) && AllClean(items) then Some(List(ValuesOf(items))) else None
    ensures forall items | AllPlain(items) && smt == Json2Smt(items) :: json == Some(List(items))
    ensures json == Loads(Rewritten(smt))
  {
    hide Quote, Sub, NoLastComma, Brackets, Loads, SmtItems, ShowItems, AllPlain, AllReadable, AllClean, IsBlank, IsJsonBlank;
    var s := "(" + smt + ")";
    s := Quote(s);
    s := Sub(NoCommaAtEnd, s);
    s := Sub(CommaBetweenLists, s);
    s := Sub(CommaAfterList, s);
    s := NoLastComma(s);
    s := Brackets(s);
    json := Loads(s);
    assert json == Loads(Rewritten(smt));
    hide Rewritten;
    forall lead, items | IsBlank(lead) && AllReadable(items) && smt == lead + ShowItems(items)
      ensures json == if IsJsonBlank(lead) && AllClean(items) then Some(List(ValuesOf(items))) else None
    {
      ReadExactlyWhen(lead, items);
    }
    forall items | AllPlain(items) && smt == Json2Smt(items)
      ensures json == Some(List(items))
    {
      ParseInvertsPrint(items);
    }
  }
}
