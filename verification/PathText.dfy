/** Paths on the wire: Python prints a list of indices, and C++ parses it twice, once into
    (or, and) pairs for the splitter and once into the And components for the lemma server. */
module PathText {
  import opened Wrappers
  import opened Paths
  import opened Growth
  import opened Branches

  // ---------- numbers ----------

  function Digit(d: nat): char
    requires d < 10
  {
    '0' + d as char
  }

  predicate IsDigit(c: char) {
    '0' <= c <= '9'
  }

  function Decimal(n: nat): (r: string)
    ensures r != "" && forall c | c in r :: IsDigit(c)
  {
    if n < 10 then [Digit(n)] else Decimal(n / 10) + [Digit(n % 10)]
  }

  /** The number that a string of digits stands for. */
  function Value(s: string): nat
    requires forall c | c in s :: IsDigit(c)
    decreases |s|
  {
    if s == "" then 0 else Value(s[..|s| - 1]) * 10 + DigitValue(s[|s| - 1])
  }

  function DigitValue(c: char): nat
    requires IsDigit(c)
  {
    c as int - '0' as int
  }

  lemma {:induction false} ValueOfDecimal(n: nat)
    ensures Value(Decimal(n)) == n
  {
    if n >= 10 {
      ValueOfDecimal(n / 10);
      assert Decimal(n)[..|Decimal(n)| - 1] == Decimal(n / 10);
    }
  }

  /** There are no leading zeros. */
  lemma {:induction false} NoLeadingZero(n: nat)
    ensures Decimal(n)[0] == '0' ==> n == 0 && Decimal(n) == "0"
  {
    if n >= 10 { NoLeadingZero(n / 10); }
  }

  const INT_MAX: nat := 0x7fff_ffff

  /** The digits that a string starts with. */
  function Digits(s: string): (r: string)
    ensures r <= s && (forall c | c in r :: IsDigit(c)) && (|r| < |s| ==> !IsDigit(s[|r|]))
    decreases |s|
  {
    if s == "" || !IsDigit(s[0]) then "" else [s[0]] + Digits(s[1..])
  }

  /** `stoi` on a string without sign and space: it throws if there is no number or the number is
      out of range. */
  function Stoi(s: string): Option<nat> {
    var d := Digits(s);
    if d == "" || Value(d) > INT_MAX then None else Some(Value(d))
  }

  lemma {:induction false} AllDigits(s: string)
    requires forall c | c in s :: IsDigit(c)
    ensures Digits(s) == s
    decreases |s|
  {
    if s != "" { AllDigits(s[1..]); }
  }

  lemma StoiOfDecimal(n: nat)
    ensures Stoi(Decimal(n)) == if n <= INT_MAX then Some(n) else None
  {
    AllDigits(Decimal(n));
    ValueOfDecimal(n);
  }

  // ---------- printing ----------

  function Join(words: seq<string>, separator: string): string {
    if words == [] then ""
    else if |words| == 1 then words[0]
    else words[0] + separator + Join(words[1..], separator)
  }

  function Decimals(p: Path): (r: seq<string>)
    ensures |r| == |p| && forall i | 0 <= i < |p| :: r[i] == Decimal(p[i])
  {
    seq(|p|, i requires 0 <= i < |p| => Decimal(p[i]))
  }

  /** `str(node.path())`. */
  function Text(p: Path): string {
    "[" + Join(Decimals(p), ", ") + "]"
  }

  // ---------- taking the text apart ----------

  /** `substr(1, size - 2)`. */
  function Inner(s: string): string
    requires |s| >= 2
  {
    s[1..|s| - 1]
  }

  /** `erase(remove(begin, end, ' '), end)`. */
  function NoSpaces(s: string): (r: string)
    decreases |s|
  {
    if s == "" then "" else (if s[0] == ' ' then "" else [s[0]]) + NoSpaces(s[1..])
  }

  /** `find_first_not_of(",", pos)`, with the end of the string for `npos`. */
  function NextWord(s: string, pos: nat): (r: nat)
    requires pos <= |s|
    ensures pos <= r <= |s|
    decreases |s| - pos
  {
    if pos < |s| && s[pos] == ',' then NextWord(s, pos + 1) else pos
  }

  /** `find_first_of(",", pos)`. */
  function WordEnd(s: string, pos: nat): (r: nat)
    requires pos <= |s|
    ensures pos <= r <= |s|
    decreases |s| - pos
  {
    if pos < |s| && s[pos] != ',' then WordEnd(s, pos + 1) else pos
  }

  /** The words from a position on. */
  function Words(s: string, pos: nat): seq<string>
    requires pos <= |s|
    decreases |s| - pos
  {
    var beg := NextWord(s, pos);
    if beg == |s| then []
    else
      var end := WordEnd(s, beg + 1);
      [s[beg..end]] + Words(s, end)
  }

  /** Words at even places are Or indices, those at odd places And indices; any that is not a number
      is an error. */
  function PairsOf(words: seq<string>): Option<seq<(nat, nat)>>
    decreases |words|
  {
    if words == [] then Some([])
    else
      var pairs, index := PairsOf(words[..|words| - 1]), Stoi(words[|words| - 1]);
      if pairs == None || index == None then None
      else if |words| % 2 == 1 then pairs
      else Some(pairs.value + [(NumberOr(words[|words| - 2], 0), index.value)])
  }

  function NumberOr(s: string, n: nat): nat {
    if Stoi(s) == None then n else Stoi(s).value
  }

  /** The lemma server only converts the words at odd places. */
  function KeysOf(words: seq<string>): Option<seq<nat>>
    decreases |words|
  {
    if words == [] then Some([])
    else
      var keys := KeysOf(words[..|words| - 1]);
      if |words| % 2 == 1 || keys == None then keys
      else
        var index := Stoi(words[|words| - 1]);
        if index == None then None else Some(keys.value + [index.value])
  }

  lemma PairsOfNext(words: seq<string>, k: nat)
    requires k < |words|
    ensures PairsOf(words[..k + 1]) ==
      if PairsOf(words[..k]) == None || Stoi(words[k]) == None then None
      else if k % 2 == 0 then PairsOf(words[..k])
      else Some(PairsOf(words[..k]).value + [(NumberOr(words[k - 1], 0), Stoi(words[k]).value)])
  {
    assert words[..k + 1][..k] == words[..k];
  }

  lemma KeysOfNext(words: seq<string>, k: nat)
    requires k < |words|
    ensures KeysOf(words[..k + 1]) ==
      if k % 2 == 0 || KeysOf(words[..k]) == None then KeysOf(words[..k])
      else if Stoi(words[k]) == None then None
      else Some(KeysOf(words[..k]).value + [Stoi(words[k]).value])
  {
    assert words[..k + 1][..k] == words[..k];
  }

  lemma {:induction false} FailsEarly(words: seq<string>, k: nat)
    requires k <= |words|
    ensures PairsOf(words[..k]) == None ==> PairsOf(words) == None
    ensures KeysOf(words[..k]) == None ==> KeysOf(words) == None
    decreases |words| - k
  {
    hide PairsOf, KeysOf;
    if k < |words| {
      PairsOfNext(words, k);
      KeysOfNext(words, k);
      FailsEarly(words, k + 1);
    } else {
      assert words[..k] == words;
    }
  }

  /** Every word must be a number; the pairs are two neighbouring words each, and a last single word is
      only checked. */
  lemma {:induction false} PairsAreWords(words: seq<string>)
    ensures PairsOf(words) == None <==> exists i :: 0 <= i < |words| && Stoi(words[i]) == None
    ensures PairsOf(words).Some? ==>
      && |PairsOf(words).value| == |words| / 2
      && forall i | 0 <= i < |words| / 2 ::
           Some(PairsOf(words).value[i].0) == Stoi(words[2 * i]) && Some(PairsOf(words).value[i].1) == Stoi(words[2 * i + 1])
    decreases |words|
  {
    hide Stoi;
    if words != [] {
      var before, last := words[..|words| - 1], words[|words| - 1];
      PairsAreWords(before);
      if i :| 0 <= i < |words| && Stoi(words[i]) == None {
        assert Stoi(last) == None || before[i] == words[i];
      }
    }
  }

  /** The words at odd places must be numbers, which are the result. */
  lemma {:induction false} KeysAreWords(words: seq<string>)
    ensures KeysOf(words) == None <==> exists i :: 0 <= i < |words| / 2 && Stoi(words[2 * i + 1]) == None
    ensures KeysOf(words).Some? ==>
      && |KeysOf(words).value| == |words| / 2
      && forall i | 0 <= i < |words| / 2 :: Some(KeysOf(words).value[i]) == Stoi(words[2 * i + 1])
    decreases |words|
  {
    hide Stoi;
    if words != [] {
      var before, last := words[..|words| - 1], words[|words| - 1];
      KeysAreWords(before);
      if KeysOf(before) == None {
        var i :| 0 <= i < |before| / 2 && Stoi(before[2 * i + 1]) == None;
        assert words[2 * i + 1] == before[2 * i + 1];
      } else if |words| % 2 == 0 {
        assert words[2 * (|words| / 2 - 1) + 1] == last;
      }
      if i :| 0 <= i < |words| / 2 && Stoi(words[2 * i + 1]) == None {
        assert (|words| % 2 == 0 && Stoi(last) == None) || before[2 * i + 1] == words[2 * i + 1];
      }
    }
  }

  /** `extractSolverBranch`: the (or, and) pairs of a branch. */
  method ExtractSolverBranch(branch: string) returns (solverBranch: Option<seq<(nat, nat)>>)
    ensures solverBranch == PairsOf(Words(NoSpaces(branch), 0))
  {
    hide PairsOf, Words, Stoi, NextWord, WordEnd;
    var s := NoSpaces(branch);
    var pairs: seq<(nat, nat)> := [];
    var pos, counter, temp := 0, 0, 0;
    ghost var words := Words(s, 0);
    NoWords();
    assert words[..0] == [] && words[0..] == words;
    var beg := NextWord(s, pos);
    while beg != |s|
      invariant pos <= |s| && beg == NextWord(s, pos) && counter <= |words| && words[counter..] == Words(s, pos)
      invariant PairsOf(words[..counter]) == Some(pairs)
      invariant counter % 2 == 1 ==> NumberOr(words[counter - 1], 0) == temp
      decreases |s| - pos
    {
      var end := WordEnd(s, beg + 1);
      var index := Stoi(s[beg..end]);
      NextWordRead(words, counter, s, pos);
      PairsOfNext(words, counter);
      FailsEarly(words, counter + 1);
      if index == None { return None; }
      if counter % 2 == 1 {
        pairs := pairs + [(temp, index.value)];
      } else {
        temp := index.value;
      }
      pos := end;
      counter := counter + 1;
      beg := NextWord(s, pos);
    }
    AllWordsRead(words, counter, s, pos);
    return Some(pairs);
  }

  lemma NoWords()
    ensures PairsOf([]) == Some([]) && KeysOf([]) == Some([])
  {
  }

  lemma AllWordsRead(words: seq<string>, counter: nat, s: string, pos: nat)
    requires pos <= |s| && counter <= |words| && words[counter..] == Words(s, pos) && NextWord(s, pos) == |s|
    ensures words[..counter] == words
  {
  }

  lemma NextWordRead(words: seq<string>, counter: nat, s: string, pos: nat)
    requires pos <= |s| && counter <= |words| && words[counter..] == Words(s, pos) && NextWord(s, pos) != |s|
    ensures counter < |words| && words[..counter + 1][..counter] == words[..counter]
    ensures var beg := NextWord(s, pos); var end := WordEnd(s, beg + 1);
      words[counter] == s[beg..end] && words[counter + 1..] == Words(s, end)
  {
    assert words[counter..][0] == words[counter] && words[counter..][1..] == words[counter + 1..];
  }

  /** The walk of the lemma server from the root to the node of a branch: the And components. */
  method NodePath(node: string) returns (path: Option<seq<nat>>)
    requires |node| >= 2
    ensures path == KeysOf(Words(NoSpaces(Inner(node)), 0))
  {
    hide KeysOf, Words, Stoi, NextWord, WordEnd;
    var s := NoSpaces(node[1..|node| - 1]);
    var keys: seq<nat> := [];
    var pos, counter := 0, 0;
    ghost var words := Words(s, 0);
    NoWords();
    assert words[..0] == [] && words[0..] == words;
    var beg := NextWord(s, pos);
    while beg != |s|
      invariant pos <= |s| && beg == NextWord(s, pos) && counter <= |words| && words[counter..] == Words(s, pos)
      invariant KeysOf(words[..counter]) == Some(keys)
      decreases |s| - pos
    {
      var end := WordEnd(s, beg + 1);
      NextWordRead(words, counter, s, pos);
      KeysOfNext(words, counter);
      FailsEarly(words, counter + 1);
      if counter % 2 == 1 {
        var index := Stoi(s[beg..end]);
        if index == None { return None; }
        keys := keys + [index.value];
      }
      pos := end;
      counter := counter + 1;
      beg := NextWord(s, pos);
    }
    AllWordsRead(words, counter, s, pos);
    return Some(keys);
  }

  // ---------- parsing inverts printing ----------

  lemma {:induction false} NoSpacesConcat(a: string, b: string)
    ensures NoSpaces(a + b) == NoSpaces(a) + NoSpaces(b)
    decreases |a|
  {
    if a == "" {
      assert a + b == b;
    } else {
      assert (a + b)[1..] == a[1..] + b;
      NoSpacesConcat(a[1..], b);
    }
  }

  lemma {:induction false} NoSpacesInside(s: string)
    requires ' ' !in s
    ensures NoSpaces(s) == s
    decreases |s|
  {
    if s != "" { NoSpacesInside(s[1..]); }
  }

  lemma {:induction false} SpacesGo(words: seq<string>)
    requires forall w | w in words :: ' ' !in w
    ensures NoSpaces(Join(words, ", ")) == Join(words, ",")
    decreases |words|
  {
    if |words| == 1 {
      NoSpacesInside(words[0]);
    } else if |words| > 1 {
      NoSpacesInside(words[0]);
      NoSpacesConcat(words[0] + ", ", Join(words[1..], ", "));
      NoSpacesConcat(words[0], ", ");
      assert NoSpaces(", ") == "," by { assert ", "[1..] == " " && " "[1..] == ""; }
      SpacesGo(words[1..]);
    }
  }

  lemma {:induction false} WordEndAt(s: string, pos: nat, end: nat)
    requires pos <= end <= |s| && (forall i | pos <= i < end :: s[i] != ',') && (end == |s| || s[end] == ',')
    ensures WordEnd(s, pos) == end
    decreases end - pos
  {
    if pos < end { WordEndAt(s, pos + 1, end); }
  }

  /** A text is taken apart at its commas: the words are the pieces between them that are not empty, in
      order.  It may follow any text that ends in a comma. */
  lemma {:induction false} WordsAreThePieces(before: string, pieces: seq<string>)
    requires forall w | w in pieces :: ',' !in w
    ensures Words(before + Join(pieces, ","), |before|) == Kept(pieces)
    decreases |pieces|
  {
    hide Words;
    if pieces == [] {
      NothingToRead(before);
      assert before + Join(pieces, ",") == before;
    } else {
      var w, more := pieces[0], pieces[1..];
      var rest := if more == [] then "" else "," + Join(more, ",");
      assert w in pieces && forall v | v in more :: v in pieces;
      assert before + Join(pieces, ",") == before + w + rest;
      if w == "" {
        assert before + w + rest == before + rest && |before + w| == |before|;
      } else {
        OneWord(before, w, rest);
      }
      if more == [] {
        assert before + w + rest == before + w;
        NothingToRead(before + w);
      } else {
        assert before + w + rest == before + w + "," + Join(more, ",");
        WordsAreThePieces(before + w + ",", more);
        SkipComma(before + w + rest, |before + w|);
      }
    }
  }

  lemma NothingToRead(s: string)
    ensures Words(s, |s|) == []
  {
  }

  lemma OneWord(before: string, w: string, after: string)
    requires w != "" && ',' !in w && (after == "" || after[0] == ',')
    ensures Words(before + w + after, |before|) == [w] + Words(before + w + after, |before + w|)
  {
    var s, end := before + w + after, |before + w|;
    assert forall i | |before| <= i < end :: s[i] == w[i - |before|];
    WordEndAt(s, |before| + 1, end);
    assert s[|before|..end] == w;
  }

  lemma SkipComma(s: string, pos: nat)
    requires pos < |s| && s[pos] == ','
    ensures Words(s, pos) == Words(s, pos + 1)
  {
  }

  lemma {:induction false} AllKept(words: seq<string>)
    requires forall w | w in words :: w != ""
    ensures Kept(words) == words
    decreases |words|
  {
    if words != [] {
      assert words[0] in words && forall w | w in words[1..] :: w in words;
      AllKept(words[1..]);
    }
  }

  lemma WordsOfText(p: Path)
    ensures |Text(p)| >= 2 && Words(NoSpaces(Inner(Text(p))), 0) == Decimals(p)
  {
    var words := Decimals(p);
    assert Inner(Text(p)) == Join(words, ", ");
    forall w | w in words
      ensures w != "" && ' ' !in w && ',' !in w
    {
      var i :| 0 <= i < |words| && words[i] == w;
      assert forall c | c in Decimal(p[i]) :: IsDigit(c);
    }
    SpacesGo(words);
    WordsAreThePieces("", words);
    AllKept(words);
    assert "" + Join(words, ",") == Join(words, ",");
  }

  /** The text of a path names that path only. */
  lemma TextIdentifiesPath(p: Path, q: Path)
    ensures Text(p) == Text(q) <==> p == q
  {
    if Text(p) == Text(q) {
      WordsOfText(p);
      WordsOfText(q);
      forall i | 0 <= i < |p|
        ensures p[i] == q[i]
      {
        ValueOfDecimal(p[i]);
        ValueOfDecimal(q[i]);
        assert Decimals(p)[i] == Decimals(q)[i];
      }
    }
  }

  function PairsOfPath(p: Path): (r: seq<(nat, nat)>)
    requires IsAnd(p)
    ensures |r| == |p| / 2 && forall i | 0 <= i < |r| :: r[i] == (p[2 * i], p[2 * i + 1])
    decreases |p|
  {
    if p == [] then [] else PairsOfPath(p[..|p| - 2]) + [(p[|p| - 2], p[|p| - 1])]
  }

  predicate InRange(p: Path) {
    forall n | n in p :: n <= INT_MAX
  }

  lemma InRangeConcat(p: Path, q: Path)
    ensures InRange(p + q) <==> InRange(p) && forall i | 0 <= i < |q| :: q[i] <= INT_MAX
  {
    assert forall n | n in p :: n in p + q;
    assert forall i | 0 <= i < |q| :: q[i] in p + q;
  }

  lemma InRangeEmpty()
    ensures InRange([])
  {
  }

  lemma {:induction false} PairsOfDecimals(p: Path)
    requires IsAnd(p)
    ensures PairsOf(Decimals(p)) == if InRange(p) then Some(PairsOfPath(p)) else None
    decreases |p|
  {
    hide PairsOf, Stoi, Decimal;
    NoWords();
    if p != [] {
      var words, g := Decimals(p), p[..|p| - 2];
      PairsOfDecimals(g);
      StoiOfDecimal(p[|p| - 1]);
      StoiOfDecimal(p[|p| - 2]);
      assert words[..|p| - 2] == Decimals(g) && words[..|p|] == words;
      PairsOfNext(words, |p| - 2);
      PairsOfNext(words, |p| - 1);
      assert p == g + [p[|p| - 2], p[|p| - 1]];
      InRangeConcat(g, [p[|p| - 2], p[|p| - 1]]);
    }
  }

  lemma {:induction false} KeysOfDecimals(p: Path)
    requires IsAnd(p)
    ensures KeysOf(Decimals(p)) == if InRange(AndIndices(p)) then Some(AndIndices(p)) else None
    decreases |p|
  {
    hide KeysOf, Stoi, Decimal, InRange;
    NoWords();
    InRangeEmpty();
    if p != [] {
      var words, g := Decimals(p), p[..|p| - 2];
      KeysOfDecimals(g);
      StoiOfDecimal(p[|p| - 1]);
      assert words[..|p| - 2] == Decimals(g) && words[..|p|] == words;
      KeysOfNext(words, |p| - 2);
      KeysOfNext(words, |p| - 1);
      assert AndIndices(p) == AndIndices(g) + [p[|p| - 1]];
      InRangeConcat(AndIndices(g), [p[|p| - 1]]);
      assert [p[|p| - 1]][0] == p[|p| - 1];
      assert KeysOf(words[..|p| - 1]) == KeysOf(Decimals(g));
      assert Stoi(words[|p| - 1]) == Stoi(Decimal(p[|p| - 1]));
    }
  }

  /** The splitter reads the text of an And node's path as the pairs of the path, exactly if all
      indices fit into an `int`. */
  lemma SplitterReadsPath(p: Path)
    requires IsAnd(p)
    ensures |Text(p)| >= 2
    ensures PairsOf(Words(NoSpaces(Inner(Text(p))), 0)) == if InRange(p) then Some(PairsOfPath(p)) else None
  {
    WordsOfText(p);
    PairsOfDecimals(p);
  }

  /** The lemma server reads it as the And components, which are the second parts of those pairs. */
  lemma LemmaServerReadsPath(p: Path)
    requires IsAnd(p)
    ensures |Text(p)| >= 2
    ensures KeysOf(Words(NoSpaces(Inner(Text(p))), 0)) == if InRange(AndIndices(p)) then Some(AndIndices(p)) else None
    ensures |PairsOfPath(p)| == |AndIndices(p)|
    ensures forall i | 0 <= i < |AndIndices(p)| :: AndIndices(p)[i] == PairsOfPath(p)[i].1
  {
    WordsOfText(p);
    KeysOfDecimals(p);
  }
}
