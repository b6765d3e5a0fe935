/** The wire format of all connections, as Python and C++ write and read it: a big-endian 32-bit
    length, header pairs with one-byte lengths, a zero byte, and the payload. */
module Framing {
  import opened Wrappers

  newtype Byte = x: int | 0 <= x < 256

  type Bytes = seq<Byte>

  datatype Pair = Pair(key: Bytes, value: Bytes)

  /** What arrives: a header, where a later pair overrides an earlier one with the same key, and a
      payload. */
  datatype Message = Message(header: map<Bytes, Bytes>, payload: Bytes)

  const LIMIT: nat := 0x1_0000_0000

  // ---------- the length prefix ----------

  function BigEndian(n: nat): (r: Bytes)
    requires n < LIMIT
    ensures |r| == 4
  {
    [(n / 0x100_0000) as Byte, (n / 0x1_0000 % 256) as Byte, (n / 256 % 256) as Byte, (n % 256) as Byte]
  }

  function Number(b: Bytes): (n: nat)
    requires |b| == 4
    ensures n < LIMIT
  {
    b[0] as int * 0x100_0000 + b[1] as int * 0x1_0000 + b[2] as int * 256 + b[3] as int
  }

  lemma NumberOfBigEndian(n: nat)
    requires n < LIMIT
    ensures Number(BigEndian(n)) == n
  {
    assert n / 256 == n / 0x1_0000 * 256 + n / 256 % 256;
    assert n / 0x1_0000 == n / 0x100_0000 * 256 + n / 0x1_0000 % 256;
  }

  // ---------- writing ----------

  function Field(b: Bytes): (r: Bytes)
    requires |b| < 256
  {
    [|b| as Byte] + b
  }

  /** A pair that both writers accept. */
  predicate Writable(p: Pair) {
    0 < |p.key| < 256 && |p.value| < 256
  }

  function Pairs(header: seq<Pair>): Bytes
    requires forall p | p in header :: Writable(p)
    decreases |header|
  {
    if header == [] then [] else Pairs(header[..|header| - 1]) + PairBytes(header[|header| - 1])
  }

  function PairBytes(p: Pair): Bytes
    requires Writable(p)
  {
    Field(p.key) + Field(p.value)
  }

  function Dump(header: seq<Pair>, payload: Bytes): Bytes
    requires forall p | p in header :: Writable(p)
  {
    Pairs(header) + [0] + payload
  }

  function Frame(dump: Bytes): Bytes
    requires |dump| < LIMIT
  {
    BigEndian(|dump|) + dump
  }

  /** `Socket.write` in Python: the first bad pair raises, and so does a dump of 2^32 bytes. */
  method PyWrite(header: seq<Pair>, payload: Bytes) returns (sent: Option<Bytes>)
    ensures sent.Some? <==> (forall p | p in header :: Writable(p)) && |Dump(header, payload)| < LIMIT
    ensures sent.Some? ==> sent.value == Frame(Dump(header, payload))
  {
    var dump: Bytes := [];
    for i := 0 to |header|
      invariant forall p | p in header[..i] :: Writable(p)
      invariant dump == Pairs(header[..i])
    {
      var key, value := header[i].key, header[i].value;
      NextPair(header, i);
      if |key| == 0 || |key| >= 256 || |value| >= 256 { return None; }
      dump := dump + ([|key| as Byte] + key);
      dump := dump + ([|value| as Byte] + value);
    }
    assert header[..|header|] == header;
    dump := dump + [0];
    dump := dump + payload;
    if |dump| >= LIMIT { return None; }
    sent := Some(BigEndian(|dump|) + dump);
  }

  lemma NoPairs()
    ensures Pairs([]) == []
  {
  }

  lemma NextPair(header: seq<Pair>, i: nat)
    requires i < |header| && forall p | p in header[..i] :: Writable(p)
    ensures header[i] in header
    ensures Writable(header[i]) ==>
      && (forall p | p in header[..i + 1] :: Writable(p))
      && Pairs(header[..i + 1]) == Pairs(header[..i]) + Field(header[i].key) + Field(header[i].value)
  {
    assert header[..i + 1] == header[..i] + [header[i]];
    assert header[..i + 1][..i] == header[..i];
  }

  /** `Socket::write` in C++: the length is patched into a placeholder; the whole message, length
      included, must stay below 2^32 bytes. */
  method CWrite(header: seq<Pair>, payload: Bytes) returns (sent: Option<Bytes>)
    ensures sent.Some? <==> (forall p | p in header :: Writable(p)) && |Dump(header, payload)| + 4 < LIMIT
    ensures sent.Some? ==> sent.value == Frame(Dump(header, payload))
  {
    hide Pairs, PairBytes;
    if exists p | p in header :: p.key == [] { return None; }
    var message: Bytes := [255, 255, 255, 255];
    NoPairs();
    for i := 0 to |header|
      invariant forall p | p in header[..i] :: Writable(p)
      invariant message == [255, 255, 255, 255] + Pairs(header[..i])
    {
      ghost var before := Pairs(header[..i]);
      NextPair(header, i);
      if |header[i].key| > 255 || |header[i].value| > 255 { return None; }
      message := message + ([|header[i].key| as Byte] + header[i].key);
      message := message + ([|header[i].value| as Byte] + header[i].value);
      assert message == [255, 255, 255, 255] + (before + Field(header[i].key) + Field(header[i].value));
    }
    assert header[..|header|] == header;
    message := message + [0];
    message := message + payload;
    assert message == [255, 255, 255, 255] + Dump(header, payload);
    if |message| > LIMIT - 1 { return None; }
    var patched := Patch(message, |message| - 4);
    assert patched[4..] == Dump(header, payload);
    sent := Some(patched);
  }

  /** Writing the length over the placeholder, last byte first. */
  method Patch(placeholder: Bytes, length: nat) returns (message: Bytes)
    requires |placeholder| == length + 4 && length < LIMIT
    ensures message == BigEndian(length) + placeholder[4..]
  {
    message := placeholder;
    message := message[3 := (length % 256) as Byte];
    message := message[2 := (length / 256 % 256) as Byte];
    message := message[1 := (length / 0x1_0000 % 256) as Byte];
    message := message[0 := (length / 0x100_0000) as Byte];
  }

  // ---------- reading a frame ----------

  function MapOf(header: seq<Pair>): map<Bytes, Bytes>
    decreases |header|
  {
    if header == [] then map[] else MapOf(header[..|header| - 1])[header[|header| - 1].key := header[|header| - 1].value]
  }

  /** A slice as Python takes it: indices beyond the end are cut off. */
  function Slice(s: Bytes, i: nat, j: nat): Bytes
    requires i <= j
  {
    if i >= |s| then [] else if j >= |s| then s[i..] else s[i..j]
  }

  /** A field from position `i` on, and the position after it.  In Python a missing length byte is an
      error, but a field that is cut short by the end of the frame is not. */
  function PyField(content: Bytes, i: nat): Option<(Bytes, nat)> {
    if i >= |content| then None
    else
      var end := i + 1 + content[i] as nat;
      Some((Slice(content, i + 1, end), end))
  }

  /** In C++ a field must end before the last byte of the frame. */
  function CField(content: Bytes, i: nat): Option<(Bytes, nat)> {
    if i >= |content| then None
    else
      var end := i + 1 + content[i] as nat;
      if end >= |content| then None else Some((content[i + 1..end], end))
  }

  /** The pairs from position `i` on, read with one of the two: the header and the position after
      the closing zero. */
  function Header(content: Bytes, i: nat, header: map<Bytes, Bytes>, inC: bool): Option<(map<Bytes, Bytes>, nat)>
    decreases |content| - i
  {
    if i >= |content| then None
    else if content[i] == 0 then Some((header, i + 1))
    else
      match FieldAt(content, i, inC)
      case None => None
      case Some((key, v)) =>
        match FieldAt(content, v, inC)
        case None => None
        case Some((value, end)) => Header(content, end, header[key := value], inC)
  }

  function FieldAt(content: Bytes, i: nat, inC: bool): (r: Option<(Bytes, nat)>)
    ensures r.Some? ==> i < r.value.1
  {
    if inC then CField(content, i) else PyField(content, i)
  }

  function Parsed(content: Bytes, inC: bool): Option<Message> {
    match Header(content, 0, map[], inC)
    case None => None
    case Some((header, i)) => Some(Message(header, Slice(content, i, i + |content|)))
  }

  function TwoFields(content: Bytes, i: nat, inC: bool): Option<(Bytes, Bytes, nat)> {
    match FieldAt(content, i, inC)
    case None => None
    case Some((key, v)) =>
      match FieldAt(content, v, inC)
      case None => None
      case Some((value, end)) => Some((key, value, end))
  }

  lemma NextHeader(content: Bytes, i: nat, header: map<Bytes, Bytes>, inC: bool)
    requires i >= |content| || content[i] != 0
    ensures Header(content, i, header, inC) ==
      if i >= |content| then None
      else match TwoFields(content, i, inC)
           case None => None
           case Some((key, value, end)) => Header(content, end, header[key := value], inC)
  {
  }

  /** `for _ in range(2)`: one pair. */
  method PyPair(content: Bytes, start: nat) returns (r: Option<(Bytes, Bytes, nat)>)
    ensures r == TwoFields(content, start, false)
  {
    var pair: seq<Bytes> := [];
    var i := start;
    ghost var middle := start;
    for k := 0 to 2
      invariant |pair| == k
      invariant k == 0 ==> i == start
      invariant k == 1 ==> i == middle && PyField(content, start) == Some((pair[0], middle))
      invariant k == 2 ==> PyField(content, start) == Some((pair[0], middle)) && PyField(content, middle) == Some((pair[1], i))
    {
      if i >= |content| { return None; }
      var length := content[i] as nat;
      i := i + 1;
      pair := pair + [Slice(content, i, i + length)];
      i := i + length;
      if k == 0 { middle := i; }
    }
    return Some((pair[0], pair[1], i));
  }

  /** `Socket.read` in Python, once the content is there. */
  method PyParse(content: Bytes) returns (m: Option<Message>)
    ensures m == Parsed(content, false)
  {
    hide Header, TwoFields;
    var header: map<Bytes, Bytes> := map[];
    var i := 0;
    while Slice(content, i, i + 1) != [0]
      invariant Header(content, 0, map[], false) == Header(content, i, header, false)
      decreases |content| - i
    {
      NextHeader(content, i, header, false);
      var pair := PyPair(content, i);
      PairAdvances(content, i, false);
      if pair.None? { return None; }
      header := header[pair.value.0 := pair.value.1];
      i := pair.value.2;
    }
    HeaderEnds(content, i, header, false);
    i := i + 1;
    m := Some(Message(header, Slice(content, i, i + |content|)));
  }

  lemma PairAdvances(content: Bytes, i: nat, inC: bool)
    ensures TwoFields(content, i, inC).Some? ==> i < |content| && i < TwoFields(content, i, inC).value.2
  {
  }

  lemma HeaderEnds(content: Bytes, i: nat, header: map<Bytes, Bytes>, inC: bool)
    requires Slice(content, i, i + 1) == [0]
    ensures i < |content| && Header(content, i, header, inC) == Some((header, i + 1))
  {
  }

  /** `for (uint8_t j = 0; j < 2; j++)`: one pair. */
  method CPair(message: Bytes, start: nat) returns (r: Option<(Bytes, Bytes, nat)>)
    requires start < |message|
    ensures r == TwoFields(message, start, true) && (r.Some? ==> r.value.2 < |message|)
  {
    var keyval: seq<Bytes> := [[], []];
    var i := start;
    ghost var middle := start;
    for j := 0 to 2
      invariant |keyval| == 2 && i < |message|
      invariant j == 0 ==> i == start && keyval == [[], []]
      invariant j == 1 ==> i == middle && keyval[1] == [] && CField(message, start) == Some((keyval[0], middle))
      invariant j == 2 ==> CField(message, start) == Some((keyval[0], middle))
      invariant j == 2 ==> CField(message, middle) == Some((keyval[1], i))
    {
      var l := message[i] as nat;
      i := i + 1;
      if i + l >= |message| { return None; }
      assert [] + message[i..i + l] == message[i..i + l];
      keyval := keyval[j := keyval[j] + message[i..i + l]];
      i := i + l;
      if j == 0 { middle := i; }
    }
    return Some((keyval[0], keyval[1], i));
  }

  /** `Socket::read` in C++, once the message is there. */
  method CParse(message: Bytes) returns (m: Option<Message>)
    ensures m == Parsed(message, true)
  {
    hide TwoFields, Header;
    var header: map<Bytes, Bytes> := map[];
    var i := 0;
    var length := |message|;
    if length == 0 {
      NextHeader(message, i, header, true);
      return None;
    }
    while message[i] != 0
      invariant i < length && Header(message, 0, map[], true) == Header(message, i, header, true)
      decreases length - i
    {
      NextHeader(message, i, header, true);
      var keyval := CPair(message, i);
      PairAdvances(message, i, true);
      if keyval.None? { return None; }
      header := header[keyval.value.0 := keyval.value.1];
      i := keyval.value.2;
    }
    HeaderEnds(message, i, header, true);
    i := i + 1;
    var payload: Bytes := [];
    if length > i { payload := payload + message[i..]; }
    assert payload == Slice(message, i, i + length);
    m := Some(Message(header, payload));
  }

  // ---------- reading what was written ----------

  lemma {:induction false} PairsSplit(header: seq<Pair>, i: nat)
    requires i < |header| && forall p | p in header :: Writable(p)
    ensures (forall p | p in header[..i] :: Writable(p)) && Writable(header[i])
    ensures |Pairs(header[..i])| + |PairBytes(header[i])| <= |Pairs(header)|
    ensures Pairs(header)[|Pairs(header[..i])|..][..|PairBytes(header[i])|] == PairBytes(header[i])
    ensures i + 1 < |header| || |Pairs(header[..i])| + |PairBytes(header[i])| == |Pairs(header)|
    decreases |header|
  {
    var init := header[..|header| - 1];
    assert header[..i] == init[..i];
    if i < |init| {
      PairsSplit(init, i);
      var a, n := |Pairs(header[..i])|, |PairBytes(header[i])|;
      assert Pairs(header)[a..][..n] == Pairs(init)[a..][..n];
    }
  }

  /** What both parsers see at the i-th pair of a dump. */
  lemma PairAt(header: seq<Pair>, payload: Bytes, i: nat)
    requires i < |header| && forall p | p in header :: Writable(p)
    ensures (forall p | p in header[..i] :: Writable(p)) && forall p | p in header[..i + 1] :: Writable(p)
    ensures var c := Dump(header, payload); var a := |Pairs(header[..i])|; var p := header[i]; var v := a + 1 + |p.key|;
      && v + 1 + |p.value| == |Pairs(header[..i + 1])| < |c|
      && c[a] as nat == |p.key| && c[a + 1..v] == p.key
      && c[v] as nat == |p.value| && c[v + 1..v + 1 + |p.value|] == p.value
  {
    PairsSplit(header, i);
    NextPair(header, i);
    var a := |Pairs(header[..i])|;
    InTheMiddle(Pairs(header[..i]), header[i], Dump(header, payload));
  }

  lemma InTheMiddle(before: Bytes, p: Pair, c: Bytes)
    requires Writable(p) && |before| + |PairBytes(p)| < |c| && c[|before|..][..|PairBytes(p)|] == PairBytes(p)
    ensures var a := |before|; var v := a + 1 + |p.key|;
      && v + 1 + |p.value| == a + |PairBytes(p)|
      && c[a] as nat == |p.key| && c[a + 1..v] == p.key
      && c[v] as nat == |p.value| && c[v + 1..v + 1 + |p.value|] == p.value
  {
    var a, k, n := |before|, |p.key|, |p.value|;
    var b := PairBytes(p);
    Part(c, a, b, 0, 1);
    Part(c, a, b, 1, k + 1);
    Part(c, a, b, k + 1, k + 2);
    Part(c, a, b, k + 2, k + 2 + n);
    assert b[0..1] == [k as Byte] && b[1..k + 1] == p.key && b[k + 1..k + 2] == [n as Byte] && b[k + 2..k + 2 + n] == p.value;
  }

  lemma Part(c: Bytes, a: nat, b: Bytes, i: nat, j: nat)
    requires i <= j <= |b| && a + |b| <= |c| && c[a..][..|b|] == b
    ensures c[a + i..a + j] == b[i..j]
  {
    assert c[a..][..|b|][i..j] == c[a + i..a + j];
  }

  lemma FieldRead(content: Bytes, i: nat, b: Bytes, inC: bool)
    requires i + 1 + |b| < |content| && content[i] as nat == |b| && content[i + 1..i + 1 + |b|] == b
    ensures FieldAt(content, i, inC) == Some((b, i + 1 + |b|))
  {
  }

  lemma PairRead(header: seq<Pair>, payload: Bytes, i: nat, h: map<Bytes, Bytes>, inC: bool)
    requires i < |header| && forall p | p in header :: Writable(p)
    ensures (forall p | p in header[..i] :: Writable(p)) && forall p | p in header[..i + 1] :: Writable(p)
    ensures Header(Dump(header, payload), |Pairs(header[..i])|, h, inC) ==
      Header(Dump(header, payload), |Pairs(header[..i + 1])|, h[header[i].key := header[i].value], inC)
  {
    hide Pairs, Dump, PairBytes, FieldAt, Header;
    PairAt(header, payload, i);
    assert header[i] in header;
    var c, a, p := Dump(header, payload), |Pairs(header[..i])|, header[i];
    FieldRead(c, a, p.key, inC);
    FieldRead(c, a + 1 + |p.key|, p.value, inC);
    NextHeader(c, a, h, inC);
  }

  /** From the i-th pair on, either parser finds the rest of the header. */
  lemma {:induction false} HeaderFrom(header: seq<Pair>, payload: Bytes, i: nat, inC: bool)
    requires i <= |header| && forall p | p in header :: Writable(p)
    ensures forall p | p in header[..i] :: Writable(p)
    ensures Header(Dump(header, payload), |Pairs(header[..i])|, MapOf(header[..i]), inC) ==
      Some((MapOf(header), |Pairs(header)| + 1))
    decreases |header| - i
  {
    hide Header;
    if i == |header| {
      assert header[..i] == header;
      HeaderEnds(Dump(header, payload), |Pairs(header)|, MapOf(header), inC);
    } else {
      PairAt(header, payload, i);
      PairRead(header, payload, i, MapOf(header[..i]), inC);
      HeaderFrom(header, payload, i + 1, inC);
      assert header[..i + 1][..i] == header[..i];
      assert header[..i + 1][|header[..i + 1]| - 1] == header[i];
    }
  }

  /** Both parsers, on what either writer sends, return the header and the payload that were
      written. */
  lemma ParseInvertsDump(header: seq<Pair>, payload: Bytes, inC: bool)
    requires forall p | p in header :: Writable(p)
    ensures Parsed(Dump(header, payload), inC) == Some(Message(MapOf(header), payload))
  {
    assert header[..0] == [];
    HeaderFrom(header, payload, 0, inC);
    var c, i := Dump(header, payload), |Pairs(header)| + 1;
    assert Slice(c, i, i + |c|) == payload;
  }

  // ---------- what is not accepted ----------

  ghost predicate IsDump(content: Bytes, header: seq<Pair>, payload: Bytes) {
    (forall p | p in header :: Writable(p)) && content == Dump(header, payload)
  }

  /** Either parser reads a pair that is there in full, if the header goes on behind it. */
  lemma WholePair(content: Bytes, i: nat, inC: bool)
    requires i < |content| && content[i] != 0 && TwoFields(content, i, inC).Some?
    requires TwoFields(content, i, inC).value.2 < |content|
    ensures var (key, value, end) := TwoFields(content, i, inC).value;
      Writable(Pair(key, value)) && i < end && content[..end] == content[..i] + PairBytes(Pair(key, value))
  {
    var (key, value, end) := TwoFields(content, i, inC).value;
    var v := i + 1 + |key|;
    assert key == content[i + 1..v] && value == content[v + 1..end];
    assert content[..end] == content[..i] + ([content[i]] + key) + ([content[v]] + value);
  }

  lemma {:induction false} HeaderWasWritten(content: Bytes, i: nat, before: seq<Pair>, inC: bool) returns (header: seq<Pair>)
    requires i <= |content| && (forall p | p in before :: Writable(p)) && content[..i] == Pairs(before)
    requires Header(content, i, MapOf(before), inC).Some?
    ensures forall p | p in header :: Writable(p)
    ensures var (h, end) := Header(content, i, MapOf(before), inC).value;
      h == MapOf(header) && end <= |content| && content[..end] == Pairs(header) + [0]
    decreases |content| - i
  {
    hide TwoFields, PairBytes, Pairs, MapOf;
    if content[i] == 0 {
      header := before;
      assert content[..i + 1] == content[..i] + [content[i]];
    } else {
      NextHeader(content, i, MapOf(before), inC);
      var (key, value, end) := TwoFields(content, i, inC).value;
      HeaderNeedsMore(content, end, MapOf(before)[key := value], inC);
      WholePair(content, i, inC);
      OnePairMore(before, Pair(key, value));
      header := HeaderWasWritten(content, end, before + [Pair(key, value)], inC);
    }
  }

  lemma HeaderNeedsMore(content: Bytes, i: nat, header: map<Bytes, Bytes>, inC: bool)
    requires Header(content, i, header, inC).Some?
    ensures i < |content|
  {
  }

  lemma OnePairMore(before: seq<Pair>, p: Pair)
    requires (forall q | q in before :: Writable(q)) && Writable(p)
    ensures (forall q | q in before + [p] :: Writable(q)) && Pairs(before + [p]) == Pairs(before) + PairBytes(p)
    ensures MapOf(before + [p]) == MapOf(before)[p.key := p.value]
  {
    assert (before + [p])[..|before|] == before;
  }

  /** A frame is accepted exactly if it is a dump: any other, with a field cut short or without its closing
      zero, is refused by both parsers, however they notice. */
  lemma AcceptedExactlyDumps(content: Bytes, inC: bool)
    ensures Parsed(content, inC).Some? <==> exists header, payload :: IsDump(content, header, payload)
    ensures forall header, payload | IsDump(content, header, payload) ::
      Parsed(content, inC) == Some(Message(MapOf(header), payload))
  {
    if Parsed(content, inC).Some? {
      NoPairs();
      var header := HeaderWasWritten(content, 0, [], inC);
      var end := Header(content, 0, map[], inC).value.1;
      assert content == Pairs(header) + [0] + content[end..];
      assert IsDump(content, header, content[end..]);
    }
    forall header, payload | IsDump(content, header, payload)
      ensures Parsed(content, inC) == Some(Message(MapOf(header), payload))
    {
      ParseInvertsDump(header, payload, inC);
    }
  }

  /** Python and C++ agree on every frame, although they test for its end at different places. */
  lemma ParsersAgree(content: Bytes)
    ensures Parsed(content, true) == Parsed(content, false)
  {
    AcceptedExactlyDumps(content, true);
    AcceptedExactlyDumps(content, false);
  }

  // ---------- frames on a stream ----------

  /** The bytes that will arrive on a socket, in the pieces in which they arrive. */
  type Stream = seq<Bytes>

  predicate Pieces(s: Stream) {
    forall i | 0 <= i < |s| :: s[i] != []
  }

  function Flat(s: Stream): Bytes {
    if s == [] then [] else s[0] + Flat(s[1..])
  }

  /** `recv(n)`: at most `n` bytes of what has arrived; nothing only at the end. */
  function Recv(s: Stream, n: nat): (Bytes, Stream) {
    if s == [] then ([], [])
    else if |s[0]| <= n then (s[0], s[1..])
    else (s[0][..n], [s[0][n..]] + s[1..])
  }

  /** The stream after its first `n` bytes. */
  function Skip(s: Stream, n: nat): (r: Stream)
    requires Pieces(s)
    ensures Pieces(r)
    decreases |s|
  {
    if n == 0 || s == [] then s
    else if |s[0]| <= n then Skip(s[1..], n - |s[0]|)
    else [s[0][n..]] + s[1..]
  }

  lemma {:induction false} FlatSkip(s: Stream, n: nat)
    requires Pieces(s) && n <= |Flat(s)|
    ensures Flat(Skip(s, n)) == Flat(s)[n..]
    decreases |s|
  {
    if n > 0 && s != [] {
      if |s[0]| <= n {
        FlatSkip(s[1..], n - |s[0]|);
        assert Flat(s)[n..] == Flat(s[1..])[n - |s[0]|..];
      } else {
        var r := [s[0][n..]] + s[1..];
        assert r[1..] == s[1..];
      }
    }
  }

  lemma RecvSkips(s: Stream, n: nat)
    requires Pieces(s) && n > 0
    ensures var (b, r) := Recv(s, n); |b| <= n && r == Skip(s, |b|) && Pieces(r) && (b == [] <==> s == [])
    ensures var (b, r) := Recv(s, n); |b| <= |Flat(s)| && b == Flat(s)[..|b|] && Flat(r) == Flat(s)[|b|..]
  {
    var (b, r) := Recv(s, n);
    if s != [] {
      if |s[0]| <= n {
        assert Skip(s[1..], 0) == s[1..];
      }
      FlatSkip(s, |b|);
    }
  }

  lemma {:induction false} SkipTwice(s: Stream, n: nat, k: nat)
    requires Pieces(s)
    ensures Skip(Skip(s, n), k) == Skip(s, n + k)
    decreases |s|
  {
    if n > 0 && s != [] {
      if |s[0]| <= n {
        SkipTwice(s[1..], n - |s[0]|, k);
      } else {
        var r := [s[0][n..]] + s[1..];
        assert r[1..] == s[1..];
      }
    }
  }

  lemma SkipNothing(s: Stream)
    requires Pieces(s)
    ensures Skip(s, 0) == s
  {
  }

  /** One more `recv` after `k` bytes have been read. */
  lemma OneRecv(s: Stream, k: nat, rest: Stream, n: nat)
    requires Pieces(s) && k <= |Flat(s)| && rest == Skip(s, k) && n > 0
    ensures var (t, more) := Recv(rest, n);
      && |t| <= n && k + |t| <= |Flat(s)| && (t == [] ==> k == |Flat(s)|)
      && Flat(s)[..k] + t == Flat(s)[..k + |t|] && more == Skip(s, k + |t|) && Pieces(more)
  {
    var (t, more) := Recv(rest, n);
    FlatSkip(s, k);
    RecvSkips(rest, n);
    SkipTwice(s, k, |t|);
    assert Flat(s)[..k] + Flat(s)[k..][..|t|] == Flat(s)[..k + |t|];
    if t == [] { assert Flat(rest) == []; }
  }

  /** The loop that both readers use for the body, and C++ also for the length: read until `n`
      bytes are there or the stream ends. */
  method ReadN(s: Stream, n: nat) returns (b: Option<Bytes>, rest: Stream)
    requires Pieces(s)
    ensures b.Some? <==> n <= |Flat(s)|
    ensures b.Some? ==> b.value == Flat(s)[..n] && rest == Skip(s, n) && Pieces(rest)
  {
    hide Flat, Skip, Recv, Pieces;
    var buffer: Bytes := [];
    rest := s;
    SkipNothing(s);
    while |buffer| < n
      invariant |buffer| <= n && |buffer| <= |Flat(s)| && buffer == Flat(s)[..|buffer|]
      invariant rest == Skip(s, |buffer|) && Pieces(rest)
      decreases n - |buffer|
    {
      OneRecv(s, |buffer|, rest, n - |buffer|);
      var (t, more) := Recv(rest, n - |buffer|);
      if t == [] { return None, rest; }
      buffer := buffer + t;
      rest := more;
    }
    return Some(buffer), rest;
  }

  /** What a reader returns for a stream that starts with a whole frame. */
  function FrameOf(s: Stream): (Bytes, Stream)
    requires Pieces(s) && |Flat(s)| >= 4 && |Flat(s)| >= 4 + Number(Flat(s)[..4])
  {
    var n := Number(Flat(s)[..4]);
    (Flat(s)[4..4 + n], Skip(s, 4 + n))
  }

  predicate StartsWithFrame(s: Stream) {
    |Flat(s)| >= 4 && |Flat(s)| >= 4 + Number(Flat(s)[..4])
  }

  /** `Socket::read` in C++ up to the parsing. */
  method CReceive(s: Stream) returns (content: Option<Bytes>, rest: Stream)
    requires Pieces(s)
    ensures content.Some? <==> StartsWithFrame(s)
    ensures content.Some? ==> (content.value, rest) == FrameOf(s) && Pieces(rest)
  {
    var prefix, more := ReadN(s, 4);
    rest := more;
    if prefix.None? { return None, rest; }
    FlatSkip(s, 4);
    SkipTwice(s, 4, Number(prefix.value));
    content, rest := ReadN(more, Number(prefix.value));
    assert content.Some? ==> Flat(s)[4..][..Number(prefix.value)] == Flat(s)[4..4 + Number(prefix.value)];
  }

  /** `Socket.read` in Python up to the parsing: the length must arrive in one piece. */
  method PyReceive(s: Stream) returns (content: Option<Bytes>, rest: Stream)
    requires Pieces(s)
    ensures content.Some? <==> StartsWithFrame(s) && |s[0]| >= 4
    ensures content.Some? ==> (content.value, rest) == FrameOf(s) && Pieces(rest)
  {
    RecvSkips(s, 4);
    var (prefix, more) := Recv(s, 4);
    rest := more;
    if |prefix| != 4 { return None, rest; }
    FlatSkip(s, 4);
    SkipTwice(s, 4, Number(prefix));
    content, rest := ReadN(more, Number(prefix));
    assert content.Some? ==> Flat(s)[4..][..Number(prefix)] == Flat(s)[4..4 + Number(prefix)];
  }

  // ---------- round trips ----------

  datatype Sent = Sent(header: seq<Pair>, payload: Bytes)

  /** A message that some writer accepts. */
  ghost predicate Sendable(m: Sent) {
    (forall p | p in m.header :: Writable(p)) && |Dump(m.header, m.payload)| < LIMIT
  }

  ghost function FrameBytes(m: Sent): Bytes
    requires Sendable(m)
  {
    Frame(Dump(m.header, m.payload))
  }

  /** The bytes of a list of messages, written one after the other. */
  ghost function Wire(ms: seq<Sent>): Bytes
    requires forall m | m in ms :: Sendable(m)
  {
    if ms == [] then [] else FrameBytes(ms[0]) + Wire(ms[1..])
  }

  ghost function Messages(ms: seq<Sent>): seq<Message> {
    seq(|ms|, i requires 0 <= i < |ms| => Message(MapOf(ms[i].header), ms[i].payload))
  }

  /** One message of either reader: Python gives up if the length arrives in pieces. */
  ghost function Read(s: Stream, inC: bool): Option<(Message, Stream)>
    requires Pieces(s)
  {
    if !StartsWithFrame(s) || (!inC && |s[0]| < 4) then None
    else
      match Parsed(FrameOf(s).0, inC)
      case None => None
      case Some(m) => Some((m, FrameOf(s).1))
  }

  /** `n` messages in a row. */
  ghost function Reads(s: Stream, n: nat, inC: bool): Option<(seq<Message>, Stream)>
    requires Pieces(s)
    decreases n
  {
    if n == 0 then Some(([], s))
    else
      match Read(s, inC)
      case None => None
      case Some((m, rest)) =>
        match Reads(rest, n - 1, inC)
        case None => None
        case Some((more, last)) => Some(([m] + more, last))
  }

  /** No length prefix is split between two pieces. */
  ghost predicate PrefixesWhole(s: Stream, ms: seq<Sent>)
    requires Pieces(s) && forall m | m in ms :: Sendable(m)
    decreases |ms|
  {
    ms != [] ==> s != [] && |s[0]| >= 4 && PrefixesWhole(Skip(s, |FrameBytes(ms[0])|), ms[1..])
  }

  lemma ReadsFrame(s: Stream, m: Sent, rest: Bytes, inC: bool)
    requires Pieces(s) && Sendable(m) && Flat(s) == FrameBytes(m) + rest
    ensures Read(s, inC) == if !inC && |s[0]| < 4 then None
      else Some((Message(MapOf(m.header), m.payload), Skip(s, |FrameBytes(m)|)))
    ensures Flat(Skip(s, |FrameBytes(m)|)) == rest
  {
    hide Pairs, Header, BigEndian, Number, Flat, Skip, MapOf, Pieces, Dump, Parsed;
    var dump := Dump(m.header, m.payload);
    NumberOfBigEndian(|dump|);
    assert Flat(s)[..4] == BigEndian(|dump|);
    assert Flat(s)[4..4 + |dump|] == dump;
    ParseInvertsDump(m.header, m.payload, inC);
    FlatSkip(s, |FrameBytes(m)|);
  }

  /** Whatever was written by either side, in whatever pieces it arrives: the C++ reader returns all
      messages and nothing is left over; the Python reader does so exactly if no length prefix was
      split. */
  lemma {:induction false} ReadersInvertWriters(s: Stream, ms: seq<Sent>, inC: bool)
    requires Pieces(s) && (forall m | m in ms :: Sendable(m)) && Flat(s) == Wire(ms)
    ensures Reads(s, |ms|, inC) == if inC || PrefixesWhole(s, ms) then Some((Messages(ms), [])) else None
    decreases |ms|
  {
    if ms == [] {
      assert s == [];
    } else {
      ReadsFrame(s, ms[0], Wire(ms[1..]), inC);
      ReadersInvertWriters(Skip(s, |FrameBytes(ms[0])|), ms[1..], inC);
      assert Messages(ms) == [Message(MapOf(ms[0].header), ms[0].payload)] + Messages(ms[1..]);
    }
  }

  /** Headers with distinct keys come back pair by pair. */
  lemma {:induction false} HeaderIsKept(header: seq<Pair>, i: nat)
    requires i < |header| && forall j, k | 0 <= j < k < |header| :: header[j].key != header[k].key
    ensures header[i].key in MapOf(header) && MapOf(header)[header[i].key] == header[i].value
    ensures forall k | k in MapOf(header) :: exists j :: 0 <= j < |header| && header[j].key == k
    decreases |header|
  {
    var init := header[..|header| - 1];
    if i < |init| {
      HeaderIsKept(init, i);
    } else if init != [] {
      HeaderIsKept(init, 0);
    }
    forall k | k in MapOf(header)
      ensures exists j :: 0 <= j < |header| && header[j].key == k
    {
      if k == header[|init|].key {
        assert header[|init|].key == k;
      } else {
        var j :| 0 <= j < |init| && init[j].key == k;
        assert header[j].key == k;
      }
    }
  }
}
