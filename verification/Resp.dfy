/** RESP2: the wire form of replies and commands, and the incremental parser that reads it back. */
module Resp {
  import opened OptionType

  type Byte = x: int | 0 <= x < 256 witness 0
  type Bytes = seq<Byte>

  const CR: Byte := 13
  const LF: Byte := 10
  const CRLF: Bytes := [13, 10]
  const PLUS: Byte := 43
  const MINUS: Byte := 45
  const COLON: Byte := 58
  const DOLLAR: Byte := 36
  const STAR: Byte := 42

  /** What the client hands to its caller. */
  datatype Value = Str(bytes: Bytes) | Err(bytes: Bytes) | Num(n: int) | Null | List(items: seq<Value>)

  /** What a server sends. */
  datatype Reply =
    | Simple(bytes: Bytes)
    | Error(bytes: Bytes)
    | Integer(n: int)
    | Bulk(bytes: Bytes)
    | NullBulk
    | Array(items: seq<Reply>)
    | NullArray

  // ---- decimal numbers ---------------------------------------------------------------------------

  function Digits(n: nat): (s: Bytes)
    ensures |s| > 0 && forall i :: 0 <= i < |s| ==> 48 <= s[i] <= 57
  {
    if n < 10 then [48 + n] else Digits(n / 10) + [48 + n % 10]
  }

  function Decimal(n: int): (s: Bytes)
    ensures |s| > 0 && s[|s| - 1] != CR && forall i :: 0 <= i < |s| ==> s[i] != CR
  {
    if n < 0 then [MINUS] + Digits(-n) else Digits(n)
  }

  function DigitsValue(s: Bytes): (r: Option<nat>) {
    if s == [] then None
    else
      var d := s[|s| - 1];
      if !(48 <= d <= 57) then None
      else if |s| == 1 then Some(d - 48)
      else
        var high := DigitsValue(s[..|s| - 1]);
        if high.None? then None else Some(high.value * 10 + d - 48)
  }

  /** Number(line), for a line that is a decimal number with an optional sign; None for any other line. */
  function NumberValue(s: Bytes): Option<int> {
    if s == [] then None
    else if s[0] == MINUS then Signed(-1, DigitsValue(s[1..]))
    else if s[0] == PLUS then Signed(1, DigitsValue(s[1..]))
    else Signed(1, DigitsValue(s))
  }

  function Signed(sign: int, m: Option<nat>): Option<int> {
    if m.None? then None else Some(sign * m.value)
  }

  lemma {:induction false} DigitsRoundTrip(n: nat)
    ensures DigitsValue(Digits(n)) == Some(n)
  {
    if n >= 10 {
      DigitsRoundTrip(n / 10);
      var s := Digits(n);
      assert s[..|s| - 1] == Digits(n / 10);
    }
  }

  lemma NumberRoundTrip(n: int)
    ensures NumberValue(Decimal(n)) == Some(n)
  {
    var d := Decimal(n);
    if n < 0 {
      DigitsRoundTrip(-n);
      assert d[0] == MINUS && d[1..] == Digits(-n);
    } else {
      DigitsRoundTrip(n);
      assert d == Digits(n) && 48 <= d[0] <= 57;
    }
    hide Digits, DigitsValue, Decimal;
  }

  // ---- printing -----------------------------------------------------------------------------------

  function Header(kind: Byte, n: int): Bytes {
    [kind] + Decimal(n) + CRLF
  }

  function Encode(r: Reply): (s: Bytes)
    ensures |s| >= 3
    decreases r, 1
  {
    match r
    case Simple(b) => [PLUS] + b + CRLF
    case Error(b) => [MINUS] + b + CRLF
    case Integer(n) => Header(COLON, n)
    case Bulk(b) => Header(DOLLAR, |b|) + b + CRLF
    case NullBulk => Header(DOLLAR, -1)
    case Array(items) => Header(STAR, |items|) + EncodeAll(items)
    case NullArray => Header(STAR, -1)
  }

  function EncodeAll(rs: seq<Reply>): Bytes {
    if rs == [] then [] else Encode(rs[0]) + EncodeAll(rs[1..])
  }

  function ValueOf(r: Reply): Value {
    match r
    case Simple(b) => Str(b)
    case Error(b) => Err(b)
    case Integer(n) => Num(n)
    case Bulk(b) => Str(b)
    case NullBulk => Null
    case Array(items) => List(ValuesOf(items))
    case NullArray => Null
  }

  function ValuesOf(rs: seq<Reply>): (vs: seq<Value>)
    ensures |vs| == |rs|
  {
    if rs == [] then [] else [ValueOf(rs[0])] + ValuesOf(rs[1..])
  }

  predicate HasCrlf(b: Bytes) {
    exists i :: 0 <= i < |b| - 1 && b[i] == CR && b[i + 1] == LF
  }

  /** Simple strings and errors are single lines; everything else may hold any bytes. */
  predicate WellFormed(r: Reply) {
    match r
    case Simple(b) => !HasCrlf(b)
    case Error(b) => !HasCrlf(b)
    case Array(items) => forall i :: 0 <= i < |items| ==> WellFormed(items[i])
    case _ => true
  }

  // ---- parsing ------------------------------------------------------------------------------------

  /** buf.indexOf('\r\n', pos) */
  function FindCrlf(buf: Bytes, pos: nat): (r: Option<nat>)
    ensures r.Some? ==> pos <= r.value < |buf| - 1 && buf[r.value] == CR && buf[r.value + 1] == LF
    ensures r.Some? ==> forall i :: pos <= i < r.value ==> !(buf[i] == CR && buf[i + 1] == LF)
    ensures r.None? ==> forall i :: pos <= i < |buf| - 1 ==> !(buf[i] == CR && buf[i + 1] == LF)
    decreases |buf| - pos
  {
    if pos + 1 >= |buf| then None
    else if buf[pos] == CR && buf[pos + 1] == LF then Some(pos)
    else FindCrlf(buf, pos + 1)
  }

  /**
    The outcome of parsing one reply. Rejected is the exception for an unknown type byte; it also
    stands for lengths that are not decimal numbers, or negative ones other than -1, which no
    server sends.
   */
  datatype Outcome<T> = Parsed(value: T, next: nat) | Incomplete | Rejected

  function Parse(buf: Bytes, pos: nat): (r: Outcome<Value>)
    ensures r.Parsed? ==> pos < r.next <= |buf|
    decreases |buf| - pos, 0, 2
  {
    var crlf := FindCrlf(buf, pos);
    if pos >= |buf| || crlf.None? then Incomplete
    else if crlf.value == pos then Rejected
    else
      var kind, line, next := buf[pos], buf[pos + 1..crlf.value], crlf.value + 2;
      if kind == PLUS then Parsed(Str(line), next)
      else if kind == MINUS then Parsed(Err(line), next)
      else if kind == COLON || kind == DOLLAR || kind == STAR then
        var num := NumberValue(line);
        if num.None? then Rejected
        else
          ByHeader(buf, kind, num.value, next)
      else Rejected
  }

  /** The rest of a reply whose header line carried the number `n`. */
  function ByHeader(buf: Bytes, kind: Byte, n: int, next: nat): (r: Outcome<Value>)
    requires next <= |buf|
    ensures r.Parsed? ==> next <= r.next <= |buf|
    decreases |buf| - next, n, 1
  {
    if kind == COLON then Parsed(Num(n), next)
    else if n == -1 then Parsed(Null, next)
    else if n < 0 then Rejected
    else if kind == DOLLAR then
      if |buf| < next + n + 2 then Incomplete else Parsed(Str(buf[next..next + n]), next + n + 2)
    else
      match ParseItems(buf, next, n)
      case Parsed(items, cursor) => Parsed(List(items), cursor)
      case Incomplete => Incomplete
      case Rejected => Rejected
  }

  function ParseItems(buf: Bytes, cursor: nat, count: nat): (r: Outcome<seq<Value>>)
    requires cursor <= |buf|
    ensures r.Parsed? ==> cursor <= r.next <= |buf|
    decreases |buf| - cursor, count, 0
  {
    if count == 0 then Parsed([], cursor)
    else
      match Parse(buf, cursor)
      case Parsed(item, next) =>
        (match ParseItems(buf, next, count - 1)
         case Parsed(items, end) => Parsed([item] + items, end)
         case Incomplete => Incomplete
         case Rejected => Rejected)
      case Incomplete => Incomplete
      case Rejected => Rejected
  }

  // ---- a complete reply parses back ---------------------------------------------------------------

  /** The bytes `e` stand in the buffer at `pos`. */
  predicate At(buf: Bytes, pos: nat, e: Bytes) {
    pos + |e| <= |buf| && buf[pos..pos + |e|] == e
  }

  lemma AtSplit(buf: Bytes, pos: nat, a: Bytes, b: Bytes)
    requires At(buf, pos, a + b)
    ensures At(buf, pos, a) && At(buf, pos + |a|, b)
  {
    assert buf[pos..pos + |a|] == (a + b)[..|a|];
    assert buf[pos + |a|..pos + |a| + |b|] == (a + b)[|a|..];
  }

  lemma {:induction false} FindCrlfIs(buf: Bytes, pos: nat, k: nat)
    requires pos <= k < |buf| - 1 && buf[k] == CR && buf[k + 1] == LF
    requires forall i :: pos <= i < k ==> !(buf[i] == CR && buf[i + 1] == LF)
    ensures FindCrlf(buf, pos) == Some(k)
    decreases k - pos
  {
    if pos < k { FindCrlfIs(buf, pos + 1, k); }
  }

  /** A line: its type byte, its text, and the first CRLF right behind it. */
  lemma LineAt(buf: Bytes, pos: nat, kind: Byte, text: Bytes)
    requires At(buf, pos, [kind] + text + CRLF) && kind != CR && !HasCrlf(text)
    ensures FindCrlf(buf, pos) == Some(pos + 1 + |text|)
    ensures buf[pos] == kind && buf[pos + 1..pos + 1 + |text|] == text
  {
    var e := [kind] + text + CRLF;
    forall i | 0 <= i < |e| ensures buf[pos + i] == e[i] { assert buf[pos..pos + |e|][i] == e[i]; }
    forall i | pos <= i < pos + 1 + |text| ensures !(buf[i] == CR && buf[i + 1] == LF) {
      var j := i - pos;
      assert buf[i] == e[j] && buf[i + 1] == e[j + 1];
      if j > 0 { assert e[j] == text[j - 1]; if j < |text| { assert e[j + 1] == text[j]; } }
    }
    FindCrlfIs(buf, pos, pos + 1 + |text|);
    assert e[1..1 + |text|] == text;
    assert buf[pos + 1..pos + 1 + |text|] == buf[pos..pos + |e|][1..1 + |text|];
  }

  lemma DecimalLine(n: int)
    ensures !HasCrlf(Decimal(n))
  {}

  lemma HeaderAt(buf: Bytes, pos: nat, kind: Byte, n: int)
    requires At(buf, pos, Header(kind, n)) && kind != CR
    ensures FindCrlf(buf, pos) == Some(pos + 1 + |Decimal(n)|)
    ensures buf[pos] == kind && NumberValue(buf[pos + 1..pos + 1 + |Decimal(n)|]) == Some(n)
    ensures |Header(kind, n)| == |Decimal(n)| + 3
  {
    DecimalLine(n);
    LineAt(buf, pos, kind, Decimal(n));
    NumberRoundTrip(n);
  }

  lemma ParseLine(buf: Bytes, pos: nat, kind: Byte, text: Bytes)
    requires At(buf, pos, [kind] + text + CRLF) && !HasCrlf(text) && (kind == PLUS || kind == MINUS)
    ensures Parse(buf, pos) == Parsed(if kind == PLUS then Str(text) else Err(text), pos + |text| + 3)
  {
    LineAt(buf, pos, kind, text);
    hide FindCrlf, HasCrlf, ParseItems, NumberValue;
  }

  /** What a header announces, whatever stands behind it. */
  lemma ParseHeader(buf: Bytes, pos: nat, kind: Byte, n: int)
    requires At(buf, pos, Header(kind, n)) && (kind == COLON || kind == DOLLAR || kind == STAR)
    ensures Parse(buf, pos) == ByHeader(buf, kind, n, pos + |Header(kind, n)|)
  {
    HeaderAt(buf, pos, kind, n);
    var k := pos + 1 + |Decimal(n)|;
    assert k + 2 == pos + |Header(kind, n)|;
    hide FindCrlf, HasCrlf, ParseItems, NumberValue, Signed, Decimal, Digits, Header, At;
    var line := buf[pos + 1..k];
    assert NumberValue(line) == Some(n);
    assert Parse(buf, pos) == ByHeader(buf, kind, n, k + 2);
  }

  /** Whatever follows it, an encoded reply parses to its value and ends exactly where it ends. */
  lemma {:induction false} ParseEncoded(buf: Bytes, pos: nat, r: Reply)
    requires WellFormed(r) && At(buf, pos, Encode(r))
    ensures Parse(buf, pos) == Parsed(ValueOf(r), pos + |Encode(r)|)
    decreases r, 1
  {
    hide Parse, ParseItems, Header, FindCrlf, HasCrlf;
    match r
    case Simple(b) => ParseLine(buf, pos, PLUS, b);
    case Error(b) => ParseLine(buf, pos, MINUS, b);
    case Integer(n) => ParseHeader(buf, pos, COLON, n);
    case Bulk(b) =>
      var head := Header(DOLLAR, |b|);
      assert Encode(r) == head + (b + CRLF);
      AtSplit(buf, pos, head, b + CRLF);
      ParseHeader(buf, pos, DOLLAR, |b|);
      AtSplit(buf, pos + |head|, b, CRLF);
    case NullBulk => ParseHeader(buf, pos, DOLLAR, -1);
    case Array(items) =>
      AtSplit(buf, pos, Header(STAR, |items|), EncodeAll(items));
      ParseHeader(buf, pos, STAR, |items|);
      ParseEncodedItems(buf, pos + |Header(STAR, |items|)|, items);
    case NullArray => ParseHeader(buf, pos, STAR, -1);
  }

  lemma {:induction false} ParseEncodedItems(buf: Bytes, cursor: nat, rs: seq<Reply>)
    requires (forall i :: 0 <= i < |rs| ==> WellFormed(rs[i])) && At(buf, cursor, EncodeAll(rs))
    ensures ParseItems(buf, cursor, |rs|) == Parsed(ValuesOf(rs), cursor + |EncodeAll(rs)|)
    decreases rs, 0
  {
    hide Parse, Encode, ValueOf, WellFormed, At;
    assert EncodeAll(rs) == if rs == [] then [] else Encode(rs[0]) + EncodeAll(rs[1..]);
    if rs != [] {
      AtSplit(buf, cursor, Encode(rs[0]), EncodeAll(rs[1..]));
      ParseEncoded(buf, cursor, rs[0]);
      ParseEncodedItems(buf, cursor + |Encode(rs[0])|, rs[1..]);
    }
  }

  // ---- an unfinished reply is recognised as such ----------------------------------------------------

  /** The buffer ends at or inside `e`, which starts at `pos` and is not complete. */
  predicate CutOff(buf: Bytes, pos: nat, e: Bytes) {
    pos <= |buf| < pos + |e| && buf[pos..] == e[..|buf| - pos]
  }

  lemma CutSplit(buf: Bytes, pos: nat, a: Bytes, b: Bytes)
    requires CutOff(buf, pos, a + b)
    ensures if |buf| < pos + |a| then CutOff(buf, pos, a) else At(buf, pos, a) && CutOff(buf, pos + |a|, b)
  {
    if |buf| < pos + |a| {
      assert (a + b)[..|buf| - pos] == a[..|buf| - pos];
    } else {
      assert buf[pos..pos + |a|] == buf[pos..][..|a|] == a;
      assert buf[pos + |a|..] == buf[pos..][|a|..] == b[..|buf| - pos - |a|];
    }
  }

  /** A line that is cut off has no CRLF yet. */
  lemma LineCut(buf: Bytes, pos: nat, kind: Byte, text: Bytes)
    requires CutOff(buf, pos, [kind] + text + CRLF) && kind != CR && !HasCrlf(text)
    ensures Parse(buf, pos) == Incomplete
  {
    var e := [kind] + text + CRLF;
    forall i | pos <= i < |buf| ensures buf[i] == e[i - pos] { assert buf[pos..][i - pos] == e[i - pos]; }
    forall i | pos <= i < |buf| - 1 ensures !(buf[i] == CR && buf[i + 1] == LF) {
      var j := i - pos;
      if j > 0 { assert e[j] == text[j - 1]; if j < |text| { assert e[j + 1] == text[j]; } }
    }
  }

  lemma {:induction false} ParseCut(buf: Bytes, pos: nat, r: Reply)
    requires WellFormed(r) && CutOff(buf, pos, Encode(r))
    ensures Parse(buf, pos) == Incomplete
    decreases r, 1
  {
    hide Parse, ParseItems, Header, FindCrlf, HasCrlf;
    match r
    case Simple(b) => LineCut(buf, pos, PLUS, b);
    case Error(b) => LineCut(buf, pos, MINUS, b);
    case Integer(n) => HeaderCut(buf, pos, COLON, n);
    case Bulk(b) =>
      var head := Header(DOLLAR, |b|);
      assert Encode(r) == head + (b + CRLF);
      CutSplit(buf, pos, head, b + CRLF);
      if |buf| < pos + |head| { HeaderCut(buf, pos, DOLLAR, |b|); }
      else { ParseHeader(buf, pos, DOLLAR, |b|); }
    case NullBulk => HeaderCut(buf, pos, DOLLAR, -1);
    case Array(items) =>
      var head := Header(STAR, |items|);
      CutSplit(buf, pos, head, EncodeAll(items));
      if |buf| < pos + |head| { HeaderCut(buf, pos, STAR, |items|); }
      else {
        ParseHeader(buf, pos, STAR, |items|);
        ParseItemsCut(buf, pos + |head|, items);
      }
    case NullArray => HeaderCut(buf, pos, STAR, -1);
  }

  lemma HeaderCut(buf: Bytes, pos: nat, kind: Byte, n: int)
    requires CutOff(buf, pos, Header(kind, n)) && kind != CR
    ensures Parse(buf, pos) == Incomplete
  {
    DecimalLine(n);
    hide Parse, HasCrlf;
    LineCut(buf, pos, kind, Decimal(n));
  }

  lemma {:induction false} ParseItemsCut(buf: Bytes, cursor: nat, rs: seq<Reply>)
    requires (forall i :: 0 <= i < |rs| ==> WellFormed(rs[i])) && CutOff(buf, cursor, EncodeAll(rs))
    ensures ParseItems(buf, cursor, |rs|) == Incomplete
    decreases rs, 0
  {
    CutSplit(buf, cursor, Encode(rs[0]), EncodeAll(rs[1..]));
    if |buf| < cursor + |Encode(rs[0])| {
      ParseCut(buf, cursor, rs[0]);
    } else {
      ParseEncoded(buf, cursor, rs[0]);
      ParseItemsCut(buf, cursor + |Encode(rs[0])|, rs[1..]);
    }
  }
}
