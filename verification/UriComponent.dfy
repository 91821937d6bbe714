/**
  encodeURIComponent and decodeURIComponent over real UTF-8 (RFC 3629, section 3; RFC 3986, section
  2.1). Strings are sequences of Unicode scalar values.
 */
module UriComponent {
  import opened OptionType

  // ---- one byte as %XX ---------------------------------------------------------------------------------

  function HexDigit(d: int): (c: char)
    requires 0 <= d < 16
    ensures '0' <= c <= '9' || 'A' <= c <= 'F'
    ensures HexValue(c) == Some(d)
  {
    if d < 10 then '0' + d as char else 'A' + (d - 10) as char
  }

  /** Either case of letter is read. */
  function HexValue(c: char): (d: Option<int>)
    ensures d.Some? ==> 0 <= d.value < 16
  {
    if '0' <= c <= '9' then Some(c as int - '0' as int)
    else if 'A' <= c <= 'F' then Some(c as int - 'A' as int + 10)
    else if 'a' <= c <= 'f' then Some(c as int - 'a' as int + 10)
    else None
  }

  function Percent(b: int): (s: string)
    requires 0 <= b < 256
    ensures |s| == 3 && s[0] == '%'
  {
    ['%', HexDigit(b / 16), HexDigit(b % 16)]
  }

  /** The byte that %XX at this position stands for. */
  function ByteAt(s: string, i: nat): (b: Option<int>)
    ensures b.Some? ==> i + 3 <= |s| && 0 <= b.value < 256
  {
    if i + 3 > |s| || s[i] != '%' then None
    else
      var hi, lo := HexValue(s[i + 1]), HexValue(s[i + 2]);
      if hi.None? || lo.None? then None else Some(hi.value * 16 + lo.value)
  }

  /** `e` stands in `s` at position `i`. */
  predicate At(s: string, i: nat, e: string) {
    i + |e| <= |s| && forall k :: 0 <= k < |e| ==> s[i + k] == e[k]
  }

  lemma AtSplit(s: string, i: nat, a: string, b: string)
    requires At(s, i, a + b)
    ensures At(s, i, a) && At(s, i + |a|, b)
  {
    assert forall k :: 0 <= k < |a| ==> (a + b)[k] == a[k];
    assert forall k :: 0 <= k < |b| ==> (a + b)[|a| + k] == b[k];
  }

  lemma PercentAt(s: string, i: nat, b: int)
    requires 0 <= b < 256 && At(s, i, Percent(b))
    ensures ByteAt(s, i) == Some(b)
  {
    assert s[i + 0] == Percent(b)[0] && s[i + 1] == Percent(b)[1] && s[i + 2] == Percent(b)[2];
  }

  // ---- one character as UTF-8 -----------------------------------------------------------------------------

  predicate Scalar(n: int) { 0 <= n < 0xD800 || 0xE000 <= n < 0x110000 }

  function Utf8(n: int): (b: seq<int>)
    requires Scalar(n)
    ensures 1 <= |b| <= 4 && forall i :: 0 <= i < |b| ==> 0 <= b[i] < 256
  {
    if n < 0x80 then [n]
    else if n < 0x800 then [0xC0 + n / 64, 0x80 + n % 64]
    else if n < 0x10000 then [0xE0 + n / 4096, 0x80 + n / 64 % 64, 0x80 + n % 64]
    else [0xF0 + n / 262144, 0x80 + n / 4096 % 64, 0x80 + n / 64 % 64, 0x80 + n % 64]
  }

  /** Six bits from a continuation byte. */
  function Tail(b: Option<int>): (v: Option<int>)
    ensures v.Some? ==> 0 <= v.value < 64
  {
    if b.Some? && 0x80 <= b.value < 0xC0 then Some(b.value - 0x80) else None
  }

  /** The shortest form only, no surrogates, nothing beyond the last plane. */
  function Checked(n: int, least: int, length: nat): Option<(int, nat)> {
    if n >= least && Scalar(n) then Some((n, length)) else None
  }

  /** The escape sequence at a position: the character it stands for and its length in characters. */
  function EscapeAt(s: string, i: nat): (r: Option<(int, nat)>)
    ensures r.Some? ==> Scalar(r.value.0) && 0 < r.value.1 && i + r.value.1 <= |s|
  {
    var b := ByteAt(s, i);
    if b.None? then None
    else
      var b0 := b.value;
      if b0 < 0x80 then Some((b0, 3))
      else if 0xC0 <= b0 < 0xE0 then
        var t1 := Tail(ByteAt(s, i + 3));
        if t1.None? then None else Checked((b0 - 0xC0) * 64 + t1.value, 0x80, 6)
      else if 0xE0 <= b0 < 0xF0 then
        var t1, t2 := Tail(ByteAt(s, i + 3)), Tail(ByteAt(s, i + 6));
        if t1.None? || t2.None? then None
        else Checked((b0 - 0xE0) * 4096 + t1.value * 64 + t2.value, 0x800, 9)
      else if 0xF0 <= b0 < 0xF8 then
        var t1, t2, t3 := Tail(ByteAt(s, i + 3)), Tail(ByteAt(s, i + 6)), Tail(ByteAt(s, i + 9));
        if t1.None? || t2.None? || t3.None? then None
        else Checked((b0 - 0xF0) * 262144 + t1.value * 4096 + t2.value * 64 + t3.value, 0x10000, 12)
      else None
  }

  function PercentAll(b: seq<int>): (s: string)
    requires forall i :: 0 <= i < |b| ==> 0 <= b[i] < 256
    ensures |s| == 3 * |b|
  {
    if b == [] then [] else Percent(b[0]) + PercentAll(b[1..])
  }

  lemma {:induction false} BytesAt(s: string, i: nat, b: seq<int>, k: nat)
    requires (forall j :: 0 <= j < |b| ==> 0 <= b[j] < 256) && At(s, i, PercentAll(b)) && k < |b|
    ensures ByteAt(s, i + 3 * k) == Some(b[k])
    decreases k
  {
    hide ByteAt, Percent, At;
    AtSplit(s, i, Percent(b[0]), PercentAll(b[1..]));
    if k == 0 { PercentAt(s, i, b[0]); }
    else { BytesAt(s, i + 3, b[1..], k - 1); }
  }

  /** The bytes of `n` read back to `n`, given that they stand there. */
  lemma EscapeFromBytes(s: string, i: nat, n: int)
    requires Scalar(n)
    requires var b := Utf8(n);
      && ByteAt(s, i) == Some(b[0])
      && (|b| >= 2 ==> ByteAt(s, i + 3) == Some(b[1]))
      && (|b| >= 3 ==> ByteAt(s, i + 6) == Some(b[2]))
      && (|b| >= 4 ==> ByteAt(s, i + 9) == Some(b[3]))
    ensures EscapeAt(s, i) == Some((n, 3 * |Utf8(n)|))
  {
    hide ByteAt;
    if n < 0x80 {
    } else if n < 0x800 {
      assert n / 64 * 64 + n % 64 == n;
    } else if n < 0x10000 {
      assert n / 4096 * 4096 + n / 64 % 64 * 64 + n % 64 == n;
    } else {
      EscapeFromFour(s, i, n);
    }
  }

  lemma EscapeFromFour(s: string, i: nat, n: int)
    requires 0x10000 <= n < 0x110000
    requires ByteAt(s, i) == Some(0xF0 + n / 262144) && ByteAt(s, i + 3) == Some(0x80 + n / 4096 % 64)
    requires ByteAt(s, i + 6) == Some(0x80 + n / 64 % 64) && ByteAt(s, i + 9) == Some(0x80 + n % 64)
    ensures EscapeAt(s, i) == Some((n, 12))
  {
    hide ByteAt, Tail;
    FourBytes(n);
    TailOf(n / 4096 % 64);
    TailOf(n / 64 % 64);
    TailOf(n % 64);
  }

  lemma TailOf(v: int)
    requires 0 <= v < 64
    ensures Tail(Some(0x80 + v)) == Some(v)
  {}

  lemma FourBytes(n: int)
    requires 0x10000 <= n < 0x110000
    ensures n / 262144 * 262144 + n / 4096 % 64 * 4096 + n / 64 % 64 * 64 + n % 64 == n
  {}

  lemma EscapeRoundTrip(s: string, i: nat, n: int)
    requires Scalar(n) && At(s, i, PercentAll(Utf8(n)))
    ensures EscapeAt(s, i) == Some((n, 3 * |Utf8(n)|))
  {
    var b := Utf8(n);
    hide *;
    BytesAt(s, i, b, 0);
    if |b| >= 2 { BytesAt(s, i, b, 1); }
    if |b| >= 3 { BytesAt(s, i, b, 2); }
    if |b| >= 4 { BytesAt(s, i, b, 3); }
    EscapeFromBytes(s, i, n);
  }

  // ---- whole strings ------------------------------------------------------------------------------------------

  /** Letters, digits and - _ . ! ~ * ' ( ) stand for themselves. */
  predicate Unreserved(c: char) {
    'A' <= c <= 'Z' || 'a' <= c <= 'z' || '0' <= c <= '9' || c in "-_.!~*'()"
  }

  function EncodeChar(c: char): (s: string)
    ensures s != []
  {
    if Unreserved(c) then [c] else PercentAll(Utf8(c as int))
  }

  function Encode(s: string): string {
    if s == [] then [] else EncodeChar(s[0]) + Encode(s[1..])
  }

  /** None is the URIError of a malformed sequence. */
  function DecodeFrom(s: string, i: nat): Option<string>
    requires i <= |s|
    decreases |s| - i
  {
    if i == |s| then Some([])
    else if s[i] != '%' then
      var rest := DecodeFrom(s, i + 1);
      if rest.None? then None else Some([s[i]] + rest.value)
    else
      var c := EscapeAt(s, i);
      if c.None? then None
      else
        var rest := DecodeFrom(s, i + c.value.1);
        if rest.None? then None else Some([c.value.0 as char] + rest.value)
  }

  function Decode(s: string): Option<string> { DecodeFrom(s, 0) }

  lemma DecodeOne(s: string, i: nat, c: char)
    requires At(s, i, EncodeChar(c))
    ensures var rest := DecodeFrom(s, i + |EncodeChar(c)|);
      rest.Some? ==> DecodeFrom(s, i) == Some([c] + rest.value)
  {
    var e := EncodeChar(c);
    assert s[i + 0] == e[0];
    if Unreserved(c) {
    } else {
      EscapeRoundTrip(s, i, c as int);
      FirstIsPercent(c);
      hide Utf8, PercentAll, EscapeAt;
    }
  }

  lemma EncodeUnfold(t: string)
    ensures if t == [] then Encode(t) == [] else Encode(t) == EncodeChar(t[0]) + Encode(t[1..])
  {
    hide EncodeChar;
  }

  lemma DecodeEnd(s: string)
    ensures DecodeFrom(s, |s|) == Some([])
  {}

  lemma {:induction false} DecodeEncodedFrom(s: string, i: nat, t: string)
    requires At(s, i, Encode(t)) && i + |Encode(t)| == |s|
    ensures DecodeFrom(s, i) == Some(t)
    decreases |t|
  {
    hide *;
    EncodeUnfold(t);
    if t == [] {
      DecodeEnd(s);
    } else {
      var c, rest := t[0], t[1..];
      AtSplit(s, i, EncodeChar(c), Encode(rest));
      DecodeEncodedFrom(s, i + |EncodeChar(c)|, rest);
      DecodeOne(s, i, c);
      assert t == [c] + rest;
    }
  }

  lemma FirstIsPercent(c: char)
    requires !Unreserved(c)
    ensures EncodeChar(c)[0] == '%' && |EncodeChar(c)| == 3 * |Utf8(c as int)|
  {
    var b := Utf8(c as int);
    assert PercentAll(b)[0] == Percent(b[0])[0];
  }

  /** Decoding undoes encoding, for every string. */
  lemma DecodeEncode(s: string)
    ensures Decode(Encode(s)) == Some(s)
  {
    DecodeEncodedFrom(Encode(s), 0, s);
  }

  /** An encoded string is made of unreserved characters and percent signs. */
  predicate Plain(s: string) { forall i :: 0 <= i < |s| ==> Unreserved(s[i]) || s[i] == '%' }

  lemma {:induction false} PercentAllPlain(b: seq<int>)
    requires forall i :: 0 <= i < |b| ==> 0 <= b[i] < 256
    ensures Plain(PercentAll(b))
  {
    if b != [] {
      PercentAllPlain(b[1..]);
      assert Plain(Percent(b[0]));
    }
  }

  lemma {:induction false} EncodePlain(s: string)
    ensures Plain(Encode(s))
  {
    if s != [] {
      EncodePlain(s[1..]);
      if !Unreserved(s[0]) { PercentAllPlain(Utf8(s[0] as int)); }
    }
  }

  /** A string without a percent sign decodes to itself. */
  lemma {:induction false} DecodeUnescaped(s: string, i: nat)
    requires i <= |s| && forall k :: i <= k < |s| ==> s[k] != '%'
    ensures DecodeFrom(s, i) == Some(s[i..])
    decreases |s| - i
  {
    if i < |s| {
      DecodeUnescaped(s, i + 1);
      assert s[i..] == [s[i]] + s[i + 1..];
    }
  }

  // ---- what decoding accepts -------------------------------------------------------------------------------------

  /** What must be escaped: everything beyond ASCII, the control characters, and these. */
  lemma UnreservedMeans(c: char)
    ensures Unreserved(c) <==> ' ' < c < 0x7F as char && c !in "\"#$%&+,/:;<=>?@[\\]^`{|}"
  {
    assert c in "-_.!~*'()" <==> c == '-' || c == '_' || c == '.' || c == '!' || c == '~' || c == '*' || c == '\'' || c == '(' || c == ')';
  }

  lemma HexValueMeans(c: char, d: int)
    ensures HexValue(c) == Some(d) <==> 0 <= d < 16 && (c == "0123456789ABCDEF"[d] || c == "0123456789abcdef"[d])
  {}

  /** The examples of RFC 3629, section 7. */
  lemma Utf8Examples()
    ensures Utf8(0x20) == [0x20] && Utf8(0x41) == [0x41] && Utf8(0x391) == [0xCE, 0x91] && Utf8(0x2262) == [0xE2, 0x89, 0xA2]
    ensures Utf8(0xD55C) == [0xED, 0x95, 0x9C] && Utf8(0x65E5) == [0xE6, 0x97, 0xA5] && Utf8(0x233B4) == [0xF0, 0xA3, 0x8E, 0xB4]
  {}

  lemma EncodeExamples()
    ensures EncodeChar(' ') == "%20" && EncodeChar(0x391 as char) == "%CE%91"
  {
    assert PercentAll([0x20]) == Percent(0x20) + PercentAll([]);
    assert PercentAll([0x91]) == Percent(0x91) + PercentAll([]);
    assert [0xCE, 0x91][1..] == [0x91];
    assert PercentAll([0xCE, 0x91]) == Percent(0xCE) + PercentAll([0x91]);
  }

  /** A character stands for itself, or is spelled by the escapes of its UTF-8 bytes, in either case of hex digits. */
  predicate SpellsChar(p: string, c: char) {
    || (p == [c] && c != '%')
    || (var b := Utf8(c as int);
        |p| == 3 * |b| && forall k :: 0 <= k < |b| ==> ByteAt(p, 3 * k) == Some(b[k]))
  }

  ghost predicate Spells(s: string, t: string)
    decreases |t|
  {
    if t == [] then s == []
    else exists n: nat :: 0 < n <= |s| && SpellsChar(s[..n], t[0]) && Spells(s[n..], t[1..])
  }

  lemma ByteInPiece(s: string, i: nat, n: nat, k: nat)
    requires i + n <= |s| && k + 3 <= n
    ensures ByteAt(s[i..][..n], k) == ByteAt(s, i + k)
  {
    var p := s[i..][..n];
    assert p[k] == s[i + k] && p[k + 1] == s[i + k + 1] && p[k + 2] == s[i + k + 2];
  }

  /** Only the shortest form is read, so the bytes read are those of the character's UTF-8 form. */
  lemma EscapeReads(s: string, i: nat)
    requires EscapeAt(s, i).Some?
    ensures var (n, length) := EscapeAt(s, i).value; var b := Utf8(n);
      length == 3 * |b| && forall k :: 0 <= k < |b| ==> ByteAt(s, i + 3 * k) == Some(b[k])
  {
    hide ByteAt;
    var (n, length) := EscapeAt(s, i).value;
    var b := Utf8(n);
    assert ByteAt(s, i + 0) == ByteAt(s, i);
    if n < 0x80 {
    } else if n < 0x800 {
      assert b == [0xC0 + n / 64, 0x80 + n % 64];
    } else if n < 0x10000 {
      var t1, t2 := Tail(ByteAt(s, i + 3)).value, Tail(ByteAt(s, i + 6)).value;
      assert n / 4096 == ByteAt(s, i).value - 0xE0 && n / 64 % 64 == t1 && n % 64 == t2;
    } else {
      FourBytesRead(ByteAt(s, i).value - 0xF0, Tail(ByteAt(s, i + 3)).value, Tail(ByteAt(s, i + 6)).value, Tail(ByteAt(s, i + 9)).value);
    }
  }

  lemma Quotient64(q: int, r: int)
    requires 0 <= r < 64
    ensures (q * 64 + r) / 64 == q && (q * 64 + r) % 64 == r
  {}

  lemma FourBytesRead(h: int, a: int, b: int, c: int)
    requires 0 <= h && 0 <= a < 64 && 0 <= b < 64 && 0 <= c < 64
    ensures var n := h * 262144 + a * 4096 + b * 64 + c;
      n / 262144 == h && n / 4096 % 64 == a && n / 64 % 64 == b && n % 64 == c
  {
    var n3 := h * 64 + a;
    var n2 := n3 * 64 + b;
    var n := n2 * 64 + c;
    Quotient64(h, a);
    Quotient64(n3, b);
    Quotient64(n2, c);
    assert n / 64 == n2 && n2 / 64 == n3 && n3 / 64 == h;
    assert n / 4096 == n3;
    assert n / 262144 == h;
  }

  lemma EscapeSpells(s: string, i: nat)
    requires i <= |s| && EscapeAt(s, i).Some?
    ensures var (n, length) := EscapeAt(s, i).value; SpellsChar(s[i..][..length], n as char)
  {
    EscapeReads(s, i);
    var (n, length) := EscapeAt(s, i).value;
    var b := Utf8(n);
    hide ByteAt, EscapeAt;
    forall k | 0 <= k < |b| ensures ByteAt(s[i..][..length], 3 * k) == Some(b[k]) {
      ByteInPiece(s, i, length, 3 * k);
    }
  }

  lemma SpelledEscape(s: string, i: nat, n: nat, c: char)
    requires i + n <= |s| && 0 < n && SpellsChar(s[i..][..n], c)
    ensures if s[i] == '%' then EscapeAt(s, i) == Some((c as int, n)) else n == 1 && s[i] == c
  {
    var p, b := s[i..][..n], Utf8(c as int);
    assert p[0] == s[i];
    if s[i] == '%' {
      assert forall k :: 0 <= k < |b| ==> ByteAt(p, 3 * k) == Some(b[k]);
      hide ByteAt, EscapeAt;
      forall k | 0 <= k < |b| ensures ByteAt(s, i + 3 * k) == Some(b[k]) {
        ByteInPiece(s, i, n, 3 * k);
      }
      assert ByteAt(s, i + 3 * 0) == Some(b[0]);
      if |b| >= 2 { assert ByteAt(s, i + 3 * 1) == Some(b[1]); }
      if |b| >= 3 { assert ByteAt(s, i + 3 * 2) == Some(b[2]); }
      if |b| >= 4 { assert ByteAt(s, i + 3 * 3) == Some(b[3]); }
      EscapeFromBytes(s, i, c as int);
    } else {
      assert ByteAt(p, 3 * 0) == None;
    }
  }

  lemma {:induction false} DecodeFromMeans(s: string, i: nat, t: string)
    requires i <= |s|
    ensures DecodeFrom(s, i) == Some(t) <==> Spells(s[i..], t)
    decreases |s| - i
  {
    hide EscapeAt, SpellsChar;
    if i == |s| {
      assert s[i..] == [];
    } else {
      var step := if s[i] != '%' then Some((s[i] as int, 1)) else EscapeAt(s, i);
      if DecodeFrom(s, i) == Some(t) {
        var n := step.value.1;
        DecodeFromMeans(s, i + n, t[1..]);
        FirstSpelled(s, i, step.value.0 as char, n, t);
      }
      if Spells(s[i..], t) {
        assert t != [] by { assert |s[i..]| > 0; }
        var n: nat :| 0 < n <= |s[i..]| && SpellsChar(s[i..][..n], t[0]) && Spells(s[i..][n..], t[1..]);
        SpelledEscape(s, i, n, t[0]);
        assert s[i..][n..] == s[i + n..];
        DecodeFromMeans(s, i + n, t[1..]);
        assert t == [t[0]] + t[1..];
      }
    }
  }

  lemma FirstSpelled(s: string, i: nat, c: char, n: nat, t: string)
    requires i < |s| && t != [] && t[0] == c && 0 < n && i + n <= |s| && Spells(s[i + n..], t[1..])
    requires if s[i] != '%' then c == s[i] && n == 1 else EscapeAt(s, i) == Some((c as int, n))
    ensures Spells(s[i..], t)
  {
    hide EscapeAt;
    if s[i] == '%' { EscapeSpells(s, i); } else { assert s[i..][..1] == [c]; }
    assert s[i..][n..] == s[i + n..];
    assert SpellsChar(s[i..][..n], t[0]) && Spells(s[i..][n..], t[1..]);
  }

  /** Decoding succeeds exactly on the spellings of a string: no overlong form, no surrogate, nothing cut short. */
  lemma DecodeMeans(s: string, t: string)
    ensures Decode(s) == Some(t) <==> Spells(s, t)
  {
    assert s[0..] == s;
    DecodeFromMeans(s, 0, t);
  }
}
