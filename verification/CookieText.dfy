/** String helpers of the cookie code: trim, split, lower case, decimal numbers. */
module CookieText {
  import opened OptionType
  import opened Text
  import Resp

  /** What String.prototype.trim removes. */
  predicate White(c: char) {
    var n := c as int;
    9 <= n <= 13 || n == 32 || n == 0xA0 || n == 0x1680 || 0x2000 <= n <= 0x200A
    || n == 0x2028 || n == 0x2029 || n == 0x202F || n == 0x205F || n == 0x3000 || n == 0xFEFF
  }

  function TrimStart(s: string): string {
    if s != [] && White(s[0]) then TrimStart(s[1..]) else s
  }

  function TrimEnd(s: string): string {
    if s != [] && White(s[|s| - 1]) then TrimEnd(s[..|s| - 1]) else s
  }

  function Trim(s: string): string { TrimEnd(TrimStart(s)) }

  predicate Trimmed(s: string) { s == [] || (!White(s[0]) && !White(s[|s| - 1])) }

  lemma TrimTrimmed(s: string)
    requires Trimmed(s)
    ensures Trim(s) == s && Trim(" " + s) == s
  {
    assert (" " + s)[1..] == s;
  }

  /** Trimming leaves exactly the trimmed strings alone. */
  lemma TrimFixesExactlyTrimmed(s: string)
    ensures Trim(s) == s <==> Trimmed(s)
  {
    if Trimmed(s) {
      TrimTrimmed(s);
    } else {
      TrimStartShorter(s);
      TrimEndShorter(TrimStart(s));
    }
  }

  lemma {:induction false} TrimStartShorter(s: string)
    ensures |TrimStart(s)| <= |s| && (s != [] && White(s[0]) ==> |TrimStart(s)| < |s|)
    ensures s != [] && !White(s[0]) ==> TrimStart(s) == s
  {
    if s != [] && White(s[0]) { TrimStartShorter(s[1..]); }
  }

  lemma {:induction false} TrimEndShorter(s: string)
    ensures |TrimEnd(s)| <= |s| && (s != [] && White(s[|s| - 1]) ==> |TrimEnd(s)| < |s|)
  {
    if s != [] && White(s[|s| - 1]) { TrimEndShorter(s[..|s| - 1]); }
  }

  /** String.prototype.split on one character. */
  function Split(s: string, c: char): (r: seq<string>)
    ensures r != []
    decreases |s|
  {
    var n := IndexOf(s, c);
    if n == |s| then [s] else [s[..n]] + Split(s[n + 1..], c)
  }

  lemma SplitFirst(first: string, rest: string, c: char)
    requires Lacks(first, c)
    ensures Split(first, c) == [first]
    ensures Split(first + [c] + rest, c) == [first] + Split(rest, c)
  {
    IndexOfIs(first, c, |first|);
    var s := first + [c] + rest;
    IndexOfIs(s, c, |first|);
    assert s[..|first|] == first && s[|first| + 1..] == rest;
  }

  /** The pieces with the separator in front of all but the first. */
  function Glue(first: string, rest: seq<string>, c: char): string
    decreases |rest|
  {
    if rest == [] then first else first + [c] + Glue(rest[0], rest[1..], c)
  }

  lemma {:induction false} SplitGlue(first: string, rest: seq<string>, c: char)
    requires Lacks(first, c) && forall i :: 0 <= i < |rest| ==> Lacks(rest[i], c)
    ensures Split(Glue(first, rest, c), c) == [first] + rest
    decreases |rest|
  {
    if rest == [] {
      SplitFirst(first, [], c);
    } else {
      SplitGlue(rest[0], rest[1..], c);
      SplitFirst(first, Glue(rest[0], rest[1..], c), c);
      assert [rest[0]] + rest[1..] == rest;
    }
  }

  /** ASCII letters only: no other character lower-cases into the names compared against. */
  function Lower(s: string): string {
    seq(|s|, i requires 0 <= i < |s| => if 'A' <= s[i] <= 'Z' then s[i] - 'A' + 'a' else s[i])
  }

  // ---- decimal numbers ------------------------------------------------------------------------------------

  function Ascii(b: Resp.Bytes): string { seq(|b|, i requires 0 <= i < |b| => b[i] as char) }

  function DecimalText(n: int): string { Ascii(Resp.Decimal(n)) }

  /** Number(text) where it is a decimal integer, or 0 for the empty text; None for any other text. */
  function NumberOf(s: string): Option<int> {
    if s == [] then Some(0)
    else if exists i :: 0 <= i < |s| && s[i] as int >= 256 then None
    else
      var b: Resp.Bytes := seq(|s|, i requires 0 <= i < |s| => s[i] as int);
      Resp.NumberValue(b)
  }

  lemma NumberOfDecimal(n: int)
    ensures NumberOf(DecimalText(n)) == Some(n)
  {
    var b := Resp.Decimal(n);
    var s := DecimalText(n);
    Resp.NumberRoundTrip(n);
    var back: Resp.Bytes := seq(|s|, i requires 0 <= i < |s| => s[i] as int);
    assert back == b;
  }

  lemma DecimalTextPlain(n: int)
    ensures DecimalText(n) != [] && forall i :: 0 <= i < |DecimalText(n)| ==> DecimalText(n)[i] == '-' || '0' <= DecimalText(n)[i] <= '9'
  {
    var b := Resp.Decimal(n);
    assert forall i :: 0 <= i < |b| ==> b[i] == 45 || 48 <= b[i] <= 57;
  }
}
