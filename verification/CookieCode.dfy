/** The cookie functions as the source writes them, step by step. */
module CookieCode {
  import opened OptionType
  import opened CookieText
  import opened Text
  import opened Cookies
  import opened CookieRoundTrip
  import U = UriComponent

  lemma {:induction false} GlueMore(first: string, rest: seq<string>, c: char, more: string)
    ensures Glue(first, rest + [more], c) == Glue(first, rest, c) + [c] + more
    decreases |rest|
  {
    if rest == [] {
      assert (rest + [more])[1..] == [];
    } else {
      assert (rest + [more])[1..] == rest[1..] + [more];
      GlueMore(rest[0], rest[1..], c, more);
    }
  }

  /** out += '; ' + attribute */
  method Add(out: string, ghost first: string, ghost done: seq<string>, text: string) returns (r: string)
    requires out == Glue(first, done, ';')
    ensures r == Glue(first, done + [text], ';')
  {
    GlueMore(first, done, ';', text);
    r := out + ";" + text;
  }

  method SerializeCookie(name: string, value: string, o: Options) returns (r: Result)
    ensures r == Serialize(name, value, o)
  {
    hide Glue, Token, PlainValue, LegalAttribute, SiteText, PriorityText, DecimalText;
    if !Token(name) { return Err(InvalidName); }
    var encoded := if PlainValue(value) then value else U.Encode(value);
    var out := name + "=" + encoded;
    ghost var pair := out;
    ghost var done: seq<string> := [];
    assert out == Glue(pair, done, ';') by { GlueNothing(out); }
    var sameSite := if o.sameSite.Some? then o.sameSite.value else Lax;
    var secure := o.secure;
    if sameSite == NoRestriction {
      if secure == Some(false) { return Err(NoneWithoutSecure); }
      secure := Some(true);
    }
    if o.domain.Some? && o.domain.value != [] {
      if !LegalAttribute(o.domain.value) { return Err(IllegalDomain); }
      out := Add(out, pair, done, " Domain=" + o.domain.value);
      done := done + [" Domain=" + o.domain.value];
    }
    var path := if o.path.Some? then o.path.value else "/";
    if !LegalAttribute(path) { return Err(IllegalPath); }
    out := Add(out, pair, done, " Path=" + path);
    done := done + [" Path=" + path];
    assert done == (if HasDomain(o) then [" Domain=" + o.domain.value] else []) + [" Path=" + PathOf(o)];
    r := AddRest(out, pair, done, sameSite, secure == Some(true), o);
  }

  lemma GlueNothing(s: string)
    ensures s == Glue(s, [], ';')
  {}

  /** From Max-Age on. */
  method AddRest(line: string, ghost pair: string, ghost before: seq<string>, sameSite: SameSite, secure: bool, o: Options)
    returns (r: Result)
    requires line == Glue(pair, before, ';') && sameSite == SiteOf(o) && secure == SecureOf(o)
    requires before == (if HasDomain(o) then [" Domain=" + o.domain.value] else []) + [" Path=" + PathOf(o)]
    ensures r == if o.partitioned && !secure then Err(PartitionedWithoutSecure) else Ok(Glue(pair, Attributes(o), ';'))
  {
    hide Glue, SiteText, PriorityText, DecimalText, LegalAttribute, Token;
    var out := line;
    if o.maxAge.Some? { out := Add(out, pair, before, " Max-Age=" + DecimalText(o.maxAge.value.Floor)); }
    ghost var done1 := before + if o.maxAge.Some? then [" Max-Age=" + DecimalText(o.maxAge.value.Floor)] else [];
    assert !o.maxAge.Some? ==> done1 == before;
    if o.httpOnly != Some(false) { out := Add(out, pair, done1, " HttpOnly"); }
    ghost var done2 := done1 + if HttpOnlyOf(o) then [" HttpOnly"] else [];
    assert !HttpOnlyOf(o) ==> done2 == done1;
    if secure { out := Add(out, pair, done2, " Secure"); }
    ghost var done3 := done2 + if SecureOf(o) then [" Secure"] else [];
    assert !SecureOf(o) ==> done3 == done2;
    out := Add(out, pair, done3, " SameSite=" + SiteText(sameSite));
    ghost var done4 := done3 + [" SameSite=" + SiteText(SiteOf(o))];
    r := AddLast(out, pair, done4, secure, o);
    assert Attributes(o) == done4 + LastAttributes(o);
  }

  function LastAttributes(o: Options): seq<string> {
    (if o.partitioned then [" Partitioned"] else [])
    + (if o.priority.Some? then [" Priority=" + PriorityText(o.priority.value)] else [])
  }

  method AddLast(line: string, ghost pair: string, ghost done: seq<string>, secure: bool, o: Options) returns (r: Result)
    requires line == Glue(pair, done, ';')
    ensures r == if o.partitioned && !secure then Err(PartitionedWithoutSecure) else Ok(Glue(pair, done + LastAttributes(o), ';'))
  {
    hide Glue, PriorityText;
    var out := line;
    if o.partitioned {
      if !secure { return Err(PartitionedWithoutSecure); }
      out := Add(out, pair, done, " Partitioned");
    }
    ghost var more := done + if o.partitioned then [" Partitioned"] else [];
    assert !o.partitioned ==> more == done;
    if o.priority.Some? { out := Add(out, pair, more, " Priority=" + PriorityText(o.priority.value)); }
    assert done + LastAttributes(o) == more + if o.priority.Some? then [" Priority=" + PriorityText(o.priority.value)] else [];
    assert !o.priority.Some? ==> done + LastAttributes(o) == more;
    return Ok(out);
  }

  /** The first segment is the cookie, every other one an attribute. */
  method ParseSetCookieLine(line: string) returns (cookie: Cookie)
    ensures cookie == ParseSetCookie(line)
  {
    hide Split, FirstPair, KeyOf, ValOf, SiteFrom, PriorityFrom, NumberOf;
    var segments := Split(line, ';');
    cookie := FirstPair(segments[0]);
    var i := 1;
    while i < |segments|
      invariant 1 <= i <= |segments|
      invariant ApplyAll(cookie, segments[i..]) == ParseSetCookie(line)
    {
      var key, val := KeyOf(segments[i]), ValOf(segments[i]);
      assert segments[i..][0] == segments[i] && segments[i..][1..] == segments[i + 1..];
      cookie := ApplyKey(cookie, key, val);
      i := i + 1;
    }
  }

  lemma SplitFrom(s: string, start: nat, end: nat)
    requires start <= end <= |s| && (end < |s| ==> s[end] == ';') && forall i :: start <= i < end ==> s[i] != ';'
    ensures Split(s[start..], ';') == [s[start..end]] + if end == |s| then [] else Split(s[end + 1..], ';')
  {
    var t := s[start..];
    IndexOfIs(t, ';', end - start);
    assert t[..end - start] == s[start..end];
    if end < |s| { assert t[end - start + 1..] == s[end + 1..]; }
    else { assert t == s[start..end] && [t] + [] == [t]; }
  }

  /** From semicolon to semicolon; a stretch whose first equals sign lies beyond its end is skipped. */
  method ParseHeader(header: string) returns (out: map<string, string>)
    ensures out == ParseCookieHeader(header)
  {
    hide DecodeValue, Trim, Split;
    out := map[];
    var start := 0;
    assert header[0..] == header;
    ghost var whole := ParseCookieHeader(header);
    while start < |header|
      invariant 0 <= start <= |header| + 1
      invariant start <= |header| ==> AddAll(out, Split(header[start..], ';')) == whole
      invariant start == |header| + 1 ==> out == whole
    {
      var end := start + IndexOf(header[start..], ';');
      var eq := start + IndexOf(header[start..], '=');
      SplitFrom(header, start, end);
      var field := header[start..end];
      ghost var rest := if end == |header| then [] else Split(header[end + 1..], ';');
      assert ([field] + rest)[0] == field && ([field] + rest)[1..] == rest;
      EqualsWithin(header, start, end, eq);
      ghost var before := out;
      if eq < end {
        var name := Trim(header[start..eq]);
        if name != [] && name !in out {
          out := out[name := DecodeValue(header[eq + 1..end])];
        }
      }
      assert out == AddCookie(before, field);
      start := end + 1;
    }
    if start == |header| { EmptyTail(out, header); }
  }

  lemma EqualsWithin(s: string, start: nat, end: nat, eq: nat)
    requires start <= end <= |s| && eq == start + IndexOf(s[start..], '=')
    ensures IndexOf(s[start..end], '=') == if eq < end then eq - start else end - start
    ensures eq < end ==> s[start..end][..eq - start] == s[start..eq] && s[start..end][eq - start + 1..] == s[eq + 1..end]
  {
    var t := s[start..];
    var f := s[start..end];
    assert forall i :: 0 <= i < |f| ==> f[i] == t[i];
    IndexOfIs(f, '=', if eq < end then eq - start else end - start);
  }

  lemma EmptyTail(out: map<string, string>, header: string)
    ensures AddAll(out, Split(header[|header|..], ';')) == out
  {
    var fields := Split(header[|header|..], ';');
    assert fields == [[]];
    assert fields[1..] == [];
  }

  // ---- signing ----------------------------------------------------------------------------------------------

  /** No secret, no signature. The code of a value is text without a dot, as base64url is. */
  function Sign(mac: (string, string) -> string, value: string, secret: string): Option<string> {
    if secret == [] then None else Some("s:" + value + "." + mac(value, secret))
  }

  ghost predicate DotFree(mac: (string, string) -> string) {
    forall v, k :: Lacks(mac(v, k), '.')
  }

  /** lastIndexOf, or -1. */
  function LastIndexOf(s: string, c: char): (n: int)
    ensures -1 <= n < |s| && (n >= 0 ==> s[n] == c)
    ensures forall i :: n < i < |s| ==> s[i] != c
  {
    if s == [] then -1 else if s[|s| - 1] == c then |s| - 1 else LastIndexOf(s[..|s| - 1], c)
  }

  lemma {:induction false} LastIndexIs(s: string, c: char, n: nat)
    requires n < |s| && s[n] == c && forall i :: n < i < |s| ==> s[i] != c
    ensures LastIndexOf(s, c) == n
    decreases |s|
  {
    if n < |s| - 1 { LastIndexIs(s[..|s| - 1], c, n); }
  }

  /** The value, if one of the secrets confirms it. */
  method Unsign(mac: (string, string) -> string, signed: string, secrets: seq<string>) returns (r: Option<string>)
    requires DotFree(mac)
    ensures r.Some? ==> exists i :: 0 <= i < |secrets| && Sign(mac, r.value, secrets[i]) == Some(signed)
    ensures forall v, i :: 0 <= i < |secrets| && Sign(mac, v, secrets[i]) == Some(signed) ==> r == Some(v)
  {
    var dot := LastIndexOf(signed, '.');
    if !("s:" <= signed) || dot < 2 {
      forall v, i | 0 <= i < |secrets| && Sign(mac, v, secrets[i]) == Some(signed) ensures false {
        SignedShape(mac, v, secrets[i], signed);
      }
      return None;
    }
    var value, given := signed[2..dot], signed[dot + 1..];
    assert signed == "s:" + value + "." + given;
    var i := 0;
    while i < |secrets|
      invariant 0 <= i <= |secrets|
      invariant forall j :: 0 <= j < i ==> !(secrets[j] != [] && mac(value, secrets[j]) == given)
    {
      if secrets[i] != [] && mac(value, secrets[i]) == given {
        forall v, j | 0 <= j < |secrets| && Sign(mac, v, secrets[j]) == Some(signed) ensures v == value {
          SignedShape(mac, v, secrets[j], signed);
        }
        assert Sign(mac, value, secrets[i]) == Some(signed);
        return Some(value);
      }
      i := i + 1;
    }
    forall v, j | 0 <= j < |secrets| && Sign(mac, v, secrets[j]) == Some(signed) ensures false {
      SignedShape(mac, v, secrets[j], signed);
    }
    return None;
  }

  /** A signature's last dot separates the value, whatever dots the value has itself. */
  lemma SignedShape(mac: (string, string) -> string, value: string, secret: string, signed: string)
    requires DotFree(mac) && Sign(mac, value, secret) == Some(signed)
    ensures "s:" <= signed && LastIndexOf(signed, '.') == |value| + 2
    ensures signed[2..|value| + 2] == value && signed[|value| + 3..] == mac(value, secret) && secret != []
  {
    var m := mac(value, secret);
    assert Lacks(m, '.');
    assert signed == "s:" + value + "." + m;
    SignedParts(value, m);
  }

  lemma SignedParts(value: string, m: string)
    requires Lacks(m, '.')
    ensures var s := "s:" + value + "." + m;
      && "s:" <= s && LastIndexOf(s, '.') == |value| + 2
      && s[2..|value| + 2] == value && s[|value| + 3..] == m
  {
    var s := "s:" + value + "." + m;
    forall i | |value| + 2 < i < |s| ensures s[i] != '.' { assert s[i] == m[i - |value| - 3]; }
    LastIndexIs(s, '.', |value| + 2);
  }
}
