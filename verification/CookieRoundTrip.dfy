/** What a Set-Cookie line or a Cookie header says to its reader is what was written. */
module CookieRoundTrip {
  import opened OptionType
  import opened CookieText
  import opened Text
  import opened Cookies

  // ---- Set-Cookie -------------------------------------------------------------------------------------------

  lemma PairLacksSemicolon(name: string, value: string)
    requires Token(name)
    ensures Lacks(Pair(name, value), ';') && Lacks(" " + Pair(name, value), ';')
  {
    EncodedValuePlain(value);
    forall i | 0 <= i < |Pair(name, value)| ensures Pair(name, value)[i] != ';' {
      if i < |name| { assert TokenChar(name[i]); }
      else if i > |name| { assert ValueChar(EncodeValue(value)[i - |name| - 1]); }
    }
    assert forall i :: 0 < i < |" " + Pair(name, value)| ==> (" " + Pair(name, value))[i] == Pair(name, value)[i - 1];
  }

  lemma LacksConcat(a: string, b: string, c: char)
    requires Lacks(a, c) && Lacks(b, c)
    ensures Lacks(a + b, c)
  {}

  lemma TextsLackSemicolons(s: SameSite, p: Priority)
    ensures Lacks(SiteText(s), ';') && Lacks(PriorityText(p), ';')
  {}

  lemma AttributesLackSemicolons(name: string, value: string, o: Options)
    requires Refusal(name, o).None?
    ensures forall i :: 0 <= i < |Attributes(o)| ==> Lacks(Attributes(o)[i], ';')
  {
    if HasDomain(o) { LacksConcat(" Domain=", o.domain.value, ';'); }
    LacksConcat(" Path=", PathOf(o), ';');
    if o.maxAge.Some? {
      DecimalTextPlain(o.maxAge.value.Floor);
      LacksConcat(" Max-Age=", DecimalText(o.maxAge.value.Floor), ';');
    }
    TextsLackSemicolons(SiteOf(o), if o.priority.Some? then o.priority.value else Low);
    LacksConcat(" SameSite=", SiteText(SiteOf(o)), ';');
    if o.priority.Some? { LacksConcat(" Priority=", PriorityText(o.priority.value), ';'); }
    assert Lacks(" HttpOnly", ';') && Lacks(" Secure", ';') && Lacks(" Partitioned", ';');
    hide DecimalText, SiteText, PriorityText, Lacks;
    forall a | a in Attributes(o) ensures Lacks(a, ';') {}
  }

  lemma PairReads(name: string, value: string)
    requires Token(name)
    ensures FirstPair(Pair(name, value))
      == Cookie(name, DecodeValue(EncodeValue(value)), None, None, None, false, false, None, false, None)
  {
    var pair := Pair(name, value);
    NameReads(name, EncodeValue(value));
  }

  lemma NameReads(name: string, text: string)
    requires Token(name)
    ensures var pair := name + "=" + text;
      IndexOf(pair, '=') == |name| && pair[..|name|] == name && pair[|name| + 1..] == text && Trim(name) == name
  {
    TokenLacksEquals(name);
    SplitAtEquals(name, text);
    TrimTrimmed(name);
  }

  lemma TokenLacksEquals(name: string)
    requires Token(name)
    ensures Lacks(name, '=') && Trimmed(name)
  {
    assert forall i :: 0 <= i < |name| ==> TokenChar(name[i]);
    assert TokenChar(name[0]) && TokenChar(name[|name| - 1]);
  }

  lemma SplitAtEquals(left: string, right: string)
    requires Lacks(left, '=')
    ensures var s := left + "=" + right;
      IndexOf(s, '=') == |left| && s[..|left|] == left && s[|left| + 1..] == right
  {
    IndexOfIs(left + "=" + right, '=', |left|);
  }

  /** Reading the attributes one group after the other gives the intended cookie. */
  lemma AttributesRead(name: string, value: string, o: Options, c: Cookie)
    requires c == Cookie(name, DecodeValue(EncodeValue(value)), None, None, None, false, false, None, false, None)
    ensures ApplyAll(c, Attributes(o)) == Intended(name, value, o)
  {
    hide ApplyAll, ApplyKey, DecodeValue, EncodeValue, DecimalText, Trim, SiteText, PriorityText;
    var domain := if HasDomain(o) then [" Domain=" + o.domain.value] else [];
    var path := [" Path=" + PathOf(o)];
    var age := if o.maxAge.Some? then [" Max-Age=" + DecimalText(o.maxAge.value.Floor)] else [];
    var http := if HttpOnlyOf(o) then [" HttpOnly"] else [];
    var secure := if SecureOf(o) then [" Secure"] else [];
    var site := [" SameSite=" + SiteText(SiteOf(o))];
    var part := if o.partitioned then [" Partitioned"] else [];
    var prio := if o.priority.Some? then [" Priority=" + PriorityText(o.priority.value)] else [];
    assert Attributes(o) == domain + path + age + http + secure + site + part + prio;
    var c1 := if HasDomain(o) then c.(domain := Some(Trim(o.domain.value))) else c;
    var c2 := c1.(path := Some(Trim(PathOf(o))));
    var c3 := if o.maxAge.Some? then c2.(maxAge := Some(o.maxAge.value.Floor)) else c2;
    var c4 := if HttpOnlyOf(o) then c3.(httpOnly := true) else c3;
    var c5 := if SecureOf(o) then c4.(secure := true) else c4;
    var c6 := c5.(sameSite := Some(SiteOf(o)));
    var c7 := if o.partitioned then c6.(partitioned := true) else c6;
    var c8 := if o.priority.Some? then c7.(priority := Some(o.priority.value)) else c7;
    NothingRead(c); NothingRead(c2); NothingRead(c3); NothingRead(c4); NothingRead(c6); NothingRead(c7);
    if HasDomain(o) { ReadDomain(c, o.domain.value); }
    assert ApplyAll(c, domain) == c1;
    ReadPath(c1, PathOf(o));
    Onward(c, c1, c2, domain, path);
    if o.maxAge.Some? { ReadMaxAge(c2, o.maxAge.value.Floor); }
    Onward(c, c2, c3, domain + path, age);
    ReadHttpOnly(c3);
    Onward(c, c3, c4, domain + path + age, http);
    ReadSecure(c4);
    Onward(c, c4, c5, domain + path + age + http, secure);
    ReadSite(c5, SiteOf(o));
    Onward(c, c5, c6, domain + path + age + http + secure, site);
    ReadPartitioned(c6);
    Onward(c, c6, c7, domain + path + age + http + secure + site, part);
    if o.priority.Some? { ReadPriority(c7, o.priority.value); }
    Onward(c, c7, c8, domain + path + age + http + secure + site + part, prio);
    assert c8 == Intended(name, value, o);
  }

  lemma NothingRead(c: Cookie)
    ensures ApplyAll(c, []) == c
  {}

  lemma Onward(c: Cookie, d: Cookie, e: Cookie, a: seq<string>, b: seq<string>)
    requires ApplyAll(c, a) == d && ApplyAll(d, b) == e
    ensures ApplyAll(c, a + b) == e
  {
    ApplyConcat(c, a, b);
  }

  /**
    parseSetCookie inverts serializeCookie for every name, value and option set that is accepted:
    the attributes come back (trimmed, the age floored, defaults explicit), and the value comes back
    exactly when it is not a plain value that already contains a valid percent escape.
   */
  lemma SetCookieRoundTrip(name: string, value: string, o: Options)
    requires Serialize(name, value, o).Ok?
    ensures var c := ParseSetCookie(Serialize(name, value, o).line);
      && c == Intended(name, value, o)
      && (c.value == value <==> !Ambiguous(value))
  {
    hide Attributes, Pair, Ambiguous, DecodeValue, EncodeValue, ApplyAll, FirstPair, Intended, Glue, Split;
    AttributesLackSemicolons(name, value, o);
    PairLacksSemicolon(name, value);
    SplitGlue(Pair(name, value), Attributes(o), ';');
    PairReads(name, value);
    var c := FirstPair(Pair(name, value));
    AttributesRead(name, value, o, c);
    ValueRoundTrip(value);
    var segments := [Pair(name, value)] + Attributes(o);
    assert segments[0] == Pair(name, value) && segments[1..] == Attributes(o);
    IntendedValue(name, value, o);
  }

  lemma IntendedValue(name: string, value: string, o: Options)
    ensures Intended(name, value, o).value == DecodeValue(EncodeValue(value))
  {
    hide DecodeValue, EncodeValue, Trim;
  }

  // ---- the Cookie header ------------------------------------------------------------------------------------------

  /** One stretch of the header: a name that is not empty and not there yet gets the decoded value. */
  function AddCookie(out: map<string, string>, field: string): map<string, string> {
    var e := IndexOf(field, '=');
    var name := Trim(field[..e]);
    if e == |field| || name == [] || name in out then out
    else out[name := DecodeValue(field[e + 1..])]
  }

  function AddAll(out: map<string, string>, fields: seq<string>): map<string, string>
    decreases |fields|
  {
    if fields == [] then out else AddAll(AddCookie(out, fields[0]), fields[1..])
  }

  function ParseCookieHeader(header: string): map<string, string> {
    AddAll(map[], Split(header, ';'))
  }

  /** A header as clients write it: name=value pairs, with "; " between them. */
  function HeaderFields(cookies: seq<(string, string)>): seq<string> {
    if cookies == [] then []
    else [" " + Pair(cookies[0].0, cookies[0].1)] + HeaderFields(cookies[1..])
  }

  function Header(cookies: seq<(string, string)>): string
    requires cookies != []
  {
    Glue(Pair(cookies[0].0, cookies[0].1), HeaderFields(cookies[1..]), ';')
  }

  /** The first value of a name, if it occurs. */
  function FirstValue(cookies: seq<(string, string)>, name: string): Option<string> {
    if cookies == [] then None
    else if cookies[0].0 == name then Some(cookies[0].1)
    else FirstValue(cookies[1..], name)
  }

  lemma AddPair(out: map<string, string>, name: string, value: string, space: string)
    requires Token(name) && (space == [] || space == " ")
    ensures AddCookie(out, space + Pair(name, value)) ==
      if name in out then out else out[name := DecodeValue(EncodeValue(value))]
  {
    var text := EncodeValue(value);
    hide EncodeValue, DecodeValue;
    SpacedName(name, text, space);
    assert space + Pair(name, value) == (space + name) + "=" + text;
    hide Pair;
  }

  lemma SpacedName(name: string, text: string, space: string)
    requires Token(name) && (space == [] || space == " ")
    ensures var field, n := (space + name) + "=" + text, |space + name|;
      IndexOf(field, '=') == n && Trim(field[..n]) == name && field[n + 1..] == text
  {
    TokenLacksEquals(name);
    TrimTrimmed(name);
    hide Trim;
    SplitAtEquals(space + name, text);
    assert space == [] ==> space + name == name;
  }

  ghost predicate Names(cookies: seq<(string, string)>) {
    forall i :: 0 <= i < |cookies| ==> Token(cookies[i].0)
  }

  lemma {:induction false} AddFields(out: map<string, string>, cookies: seq<(string, string)>)
    requires Names(cookies)
    ensures var r := AddAll(out, HeaderFields(cookies));
      forall n :: (n in r <==> n in out || FirstValue(cookies, n).Some?)
        && (n in r ==> r[n] == if n in out then out[n] else DecodeValue(EncodeValue(FirstValue(cookies, n).value)))
    decreases |cookies|
  {
    hide DecodeValue, EncodeValue, Pair, AddCookie, Token;
    if cookies != [] {
      var (name, value) := cookies[0];
      assert Token(cookies[0].0);
      assert Names(cookies[1..]) by { assert forall i :: 0 <= i < |cookies[1..]| ==> cookies[1..][i] == cookies[i + 1]; }
      AddPair(out, name, value, " ");
      var fields := HeaderFields(cookies);
      assert fields[0] == " " + Pair(name, value) && fields[1..] == HeaderFields(cookies[1..]);
      AddFields(AddCookie(out, fields[0]), cookies[1..]);
    }
  }

  lemma {:induction false} HeaderFieldsLackSemicolons(cookies: seq<(string, string)>)
    requires Names(cookies)
    ensures forall i :: 0 <= i < |HeaderFields(cookies)| ==> Lacks(HeaderFields(cookies)[i], ';')
    decreases |cookies|
  {
    if cookies != [] {
      assert Token(cookies[0].0);
      PairLacksSemicolon(cookies[0].0, cookies[0].1);
      assert Names(cookies[1..]) by { assert forall i :: 0 <= i < |cookies[1..]| ==> cookies[1..][i] == cookies[i + 1]; }
      HeaderFieldsLackSemicolons(cookies[1..]);
    }
  }

  /**
    A header of serialized cookies, whatever duplicates it has, reads back as exactly its names, each
    with its first value, unchanged unless that value is ambiguous.
   */
  lemma HeaderRoundTrip(cookies: seq<(string, string)>, name: string)
    requires cookies != [] && Names(cookies)
    ensures var r := ParseCookieHeader(Header(cookies));
      && (name in r <==> FirstValue(cookies, name).Some?)
      && (name in r ==> (r[name] == FirstValue(cookies, name).value <==> !Ambiguous(FirstValue(cookies, name).value)))
  {
    hide DecodeValue, EncodeValue, Pair, AddCookie, Token, Ambiguous, Glue, Split, HeaderFields;
    var (first, value) := cookies[0];
    var rest := cookies[1..];
    assert Token(cookies[0].0);
    assert Names(rest) by { assert forall i :: 0 <= i < |rest| ==> rest[i] == cookies[i + 1]; }
    PairLacksSemicolon(first, value);
    HeaderFieldsLackSemicolons(rest);
    SplitGlue(Pair(first, value), HeaderFields(rest), ';');
    AddPair(map[], first, value, []);
    var fields := [Pair(first, value)] + HeaderFields(rest);
    assert fields[0] == [] + Pair(first, value) && fields[1..] == HeaderFields(rest);
    AddFields(AddCookie(map[], fields[0]), rest);
    if FirstValue(cookies, name).Some? { ValueRoundTrip(FirstValue(cookies, name).value); }
  }
}
