/** What the cookie functions accept, write and read, said of the options and texts themselves. */
module CookieMeaning {
  import opened OptionType
  import opened CookieText
  import opened Text
  import opened Cookies
  import opened CookieRoundTrip
  import U = UriComponent

  // ---- characters and pieces -------------------------------------------------------------------------------

  /** Visible ASCII without the delimiters of RFC 9110, section 5.6.2. */
  lemma TokenCharMeans(c: char)
    ensures TokenChar(c) <==> ' ' < c < 0x7F as char && c !in "\"(),/:;<=>?@[\\]{}"
  {
    var n := c as int;
    assert c in "!#$%&'*+-.^_`|~" <==>
      (n == 0x21 || 0x23 <= n <= 0x27 || n == 0x2A || n == 0x2B || n == 0x2D || n == 0x2E || 0x5E <= n <= 0x60 || n == 0x7C || n == 0x7E);
    assert c in "\"(),/:;<=>?@[\\]{}" <==>
      (n == 0x22 || n == 0x28 || n == 0x29 || n == 0x2C || n == 0x2F || 0x3A <= n <= 0x40 || 0x5B <= n <= 0x5D || n == 0x7B || n == 0x7D);
  }

  lemma ValueCharMeans(c: char)
    ensures ValueChar(c) <==> ' ' < c < 0x7F as char && c !in "\",;\\"
  {}

  /** White space and line terminators of ECMAScript, one by one. */
  lemma WhiteMeans(c: char)
    ensures White(c) <==> c as int in [0x09, 0x0A, 0x0B, 0x0C, 0x0D, 0x20, 0xA0, 0x1680, 0x2000, 0x2001, 0x2002, 0x2003, 0x2004, 0x2005,
      0x2006, 0x2007, 0x2008, 0x2009, 0x200A, 0x2028, 0x2029, 0x202F, 0x205F, 0x3000, 0xFEFF]
  {}

  predicate AllWhite(s: string) { forall i :: 0 <= i < |s| ==> White(s[i]) }

  ghost predicate TrimsTo(s: string, t: string) {
    Trimmed(t) && exists a, b :: AllWhite(a) && AllWhite(b) && s == a + t + b
  }

  lemma {:induction false} TrimStartMeans(s: string) returns (a: string)
    ensures AllWhite(a) && s == a + TrimStart(s) && (TrimStart(s) == [] || !White(TrimStart(s)[0]))
  {
    if s != [] && White(s[0]) {
      a := TrimStartMeans(s[1..]);
      a := [s[0]] + a;
    } else {
      a := [];
    }
  }

  lemma {:induction false} TrimEndMeans(s: string) returns (b: string)
    ensures AllWhite(b) && s == TrimEnd(s) + b && (TrimEnd(s) == [] || !White(TrimEnd(s)[|TrimEnd(s)| - 1]))
  {
    if s != [] && White(s[|s| - 1]) {
      b := TrimEndMeans(s[..|s| - 1]);
      b := b + [s[|s| - 1]];
    } else {
      b := [];
    }
  }

  lemma TrimMeans(s: string)
    ensures TrimsTo(s, Trim(s))
  {
    var a := TrimStartMeans(s);
    var b := TrimEndMeans(TrimStart(s));
    assert s == a + Trim(s) + b;
  }

  /** Splitting leaves pieces without the separator that glue together again. */
  lemma {:induction false} SplitMeans(s: string, c: char)
    ensures GluesTo(Split(s, c), c, s)
    decreases |s|
  {
    var n := IndexOf(s, c);
    hide IndexOf, Glue, GluesTo;
    if n < |s| {
      SplitMeans(s[n + 1..], c);
      GluedInFront(s[..n], Split(s[n + 1..], c), c, s[n + 1..]);
      assert s == s[..n] + [c] + s[n + 1..];
    } else {
      GluedAlone(s, c);
    }
  }

  ghost predicate GluesTo(ps: seq<string>, c: char, s: string) {
    ps != [] && Glue(ps[0], ps[1..], c) == s && forall i :: 0 <= i < |ps| ==> Lacks(ps[i], c)
  }

  lemma GluedAlone(s: string, c: char)
    requires Lacks(s, c)
    ensures GluesTo([s], c, s)
  {
    assert [s][1..] == [];
  }

  lemma GluedInFront(first: string, rest: seq<string>, c: char, s: string)
    requires Lacks(first, c) && GluesTo(rest, c, s)
    ensures GluesTo([first] + rest, c, first + [c] + s)
  {
    var ps := [first] + rest;
    assert ps[1..] == rest;
    hide Lacks;
    forall i | 0 <= i < |ps| ensures Lacks(ps[i], c) { if i > 0 { assert ps[i] == rest[i - 1]; } }
  }

  // ---- values ----------------------------------------------------------------------------------------------

  /** White space off, one pair of double quotes off, then decoded if it is spelled correctly. */
  ghost predicate ReadsAs(text: string, v: string) {
    exists t, q ::
      && TrimsTo(text, t)
      && (t == "\"" + q + "\"" || (q == t && forall r :: t != "\"" + r + "\""))
      && (U.Spells(q, v) || (v == q && forall r :: !U.Spells(q, r)))
  }

  lemma UnquoteMeans(t: string)
    ensures t == "\"" + Unquote(t) + "\"" || (Unquote(t) == t && forall r :: t != "\"" + r + "\"")
  {
    if |t| >= 2 && t[0] == '"' && t[|t| - 1] == '"' {
      assert t == "\"" + t[1..|t| - 1] + "\"";
    } else {
      forall r ensures t != "\"" + r + "\"" {
        var e := "\"" + r + "\"";
        assert e[0] == '"' && e[|e| - 1] == '"';
      }
    }
  }

  lemma ValueMeans(text: string)
    ensures ReadsAs(text, DecodeValue(text))
  {
    var t := Trim(text);
    var q := Unquote(t);
    var v := DecodeValue(text);
    TrimMeans(text);
    UnquoteMeans(t);
    UnescapedReadsAsItself(q);
    forall r ensures U.Decode(q) == Some(r) <==> U.Spells(q, r) { U.DecodeMeans(q, r); }
    hide U.Decode, U.Spells, Unquote, Trim, TrimsTo;
    if U.Decode(q) == None {
      assert v == q && forall r :: !U.Spells(q, r);
    } else {
      assert U.Spells(q, v);
    }
  }

  /** What is written is the value itself where it needs no escape, and otherwise a spelling of it. */
  lemma EncodedMeans(value: string)
    ensures if forall c :: c in value ==> ' ' < c < 0x7F as char && c !in "\",;\\" then EncodeValue(value) == value
            else U.Spells(EncodeValue(value), value) && forall c :: c in EncodeValue(value) ==> U.Unreserved(c) || c == '%'
  {
    forall c ensures ValueChar(c) <==> ' ' < c < 0x7F as char && c !in "\",;\\" { ValueCharMeans(c); }
    var e := U.Encode(value);
    U.DecodeEncode(value);
    U.DecodeMeans(e, value);
    U.EncodePlain(value);
    hide U.Encode, U.Decode, U.Spells, U.Unreserved, ValueChar;
    assert PlainValue(value) <==> forall c :: c in value ==> ValueChar(c);
  }

  // ---- what is refused ---------------------------------------------------------------------------------------

  predicate BadName(name: string) {
    name == [] || exists i :: 0 <= i < |name| && !(' ' < name[i] < 0x7F as char && name[i] !in "\"(),/:;<=>?@[\\]{}")
  }

  predicate Breaks(text: string) { exists i :: 0 <= i < |text| && (text[i] == ';' || text[i] == '\r' || text[i] == '\n' || text[i] == '\0') }

  predicate Contradicts(o: Options) { o.sameSite == Some(NoRestriction) && o.secure == Some(false) }
  predicate BadDomain(o: Options) { o.domain.Some? && Breaks(o.domain.value) }
  predicate BadPath(o: Options) { o.path.Some? && Breaks(o.path.value) }
  predicate Unprotected(o: Options) { o.partitioned && o.secure != Some(true) && o.sameSite != Some(NoRestriction) }

  /** Each error for exactly its cause, the first cause in this order; a line exactly when there is none. */
  lemma RefusalMeans(name: string, value: string, o: Options)
    ensures var r := Serialize(name, value, o);
      && (r == Err(InvalidName) <==> BadName(name))
      && (r == Err(NoneWithoutSecure) <==> !BadName(name) && Contradicts(o))
      && (r == Err(IllegalDomain) <==> !BadName(name) && !Contradicts(o) && BadDomain(o))
      && (r == Err(IllegalPath) <==> !BadName(name) && !Contradicts(o) && !BadDomain(o) && BadPath(o))
      && (r == Err(PartitionedWithoutSecure) <==>
          !BadName(name) && !Contradicts(o) && !BadDomain(o) && !BadPath(o) && Unprotected(o))
      && (r.Ok? <==> !BadName(name) && !Contradicts(o) && !BadDomain(o) && !BadPath(o) && !Unprotected(o))
  {
    forall c ensures TokenChar(c) <==> ' ' < c < 0x7F as char && c !in "\"(),/:;<=>?@[\\]{}" { TokenCharMeans(c); }
    hide TokenChar, Glue, Pair, Attributes;
    assert Token(name) <==> !BadName(name);
    assert LegalAttribute("/");
    assert forall s :: LegalAttribute(s) <==> !Breaks(s);
  }

  /** What the line says to its reader, with the defaults: path /, HttpOnly, SameSite=Lax, Secure only if asked for or needed. */
  lemma LineSays(name: string, value: string, o: Options)
    requires Serialize(name, value, o).Ok?
    ensures var c := ParseSetCookie(Serialize(name, value, o).line);
      && c.name == name && (c.value == value <==> !Ambiguous(value))
      && c.path.Some? && TrimsTo(if o.path.Some? then o.path.value else "/", c.path.value)
      && (c.domain.Some? <==> o.domain.Some? && o.domain.value != []) && (c.domain.Some? ==> TrimsTo(o.domain.value, c.domain.value))
      && (c.maxAge.Some? <==> o.maxAge.Some?)
      && (c.maxAge.Some? ==> c.maxAge.value as real <= o.maxAge.value < (c.maxAge.value + 1) as real)
      && (c.httpOnly <==> o.httpOnly.None? || o.httpOnly == Some(true))
      && (c.secure <==> o.secure == Some(true) || o.sameSite == Some(NoRestriction))
      && c.sameSite == (if o.sameSite.None? then Some(Lax) else o.sameSite)
      && c.partitioned == o.partitioned && c.priority == o.priority
  {
    hide *;
    SetCookieRoundTrip(name, value, o);
    IntendedSays(name, value, o);
  }

  lemma IntendedSays(name: string, value: string, o: Options)
    ensures var c := Intended(name, value, o);
      && c.name == name
      && c.path.Some? && TrimsTo(if o.path.Some? then o.path.value else "/", c.path.value)
      && (c.domain.Some? <==> o.domain.Some? && o.domain.value != []) && (c.domain.Some? ==> TrimsTo(o.domain.value, c.domain.value))
      && (c.maxAge.Some? <==> o.maxAge.Some?)
      && (c.maxAge.Some? ==> c.maxAge.value as real <= o.maxAge.value < (c.maxAge.value + 1) as real)
      && (c.httpOnly <==> o.httpOnly.None? || o.httpOnly == Some(true))
      && (c.secure <==> o.secure == Some(true) || o.sameSite == Some(NoRestriction))
      && c.sameSite == (if o.sameSite.None? then Some(Lax) else o.sameSite)
      && c.partitioned == o.partitioned && c.priority == o.priority
  {
    TrimMeans(PathOf(o));
    if HasDomain(o) { TrimMeans(o.domain.value); }
    hide Trim, TrimsTo, DecodeValue, EncodeValue;
    assert o.httpOnly.Some? ==> o.httpOnly == Some(true) || o.httpOnly == Some(false) by {
      if o.httpOnly.Some? { assert o.httpOnly.value == true || o.httpOnly.value == false; }
    }
  }

  /** A line with every attribute, in the order they are written. */
  lemma FullExample()
    ensures Serialize("sid", "a.b", Options(Some("example.com"), Some("/app"), Some(90.5), Some(true), Some(true), Some(Strict), true, Some(High)))
      == Ok("sid=a.b" + ";" + " Domain=example.com" + ";" + " Path=/app" + ";" + " Max-Age=90" + ";" + " HttpOnly" + ";" + " Secure"
            + ";" + " SameSite=Strict" + ";" + " Partitioned" + ";" + " Priority=High")
  {
    var o := Options(Some("example.com"), Some("/app"), Some(90.5), Some(true), Some(true), Some(Strict), true, Some(High));
    var rest := [" Domain=example.com", " Path=/app", " Max-Age=90", " HttpOnly", " Secure", " SameSite=Strict", " Partitioned", " Priority=High"];
    NameAndDomainLegal();
    hide Token, PlainValue, LegalAttribute, Attributes, Glue, Serialize;
    FullAttributes(o);
    AcceptedLine("sid", "a.b", o);
    assert "sid" + "=" + "a.b" == "sid=a.b";
    Glued8("sid=a.b", rest);
  }

  /** A line with the defaults. */
  lemma DefaultExample()
    ensures Serialize("sid", "a.b", Options(None, None, None, None, None, None, false, None))
      == Ok("sid=a.b" + ";" + " Path=/" + ";" + " HttpOnly" + ";" + " SameSite=Lax")
  {
    var o := Options(None, None, None, None, None, None, false, None);
    var rest := [" Path=/", " HttpOnly", " SameSite=Lax"];
    NameAndDomainLegal();
    hide Token, PlainValue, LegalAttribute, Attributes, Glue, Serialize;
    DefaultAttributes(o);
    AcceptedLine("sid", "a.b", o);
    assert "sid" + "=" + "a.b" == "sid=a.b";
    Glued3("sid=a.b", rest);
  }

  lemma Glued3(first: string, rest: seq<string>)
    requires |rest| == 3
    ensures Glue(first, rest, ';') == first + ";" + rest[0] + ";" + rest[1] + ";" + rest[2]
  {
    GlueStep(first, rest);
    GlueStep(rest[0], rest[1..]);
    GlueStep(rest[1], rest[2..]);
    GlueNone(rest[2]);
  }

  lemma FullAttributes(o: Options)
    requires o == Options(Some("example.com"), Some("/app"), Some(90.5), Some(true), Some(true), Some(Strict), true, Some(High))
    ensures Attributes(o) ==
      [" Domain=example.com", " Path=/app", " Max-Age=90", " HttpOnly", " Secure", " SameSite=Strict", " Partitioned", " Priority=High"]
  {
    DecimalExample();
    hide DecimalText;
    assert " Domain=" + "example.com" == " Domain=example.com" && " Path=" + "/app" == " Path=/app" && " Max-Age=" + "90" == " Max-Age=90";
    assert " SameSite=" + "Strict" == " SameSite=Strict" && " Priority=" + "High" == " Priority=High";
    assert (90.5).Floor == 90;
  }

  lemma DefaultAttributes(o: Options)
    requires o == Options(None, None, None, None, None, None, false, None)
    ensures Attributes(o) == [" Path=/", " HttpOnly", " SameSite=Lax"]
  {
    assert " Path=" + "/" == " Path=/" && " SameSite=" + "Lax" == " SameSite=Lax";
  }

  lemma AcceptedLine(name: string, value: string, o: Options)
    requires Token(name) && PlainValue(value) && SiteOf(o) != NoRestriction
    requires (HasDomain(o) ==> LegalAttribute(o.domain.value)) && LegalAttribute(PathOf(o)) && (o.partitioned ==> SecureOf(o))
    ensures Serialize(name, value, o) == Ok(Glue(name + "=" + value, Attributes(o), ';'))
  {
    hide Token, PlainValue, LegalAttribute, Attributes, Glue;
  }

  lemma GlueNone(first: string)
    ensures Glue(first, [], ';') == first
  {}

  lemma NameAndDomainLegal()
    ensures Token("sid") && PlainValue("a.b") && LegalAttribute("example.com") && LegalAttribute("/app") && LegalAttribute("/")
  {}

  lemma DecimalExample()
    ensures DecimalText(90) == "90"
  {}

  lemma Glued8(first: string, rest: seq<string>)
    requires |rest| == 8
    ensures Glue(first, rest, ';') == first + ";" + rest[0] + ";" + rest[1] + ";" + rest[2] + ";" + rest[3]
      + ";" + rest[4] + ";" + rest[5] + ";" + rest[6] + ";" + rest[7]
  {
    GlueStep(first, rest); GlueStep(rest[0], rest[1..]); GlueStep(rest[1], rest[2..]); GlueStep(rest[2], rest[3..]);
    GlueStep(rest[3], rest[4..]); GlueStep(rest[4], rest[5..]); GlueStep(rest[5], rest[6..]); GlueStep(rest[6], rest[7..]);
  }

  lemma GlueStep(first: string, rest: seq<string>)
    requires rest != []
    ensures Glue(first, rest, ';') == first + ";" + Glue(rest[0], rest[1..], ';')
  {}

  // ---- reading any line ----------------------------------------------------------------------------------------

  /** The text before the first equals sign, trimmed, and the text behind it. */
  ghost predicate SplitsAt(segment: string, left: string, right: Option<string>) {
    || (exists e :: 0 <= e < |segment| && segment[e] == '=' && Lacks(segment[..e], '=')
          && TrimsTo(segment[..e], left) && right == Some(segment[e + 1..]))
    || (Lacks(segment, '=') && TrimsTo(segment, left) && right == None)
  }

  lemma SegmentSplits(segment: string)
    ensures var e := IndexOf(segment, '=');
      SplitsAt(segment, Trim(segment[..e]), if e == |segment| then None else Some(segment[e + 1..]))
  {
    hide *;
    var e := IndexOf(segment, '=');
    TrimMeans(segment[..e]);
    if e == |segment| {
      assert segment[..e] == segment;
      SplitsNowhere(segment, Trim(segment));
    } else {
      SplitsThere(segment, e, Trim(segment[..e]));
    }
  }

  lemma SplitsNowhere(segment: string, left: string)
    requires (forall i :: 0 <= i < |segment| ==> segment[i] != '=') && TrimsTo(segment, left)
    ensures SplitsAt(segment, left, None)
  {
    hide TrimsTo;
  }

  lemma SplitsThere(segment: string, e: nat, left: string)
    requires e < |segment| && segment[e] == '=' && (forall i :: 0 <= i < e ==> segment[i] != '=') && TrimsTo(segment[..e], left)
    ensures SplitsAt(segment, left, Some(segment[e + 1..]))
  {
    hide TrimsTo;
    assert Lacks(segment[..e], '=');
  }

  /** An attribute: its name in any case, its value trimmed, empty without an equals sign. */
  ghost predicate IsAttribute(segment: string, key: string, val: string) {
    exists left, right ::
      && SplitsAt(segment, left, right) && key == Lower(left)
      && (if right.None? then val == [] else TrimsTo(right.value, val))
  }

  lemma AttributeMeans(segment: string)
    ensures IsAttribute(segment, KeyOf(segment), ValOf(segment))
  {
    SegmentSplits(segment);
    var e := IndexOf(segment, '=');
    if e < |segment| { TrimMeans(segment[e + 1..]); }
    hide Trim, TrimsTo, SplitsAt, Lower, IndexOf;
    var right := if e == |segment| then None else Some(segment[e + 1..]);
    assert SplitsAt(segment, Trim(segment[..e]), right);
  }

  /** The value of the last attribute of this name that has a usable value. */
  ghost function LastUsable(attributes: seq<(string, string)>, key: string, usable: string -> bool): Option<string> {
    if attributes == [] then None
    else
      var (k, v) := attributes[|attributes| - 1];
      if k == key && usable(v) then Some(v) else LastUsable(attributes[..|attributes| - 1], key, usable)
  }

  ghost predicate Occurs(attributes: seq<(string, string)>, key: string) {
    exists i :: 0 <= i < |attributes| && attributes[i].0 == key
  }

  ghost predicate SiteWord(v: string, s: SameSite) {
    match s
    case Strict => Lower(v) == "strict"
    case Lax => Lower(v) == "lax"
    case NoRestriction => Lower(v) == "none"
  }

  ghost predicate PriorityWord(v: string, p: Priority) {
    match p
    case Low => Lower(v) == "low"
    case Medium => Lower(v) == "medium"
    case High => Lower(v) == "high"
  }

  predicate AnyText(v: string) { true }
  predicate IsNumber(v: string) { NumberOf(v).Some? }
  ghost predicate IsSiteWord(v: string) { exists w :: SiteWord(v, w) }
  ghost predicate IsPriorityWord(v: string) { exists w :: PriorityWord(v, w) }

  /** Values: the last one wins; one that is no number is passed over. */
  ghost predicate ValuesRead(c: Cookie, attributes: seq<(string, string)>) {
    && c.path == LastUsable(attributes, "path", AnyText)
    && c.domain == LastUsable(attributes, "domain", AnyText)
    && var n := LastUsable(attributes, "max-age", IsNumber);
       c.maxAge == if n.None? then None else NumberOf(n.value)
  }

  /** Words: the last one wins; one that is not known is passed over. */
  ghost predicate WordsRead(c: Cookie, attributes: seq<(string, string)>) {
    && (var s := LastUsable(attributes, "samesite", IsSiteWord);
        if s.None? then c.sameSite == None else c.sameSite.Some? && SiteWord(s.value, c.sameSite.value))
    && (var p := LastUsable(attributes, "priority", IsPriorityWord);
        if p.None? then c.priority == None else c.priority.Some? && PriorityWord(p.value, c.priority.value))
  }

  /** Flags: once is enough, whatever the value. */
  ghost predicate FlagsRead(c: Cookie, attributes: seq<(string, string)>) {
    && (c.httpOnly <==> Occurs(attributes, "httponly"))
    && (c.secure <==> Occurs(attributes, "secure"))
    && (c.partitioned <==> Occurs(attributes, "partitioned"))
  }

  lemma OccursMore(a: seq<(string, string)>, k: string, v: string, key: string)
    ensures Occurs(a + [(k, v)], key) <==> k == key || Occurs(a, key)
  {
    var b := a + [(k, v)];
    assert b[|a|].0 == k;
    assert forall i :: 0 <= i < |a| ==> b[i] == a[i];
  }

  lemma FlagsReadOne(c: Cookie, a: seq<(string, string)>, k: string, v: string)
    requires FlagsRead(c, a)
    ensures FlagsRead(ApplyKey(c, k, v), a + [(k, v)])
  {
    OccursMore(a, k, v, "httponly");
    OccursMore(a, k, v, "secure");
    OccursMore(a, k, v, "partitioned");
    hide Occurs, NumberOf, Lower, SiteFrom, PriorityFrom;
  }

  lemma LastMore(a: seq<(string, string)>, k: string, v: string, key: string, usable: string -> bool)
    ensures LastUsable(a + [(k, v)], key, usable) == if k == key && usable(v) then Some(v) else LastUsable(a, key, usable)
  {
    assert (a + [(k, v)])[..|a|] == a;
  }

  lemma SiteWords(v: string, otherwise: Option<SameSite>)
    ensures if IsSiteWord(v) then SiteFrom(Lower(v), otherwise).Some? && SiteWord(v, SiteFrom(Lower(v), otherwise).value)
            else SiteFrom(Lower(v), otherwise) == otherwise
  {
    assert SiteWord(v, Strict) <==> Lower(v) == "strict";
    assert SiteWord(v, Lax) <==> Lower(v) == "lax";
    assert SiteWord(v, NoRestriction) <==> Lower(v) == "none";
    hide Lower;
  }

  lemma PriorityWords(v: string, otherwise: Option<Priority>)
    ensures if IsPriorityWord(v) then PriorityFrom(Lower(v), otherwise).Some? && PriorityWord(v, PriorityFrom(Lower(v), otherwise).value)
            else PriorityFrom(Lower(v), otherwise) == otherwise
  {
    assert PriorityWord(v, Low) <==> Lower(v) == "low";
    assert PriorityWord(v, Medium) <==> Lower(v) == "medium";
    assert PriorityWord(v, High) <==> Lower(v) == "high";
    hide Lower;
  }

  lemma ValuesReadOne(c: Cookie, a: seq<(string, string)>, k: string, v: string)
    requires ValuesRead(c, a)
    ensures ValuesRead(ApplyKey(c, k, v), a + [(k, v)])
  {
    hide LastUsable, NumberOf, Lower, SiteFrom, PriorityFrom;
    LastMore(a, k, v, "path", AnyText);
    LastMore(a, k, v, "domain", AnyText);
    LastMore(a, k, v, "max-age", IsNumber);
  }

  lemma WordsReadOne(c: Cookie, a: seq<(string, string)>, k: string, v: string)
    requires WordsRead(c, a)
    ensures WordsRead(ApplyKey(c, k, v), a + [(k, v)])
  {
    hide LastUsable, NumberOf, Lower, SiteWord, PriorityWord, SiteFrom, PriorityFrom, IsSiteWord, IsPriorityWord;
    LastMore(a, k, v, "samesite", IsSiteWord);
    LastMore(a, k, v, "priority", IsPriorityWord);
    SiteWords(v, c.sameSite);
    PriorityWords(v, c.priority);
  }

  ghost predicate Listed(segments: seq<string>, attributes: seq<(string, string)>) {
    |attributes| == |segments| && forall i :: 0 <= i < |segments| ==> IsAttribute(segments[i], attributes[i].0, attributes[i].1)
  }

  lemma {:induction false} AttributesMean(c: Cookie, segments: seq<string>) returns (attributes: seq<(string, string)>)
    requires c.path == None && c.domain == None && c.maxAge == None && c.sameSite == None && c.priority == None
    requires !c.httpOnly && !c.secure && !c.partitioned
    ensures var r := ApplyAll(c, segments);
      && Listed(segments, attributes) && ValuesRead(r, attributes) && WordsRead(r, attributes) && FlagsRead(r, attributes)
      && r.name == c.name && r.value == c.value
    decreases |segments|
  {
    hide *;
    if segments == [] {
      attributes := [];
      NoAttributes(c);
    } else {
      var n := |segments| - 1;
      var before, s := segments[..n], segments[n];
      attributes := AttributesMean(c, before);
      AttributeMeans(s);
      assert segments == before + [s];
      ApplyConcat(c, before, [s]);
      ApplyOne(ApplyAll(c, before), s);
      ValuesReadOne(ApplyAll(c, before), attributes, KeyOf(s), ValOf(s));
      WordsReadOne(ApplyAll(c, before), attributes, KeyOf(s), ValOf(s));
      FlagsReadOne(ApplyAll(c, before), attributes, KeyOf(s), ValOf(s));
      KeyLeavesThePair(ApplyAll(c, before), KeyOf(s), ValOf(s));
      ListedMore(before, attributes, s, KeyOf(s), ValOf(s));
      attributes := attributes + [(KeyOf(s), ValOf(s))];
    }
  }

  lemma NoAttributes(c: Cookie)
    requires c.path == None && c.domain == None && c.maxAge == None && c.sameSite == None && c.priority == None
    requires !c.httpOnly && !c.secure && !c.partitioned
    ensures ApplyAll(c, []) == c && Listed([], []) && ValuesRead(c, []) && WordsRead(c, []) && FlagsRead(c, [])
  {}

  lemma KeyLeavesThePair(c: Cookie, k: string, v: string)
    ensures ApplyKey(c, k, v).name == c.name && ApplyKey(c, k, v).value == c.value
  {
    hide NumberOf, SiteFrom, PriorityFrom, Lower;
  }

  lemma ListedMore(segments: seq<string>, attributes: seq<(string, string)>, s: string, k: string, v: string)
    requires Listed(segments, attributes) && IsAttribute(s, k, v)
    ensures Listed(segments + [s], attributes + [(k, v)])
  {
    hide IsAttribute;
  }

  /** A line cut at its semicolons: the first piece, and what the others say. */
  ghost predicate LineReadsAs(line: string, first: string, segments: seq<string>, attributes: seq<(string, string)>, c: Cookie) {
    && line == Glue(first, segments, ';') && Lacks(first, ';') && (forall i :: 0 <= i < |segments| ==> Lacks(segments[i], ';'))
    && PairReadsAs(first, c.name, c.value)
    && Listed(segments, attributes) && ValuesRead(c, attributes) && WordsRead(c, attributes) && FlagsRead(c, attributes)
  }

  /** A name and its value, empty without an equals sign. */
  ghost predicate PairReadsAs(pair: string, name: string, value: string) {
    exists right :: SplitsAt(pair, name, right) && if right.None? then value == [] else ReadsAs(right.value, value)
  }

  lemma FirstPairMeans(first: string)
    ensures PairReadsAs(first, FirstPair(first).name, FirstPair(first).value)
  {
    SegmentSplits(first);
    var e := IndexOf(first, '=');
    if e < |first| { ValueMeans(first[e + 1..]); }
    hide Trim, TrimsTo, SplitsAt, DecodeValue, ReadsAs, IndexOf;
    var right := if e == |first| then None else Some(first[e + 1..]);
    assert SplitsAt(first, Trim(first[..e]), right);
  }

  /** For every line, well formed or not. */
  lemma SetCookieMeans(line: string)
    ensures exists first, segments, attributes :: LineReadsAs(line, first, segments, attributes, ParseSetCookie(line))
  {
    var ps := Split(line, ';');
    SplitMeans(line, ';');
    FirstPairMeans(ps[0]);
    var attributes := AttributesMean(FirstPair(ps[0]), ps[1..]);
    hide Glue, Split, Lacks, PairReadsAs, FirstPair, Listed, ValuesRead, WordsRead, FlagsRead, ApplyAll;
    assert LineReadsAs(line, ps[0], ps[1..], attributes, ParseSetCookie(line));
  }

  // ---- reading any Cookie header ---------------------------------------------------------------------------------

  /** A field with an equals sign and a name gives the name this value. */
  ghost predicate Gives(field: string, name: string, v: string) {
    name != [] && exists right :: SplitsAt(field, name, Some(right)) && ReadsAs(right, v)
  }

  lemma {:induction false} TrimStartPast(a: string, t: string)
    requires AllWhite(a) && (t == [] || !White(t[0]))
    ensures TrimStart(a + t) == t
  {
    if a == [] {
      assert a + t == t;
    } else {
      assert (a + t)[1..] == a[1..] + t;
      TrimStartPast(a[1..], t);
    }
  }

  lemma {:induction false} TrimEndPast(t: string, b: string)
    requires AllWhite(b) && (t == [] || !White(t[|t| - 1]))
    ensures TrimEnd(t + b) == t
  {
    if b == [] {
      assert t + b == t;
    } else {
      assert (t + b)[..|t + b| - 1] == t + b[..|b| - 1];
      TrimEndPast(t, b[..|b| - 1]);
    }
  }

  lemma TrimmedOnce(s: string, t: string)
    requires TrimsTo(s, t)
    ensures t == Trim(s)
  {
    var a, b :| AllWhite(a) && AllWhite(b) && s == a + t + b;
    if t == [] {
      assert s == (a + b) + [];
      TrimStartPast(a + b, []);
    } else {
      assert s == a + (t + b) && (t + b)[0] == t[0];
      TrimStartPast(a, t + b);
      TrimEndPast(t, b);
    }
  }

  /** A field gives at most one name. */
  lemma GivesItsName(field: string, name: string, v: string)
    requires Gives(field, name, v)
    ensures IndexOf(field, '=') < |field| && name == Trim(field[..IndexOf(field, '=')])
  {
    hide ReadsAs, TrimsTo, Trim, IndexOf;
    var right :| SplitsAt(field, name, Some(right)) && ReadsAs(right, v);
    var e: nat :| e < |field| && field[e] == '=' && Lacks(field[..e], '=') && TrimsTo(field[..e], name) && right == field[e + 1..];
    assert forall i :: 0 <= i < e ==> field[..e][i] == field[i];
    IndexOfIs(field, '=', e);
    TrimmedOnce(field[..e], name);
  }

  ghost predicate GivesNothing(field: string, name: string) { forall v :: !Gives(field, name, v) }

  /** The first field that gives the name decides. */
  ghost predicate FirstGiven(fields: seq<string>, name: string, r: map<string, string>) {
    if name in r then exists i :: GivenAt(fields, i, name, r[name])
    else forall j :: 0 <= j < |fields| ==> GivesNothing(fields[j], name)
  }

  ghost predicate GivenAt(fields: seq<string>, i: int, name: string, v: string) {
    0 <= i < |fields| && Gives(fields[i], name, v) && forall j :: 0 <= j < i ==> GivesNothing(fields[j], name)
  }

  /** What one field adds, if anything. */
  lemma AddCookieMeans(out: map<string, string>, field: string, name: string)
    ensures var more := AddCookie(out, field);
      && (name in out ==> name in more && more[name] == out[name])
      && (name !in out ==> if name in more then Gives(field, name, more[name]) else GivesNothing(field, name))
  {
    var e := IndexOf(field, '=');
    SegmentSplits(field);
    if e < |field| { ValueMeans(field[e + 1..]); }
    hide Trim, TrimsTo, SplitsAt, DecodeValue, ReadsAs, IndexOf;
    forall v | Gives(field, name, v) ensures e < |field| && name == Trim(field[..e]) && name != [] {
      GivesItsName(field, name, v);
    }
  }

  lemma {:induction false} AddLast(out: map<string, string>, fields: seq<string>, field: string)
    ensures AddAll(out, fields + [field]) == AddCookie(AddAll(out, fields), field)
    decreases |fields|
  {
    hide AddCookie;
    if fields == [] {
      assert (fields + [field])[1..] == [];
    } else {
      assert (fields + [field])[1..] == fields[1..] + [field];
      AddLast(AddCookie(out, fields[0]), fields[1..], field);
    }
  }

  lemma FirstGivenMore(fields: seq<string>, field: string, name: string, r: map<string, string>)
    requires FirstGiven(fields, name, r)
    ensures FirstGiven(fields + [field], name, AddCookie(r, field))
  {
    AddCookieMeans(r, field, name);
    hide AddCookie, Gives, GivesNothing;
    var all, more := fields + [field], AddCookie(r, field);
    if name in r {
      var i :| GivenAt(fields, i, name, r[name]);
      assert GivenAt(all, i, name, more[name]);
    } else if name in more {
      assert GivenAt(all, |fields|, name, more[name]);
    }
  }

  lemma {:induction false} FieldsMean(fields: seq<string>, name: string)
    ensures FirstGiven(fields, name, AddAll(map[], fields))
    decreases |fields|
  {
    if fields != [] {
      var n := |fields| - 1;
      FieldsMean(fields[..n], name);
      AddLast(map[], fields[..n], fields[n]);
      assert fields == fields[..n] + [fields[n]];
      hide *;
      FirstGivenMore(fields[..n], fields[n], name, AddAll(map[], fields[..n]));
    }
  }

  /**
    For every header: cut at its semicolons, a name has a value exactly if some field with an equals
    sign gives it one, and then the one the first such field gives.
   */
  lemma HeaderMeans(header: string, name: string)
    ensures exists first, rest ::
      && header == Glue(first, rest, ';') && (forall i :: 0 <= i < |[first] + rest| ==> Lacks(([first] + rest)[i], ';'))
      && FirstGiven([first] + rest, name, ParseCookieHeader(header))
  {
    var ps := Split(header, ';');
    SplitMeans(header, ';');
    FieldsMean(ps, name);
    hide Glue, Split, Lacks, AddAll, FirstGiven;
    assert ps == [ps[0]] + ps[1..];
  }
}
