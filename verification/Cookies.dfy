/** Cookies: the Set-Cookie line and its parser, and the Cookie request header (RFC 6265, sections 4.1.1 and 5.2). */
module Cookies {
  import opened OptionType
  import opened CookieText
  import opened Text
  import U = UriComponent

  datatype SameSite = Strict | Lax | NoRestriction
  datatype Priority = Low | Medium | High

  /** Expires aside; maxAge is a number of seconds, not necessarily whole. */
  datatype Options = Options(
    domain: Option<string>,
    path: Option<string>,
    maxAge: Option<real>,
    httpOnly: Option<bool>,
    secure: Option<bool>,
    sameSite: Option<SameSite>,
    partitioned: bool,
    priority: Option<Priority>)

  datatype Error = InvalidName | NoneWithoutSecure | IllegalDomain | IllegalPath | PartitionedWithoutSecure

  datatype Result = Ok(line: string) | Err(error: Error)

  // ---- names and values -----------------------------------------------------------------------------------

  predicate TokenChar(c: char) {
    c in "!#$%&'*+-.^_`|~" || '0' <= c <= '9' || 'A' <= c <= 'Z' || 'a' <= c <= 'z'
  }

  predicate Token(s: string) { s != [] && forall i :: 0 <= i < |s| ==> TokenChar(s[i]) }

  /** Printable ASCII without space, double quote, comma, semicolon and backslash. */
  predicate ValueChar(c: char) {
    var n := c as int;
    n == 0x21 || 0x23 <= n <= 0x2B || 0x2D <= n <= 0x3A || 0x3C <= n <= 0x5B || 0x5D <= n <= 0x7E
  }

  predicate PlainValue(s: string) { forall i :: 0 <= i < |s| ==> ValueChar(s[i]) }

  function EncodeValue(value: string): string {
    if PlainValue(value) then value else U.Encode(value)
  }

  function Unquote(s: string): string {
    if |s| >= 2 && s[0] == '"' && s[|s| - 1] == '"' then s[1..|s| - 1] else s
  }

  /** What both parsers make of a value's text. */
  function DecodeValue(text: string): string {
    var v := Unquote(Trim(text));
    if Lacks(v, '%') then v
    else
      var d := U.Decode(v);
      if d.None? then v else d.value
  }

  /** A value that is sent as it is and that a reader nevertheless decodes. */
  predicate Ambiguous(value: string) {
    PlainValue(value) && !Lacks(value, '%') && U.Decode(value).Some?
  }

  ghost predicate EscapeFrom(s: string, i: nat) { exists k :: i <= k < |s| && s[k] == '%' }

  lemma {:induction false} DecodedIsShorter(s: string, i: nat)
    requires i <= |s|
    ensures var d := U.DecodeFrom(s, i);
      d.Some? ==> |d.value| <= |s| - i && (EscapeFrom(s, i) ==> |d.value| < |s| - i)
    decreases |s| - i
  {
    if i < |s| {
      if s[i] != '%' {
        DecodedIsShorter(s, i + 1);
        assert EscapeFrom(s, i) ==> EscapeFrom(s, i + 1);
      } else {
        var c := U.EscapeAt(s, i);
        if c.Some? {
          EscapeIsLong(s, i);
          DecodedIsShorter(s, i + c.value.1);
        }
      }
    }
  }

  lemma EscapeIsLong(s: string, i: nat)
    ensures U.EscapeAt(s, i).Some? ==> U.EscapeAt(s, i).value.1 >= 3
  {}

  /** An encoded value is a run of plain characters, so trimming and unquoting leave it alone. */
  lemma EncodedValuePlain(value: string)
    ensures PlainValue(EncodeValue(value))
    ensures Unquote(Trim(EncodeValue(value))) == EncodeValue(value)
  {
    var e := EncodeValue(value);
    if !PlainValue(value) {
      U.EncodePlain(value);
      assert forall i :: 0 <= i < |e| ==> ValueChar(e[i]);
    }
    assert Trimmed(e);
    TrimTrimmed(e);
  }

  /**
    A value survives encoding and decoding exactly when it is not ambiguous: a value made of plain
    characters with percent signs that all start valid escapes is sent unchanged but read decoded.
   */
  lemma ValueRoundTrip(value: string)
    ensures DecodeValue(EncodeValue(value)) == value <==> !Ambiguous(value)
  {
    var e := EncodeValue(value);
    EncodedValuePlain(value);
    if PlainValue(value) {
      DecodedIsShorter(value, 0);
      assert !Lacks(value, '%') ==> EscapeFrom(value, 0);
    } else {
      U.DecodeEncode(value);
      UnescapedReadsAsItself(e);
    }
  }

  /** An input on the failing side: it is sent as it is and read as another value. */
  lemma AnAmbiguousValue()
    ensures Ambiguous("%41") && EncodeValue("%41") == "%41" && DecodeValue("%41") == "A"
  {
    var s := "%41";
    assert U.ByteAt(s, 0) == Some(0x41);
    assert U.EscapeAt(s, 0) == Some((0x41, 3));
    assert U.DecodeFrom(s, 3) == Some([]);
    assert [0x41 as char] + [] == "A";
    assert U.DecodeFrom(s, 0) == Some([0x41 as char] + []);
    assert Trimmed(s);
    TrimTrimmed(s);
  }

  /** One malformed escape is enough for a value to survive, whatever valid ones it has beside it. */
  lemma AMalformedEscapeSurvives()
    ensures !Ambiguous("%41%zz") && EncodeValue("%41%zz") == "%41%zz" && DecodeValue("%41%zz") == "%41%zz"
  {
    var s := "%41%zz";
    assert U.ByteAt(s, 3) == None;
    assert U.EscapeAt(s, 3) == None;
    assert U.DecodeFrom(s, 3) == None;
    assert U.ByteAt(s, 0) == Some(0x41);
    assert U.EscapeAt(s, 0) == Some((0x41, 3));
    assert U.Decode(s) == None;
    assert Trimmed(s);
    TrimTrimmed(s);
  }

  lemma UnescapedReadsAsItself(s: string)
    ensures Lacks(s, '%') ==> U.Decode(s) == Some(s)
  {
    if Lacks(s, '%') {
      U.DecodeUnescaped(s, 0);
      assert s[0..] == s;
    }
  }

  // ---- the Set-Cookie line ----------------------------------------------------------------------------------

  predicate LegalAttribute(s: string) {
    Lacks(s, ';') && Lacks(s, '\r') && Lacks(s, '\n') && Lacks(s, '\0')
  }

  function SiteOf(o: Options): SameSite { if o.sameSite.Some? then o.sameSite.value else Lax }

  function SecureOf(o: Options): bool { SiteOf(o) == NoRestriction || o.secure == Some(true) }

  function PathOf(o: Options): string { if o.path.Some? then o.path.value else "/" }

  predicate HasDomain(o: Options) { o.domain.Some? && o.domain.value != [] }

  predicate HttpOnlyOf(o: Options) { o.httpOnly != Some(false) }

  /** What the options are refused for, in the order the checks are made. */
  function Refusal(name: string, o: Options): Option<Error> {
    if !Token(name) then Some(InvalidName)
    else if SiteOf(o) == NoRestriction && o.secure == Some(false) then Some(NoneWithoutSecure)
    else if HasDomain(o) && !LegalAttribute(o.domain.value) then Some(IllegalDomain)
    else if !LegalAttribute(PathOf(o)) then Some(IllegalPath)
    else if o.partitioned && !SecureOf(o) then Some(PartitionedWithoutSecure)
    else None
  }

  function SiteText(s: SameSite): string {
    match s
    case Strict => "Strict"
    case Lax => "Lax"
    case NoRestriction => "None"
  }

  function PriorityText(p: Priority): string {
    match p
    case Low => "Low"
    case Medium => "Medium"
    case High => "High"
  }

  function Attributes(o: Options): seq<string> {
    (if HasDomain(o) then [" Domain=" + o.domain.value] else [])
    + [" Path=" + PathOf(o)]
    + (if o.maxAge.Some? then [" Max-Age=" + DecimalText(o.maxAge.value.Floor)] else [])
    + (if HttpOnlyOf(o) then [" HttpOnly"] else [])
    + (if SecureOf(o) then [" Secure"] else [])
    + [" SameSite=" + SiteText(SiteOf(o))]
    + (if o.partitioned then [" Partitioned"] else [])
    + (if o.priority.Some? then [" Priority=" + PriorityText(o.priority.value)] else [])
  }

  function Pair(name: string, value: string): string { name + "=" + EncodeValue(value) }

  function Serialize(name: string, value: string, o: Options): Result {
    var refusal := Refusal(name, o);
    if refusal.Some? then Err(refusal.value) else Ok(Glue(Pair(name, value), Attributes(o), ';'))
  }

  // ---- reading it ------------------------------------------------------------------------------------------------

  datatype Cookie = Cookie(
    name: string,
    value: string,
    path: Option<string>,
    domain: Option<string>,
    maxAge: Option<int>,
    httpOnly: bool,
    secure: bool,
    sameSite: Option<SameSite>,
    partitioned: bool,
    priority: Option<Priority>)

  function SiteFrom(text: string, otherwise: Option<SameSite>): Option<SameSite> {
    if text == "strict" then Some(Strict) else if text == "lax" then Some(Lax)
    else if text == "none" then Some(NoRestriction) else otherwise
  }

  function PriorityFrom(text: string, otherwise: Option<Priority>): Option<Priority> {
    if text == "low" then Some(Low) else if text == "medium" then Some(Medium)
    else if text == "high" then Some(High) else otherwise
  }

  function KeyOf(segment: string): string { Lower(Trim(segment[..IndexOf(segment, '=')])) }

  function ValOf(segment: string): string {
    var e := IndexOf(segment, '=');
    if e == |segment| then [] else Trim(segment[e + 1..])
  }

  /** One attribute; a name that is not known changes nothing. */
  function ApplyKey(c: Cookie, key: string, val: string): Cookie {
    if key == "path" then c.(path := Some(val))
    else if key == "domain" then c.(domain := Some(val))
    else if key == "max-age" then if NumberOf(val).Some? then c.(maxAge := NumberOf(val)) else c
    else if key == "httponly" then c.(httpOnly := true)
    else if key == "secure" then c.(secure := true)
    else if key == "samesite" then c.(sameSite := SiteFrom(Lower(val), c.sameSite))
    else if key == "partitioned" then c.(partitioned := true)
    else if key == "priority" then c.(priority := PriorityFrom(Lower(val), c.priority))
    else c
  }

  function ApplyAll(c: Cookie, segments: seq<string>): Cookie
    decreases |segments|
  {
    if segments == [] then c
    else ApplyAll(ApplyKey(c, KeyOf(segments[0]), ValOf(segments[0])), segments[1..])
  }

  function FirstPair(pair: string): Cookie {
    var e := IndexOf(pair, '=');
    Cookie(Trim(pair[..e]), if e == |pair| then [] else DecodeValue(pair[e + 1..]),
           None, None, None, false, false, None, false, None)
  }

  function ParseSetCookie(line: string): Cookie {
    var segments := Split(line, ';');
    ApplyAll(FirstPair(segments[0]), segments[1..])
  }

  // ---- the round trip ---------------------------------------------------------------------------------------------

  /** What a reader must find: the attributes trimmed, the age floored, the defaults written out. */
  function Intended(name: string, value: string, o: Options): Cookie {
    Cookie(name, DecodeValue(EncodeValue(value)), Some(Trim(PathOf(o))),
           if HasDomain(o) then Some(Trim(o.domain.value)) else None,
           if o.maxAge.Some? then Some(o.maxAge.value.Floor) else None,
           HttpOnlyOf(o), SecureOf(o), Some(SiteOf(o)), o.partitioned, o.priority)
  }

  /** An attribute with a value: the name up to the first equals sign, the rest trimmed. */
  lemma SegmentWithValue(name: string, key: string, val: string)
    requires Lacks(name, '=') && Trimmed(name) && Lower(name) == key
    ensures KeyOf(" " + name + "=" + val) == key && ValOf(" " + name + "=" + val) == Trim(val)
  {
    var s := " " + name + "=" + val;
    IndexOfIs(s, '=', |name| + 1);
    assert s[..|name| + 1] == " " + name && s[|name| + 2..] == val;
    TrimTrimmed(name);
  }

  lemma SegmentFlag(name: string, key: string)
    requires Lacks(name, '=') && Trimmed(name) && Lower(name) == key
    ensures KeyOf(" " + name) == key
  {
    var s := " " + name;
    IndexOfIs(s, '=', |s|);
    assert s[..|s|] == s;
    TrimTrimmed(name);
  }

  lemma {:induction false} ApplyConcat(c: Cookie, a: seq<string>, b: seq<string>)
    ensures ApplyAll(c, a + b) == ApplyAll(ApplyAll(c, a), b)
    decreases |a|
  {
    if a == [] {
      assert a + b == b;
    } else {
      assert (a + b)[1..] == a[1..] + b;
      ApplyConcat(ApplyKey(c, KeyOf(a[0]), ValOf(a[0])), a[1..], b);
    }
  }

  lemma ApplyOne(c: Cookie, s: string)
    ensures ApplyAll(c, [s]) == ApplyKey(c, KeyOf(s), ValOf(s))
  {
    assert [s][1..] == [];
  }

  lemma Segment(c: Cookie, name: string, key: string, val: string)
    requires Lacks(name, '=') && Trimmed(name) && Lower(name) == key
    ensures ApplyAll(c, [" " + name + "=" + val]) == ApplyKey(c, key, Trim(val))
  {
    ApplyOne(c, " " + name + "=" + val);
    SegmentWithValue(name, key, val);
  }

  lemma Flag(c: Cookie, name: string, key: string)
    requires Lacks(name, '=') && Trimmed(name) && Lower(name) == key
    ensures exists val :: ApplyAll(c, [" " + name]) == ApplyKey(c, key, val)
  {
    ApplyOne(c, " " + name);
    SegmentFlag(name, key);
  }

  lemma ReadDomain(c: Cookie, val: string)
    ensures ApplyAll(c, [" Domain=" + val]) == c.(domain := Some(Trim(val)))
  {
    assert " " + "Domain" + "=" + val == " Domain=" + val;
    Segment(c, "Domain", "domain", val);
  }

  lemma ReadPath(c: Cookie, val: string)
    ensures ApplyAll(c, [" Path=" + val]) == c.(path := Some(Trim(val)))
  {
    assert " " + "Path" + "=" + val == " Path=" + val;
    Segment(c, "Path", "path", val);
  }

  lemma ReadMaxAge(c: Cookie, n: int)
    ensures ApplyAll(c, [" Max-Age=" + DecimalText(n)]) == c.(maxAge := Some(n))
  {
    var val := DecimalText(n);
    DecimalTextPlain(n);
    TrimTrimmed(val);
    NumberOfDecimal(n);
    MaxAgeName(val);
    hide DecimalText, NumberOf, ApplyAll, Trim, Trimmed, Lower, Lacks;
    Segment(c, "Max-Age", "max-age", val);
  }

  lemma MaxAgeName(val: string)
    ensures " " + "Max-Age" + "=" + val == " Max-Age=" + val
    ensures Lacks("Max-Age", '=') && Trimmed("Max-Age") && Lower("Max-Age") == "max-age"
  {}

  lemma ReadHttpOnly(c: Cookie)
    ensures ApplyAll(c, [" HttpOnly"]) == c.(httpOnly := true)
  {
    hide ApplyAll, Trim;
    assert " " + "HttpOnly" == " HttpOnly";
    Flag(c, "HttpOnly", "httponly");
  }

  lemma ReadSecure(c: Cookie)
    ensures ApplyAll(c, [" Secure"]) == c.(secure := true)
  {
    hide ApplyAll, Trim;
    assert " " + "Secure" == " Secure";
    Flag(c, "Secure", "secure");
  }

  lemma ReadPartitioned(c: Cookie)
    ensures ApplyAll(c, [" Partitioned"]) == c.(partitioned := true)
  {
    hide ApplyAll, Trim;
    assert " " + "Partitioned" == " Partitioned";
    Flag(c, "Partitioned", "partitioned");
  }

  lemma SiteTextReads(s: SameSite, otherwise: Option<SameSite>)
    ensures Trim(SiteText(s)) == SiteText(s) && SiteFrom(Lower(SiteText(s)), otherwise) == Some(s)
  {
    TrimTrimmed(SiteText(s));
    hide Trim;
    match s
    case Strict => assert Lower("Strict") == "strict";
    case Lax => assert Lower("Lax") == "lax";
    case NoRestriction => assert Lower("None") == "none";
  }

  lemma ReadSite(c: Cookie, s: SameSite)
    ensures ApplyAll(c, [" SameSite=" + SiteText(s)]) == c.(sameSite := Some(s))
  {
    var val := SiteText(s);
    SiteTextReads(s, c.sameSite);
    hide ApplyAll, Trim, SiteText, SiteFrom;
    assert " " + "SameSite" + "=" + val == " SameSite=" + val;
    Segment(c, "SameSite", "samesite", val);
  }

  lemma PriorityTextReads(p: Priority, otherwise: Option<Priority>)
    ensures Trim(PriorityText(p)) == PriorityText(p) && PriorityFrom(Lower(PriorityText(p)), otherwise) == Some(p)
  {
    TrimTrimmed(PriorityText(p));
    hide Trim;
    match p
    case Low => assert Lower("Low") == "low";
    case Medium => assert Lower("Medium") == "medium";
    case High => assert Lower("High") == "high";
  }

  lemma ReadPriority(c: Cookie, p: Priority)
    ensures ApplyAll(c, [" Priority=" + PriorityText(p)]) == c.(priority := Some(p))
  {
    var val := PriorityText(p);
    PriorityTextReads(p, c.priority);
    hide ApplyAll, Trim, PriorityText, PriorityFrom;
    assert " " + "Priority" + "=" + val == " Priority=" + val;
    Segment(c, "Priority", "priority", val);
  }
}
