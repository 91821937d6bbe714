/**
  What a route lookup means, said over the list of registrations alone: which patterns match a
  path, which of them is preferred, and what the answer is when none serves the method.
 */
module RouterSpec {
  import opened OptionType

  datatype Method = GET | POST | PUT | PATCH | DELETE | OPTIONS | HEAD

  datatype Route = Route(verb: Method, path: string, handler: int)

  // ---- paths -------------------------------------------------------------------------------

  /** Index of the next '/', or the end of the path. */
  function SegmentEnd(path: string, pos: nat): (end: nat)
    requires pos <= |path|
    ensures pos <= end <= |path| && '/' !in path[pos..end]
    ensures end < |path| ==> path[end] == '/'
    decreases |path| - pos
  {
    if pos == |path| || path[pos] == '/' then pos
    else
      var end := SegmentEnd(path, pos + 1);
      assert path[pos..end] == [path[pos]] + path[pos + 1..end];
      end
  }

  function Segments(path: string, pos: nat): (segs: seq<string>)
    decreases |path| + 1 - pos
  {
    if pos > |path| then []
    else [path[pos..SegmentEnd(path, pos)]] + Segments(path, SegmentEnd(path, pos) + 1)
  }

  function StartOf(path: string): nat {
    if |path| > 0 && path[0] == '/' then 1 else 0
  }

  /** The segments of a request path or of a route path: one leading slash is dropped. */
  function PathSegments(path: string): seq<string> {
    Segments(path, StartOf(path))
  }

  function Join(segs: seq<string>): string {
    if segs == [] then "" else if |segs| == 1 then segs[0] else segs[0] + "/" + Join(segs[1..])
  }

  /** What a wildcard binds, the raw rest of the path, is the rest of its segments. */
  lemma {:induction false} JoinSegments(path: string, pos: nat)
    requires pos <= |path|
    ensures Join(Segments(path, pos)) == path[pos..]
    decreases |path| - pos
  {
    var end := SegmentEnd(path, pos);
    var head, rest := path[pos..end], Segments(path, end + 1);
    SegmentsAre(path, pos);
    if end < |path| { SegmentsAre(path, end + 1); }
    hide *;
    if end < |path| {
      JoinSegments(path, end + 1);
      JoinCons(head, rest);
      Reglue(path, pos, end);
    } else {
      Reglue(path, pos, end);
      JoinOne(head);
    }
  }

  lemma SegmentsAre(path: string, pos: nat)
    requires pos <= |path|
    ensures var end := SegmentEnd(path, pos);
      Segments(path, pos) == [path[pos..end]] + Segments(path, end + 1) && (end == |path| ==> Segments(path, end + 1) == [])
  {}

  lemma Reglue(path: string, pos: nat, end: nat)
    requires pos <= end <= |path| && (end < |path| ==> path[end] == '/')
    ensures path[pos..] == if end < |path| then path[pos..end] + "/" + path[end + 1..] else path[pos..end]
  {}

  lemma JoinOne(head: string)
    ensures Join([head] + []) == head
  {
    assert [head] + [] == [head];
  }

  lemma JoinCons(head: string, rest: seq<string>)
    requires rest != []
    ensures Join([head] + rest) == head + "/" + Join(rest)
  {
    assert ([head] + rest)[1..] == rest;
  }

  // ---- patterns ----------------------------------------------------------------------------

  datatype Seg = Lit(text: string) | Param(key: string) | Wild

  type Pattern = seq<Seg>

  function ParseSeg(s: string): Seg {
    if |s| > 0 && s[0] == ':' then Param(s[1..]) else if s == "*" then Wild else Lit(s)
  }

  function ParsePattern(segs: seq<string>): (p: Pattern)
    ensures |p| == |segs| && forall i :: 0 <= i < |segs| ==> p[i] == ParseSeg(segs[i])
  {
    seq(|segs|, i requires 0 <= i < |segs| => ParseSeg(segs[i]))
  }

  /** A wildcard may only be the final segment. */
  predicate WellFormed(p: Pattern) {
    forall i :: 0 <= i < |p| - 1 ==> p[i] != Wild
  }

  predicate Matches(p: Pattern, segs: seq<string>) {
    if p == [] then segs == []
    else if segs == [] then false
    else match p[0]
      case Wild => |p| == 1
      case Param(_) => Matches(p[1..], segs[1..])
      case Lit(text) => text == segs[0] && Matches(p[1..], segs[1..])
  }

  /** The parameters a matching pattern binds, in path order. */
  function Bindings(p: Pattern, segs: seq<string>): seq<(string, string)>
    requires Matches(p, segs)
  {
    if p == [] then []
    else match p[0]
      case Wild => [("*", Join(segs))]
      case Param(key) => [(key, segs[0])] + Bindings(p[1..], segs[1..])
      case Lit(_) => Bindings(p[1..], segs[1..])
  }

  /** The bindings written over the caller's object; a repeated name keeps the last value. */
  function WriteParams(out: map<string, string>, bs: seq<(string, string)>): map<string, string>
    decreases |bs|
  {
    if bs == [] then out else WriteParams(out[bs[0].0 := bs[0].1], bs[1..])
  }

  // ---- the registry ------------------------------------------------------------------------

  type Table = map<(Method, Pattern), Route>

  /** What the registrations so far add up to: the routes, and every walk made through the trie. */
  datatype Registry = Registry(table: Table, walks: seq<Pattern>, normalized: map<string, string>)

  /** The first walk that passed through a prefix; |walks| if there was none. */
  function FirstWalk(walks: seq<Pattern>, prefix: Pattern): (n: nat)
    ensures n <= |walks|
    ensures n < |walks| ==> prefix <= walks[n]
    ensures forall i :: 0 <= i < n ==> !(prefix <= walks[i])
  {
    if walks == [] then 0 else if prefix <= walks[0] then 0 else 1 + FirstWalk(walks[1..], prefix)
  }

  /** Preference at one segment: literal, then parameters by age, then wildcard. */
  predicate Before(walks: seq<Pattern>, prefix: Pattern, a: Seg, b: Seg) {
    match a
    case Lit(_) => !b.Lit?
    case Param(_) => b.Wild? || (b.Param? && FirstWalk(walks, prefix + [a]) < FirstWalk(walks, prefix + [b]))
    case Wild => false
  }

  /** Preference between two patterns below `prefix`: decided at their first difference. */
  predicate Better(walks: seq<Pattern>, prefix: Pattern, p: Pattern, q: Pattern)
    decreases |p|
  {
    p != [] && q != [] &&
    if p[0] == q[0] then Better(walks, prefix + [p[0]], p[1..], q[1..])
    else Before(walks, prefix, p[0], q[0])
  }

  /** The route a pattern offers a method; HEAD falls back to GET (section 9.3.2 of RFC 9110). */
  function Serving(table: Table, p: Pattern, m: Method): Option<Route> {
    if (m, p) in table then Some(table[(m, p)])
    else if m == HEAD && (GET, p) in table then Some(table[(GET, p)])
    else None
  }

  predicate Candidate(table: Table, prefix: Pattern, segs: seq<string>, m: Method, p: Pattern) {
    Serving(table, prefix + p, m).Some? && Matches(p, segs)
  }

  /** `p` is the candidate preferred to every other one. */
  ghost predicate Best(reg: Registry, prefix: Pattern, segs: seq<string>, m: Method, p: Pattern) {
    && Candidate(reg.table, prefix, segs, m, p)
    && forall q :: Candidate(reg.table, prefix, segs, m, q) && q != p ==> Better(reg.walks, prefix, p, q)
  }

  ghost predicate NoCandidate(table: Table, prefix: Pattern, segs: seq<string>, m: Method) {
    forall q :: !Candidate(table, prefix, segs, m, q)
  }

  /** Some registered pattern below `prefix` matches the path and lists this method. */
  ghost predicate Offered(table: Table, prefix: Pattern, segs: seq<string>, m: Method) {
    exists q :: (m, prefix + q) in table && Matches(q, segs)
  }

  datatype Answer =
    | Found(route: Route, params: map<string, string>)
    | MethodNotAllowed(allowed: set<Method>)
    | NotFound

  /** `a` answers the request; `out` is the parameter object the caller passed in. */
  ghost predicate Answers(reg: Registry, m: Method, path: string, out: map<string, string>, a: Answer) {
    var segs := PathSegments(path);
    match a
    case Found(route, params) =>
      exists p :: Best(reg, [], segs, m, p) && Serving(reg.table, p, m) == Some(route)
             && params == WriteParams(out, Bindings(p, segs))
    case MethodNotAllowed(allowed) =>
      && NoCandidate(reg.table, [], segs, m)
      && allowed != {}
      && forall x :: x in allowed <==> Offered(reg.table, [], segs, x) || (x == HEAD && Offered(reg.table, [], segs, GET))
    case NotFound =>
      forall x :: !Offered(reg.table, [], segs, x)
  }

  // ---- registration ------------------------------------------------------------------------

  datatype Outcome = Registered | Conflict | BadWildcard | Collision

  function MethodName(m: Method): string {
    match m
    case GET => "GET" case POST => "POST" case PUT => "PUT" case PATCH => "PATCH"
    case DELETE => "DELETE" case OPTIONS => "OPTIONS" case HEAD => "HEAD"
  }

  function Blank(seg: string): string {
    if |seg| > 0 && seg[0] == ':' then ":*" else seg
  }

  function Blanked(segs: seq<string>): (r: seq<string>)
    ensures |r| == |segs| && forall i :: 0 <= i < |segs| ==> r[i] == Blank(segs[i])
  {
    seq(|segs|, i requires 0 <= i < |segs| => Blank(segs[i]))
  }

  /** The method and path with every parameter name blanked out. */
  function Norm(m: Method, path: string): string {
    MethodName(m) + " " + Join(Blanked(Segments(path, 0)))
  }

  predicate Ambiguous(reg: Registry, route: Route) {
    var norm := Norm(route.verb, route.path);
    norm in reg.normalized && reg.normalized[norm] != "" && reg.normalized[norm] != route.path
  }

  /** The part of a pattern that registration walks before a misplaced wildcard stops it. */
  function Walked(p: Pattern): Pattern
    decreases |p|
  {
    if p == [] || (p[0] == Wild && |p| > 1) then [] else [p[0]] + Walked(p[1..])
  }

  /** One registration attempt: what it leaves behind and how it ends. */
  function Register(reg: Registry, strict: bool, route: Route): (Registry, Outcome) {
    var p := ParsePattern(PathSegments(route.path));
    var norm := Norm(route.verb, route.path);
    if Ambiguous(reg, route) && strict then (reg, Conflict)
    else
      var reg1 := if Ambiguous(reg, route) then reg else reg.(normalized := reg.normalized[norm := route.path]);
      var reg2 := reg1.(walks := reg.walks + [Walked(p)]);
      if !WellFormed(p) then (reg2, BadWildcard)
      else if (route.verb, p) in reg.table then (reg2, Collision)
      else (reg2.(table := reg.table[(route.verb, p) := route]), Registered)
  }

  function RegisterAll(strict: bool, routes: seq<Route>): Registry {
    if routes == [] then Registry(map[], [], map[])
    else Register(RegisterAll(strict, routes[..|routes| - 1]), strict, routes[|routes| - 1]).0
  }
}
