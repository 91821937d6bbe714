/** The bytes on the wire, and where each value that a client hears goes. */
module RespMeaning {
  import opened OptionType
  import opened Resp
  import opened RespStream

  // ---- the wire ----------------------------------------------------------------------------------------------

  /** The value of a row of ASCII digits, from the left. */
  function Read(s: Bytes, sofar: nat): nat {
    if s == [] then sofar else if 48 <= s[0] <= 57 then Read(s[1..], sofar * 10 + s[0] - 48) else 0
  }

  predicate AllDigits(s: Bytes) { s != [] && forall i :: 0 <= i < |s| ==> 48 <= s[i] <= 57 }

  lemma {:induction false} ReadLast(s: Bytes, sofar: nat)
    requires AllDigits(s)
    ensures Read(s, sofar) == Read(s[..|s| - 1], sofar) * 10 + s[|s| - 1] - 48
    decreases |s|
  {
    if |s| > 1 {
      ReadLast(s[1..], sofar * 10 + s[0] - 48);
      assert s[1..][..|s| - 2] == s[..|s| - 1][1..];
    } else {
      assert s[..0] == [] && s[1..] == [];
    }
  }

  lemma {:induction false} DigitsMean(s: Bytes)
    ensures DigitsValue(s) == if AllDigits(s) then Some(Read(s, 0)) else None
  {
    if s != [] {
      var rest := s[..|s| - 1];
      DigitsMean(rest);
      if AllDigits(s) {
        ReadLast(s, 0);
        assert rest == [] ==> Read(rest, 0) == 0;
      }
    }
  }

  /** A number is an optional sign and digits, read in base ten; nothing else is one. */
  lemma NumberMeans(s: Bytes, n: int)
    ensures NumberValue(s) == Some(n) <==>
      || (AllDigits(s) && n == Read(s, 0))
      || (s != [] && s[0] == 43 && AllDigits(s[1..]) && n == Read(s[1..], 0))
      || (s != [] && s[0] == 45 && AllDigits(s[1..]) && n == 0 - Read(s[1..], 0))
  {
    DigitsMean(s);
    if s != [] { DigitsMean(s[1..]); }
    hide DigitsValue, Read;
  }

  const CR_LF: Bytes := [13, 10]

  /**
    What each kind of reply looks like: + and - lines, : with a number, $ with the length and the
    bytes, * with the count and the elements, and a length of -1 for null.
   */
  lemma WireForm(r: Reply)
    ensures match r
      case Simple(b) => Encode(r) == [43] + b + CR_LF && ValueOf(r) == Str(b)
      case Error(b) => Encode(r) == [45] + b + CR_LF && ValueOf(r) == Err(b)
      case Integer(n) => (exists d :: NumberValue(d) == Some(n) && Encode(r) == [58] + d + CR_LF) && ValueOf(r) == Num(n)
      case Bulk(b) => (exists d :: AllDigits(d) && Read(d, 0) == |b| && Encode(r) == [36] + d + CR_LF + b + CR_LF) && ValueOf(r) == Str(b)
      case NullBulk => Encode(r) == [36, 45, 49, 13, 10] && ValueOf(r) == Null
      case Array(items) => (exists d :: AllDigits(d) && Read(d, 0) == |items| && Encode(r) == [42] + d + CR_LF + EncodeAll(items))
        && ValueOf(r) == List(ValuesOf(items))
      case NullArray => Encode(r) == [42, 45, 49, 13, 10] && ValueOf(r) == Null
  {
    hide DigitsValue, Read;
    match r
    case Simple(b) =>
    case Error(b) =>
    case Integer(n) =>
      NumberRoundTrip(n);
      assert Encode(r) == [58] + Decimal(n) + CR_LF;
    case Bulk(b) => CountMeans(|b|); assert Encode(r) == [36] + Digits(|b|) + CR_LF + b + CR_LF;
    case NullBulk => MinusOne();
    case Array(items) => CountMeans(|items|); assert Encode(r) == [42] + Digits(|items|) + CR_LF + EncodeAll(items);
    case NullArray => MinusOne();
  }

  lemma CountMeans(n: nat)
    ensures AllDigits(Digits(n)) && Read(Digits(n), 0) == n
  {
    DigitsRoundTrip(n);
    DigitsMean(Digits(n));
  }

  lemma MinusOne()
    ensures Decimal(-1) == [45, 49]
  {}

  /** No line, no reply yet; a line with another first byte throws. */
  lemma OtherTypesAreRejected(buf: Bytes, pos: nat)
    ensures (forall i :: pos <= i < |buf| - 1 ==> !(buf[i] == 13 && buf[i + 1] == 10)) ==> Parse(buf, pos) == Incomplete
    ensures pos < |buf| && buf[pos] !in [43, 45, 58, 36, 42] ==>
      (Parse(buf, pos) == Rejected <==> exists i :: pos <= i < |buf| - 1 && buf[i] == 13 && buf[i + 1] == 10)
  {
    hide NumberValue, ByHeader;
  }

  // ---- where a value goes --------------------------------------------------------------------------------------

  /** Heard in subscriber mode, an array that begins with the text `message`. */
  predicate Pushed(h: Heard) {
    h.subscriber && h.value.List? && h.value.items != [] && h.value.items[0].Str?
      && h.value.items[0].bytes == ['m' as int, 'e' as int, 's' as int, 's' as int, 'a' as int, 'g' as int, 'e' as int]
  }

  function PushesAmong(heard: seq<Heard>): (n: nat)
    ensures n <= |heard|
  {
    if heard == [] then 0 else PushesAmong(heard[..|heard| - 1]) + if Pushed(heard[|heard| - 1]) then 1 else 0
  }

  lemma PushedMeans(h: Heard)
    ensures Pushed(h) <==> IsPush(h.subscriber, h.value)
  {
    assert MESSAGE == ['m' as int, 'e' as int, 's' as int, 's' as int, 'a' as int, 'g' as int, 'e' as int];
  }

  lemma {:induction false} Sorted(heard: seq<Heard>, i: nat)
    requires i < |heard|
    ensures |Pushes(heard)| == PushesAmong(heard) && |Answers(heard)| == |heard| - PushesAmong(heard)
    ensures var p := PushesAmong(heard[..i]);
      if Pushed(heard[i]) then p < |Pushes(heard)| && Pushes(heard)[p] == heard[i].value
      else i - p < |Answers(heard)| && Answers(heard)[i - p] == heard[i].value
    decreases |heard|
  {
    var n := |heard| - 1;
    PushedMeans(heard[n]);
    hide Pushed, IsPush;
    if n == 0 {
      assert heard[..0] == [];
    } else {
      Sorted(heard[..n], if i < n then i else 0);
    }
    assert i < n ==> heard[..n][..i] == heard[..i];
  }

  /**
    In every run: the i-th value heard goes to the listeners if it is a push, in order; otherwise it
    settles the next waiting command, the one sent as many commands after the first as values other
    than pushes were heard before.
   */
  lemma HeardGoesWhereItBelongs(events: seq<Event>, i: nat)
    requires i < |History(events).heard| && History(events).box.dropped == []
    ensures var (box, heard) := (History(events).box, History(events).heard);
      var p := PushesAmong(heard[..i]);
      if Pushed(heard[i]) then p < |box.pushed| && box.pushed[p] == heard[i].value
      else i - p < |box.settled| && i - p < |Sent(events)| && box.settled[i - p] == (Sent(events)[i - p], heard[i].value)
    ensures |History(events).box.pushed| + |History(events).box.settled| == |History(events).heard|
  {
    var box, heard := History(events).box, History(events).heard;
    HistoryInOrder(events);
    hide *;
    ToldIs(History(events), Sent(events), Chunks(events));
    InOrderSplit(box, Sent(events), heard);
    Sorted(heard, i);
    var p := PushesAmong(heard[..i]);
    LengthsAre(box);
    if !Pushed(heard[i]) {
      SettledAt(box, i - p);
      assert Ids(box.settled)[i - p] == Sent(events)[i - p];
    }
  }

  lemma SettledAt(box: Inbox, k: nat)
    requires k < |Results(box.settled)|
    ensures |Ids(box.settled)| == |Results(box.settled)| == |box.settled|
    ensures box.settled[k] == (Ids(box.settled)[k], Results(box.settled)[k])
  {}

  lemma LengthsAre(box: Inbox)
    ensures |Results(box.settled)| == |box.settled|
  {}
}
