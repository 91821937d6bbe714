/** Array.prototype.sort as the modelled code uses it: a stable sort under a total preorder. */
module StableSort {

  ghost predicate TotalPreorder<T(!new)>(le: (T, T) -> bool) {
    && (forall a, b :: le(a, b) || le(b, a))
    && (forall a, b, c :: le(a, b) && le(b, c) ==> le(a, c))
  }

  ghost predicate Ordered<T>(le: (T, T) -> bool, s: seq<T>) {
    forall i, j :: 0 <= i < j < |s| ==> le(s[i], s[j])
  }

  function Insert<T>(le: (T, T) -> bool, x: T, s: seq<T>): (r: seq<T>)
    ensures multiset(r) == multiset(s) + multiset{x}
  {
    if s == [] || le(x, s[0]) then [x] + s
    else
      assert s == [s[0]] + s[1..];
      [s[0]] + Insert(le, x, s[1..])
  }

  function Sort<T>(le: (T, T) -> bool, s: seq<T>): (r: seq<T>)
    ensures multiset(r) == multiset(s)
    ensures |r| == |s|
  {
    if s == [] then [] else
      assert s == [s[0]] + s[1..];
      var r := Insert(le, s[0], Sort(le, s[1..]));
      assert |multiset(r)| == |multiset(s)|;
      r
  }

  lemma InsertOrdered<T(!new)>(le: (T, T) -> bool, x: T, s: seq<T>)
    requires TotalPreorder(le) && Ordered(le, s)
    ensures Ordered(le, Insert(le, x, s))
  {
    if s != [] && !le(x, s[0]) {
      InsertOrdered(le, x, s[1..]);
      var t := Insert(le, x, s[1..]);
      forall i | 0 <= i < |t| ensures le(s[0], t[i]) {
        assert t[i] in multiset(t);
        assert t[i] in multiset(s[1..]) + multiset{x};
      }
    } else if s != [] {
      assert forall i :: 0 <= i < |s| ==> le(x, s[i]);
    }
  }

  lemma {:induction false} SortOrdered<T(!new)>(le: (T, T) -> bool, s: seq<T>)
    requires TotalPreorder(le)
    ensures Ordered(le, Sort(le, s))
  {
    if s != [] {
      SortOrdered(le, s[1..]);
      InsertOrdered(le, s[0], Sort(le, s[1..]));
    }
  }

  /** Stability at the front: the head of the sorted list is the earliest of the least elements. */
  lemma {:induction false} SortHead<T(!new)>(le: (T, T) -> bool, s: seq<T>) returns (k: nat)
    requires TotalPreorder(le) && s != []
    ensures k < |s| && Sort(le, s)[0] == s[k]
    ensures forall i :: 0 <= i < |s| ==> le(s[k], s[i])
    ensures forall i :: 0 <= i < k ==> !le(s[i], s[k])
  {
    if |s| == 1 {
      k := 0;
      assert Sort(le, s) == Insert(le, s[0], []);
    } else {
      var rest := s[1..];
      var j := SortHead(le, rest);
      k := if le(s[0], rest[j]) then 0 else j + 1;
      SortUnfold(le, s);
      hide Sort, Insert;
      forall i | 0 <= i < |s| ensures le(s[k], s[i]) && (i < k ==> !le(s[i], s[k])) {
        if i > 0 { assert s[i] == rest[i - 1] && le(rest[j], rest[i - 1]); }
        else { assert le(s[0], s[0]); }
      }
    }
  }

  lemma SortUnfold<T(!new)>(le: (T, T) -> bool, s: seq<T>)
    requires |s| > 1
    ensures Sort(le, s) == Insert(le, s[0], Sort(le, s[1..]))
    ensures var first := Sort(le, s[1..])[0]; Sort(le, s)[0] == if le(s[0], first) then s[0] else first
  {
    assert |Sort(le, s[1..])| > 0;
  }

  ghost predicate Antisymmetric<T(!new)>(le: (T, T) -> bool) {
    forall a, b :: le(a, b) && le(b, a) ==> a == b
  }

  /** A total order leaves one way to arrange the same elements. */
  lemma {:induction false} OrderedIsUnique<T(!new)>(le: (T, T) -> bool, s: seq<T>, t: seq<T>)
    requires TotalPreorder(le) && Antisymmetric(le) && Ordered(le, s) && Ordered(le, t)
    requires multiset(s) == multiset(t)
    ensures s == t
  {
    if s == [] {
      assert |multiset(t)| == 0;
    } else {
      assert |multiset(s)| == |multiset(t)|;
      FirstEqual(le, s, t);
      RestOf(s);
      RestOf(t);
      hide TotalPreorder, Antisymmetric;
      OrderedIsUnique(le, s[1..], t[1..]);
    }
  }

  lemma RestOf<T>(s: seq<T>)
    requires s != []
    ensures s == [s[0]] + s[1..] && multiset(s[1..]) == multiset(s) - multiset{s[0]}
  {
    assert s == [s[0]] + s[1..];
  }

  lemma FirstEqual<T(!new)>(le: (T, T) -> bool, s: seq<T>, t: seq<T>)
    requires TotalPreorder(le) && Antisymmetric(le) && Ordered(le, s) && Ordered(le, t)
    requires multiset(s) == multiset(t) && s != [] && t != []
    ensures s[0] == t[0]
  {
    assert s[0] in multiset(s) && t[0] in multiset(t);
    LeastFirst(le, s, t[0]);
    LeastFirst(le, t, s[0]);
  }

  lemma LeastFirst<T(!new)>(le: (T, T) -> bool, s: seq<T>, x: T)
    requires TotalPreorder(le) && Ordered(le, s) && s != []
    ensures x in multiset(s) ==> le(s[0], x)
  {
    if x in multiset(s) {
      assert x in s;
      var i :| 0 <= i < |s| && s[i] == x;
      assert i > 0 ==> le(s[0], s[i]);
      assert le(s[0], s[0]);
    }
  }
}
