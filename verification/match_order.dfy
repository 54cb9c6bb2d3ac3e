/** The order of the result list: ascending by (angle, first body's name,
    second body's name), produced by a stable insertion sort. */
module MatchOrder {
  import opened Tables
  import opened Matches

  /** The sort key order, with names compared through their alphabetical rank. */
  predicate KeyLess(a: AspectMatch, b: AspectMatch)
  {
    || a.angle < b.angle
    || (a.angle == b.angle && NameRank(a.body1) < NameRank(b.body1))
    || (a.angle == b.angle && NameRank(a.body1) == NameRank(b.body1) && NameRank(a.body2) < NameRank(b.body2))
  }

  /** The same order as Python compares the key tuples
      `(angle, chart1_planet, chart2_planet)`, names being strings. */
  predicate PythonKeyLess(a: AspectMatch, b: AspectMatch)
  {
    || a.angle < b.angle
    || (a.angle == b.angle && StrLess(Name(a.body1), Name(b.body1)))
    || (a.angle == b.angle && Name(a.body1) == Name(b.body1) && StrLess(Name(a.body2), Name(b.body2)))
  }

  /** Two records with equal keys. */
  predicate SameKey(a: AspectMatch, b: AspectMatch)
  {
    a.angle == b.angle && a.body1 == b.body1 && a.body2 == b.body2
  }

  /** Names are distinct strings exactly when bodies are distinct. */
  lemma NameInjective(a: Body, b: Body)
    ensures Name(a) == Name(b) <==> a == b
  {
    NameRankOrdersNames(a, b);
    NameRankOrdersNames(b, a);
    if a != b {
      StrLessIrreflexive(Name(a));
    }
  }

  /** Ordering by ranks is ordering the key tuples as Python does. */
  lemma KeyLessIsPythonOrder(a: AspectMatch, b: AspectMatch)
    ensures KeyLess(a, b) <==> PythonKeyLess(a, b)
  {
    NameRankOrdersNames(a.body1, b.body1);
    NameRankOrdersNames(a.body2, b.body2);
    NameInjective(a.body1, b.body1);
  }

  /** Any two records are ordered one way or the other, or share a key. */
  lemma KeyTrichotomy(a: AspectMatch, b: AspectMatch)
    ensures KeyLess(a, b) || KeyLess(b, a) || SameKey(a, b)
  {
    NameRankOrdersNames(a.body1, b.body1);
    NameRankOrdersNames(a.body2, b.body2);
  }

  /** Ascending by key; records with equal keys may be adjacent. */
  predicate Sorted(s: seq<AspectMatch>)
  {
    forall i, j :: 0 <= i < j < |s| ==> !KeyLess(s[j], s[i])
  }

  /** Strictly ascending by key. */
  predicate StrictlySorted(s: seq<AspectMatch>)
  {
    forall i, j :: 0 <= i < j < |s| ==> KeyLess(s[i], s[j])
  }

  /** No two positions of s hold records with equal keys. */
  predicate KeysDistinct(s: seq<AspectMatch>)
  {
    forall i, j :: 0 <= i < j < |s| ==> !SameKey(s[i], s[j])
  }

  /** A bound on x and on every element of `rest` bounds every element of a
      sequence made of exactly those. */
  lemma BoundCarries(y: AspectMatch, x: AspectMatch, rest: seq<AspectMatch>, t: seq<AspectMatch>)
    requires multiset(t) == multiset(rest) + multiset{x}
    requires !KeyLess(x, y)
    requires forall e :: e in rest ==> !KeyLess(e, y)
    ensures forall e :: e in t ==> !KeyLess(e, y)
  {
    forall e | e in t
      ensures !KeyLess(e, y)
    {
      assert e in multiset(t);
    }
  }

  /** Inserts x before the first element whose key is not below x's, which
      keeps x ahead of the records with an equal key. */
  function Insert(x: AspectMatch, s: seq<AspectMatch>): (r: seq<AspectMatch>)
    requires Sorted(s)
    ensures Sorted(r)
    ensures multiset(r) == multiset(s) + multiset{x}
  {
    if |s| == 0 || !KeyLess(s[0], x) then
      [x] + s
    else
      assert s == [s[0]] + s[1..];
      var t := Insert(x, s[1..]);
      BoundCarries(s[0], x, s[1..], t);
      [s[0]] + t
  }

  /** Stable insertion sort by key. */
  function SortByKey(s: seq<AspectMatch>): (r: seq<AspectMatch>)
    ensures Sorted(r)
    ensures multiset(r) == multiset(s)
  {
    if |s| == 0 then []
    else
      assert s == [s[0]] + s[1..];
      Insert(s[0], SortByKey(s[1..]))
  }

  /** The key order never runs both ways between two records. */
  lemma KeyLessAsymmetric(a: AspectMatch, b: AspectMatch)
    ensures !(KeyLess(a, b) && KeyLess(b, a))
  {
  }

  lemma KeyLessTransitive(a: AspectMatch, b: AspectMatch, c: AspectMatch)
    requires KeyLess(a, b) && KeyLess(b, c)
    ensures KeyLess(a, c)
  {
  }

  /** A record below every element of a strictly ascending list can lead it. */
  lemma ConsStrict(x: AspectMatch, s: seq<AspectMatch>)
    requires StrictlySorted(s)
    requires forall e :: e in s ==> KeyLess(x, e)
    ensures StrictlySorted([x] + s)
  {
    var r := [x] + s;
    forall i, j | 0 <= i < j < |r|
      ensures KeyLess(r[i], r[j])
    {
      if i == 0 {
        assert r[j] in s;
      } else {
        assert r[i] == s[i - 1] && r[j] == s[j - 1];
      }
    }
  }

  /** Dropping the head keeps a list strictly ascending, and the head is
      below everything after it. */
  lemma TailStrict(s: seq<AspectMatch>)
    requires StrictlySorted(s) && |s| > 0
    ensures StrictlySorted(s[1..])
    ensures forall e :: e in s[1..] ==> KeyLess(s[0], e)
  {
    var rest := s[1..];
    forall i, j | 0 <= i < j < |rest|
      ensures KeyLess(rest[i], rest[j])
    {
      assert rest[i] == s[i + 1] && rest[j] == s[j + 1];
    }
    forall e | e in rest
      ensures KeyLess(s[0], e)
    {
      var k :| 0 <= k < |rest| && rest[k] == e;
      assert s[k + 1] == e;
    }
  }

  /** A record below the head of a strictly ascending list is below all of it. */
  lemma BelowAll(x: AspectMatch, s: seq<AspectMatch>)
    requires StrictlySorted(s) && |s| > 0 && KeyLess(x, s[0])
    ensures forall e :: e in s ==> KeyLess(x, e)
  {
    forall e | e in s
      ensures KeyLess(x, e)
    {
      var k :| 0 <= k < |s| && s[k] == e;
      if k > 0 {
        KeyLessTransitive(x, s[0], e);
      }
    }
  }

  /** A strict lower bound on x and on every element of `rest` bounds every
      element of a sequence made of exactly those. */
  lemma StrictBoundCarries(y: AspectMatch, x: AspectMatch, rest: seq<AspectMatch>, t: seq<AspectMatch>)
    requires multiset(t) == multiset(rest) + multiset{x}
    requires KeyLess(y, x)
    requires forall e :: e in rest ==> KeyLess(y, e)
    ensures forall e :: e in t ==> KeyLess(y, e)
  {
    forall e | e in t
      ensures KeyLess(y, e)
    {
      assert e in multiset(t);
    }
  }

  lemma {:induction false} InsertStrict(x: AspectMatch, s: seq<AspectMatch>)
    requires StrictlySorted(s)
    requires forall e :: e in s ==> !SameKey(x, e)
    ensures StrictlySorted(Insert(x, s))
  {
    if |s| == 0 {
      assert Insert(x, s) == [x];
    } else {
      assert s[0] in s;
      KeyTrichotomy(s[0], x);
      if KeyLess(s[0], x) {
        TailStrict(s);
        InsertStrict(x, s[1..]);
        var t := Insert(x, s[1..]);
        StrictBoundCarries(s[0], x, s[1..], t);
        ConsStrict(s[0], t);
      } else {
        BelowAll(x, s);
        ConsStrict(x, s);
      }
    }
  }

  /** When no two records share a key, the sort is strictly ascending. */
  lemma {:induction false} SortStrict(s: seq<AspectMatch>)
    requires KeysDistinct(s)
    ensures StrictlySorted(SortByKey(s))
  {
    if |s| > 0 {
      SortStrict(s[1..]);
      var t := SortByKey(s[1..]);
      forall e | e in t
        ensures !SameKey(s[0], e)
      {
        assert e in multiset(s[1..]);
        var j :| 0 <= j < |s[1..]| && s[1..][j] == e;
        assert s[j + 1] == e;
      }
      InsertStrict(s[0], t);
    }
  }

  /** The head of a strictly ascending list is below every other element. */
  lemma HeadIsLeast(a: seq<AspectMatch>, e: AspectMatch)
    requires StrictlySorted(a) && e in a
    ensures e == a[0] || KeyLess(a[0], e)
  {
    var k :| 0 <= k < |a| && a[k] == e;
  }

  /** Two strictly ascending lists with the same elements start alike. */
  lemma HeadsAgree(a: seq<AspectMatch>, b: seq<AspectMatch>)
    requires StrictlySorted(a) && StrictlySorted(b)
    requires multiset(a) == multiset(b)
    requires |a| > 0
    ensures |b| > 0 && a[0] == b[0]
  {
    assert a[0] in multiset(b);
    assert b[0] in multiset(a);
    HeadIsLeast(a, b[0]);
    HeadIsLeast(b, a[0]);
    KeyLessAsymmetric(a[0], b[0]);
  }

  /** A strictly ascending arrangement of a collection of records is unique. */
  lemma {:induction false} StrictlySortedUnique(a: seq<AspectMatch>, b: seq<AspectMatch>)
    requires StrictlySorted(a) && StrictlySorted(b)
    requires multiset(a) == multiset(b)
    ensures a == b
    decreases |a|
  {
    if |a| == 0 {
      assert |multiset(b)| == 0;
    } else {
      HeadsAgree(a, b);
      TailStrict(a);
      TailStrict(b);
      assert a == [a[0]] + a[1..];
      assert b == [b[0]] + b[1..];
      assert multiset(a[1..]) == multiset(a) - multiset{a[0]};
      assert multiset(b[1..]) == multiset(b) - multiset{b[0]};
      StrictlySortedUnique(a[1..], b[1..]);
    }
  }
}
