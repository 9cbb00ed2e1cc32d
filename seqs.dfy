/** Sequence facts shared by the tables and the read views: the largest key (SQLite's rowid
    choice), a scan that turns some rows into result rows (a join with a `WHERE`) and sorting
    (an `ORDER BY`). */
module Seqs {
  import opened Js

  /** Every element stands in relation `rel` to every later one: ascending keys, distinct
      rows, or a sort order, depending on `rel`. */
  predicate Pairwise<T>(s: seq<T>, rel: (T, T) -> bool)
  {
    forall i, j :: 0 <= i < j < |s| ==> rel(s[i], s[j])
  }

  /** `le` compares any two values and is transitive: a valid `ORDER BY` key. */
  ghost predicate TotalPreorder<T(!new)>(le: (T, T) -> bool)
  {
    && (forall a, b :: le(a, b) || le(b, a))
    && (forall a, b, c :: le(a, b) && le(b, c) ==> le(a, c))
  }

  /** Appending an element that stands in `rel` to all others keeps the relation. */
  lemma AppendKeepsPairwise<T>(s: seq<T>, x: T, rel: (T, T) -> bool)
    requires Pairwise(s, rel)
    requires forall y :: y in s ==> rel(y, x)
    ensures Pairwise(s + [x], rel)
  {
    var r := s + [x];
    forall i, j | 0 <= i < j < |r|
      ensures rel(r[i], r[j])
    {
      assert r[i] == s[i];
      if j < |s| {
        assert r[j] == s[j];
      }
    }
  }

  /** The largest key in `s`, or 0 when `s` is empty or every key is negative. */
  function MaxKey<T(!new)>(s: seq<T>, key: T -> int): (m: int)
    ensures m >= 0
    ensures forall x :: x in s ==> key(x) <= m
    ensures m == 0 || exists x :: x in s && key(x) == m
  {
    if s == [] then 0
    else
      var front := s[..|s| - 1];
      var last := s[|s| - 1];
      assert s == front + [last];
      var m := MaxKey(front, key);
      if key(last) > m then key(last) else m
  }

  /** Putting in front an element that stands in `rel` to all others keeps the relation. */
  lemma PrependKeepsPairwise<T>(x: T, s: seq<T>, rel: (T, T) -> bool)
    requires Pairwise(s, rel)
    requires forall j :: 0 <= j < |s| ==> rel(x, s[j])
    ensures Pairwise([x] + s, rel)
  {
    var r := [x] + s;
    forall i, j | 0 <= i < j < |r|
      ensures rel(r[i], r[j])
    {
      assert r[j] == s[j - 1];
      if i > 0 {
        assert r[i] == s[i - 1];
      }
    }
  }

  /** Insertion into a sorted sequence keeps it sorted and adds exactly `x`. */
  function Insert<T(!new)>(x: T, s: seq<T>, le: (T, T) -> bool): (r: seq<T>)
    requires TotalPreorder(le) && Pairwise(s, le)
    ensures Pairwise(r, le)
    ensures multiset(r) == multiset(s) + multiset{x}
  {
    if s == [] then [x]
    else if le(x, s[0]) then
      InsertFront(x, s, le);
      [x] + s
    else
      assert s == [s[0]] + s[1..];
      var rest := Insert(x, s[1..], le);
      InsertBehind(x, s, rest, le);
      [s[0]] + rest
  }

  /** `x` goes first when it is no greater than the first element. */
  lemma InsertFront<T(!new)>(x: T, s: seq<T>, le: (T, T) -> bool)
    requires TotalPreorder(le) && Pairwise(s, le)
    requires s != [] && le(x, s[0])
    ensures Pairwise([x] + s, le)
  {
    forall j | 0 <= j < |s|
      ensures le(x, s[j])
    {
      if j > 0 {
        assert le(x, s[0]) && le(s[0], s[j]);
      }
    }
    PrependKeepsPairwise(x, s, le);
  }

  /** Otherwise the first element stays first, ahead of the rest with `x` inserted. */
  lemma InsertBehind<T(!new)>(x: T, s: seq<T>, rest: seq<T>, le: (T, T) -> bool)
    requires TotalPreorder(le) && Pairwise(s, le)
    requires s != [] && !le(x, s[0])
    requires Pairwise(rest, le) && multiset(rest) == multiset(s[1..]) + multiset{x}
    ensures Pairwise([s[0]] + rest, le)
  {
    forall j | 0 <= j < |rest|
      ensures le(s[0], rest[j])
    {
      assert rest[j] in multiset(rest);
      if rest[j] != x {
        assert rest[j] in multiset(s[1..]);
        var k :| 0 <= k < |s| - 1 && s[1..][k] == rest[j];
        assert s[k + 1] == rest[j];
      } else {
        assert le(x, s[0]) || le(s[0], x);
      }
    }
    PrependKeepsPairwise(s[0], rest, le);
  }

  /** An `ORDER BY` on key `le`: the same rows, in non-decreasing order. The order among rows
      with equal keys is the input order (the sort is stable), one of the orders SQLite may pick. */
  function Sort<T(!new)>(s: seq<T>, le: (T, T) -> bool): (r: seq<T>)
    requires TotalPreorder(le)
    ensures Pairwise(r, le)
    ensures multiset(r) == multiset(s)
  {
    if s == [] then []
    else
      assert s == [s[0]] + s[1..];
      Insert(s[0], Sort(s[1..], le), le)
  }

  /** A scan in table order: the result row `rowFor` makes of each element, skipping those it
      makes none of (rows the `WHERE` or an inner join drops). */
  function Collect<E, R>(es: seq<E>, rowFor: E -> Option<R>): (rs: seq<R>)
    ensures |rs| <= |es|
  {
    if es == [] then []
    else
      var rest := Collect(es[1..], rowFor);
      match rowFor(es[0])
      case Some(r) => [r] + rest
      case None => rest
  }

  /** A scan yields exactly the rows made of its elements. */
  lemma {:induction false} CollectMembers<E, R>(es: seq<E>, rowFor: E -> Option<R>)
    ensures forall r :: r in Collect(es, rowFor) <==> exists e :: e in es && rowFor(e) == Some(r)
  {
    if es != [] {
      CollectMembers(es[1..], rowFor);
      assert forall e :: e in es <==> e == es[0] || e in es[1..];
    }
  }

  /** Every row of a scan is made of one of its elements. */
  lemma {:induction false} CollectOrigin<E, R>(es: seq<E>, rowFor: E -> Option<R>, k: int)
    requires 0 <= k < |Collect(es, rowFor)|
    ensures exists i :: 0 <= i < |es| && rowFor(es[i]) == Some(Collect(es, rowFor)[k])
  {
    var rest := Collect(es[1..], rowFor);
    if rowFor(es[0]).Some? && k == 0 {
      assert rowFor(es[0]) == Some(Collect(es, rowFor)[k]);
    } else {
      var k' := if rowFor(es[0]).Some? then k - 1 else k;
      assert Collect(es, rowFor)[k] == rest[k'];
      CollectOrigin(es[1..], rowFor, k');
      var i :| 0 <= i < |es| - 1 && rowFor(es[1..][i]) == Some(rest[k']);
      assert es[1..][i] == es[i + 1];
    }
  }

  /** Rows that inherit their element's key come out of a scan in ascending key order when the
      elements were in it. */
  lemma {:induction false} CollectKeys<E, R>(es: seq<E>, rowFor: E -> Option<R>, ekey: E -> int, rkey: R -> int)
    requires forall i, j :: 0 <= i < j < |es| ==> ekey(es[i]) < ekey(es[j])
    requires forall e :: rowFor(e).Some? ==> rkey(rowFor(e).value) == ekey(e)
    ensures forall i, j :: 0 <= i < j < |Collect(es, rowFor)| ==>
      rkey(Collect(es, rowFor)[i]) < rkey(Collect(es, rowFor)[j])
  {
    if es != [] {
      CollectKeys(es[1..], rowFor, ekey, rkey);
      CollectMembers(es[1..], rowFor);
      var rest := Collect(es[1..], rowFor);
      if rowFor(es[0]).Some? {
        var rs := Collect(es, rowFor);
        forall i, j | 0 <= i < j < |rs|
          ensures rkey(rs[i]) < rkey(rs[j])
        {
          assert rs[j] == rest[j - 1];
          if i == 0 {
            CollectOrigin(es[1..], rowFor, j - 1);
            var k :| 0 <= k < |es| - 1 && rowFor(es[1..][k]) == Some(rest[j - 1]);
            assert es[1..][k] == es[k + 1];
          } else {
            assert rs[i] == rest[i - 1];
          }
        }
      }
    }
  }

  /** Rows with pairwise different keys each occur exactly once. */
  lemma {:induction false} DistinctKeysOccurOnce<T>(s: seq<T>, key: T -> int)
    requires forall i, j :: 0 <= i < j < |s| ==> key(s[i]) != key(s[j])
    ensures forall x :: x in s ==> multiset(s)[x] == 1
  {
    if s != [] {
      var rest := s[1..];
      assert s == [s[0]] + rest;
      DistinctKeysOccurOnce(rest, key);
      forall j | 0 <= j < |rest|
        ensures rest[j] != s[0]
      {
        assert key(s[0]) != key(s[j + 1]);
      }
    }
  }

  /** Elements that each occur once sit at pairwise different positions. */
  lemma OccurOnceDistinct<T>(s: seq<T>)
    requires forall x :: x in s ==> multiset(s)[x] == 1
    ensures forall i, j :: 0 <= i < j < |s| ==> s[i] != s[j]
  {
    forall i, j | 0 <= i < j < |s|
      ensures s[i] != s[j]
    {
      assert s == s[..j] + s[j..];
      assert s[i] in s[..j] && s[j] in s[j..];
      assert multiset(s)[s[j]] == multiset(s[..j])[s[j]] + multiset(s[j..])[s[j]];
    }
  }

  /** A scan none of whose elements makes a row yields nothing. */
  lemma {:induction false} CollectNone<E, R>(es: seq<E>, rowFor: E -> Option<R>)
    requires forall i :: 0 <= i < |es| ==> rowFor(es[i]).None?
    ensures Collect(es, rowFor) == []
  {
    if es != [] {
      assert forall i :: 0 <= i < |es| - 1 ==> es[1..][i] == es[i + 1];
      CollectNone(es[1..], rowFor);
    }
  }

  /** Reordering rows with pairwise different keys keeps the keys pairwise different. */
  lemma PermutedKeysDistinct<T>(s: seq<T>, r: seq<T>, key: T -> int)
    requires multiset(r) == multiset(s)
    requires forall i, j :: 0 <= i < j < |s| ==> key(s[i]) != key(s[j])
    ensures forall i, j :: 0 <= i < j < |r| ==> key(r[i]) != key(r[j])
  {
    DistinctKeysOccurOnce(s, key);
    forall x | x in r
      ensures multiset(r)[x] == 1
    {
      assert x in multiset(s);
    }
    OccurOnceDistinct(r);
    forall i, j | 0 <= i < j < |r|
      ensures key(r[i]) != key(r[j])
    {
      assert r[i] in multiset(s) && r[j] in multiset(s);
      var a :| 0 <= a < |s| && s[a] == r[i];
      var b :| 0 <= b < |s| && s[b] == r[j];
      if a < b {
        assert key(s[a]) != key(s[b]);
      } else {
        assert key(s[b]) != key(s[a]);
      }
    }
  }
}
