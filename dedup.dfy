/** `drop_duplicates()` with its defaults (every column compared, the first
    occurrence kept), over any sequence of comparable values. */
module Duplicates {

  predicate NoDuplicates<T(==)>(s: seq<T>)
  {
    forall i, j :: 0 <= i < j < |s| ==> s[i] != s[j]
  }

  /** Scans `s` left to right and keeps each value the first time it is
      seen. */
  function Dedup<T(==)>(s: seq<T>): (r: seq<T>)
    ensures |r| <= |s|
    ensures forall x :: x in r ==> x in s
    ensures forall x :: x in s ==> x in r
    ensures NoDuplicates(r)
  {
    if s == [] then []
    else
      var d := Dedup(s[..|s| - 1]);
      var x := s[|s| - 1];
      assert s == s[..|s| - 1] + [x];
      if x in d then d else d + [x]
  }

  /** Position of the first occurrence of `x` in `s`. */
  function FirstIndex<T(==)>(s: seq<T>, x: T): (k: nat)
    requires x in s
    ensures k < |s| && s[k] == x && x !in s[..k]
  {
    if s[0] == x then 0
    else
      var k := 1 + FirstIndex(s[1..], x);
      assert s[..k] == [s[0]] + s[1..][..k - 1];
      k
  }

  /** A position holding `x` with no `x` before it is the first one. */
  lemma FirstIndexIsUnique<T>(s: seq<T>, x: T, k: nat)
    requires k < |s| && s[k] == x && x !in s[..k]
    ensures FirstIndex(s, x) == k
  {
    var f := FirstIndex(s, x);
    assert forall m :: 0 <= m < k ==> s[..k][m] == s[m];
    assert forall m :: 0 <= m < f ==> s[..f][m] == s[m];
  }

  /** Values of `r` listed in the order in which they first occur in `s`. */
  predicate InFirstOccurrenceOrder<T(==)>(s: seq<T>, r: seq<T>)
  {
    && (forall x :: x in r ==> x in s)
    && forall i, j :: 0 <= i < j < |r| ==> FirstIndex(s, r[i]) < FirstIndex(s, r[j])
  }

  /** The survivors of Dedup are listed by first occurrence. */
  lemma {:induction false} DedupKeepsFirstOccurrenceOrder<T>(s: seq<T>)
    ensures InFirstOccurrenceOrder(s, Dedup(s))
  {
    if s != [] {
      var n := |s| - 1;
      var p := s[..n];
      var d := Dedup(p);
      DedupKeepsFirstOccurrenceOrder(p);
      assert s == p + [s[n]];
      forall y | y in p ensures y in s && FirstIndex(s, y) == FirstIndex(p, y) {
        var k := FirstIndex(p, y);
        assert s[..k] == p[..k];
        FirstIndexIsUnique(s, y, k);
      }
      if s[n] !in d {
        assert s[..n] == p;
        FirstIndexIsUnique(s, s[n], n);
        var r := d + [s[n]];
        assert forall x :: x in r ==> x in s;
        forall i, j | 0 <= i < j < |r| ensures FirstIndex(s, r[i]) < FirstIndex(s, r[j]) {
          assert r[i] == d[i] && r[i] in p;
          if j < |d| {
            assert r[j] == d[j] && r[j] in p;
          }
        }
      } else {
        forall i, j | 0 <= i < j < |d| ensures FirstIndex(s, d[i]) < FirstIndex(s, d[j]) {
          assert d[i] in p && d[j] in p;
        }
      }
    }
  }

  /** Two listings of the same values, both in first-occurrence order, are
      the same listing. */
  lemma {:induction false} FirstOccurrenceOrderIsUnique<T>(s: seq<T>, r1: seq<T>, r2: seq<T>)
    requires forall x :: x in r1 <==> x in r2
    requires InFirstOccurrenceOrder(s, r1) && InFirstOccurrenceOrder(s, r2)
    ensures r1 == r2
  {
    if r1 == [] {
      HeadIsMember(r2);
    } else {
      assert r2 != [] by { assert r1[0] in r2; }
      var a, b := r1[0], r2[0];
      assert a == b by {
        assert a in r1 && b in r2;
        var j :| 0 <= j < |r2| && r2[j] == a;
        var i :| 0 <= i < |r1| && r1[i] == b;
        assert FirstIndex(s, r1[0]) <= FirstIndex(s, r1[i]);
        assert FirstIndex(s, r2[0]) <= FirstIndex(s, r2[j]);
      }
      var t1, t2 := r1[1..], r2[1..];
      assert a !in t1 by {
        forall k | 0 <= k < |t1| ensures t1[k] != a {
          assert FirstIndex(s, r1[0]) < FirstIndex(s, r1[k + 1]);
        }
      }
      assert b !in t2 by {
        forall k | 0 <= k < |t2| ensures t2[k] != b {
          assert FirstIndex(s, r2[0]) < FirstIndex(s, r2[k + 1]);
        }
      }
      forall x ensures x in t1 <==> x in t2 {
        assert x in r1 <==> x == a || x in t1 by { assert r1 == [a] + t1; }
        assert x in r2 <==> x == b || x in t2 by { assert r2 == [b] + t2; }
      }
      assert InFirstOccurrenceOrder(s, t1) by {
        forall i, j | 0 <= i < j < |t1| ensures FirstIndex(s, t1[i]) < FirstIndex(s, t1[j]) {
          assert t1[i] == r1[i + 1] && t1[j] == r1[j + 1];
        }
      }
      assert InFirstOccurrenceOrder(s, t2) by {
        forall i, j | 0 <= i < j < |t2| ensures FirstIndex(s, t2[i]) < FirstIndex(s, t2[j]) {
          assert t2[i] == r2[i + 1] && t2[j] == r2[j + 1];
        }
      }
      FirstOccurrenceOrderIsUnique(s, t1, t2);
      assert r1 == [a] + t1 && r2 == [b] + t2;
    }
  }

  lemma HeadIsMember<T>(r: seq<T>)
    ensures r != [] ==> r[0] in r
  {
  }

  /** Dedup is exactly "the distinct values of `s`, in the order in which
      they first occur". */
  lemma DedupIsFirstOccurrences<T>(s: seq<T>, r: seq<T>)
    ensures r == Dedup(s) <==> (forall x :: x in r <==> x in s) && InFirstOccurrenceOrder(s, r)
  {
    DedupKeepsFirstOccurrenceOrder(s);
    if (forall x :: x in r <==> x in s) && InFirstOccurrenceOrder(s, r) {
      FirstOccurrenceOrderIsUnique(s, r, Dedup(s));
    }
  }

  /** Dropping duplicates one element at a time. */
  lemma DedupSnoc<T>(s: seq<T>, x: T)
    ensures Dedup(s + [x]) == if x in Dedup(s) then Dedup(s) else Dedup(s) + [x]
  {
    assert (s + [x])[..|s|] == s;
  }

  lemma MapSnoc<T, U>(f: T -> U, s: seq<T>, x: T)
    ensures Map(f, s + [x]) == Map(f, s) + [f(x)]
  {
  }

  /** Deduplicating, mapping every element, and deduplicating again is the
      same as mapping and deduplicating once. */
  lemma {:induction false} DedupAfterMap<T, U>(s: seq<T>, f: T -> U)
    ensures Dedup(Map(f, Dedup(s))) == Dedup(Map(f, s))
  {
    if s != [] {
      var n := |s| - 1;
      var p, x := s[..n], s[n];
      var d := Dedup(p);
      DedupAfterMap(p, f);
      assert s == p + [x];
      DedupSnoc(p, x);
      MapSnoc(f, p, x);
      DedupSnoc(Map(f, p), f(x));
      if x in d {
        var k :| 0 <= k < |p| && p[k] == x;
        assert Map(f, p)[k] == f(x);
      } else {
        MapSnoc(f, d, x);
        DedupSnoc(Map(f, d), f(x));
      }
    }
  }

  /** Mapping the deduplicated sequence: no longer than the input, the
      image of every input element is in it, and everything in it is such
      an image. */
  lemma MapDedupMembers<T, U>(f: T -> U, s: seq<T>)
    ensures |Map(f, Dedup(s))| <= |s|
    ensures forall i :: 0 <= i < |s| ==> f(s[i]) in Map(f, Dedup(s))
    ensures forall y :: y in Map(f, Dedup(s)) ==> exists i :: 0 <= i < |s| && y == f(s[i])
  {
    var d := Dedup(s);
    var m := Map(f, d);
    forall i | 0 <= i < |s| ensures f(s[i]) in m {
      assert s[i] in d;
      var k :| 0 <= k < |d| && d[k] == s[i];
      assert m[k] == f(s[i]);
    }
    forall y | y in m ensures exists i :: 0 <= i < |s| && y == f(s[i]) {
      var k :| 0 <= k < |m| && m[k] == y;
      assert d[k] in s;
      var i :| 0 <= i < |s| && s[i] == d[k];
      assert y == f(s[i]);
    }
  }

  /** `f` applied to every element. */
  function Map<T, U>(f: T -> U, s: seq<T>): (r: seq<U>)
  {
    seq(|s|, i requires 0 <= i < |s| => f(s[i]))
  }
}
