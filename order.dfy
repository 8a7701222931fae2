/**
 * Orders and sorting shared by the offline tools.
 *
 * Python compares `bytes` values and `str` values lexicographically (a proper
 * prefix is smaller; otherwise the first differing element decides, strings
 * by code point).  Every sort in the tools is such a comparison on some key:
 * characters by code point, strings by code points, phonetic keys by their
 * UTF-8 bytes, glyph records by code point.  So one order on `seq<int>` and
 * one sort by a key function cover all of them.  `list.sort` and `sorted`
 * are stable; `SortByKey` is a stable insertion sort.
 */
module Order {

  /** Strict lexicographic order on integer sequences. */
  predicate LexLess(a: seq<int>, b: seq<int>)
    decreases |a|
  {
    |b| > 0 && (|a| == 0 || a[0] < b[0] || (a[0] == b[0] && LexLess(a[1..], b[1..])))
  }

  lemma {:induction false} LexIrreflexive(a: seq<int>)
    ensures !LexLess(a, a)
    decreases |a|
  {
    if |a| > 0 {
      LexIrreflexive(a[1..]);
    }
  }

  lemma {:induction false} LexTransitive(a: seq<int>, b: seq<int>, c: seq<int>)
    requires LexLess(a, b) && LexLess(b, c)
    ensures LexLess(a, c)
    decreases |a|
  {
    if |a| > 0 && a[0] == b[0] && b[0] == c[0] {
      LexTransitive(a[1..], b[1..], c[1..]);
    }
  }

  lemma LexAsymmetric(a: seq<int>, b: seq<int>)
    requires LexLess(a, b)
    ensures !LexLess(b, a)
  {
    if LexLess(b, a) {
      LexTransitive(a, b, a);
      LexIrreflexive(a);
    }
  }

  lemma {:induction false} LexTotal(a: seq<int>, b: seq<int>)
    ensures a == b || LexLess(a, b) || LexLess(b, a)
    decreases |a|
  {
    if |a| > 0 && |b| > 0 && a[0] == b[0] {
      LexTotal(a[1..], b[1..]);
      if a[1..] == b[1..] {
        assert a == [a[0]] + a[1..];
        assert b == [b[0]] + b[1..];
      }
    }
  }

  /** On one-element keys the order is the order of the integers. */
  lemma LexLessSingleton(x: int, y: int)
    ensures LexLess([x], [y]) <==> x < y
  {
    assert [x][1..] == [];
  }

  /** Keys never decrease along `s` (equal keys may repeat). */
  predicate Ascending<T>(s: seq<T>, key: T -> seq<int>)
  {
    forall i, j :: 0 <= i < j < |s| ==> !LexLess(key(s[j]), key(s[i]))
  }

  /** Keys strictly increase along `s`. */
  predicate StrictlyAscending<T>(s: seq<T>, key: T -> seq<int>)
  {
    forall i, j :: 0 <= i < j < |s| ==> LexLess(key(s[i]), key(s[j]))
  }

  /** No two positions of `s` carry the same key. */
  predicate DistinctKeys<T>(s: seq<T>, key: T -> seq<int>)
  {
    forall i, j :: 0 <= i < j < |s| ==> key(s[i]) != key(s[j])
  }

  /** No element occurs twice in `s`. */
  predicate Distinct<T(==)>(s: seq<T>)
  {
    forall i, j :: 0 <= i < j < |s| ==> s[i] != s[j]
  }

  /** `key` tells the elements of `s` apart. */
  ghost predicate InjectiveOn<T>(s: set<T>, key: T -> seq<int>)
  {
    forall a, b :: a in s && b in s && key(a) == key(b) ==> a == b
  }

  /** Puts `x` after every element whose key is not greater than its own. */
  function Insert<T>(x: T, s: seq<T>, key: T -> seq<int>): (r: seq<T>)
    ensures multiset(r) == multiset(s) + multiset{x}
    decreases |s|
  {
    if s == [] then [x]
    else if LexLess(key(x), key(s[0])) then [x] + s
    else
      assert s == [s[0]] + s[1..];
      [s[0]] + Insert(x, s[1..], key)
  }

  /** Stable insertion sort of `s` by `key`. */
  function SortByKey<T>(s: seq<T>, key: T -> seq<int>): (r: seq<T>)
    ensures multiset(r) == multiset(s)
    decreases |s|
  {
    if s == [] then []
    else
      assert s == s[..|s| - 1] + [s[|s| - 1]];
      Insert(s[|s| - 1], SortByKey(s[..|s| - 1], key), key)
  }

  lemma {:induction false} InsertAscending<T>(x: T, s: seq<T>, key: T -> seq<int>)
    requires Ascending(s, key)
    ensures Ascending(Insert(x, s, key), key)
    decreases |s|
  {
    var r := Insert(x, s, key);
    if s == [] {
    } else if LexLess(key(x), key(s[0])) {
      forall i, j | 0 <= i < j < |r| ensures !LexLess(key(r[j]), key(r[i])) {
        if i == 0 {
          if LexLess(key(r[j]), key(x)) {
            LexTransitive(key(r[j]), key(x), key(s[0]));
            if j == 1 {
              LexIrreflexive(key(s[0]));
            }
          }
        }
      }
    } else {
      var t := Insert(x, s[1..], key);
      InsertAscending(x, s[1..], key);
      assert r == [s[0]] + t;
      forall j | 0 < j < |r| ensures !LexLess(key(r[j]), key(s[0])) {
        assert r[j] == t[j - 1];
        assert r[j] in multiset(t);
        if r[j] != x {
          assert r[j] in multiset(s[1..]);
          var k :| 0 <= k < |s[1..]| && s[1..][k] == r[j];
          assert s[k + 1] == r[j];
        }
      }
    }
  }

  lemma {:induction false} InsertStrict<T>(x: T, s: seq<T>, key: T -> seq<int>)
    requires StrictlyAscending(s, key)
    requires forall y :: y in s ==> key(y) != key(x)
    ensures StrictlyAscending(Insert(x, s, key), key)
    decreases |s|
  {
    var r := Insert(x, s, key);
    if s == [] {
    } else if LexLess(key(x), key(s[0])) {
      forall i, j | 0 <= i < j < |r| ensures LexLess(key(r[i]), key(r[j])) {
        if i == 0 && j > 1 {
          LexTransitive(key(x), key(s[0]), key(r[j]));
        }
      }
    } else {
      var t := Insert(x, s[1..], key);
      InsertStrict(x, s[1..], key);
      assert r == [s[0]] + t;
      LexTotal(key(x), key(s[0]));
      forall j | 0 < j < |r| ensures LexLess(key(s[0]), key(r[j])) {
        assert r[j] == t[j - 1];
        assert r[j] in multiset(t);
        if r[j] != x {
          assert r[j] in multiset(s[1..]);
          var k :| 0 <= k < |s[1..]| && s[1..][k] == r[j];
          assert s[k + 1] == r[j];
        }
      }
    }
  }

  lemma {:induction false} SortAscending<T>(s: seq<T>, key: T -> seq<int>)
    ensures Ascending(SortByKey(s, key), key)
    decreases |s|
  {
    if s != [] {
      SortAscending(s[..|s| - 1], key);
      InsertAscending(s[|s| - 1], SortByKey(s[..|s| - 1], key), key);
    }
  }

  /** Sorting elements whose keys are pairwise different gives strictly increasing keys. */
  lemma {:induction false} SortStrict<T>(s: seq<T>, key: T -> seq<int>)
    requires DistinctKeys(s, key)
    ensures StrictlyAscending(SortByKey(s, key), key)
    decreases |s|
  {
    if s != [] {
      var p := s[..|s| - 1];
      SortStrict(p, key);
      var sp := SortByKey(p, key);
      forall y | y in sp ensures key(y) != key(s[|s| - 1]) {
        assert y in multiset(sp);
        assert y in multiset(p);
        var k :| 0 <= k < |p| && p[k] == y;
        assert s[k] == y;
      }
      InsertStrict(s[|s| - 1], sp, key);
    }
  }

  /** Inserting an element whose key is not below any key of `s` appends it. */
  lemma {:induction false} InsertLast<T>(x: T, s: seq<T>, key: T -> seq<int>)
    requires forall y :: y in s ==> !LexLess(key(x), key(y))
    ensures Insert(x, s, key) == s + [x]
    decreases |s|
  {
    if s != [] {
      InsertLast(x, s[1..], key);
      assert s == [s[0]] + s[1..];
    }
  }

  /** Dropping the last element of an ascending sequence leaves it ascending, below that element. */
  lemma AscendingFront<T>(s: seq<T>, key: T -> seq<int>)
    requires Ascending(s, key) && s != []
    ensures Ascending(s[..|s| - 1], key)
    ensures forall y :: y in s[..|s| - 1] ==> !LexLess(key(s[|s| - 1]), key(y))
  {
    var p := s[..|s| - 1];
    forall i, j | 0 <= i < j < |p| ensures !LexLess(key(p[j]), key(p[i])) {
      assert p[i] == s[i] && p[j] == s[j];
    }
    forall y | y in p ensures !LexLess(key(s[|s| - 1]), key(y)) {
      var k :| 0 <= k < |p| && p[k] == y;
      assert s[k] == y;
    }
  }

  /** Sorting `p + [x]` inserts `x` into sorted `p`. */
  lemma SortSnoc<T>(p: seq<T>, x: T, key: T -> seq<int>)
    ensures SortByKey(p + [x], key) == Insert(x, SortByKey(p, key), key)
  {
    assert (p + [x])[..|p|] == p;
  }

  /** Sorting an already sorted sequence changes nothing (the sort is stable). */
  lemma {:induction false} SortAscendingIdentity<T>(s: seq<T>, key: T -> seq<int>)
    requires Ascending(s, key)
    ensures SortByKey(s, key) == s
    decreases |s|
  {
    if s != [] {
      var n := |s| - 1;
      var p := s[..n];
      assert s == p + [s[n]];
      AscendingFront(s, key);
      SortAscendingIdentity(p, key);
      InsertLast(s[n], p, key);
      SortSnoc(p, s[n], key);
    }
  }

  lemma StrictIsAscending<T>(s: seq<T>, key: T -> seq<int>)
    requires StrictlyAscending(s, key)
    ensures Ascending(s, key)
  {
    forall i, j | 0 <= i < j < |s| ensures !LexLess(key(s[j]), key(s[i])) {
      LexAsymmetric(key(s[i]), key(s[j]));
    }
  }

  /**
   * Two strictly sorted sequences holding the same elements are equal: the
   * result of sorting a set does not depend on the order the set was listed in.
   */
  lemma {:induction false} StrictlyAscendingUnique<T>(a: seq<T>, b: seq<T>, key: T -> seq<int>)
    requires StrictlyAscending(a, key) && StrictlyAscending(b, key)
    requires forall x :: x in a <==> x in b
    ensures a == b
    decreases |a|
  {
    if a != [] {
      assert a[0] in a;
    }
    if b != [] {
      assert b[0] in b;
    }
    if a != [] && b != [] {
      if a[0] != b[0] {
        assert b[0] in a;
        var j :| 0 <= j < |a| && a[j] == b[0];
        assert a[0] in b;
        var k :| 0 <= k < |b| && b[k] == a[0];
        LexAsymmetric(key(a[0]), key(a[j]));
      }
      forall x ensures x in a[1..] <==> x in b[1..] {
        if x in a[1..] {
          var i :| 1 <= i < |a| && a[i] == x;
          if x == b[0] {
            LexIrreflexive(key(a[0]));
          }
          assert x in b;
          var k :| 0 <= k < |b| && b[k] == x;
          assert b[1..][k - 1] == x;
        }
        if x in b[1..] {
          var i :| 1 <= i < |b| && b[i] == x;
          if x == a[0] {
            LexIrreflexive(key(b[0]));
          }
          assert x in a;
          var k :| 0 <= k < |a| && a[k] == x;
          assert a[1..][k - 1] == x;
        }
      }
      StrictlyAscendingUnique(a[1..], b[1..], key);
      assert a == [a[0]] + a[1..];
      assert b == [b[0]] + b[1..];
    }
  }

  /** Lists the elements of a set once each, in an order the caller cannot rely on (Python's `list(s)`). */
  method ListOf<T(==)>(s: set<T>) returns (r: seq<T>)
    ensures forall x :: x in r <==> x in s
    ensures Distinct(r)
  {
    r := [];
    var rest := s;
    while rest != {}
      invariant rest <= s
      invariant forall x :: x in r <==> x in s && x !in rest
      invariant Distinct(r)
      decreases |rest|
    {
      var x :| x in rest;
      r := r + [x];
      rest := rest - {x};
    }
  }

  /** Python's `sorted(list(s))` when `key` tells the elements of `s` apart. */
  method SortedList<T(==)>(s: set<T>, key: T -> seq<int>) returns (r: seq<T>)
    requires InjectiveOn(s, key)
    ensures StrictlyAscending(r, key)
    ensures forall x :: x in r <==> x in s
  {
    var listed := ListOf(s);
    assert DistinctKeys(listed, key) by {
      forall i, j | 0 <= i < j < |listed| ensures key(listed[i]) != key(listed[j]) {
        assert listed[i] in s && listed[j] in s;
      }
    }
    r := SortByKey(listed, key);
    SortStrict(listed, key);
    forall x ensures x in r <==> x in listed {
      assert x in r <==> x in multiset(r);
      assert x in listed <==> x in multiset(listed);
    }
  }

  /** A list without repetitions holding exactly the elements of a set is as long as the set is large. */
  lemma {:induction false} DistinctCardinality<T>(s: seq<T>, t: set<T>)
    requires Distinct(s)
    requires forall x :: x in s <==> x in t
    ensures |s| == |t|
    decreases |s|
  {
    if s != [] {
      var p := s[..|s| - 1];
      var x := s[|s| - 1];
      assert Distinct(p) by {
        forall i, j | 0 <= i < j < |p| ensures p[i] != p[j] {
          assert p[i] == s[i] && p[j] == s[j];
        }
      }
      forall y ensures y in p <==> y in t - {x} {
        assert s == p + [x];
      }
      DistinctCardinality(p, t - {x});
    } else {
      assert forall x :: x !in t;
      assert t == {};
    }
  }
}
