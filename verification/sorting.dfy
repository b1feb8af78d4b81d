/** `order_by('-key')` on a queryset: a descending sort by an integer key. */
module Sorting {
  import opened Base

  predicate SortedDesc<T>(s: seq<T>, key: T -> int)
  {
    forall i, j :: 0 <= i < j < |s| ==> key(s[i]) >= key(s[j])
  }

  /** Places `x` before the first element whose key is not larger. */
  function Insert<T>(x: T, s: seq<T>, key: T -> int): (r: seq<T>)
    ensures multiset(r) == multiset(s) + multiset{x}
    ensures |r| == |s| + 1
  {
    if |s| == 0 then [x]
    else if key(x) >= key(s[0]) then [x] + s
    else
      assert s == [s[0]] + s[1..];
      [s[0]] + Insert(x, s[1..], key)
  }

  /** When `x` and every element of `s` have keys at most `bound`, so do all
      elements after the insert. */
  lemma {:induction false} InsertBelow<T>(x: T, s: seq<T>, key: T -> int, bound: int)
    requires key(x) <= bound
    requires forall i :: 0 <= i < |s| ==> key(s[i]) <= bound
    ensures forall i :: 0 <= i < |Insert(x, s, key)| ==> key(Insert(x, s, key)[i]) <= bound
  {
    var r := Insert(x, s, key);
    forall i | 0 <= i < |r| ensures key(r[i]) <= bound {
      assert r[i] in multiset(r);
      if r[i] != x {
        assert r[i] in multiset(s);
        var j :| 0 <= j < |s| && s[j] == r[i];
      }
    }
  }

  /** Inserting into a sorted sequence keeps it sorted. */
  lemma {:induction false} InsertSorted<T>(x: T, s: seq<T>, key: T -> int)
    requires SortedDesc(s, key)
    ensures SortedDesc(Insert(x, s, key), key)
  {
    if |s| > 0 && key(x) < key(s[0]) {
      var tail := s[1..];
      assert SortedDesc(tail, key) by {
        forall i, j | 0 <= i < j < |tail| ensures key(tail[i]) >= key(tail[j]) {
          assert tail[i] == s[i + 1] && tail[j] == s[j + 1];
        }
      }
      InsertSorted(x, tail, key);
      assert forall i :: 0 <= i < |tail| ==> key(tail[i]) <= key(s[0]) by {
        forall i | 0 <= i < |tail| ensures key(tail[i]) <= key(s[0]) {
          assert tail[i] == s[i + 1];
        }
      }
      InsertBelow(x, tail, key, key(s[0]));
      var rest := Insert(x, tail, key);
      var r := [s[0]] + rest;
      assert r == Insert(x, s, key);
      forall i, j | 0 <= i < j < |r| ensures key(r[i]) >= key(r[j]) {
        assert r[j] == rest[j - 1];
        if i > 0 {
          assert r[i] == rest[i - 1];
        }
      }
    } else if |s| > 0 {
      var r := [x] + s;
      assert r == Insert(x, s, key);
      forall i, j | 0 <= i < j < |r| ensures key(r[i]) >= key(r[j]) {
        assert r[j] == s[j - 1];
        if i > 0 {
          assert r[i] == s[i - 1];
        }
      }
    }
  }

  /** The rows of `s` in descending key order. Rows with equal keys keep
      their order in `s`. */
  function SortDesc<T>(s: seq<T>, key: T -> int): (r: seq<T>)
    ensures multiset(r) == multiset(s)
    ensures |r| == |s|
  {
    if |s| == 0 then []
    else
      assert s == [s[0]] + s[1..];
      Insert(s[0], SortDesc(s[1..], key), key)
  }

  /** `SortDesc` returns a permutation of its input in descending key order. */
  lemma {:induction false} SortDescSorted<T>(s: seq<T>, key: T -> int)
    ensures SortedDesc(SortDesc(s, key), key)
    ensures multiset(SortDesc(s, key)) == multiset(s)
  {
    if |s| > 0 {
      SortDescSorted(s[1..], key);
      InsertSorted(s[0], SortDesc(s[1..], key), key);
    }
  }

  /** No row of `rows` left out of `kept` ranks above the last row kept. */
  ghost predicate NoneLeftAbove<T>(rows: seq<T>, kept: seq<T>, key: T -> int)
  {
    forall i :: 0 <= i < |rows| ==> rows[i] in kept || (|kept| > 0 && key(rows[i]) <= key(kept[|kept| - 1]))
  }

  /** `order_by('-key')[:n]`: the first `n` rows in descending key order. */
  function TopN<T>(s: seq<T>, key: T -> int, n: nat): (r: seq<T>)
    ensures |r| == if |s| < n then |s| else n
    ensures multiset(r) <= multiset(s)
  {
    var sorted := SortDesc(s, key);
    var r := Take(sorted, n);
    assert sorted == r + sorted[|r|..];
    r
  }

  /** A prefix of a sorted sequence is sorted, and every row after it has a
      key no larger than the prefix's last row. */
  lemma SortedPrefix<T>(sorted: seq<T>, key: T -> int, m: nat)
    requires SortedDesc(sorted, key)
    requires 0 < m <= |sorted|
    ensures SortedDesc(sorted[..m], key)
    ensures forall j :: m <= j < |sorted| ==> key(sorted[j]) <= key(sorted[m - 1])
  {
    var p := sorted[..m];
    forall i, j | 0 <= i < j < |p| ensures key(p[i]) >= key(p[j]) {
      assert p[i] == sorted[i] && p[j] == sorted[j];
    }
  }

  /** The rows shown are sorted, and no row left out has a larger key than
      the last one shown. */
  lemma TopNIsTop<T>(s: seq<T>, key: T -> int, n: nat)
    requires n > 0
    ensures SortedDesc(TopN(s, key, n), key)
    ensures var r := TopN(s, key, n);
      forall i :: 0 <= i < |s| ==> s[i] in r || (|r| > 0 && key(s[i]) <= key(r[|r| - 1]))
  {
    var sorted := SortDesc(s, key);
    SortDescSorted(s, key);
    var r := TopN(s, key, n);
    if |r| > 0 {
      assert r == sorted[..|r|];
      SortedPrefix(sorted, key, |r|);
      forall i | 0 <= i < |s| ensures s[i] in r || key(s[i]) <= key(r[|r| - 1]) {
        assert s[i] in multiset(sorted);
        var j :| 0 <= j < |sorted| && sorted[j] == s[i];
        if j < |r| {
          assert r[j] == s[i];
        }
      }
    } else {
      assert |s| == 0;
    }
  }
}
