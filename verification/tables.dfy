/** Database tables as immutable sequences of rows, and `Model.save` as a
    table-to-table function. */
module Tables {
  import opened Base

  /** A stored row: its primary key and its other columns. */
  datatype Row<+T> = Row(id: Pk, data: T)

  /** A model instance in memory: saved ones carry a primary key, new ones do not. */
  datatype Instance<+T> = Instance(id: Option<Pk>, data: T)

  /** The outcome of `Model.save`: the new table and the key the row was stored under. */
  datatype Written<+T> = Written(table: seq<Row<T>>, id: Pk)

  function Ids<T>(t: seq<Row<T>>): set<Pk>
  {
    set i | 0 <= i < |t| :: t[i].id
  }

  predicate UniqueIds<T>(t: seq<Row<T>>)
  {
    forall i, j :: 0 <= i < j < |t| ==> t[i].id != t[j].id
  }

  function MaxId<T>(t: seq<Row<T>>): (m: nat)
    ensures forall i :: 0 <= i < |t| ==> t[i].id <= m
  {
    if |t| == 0 then 0
    else
      var rest := MaxId(t[1..]);
      assert forall i :: 1 <= i < |t| ==> t[i] == t[1..][i - 1];
      if t[0].id > rest then t[0].id else rest
  }

  /** The key an auto-increment column hands to the next insert. */
  function NextId<T>(t: seq<Row<T>>): (k: Pk)
    ensures k !in Ids(t)
  {
    MaxId(t) + 1
  }

  /** `Model.save`: an UPDATE of the row carrying the instance's key, an INSERT
      when no row carries it, and an INSERT under a fresh key for a new instance. */
  function Write<T>(t: seq<Row<T>>, x: Instance<T>): (r: Written<T>)
    ensures x.id.Some? ==> r.id == x.id.value
    ensures x.id.None? ==> r.id !in Ids(t)
    ensures Ids(r.table) == Ids(t) + {r.id}
    ensures forall i :: 0 <= i < |t| && t[i].id != r.id ==> i < |r.table| && r.table[i] == t[i]
    ensures r.id in Ids(t) ==> |r.table| == |t|
    ensures r.id in Ids(t) ==>
      forall i :: 0 <= i < |t| && t[i].id == r.id ==> r.table[i] == Row(r.id, x.data)
    ensures r.id !in Ids(t) ==> r.table == t + [Row(r.id, x.data)]
    ensures Row(r.id, x.data) in r.table
    ensures UniqueIds(t) ==> UniqueIds(r.table)
  {
    var k := if x.id.Some? then x.id.value else NextId(t);
    if k in Ids(t) then
      var t' := seq(|t|, i requires 0 <= i < |t| => if t[i].id == k then Row(k, x.data) else t[i]);
      assert Ids(t') == Ids(t) by {
        forall id | id in Ids(t) ensures id in Ids(t') {
          var i :| 0 <= i < |t| && t[i].id == id;
          assert t'[i].id == id;
        }
      }
      var i :| 0 <= i < |t| && t[i].id == k;
      assert t'[i] == Row(k, x.data);
      Written(t', k)
    else
      var t' := t + [Row(k, x.data)];
      assert t'[|t|] == Row(k, x.data);
      assert Ids(t') == Ids(t) + {k} by {
        forall id | id in Ids(t') ensures id in Ids(t) + {k} {
          var i :| 0 <= i < |t'| && t'[i].id == id;
          if i < |t| { assert t[i].id == id; }
        }
        forall id | id in Ids(t) ensures id in Ids(t') {
          var i :| 0 <= i < |t| && t[i].id == id;
          assert t'[i].id == id;
        }
      }
      Written(t', k)
  }

  /** The row stored under key `k`, if any: a lookup by primary key. */
  function Find<T>(t: seq<Row<T>>, k: Pk): (r: Option<Row<T>>)
    ensures r.Some? ==> r.value in t && r.value.id == k
    ensures r.None? <==> k !in Ids(t)
  {
    if |t| == 0 then None
    else if t[0].id == k then Some(t[0])
    else
      var rest := Find(t[1..], k);
      assert Ids(t) == {t[0].id} + Ids(t[1..]) by {
        forall id | id in Ids(t) ensures id in {t[0].id} + Ids(t[1..]) {
          var i :| 0 <= i < |t| && t[i].id == id;
          if i > 0 { assert t[1..][i - 1].id == id; }
        }
        forall id | id in Ids(t[1..]) ensures id in Ids(t) {
          var i :| 0 <= i < |t[1..]| && t[1..][i].id == id;
          assert t[i + 1].id == id;
        }
      }
      rest
  }

  /** A row whose key the rest does not use can lead a table with unique keys. */
  lemma UniqueIdsCons<T>(x: Row<T>, rest: seq<Row<T>>)
    requires UniqueIds(rest)
    requires forall k :: 0 <= k < |rest| ==> rest[k].id != x.id
    ensures UniqueIds([x] + rest)
  {
    forall i, j | 0 <= i < j < |[x] + rest| ensures ([x] + rest)[i].id != ([x] + rest)[j].id {
      if i > 0 {
        assert ([x] + rest)[i] == rest[i - 1];
      }
      assert ([x] + rest)[j] == rest[j - 1];
    }
  }

  /** Filtering a table with unique keys keeps the keys unique. */
  lemma {:induction false} FilterKeepsUniqueIds<T>(t: seq<Row<T>>, p: Row<T> -> bool)
    requires UniqueIds(t)
    ensures UniqueIds(Filter(t, p))
  {
    if |t| > 0 {
      var tail := t[1..];
      var rest := Filter(tail, p);
      assert UniqueIds(tail);
      FilterKeepsUniqueIds(tail, p);
      if p(t[0]) {
        forall k | 0 <= k < |rest| ensures rest[k].id != t[0].id {
          var m :| 0 <= m < |tail| && tail[m] == rest[k];
          assert t[m + 1] == rest[k];
        }
        UniqueIdsCons(t[0], rest);
      }
    }
  }

  /** A filtered table holds each passing row as often as the table does,
      no other row, and keeps keys unique. */
  lemma FilterRows<T>(t: seq<Row<T>>, p: Row<T> -> bool)
    ensures forall x :: multiset(Filter(t, p))[x] == if p(x) then multiset(t)[x] else 0
    ensures UniqueIds(t) ==> UniqueIds(Filter(t, p))
  {
    forall x ensures multiset(Filter(t, p))[x] == if p(x) then multiset(t)[x] else 0 {
      FilterCount(t, p, x);
    }
    if UniqueIds(t) {
      FilterKeepsUniqueIds(t, p);
    }
  }
}
