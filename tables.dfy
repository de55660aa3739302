/** A table of the relational store: its rows in insertion order, each with
    an integer primary key `id` and the columns of its model class. The
    queries the app makes (get by primary key, filter_by, first, add,
    delete) are functions on such a table. */
module Tables {

  datatype Option<T> = None | Some(value: T)

  datatype Row<T> = Row(id: int, fields: T)

  function Ids<T>(t: seq<Row<T>>): set<int>
  {
    set i | 0 <= i < |t| :: t[i].id
  }

  /** The primary key is unique. */
  predicate UniqueIds<T>(t: seq<Row<T>>)
  {
    forall i, j :: 0 <= i < |t| && 0 <= j < |t| && t[i].id == t[j].id ==> i == j
  }

  /** The column values of the rows, in order. */
  function Fields<T>(t: seq<Row<T>>): (fs: seq<T>)
    ensures |fs| == |t|
    ensures forall i :: 0 <= i < |t| ==> fs[i] == t[i].fields
  {
    seq(|t|, i requires 0 <= i < |t| => t[i].fields)
  }

  function MaxId<T>(t: seq<Row<T>>): (m: int)
    ensures m >= 0
    ensures forall i :: 0 <= i < |t| ==> t[i].id <= m
  {
    if t == [] then 0
    else
      var rest := MaxId(t[1..]);
      assert forall i :: 1 <= i < |t| ==> t[i] == t[1..][i - 1];
      if t[0].id > rest then t[0].id else rest
  }

  /** A primary key that no row of t uses yet (the store's choice is not
      modelled; one more than the largest key is one such choice). */
  function NextId<T>(t: seq<Row<T>>): (id: int)
    ensures id !in Ids(t)
    ensures id >= 1
  {
    MaxId(t) + 1
  }

  /** after is before with one more row at the end, holding f under a fresh key. */
  predicate AppendedFresh<T(==)>(before: seq<Row<T>>, after: seq<Row<T>>, f: T)
  {
    |after| == |before| + 1
    && after[..|before|] == before
    && after[|before|].fields == f
    && after[|before|].id !in Ids(before)
  }

  /** db.session.add of a new row with columns f, and commit. */
  function Insert<T(==)>(t: seq<Row<T>>, f: T): (r: seq<Row<T>>)
    ensures AppendedFresh(t, r, f)
    ensures Ids(r) == Ids(t) + {r[|t|].id}
    ensures UniqueIds(t) ==> UniqueIds(r)
  {
    var r := t + [Row(NextId(t), f)];
    AppendIds(t, Row(NextId(t), f));
    r
  }

  lemma AppendIds<T>(t: seq<Row<T>>, row: Row<T>)
    ensures Ids(t + [row]) == Ids(t) + {row.id}
  {
    var r := t + [row];
    assert r[|t|].id == row.id;
    forall x | x in Ids(r) ensures x in Ids(t) + {row.id} {
      var i :| 0 <= i < |r| && r[i].id == x;
      if i < |t| { assert t[i].id == x; }
    }
    forall x | x in Ids(t) ensures x in Ids(r) {
      var i :| 0 <= i < |t| && t[i].id == x;
      assert r[i].id == x;
    }
  }

  /** Inserts the rows fs one after the other. */
  function InsertAll<T(==)>(t: seq<Row<T>>, fs: seq<T>): (r: seq<Row<T>>)
    decreases |fs|
  {
    if fs == [] then t else InsertAll(Insert(t, fs[0]), fs[1..])
  }

  lemma {:induction false} InsertAllSpec<T>(t: seq<Row<T>>, fs: seq<T>)
    ensures |InsertAll(t, fs)| == |t| + |fs|
    ensures InsertAll(t, fs)[..|t|] == t
    ensures Fields(InsertAll(t, fs)) == Fields(t) + fs
    ensures UniqueIds(t) ==> UniqueIds(InsertAll(t, fs))
    decreases |fs|
  {
    if fs != [] {
      var t' := Insert(t, fs[0]);
      InsertAllSpec(t', fs[1..]);
      var r := InsertAll(t, fs);
      assert r == InsertAll(t', fs[1..]);
      assert r[..|t|] == r[..|t'|][..|t|];
      assert Fields(t') == Fields(t) + [fs[0]];
      assert fs == [fs[0]] + fs[1..];
    }
  }

  /** Inserting fs from position i on is inserting fs[i], then the rest. */
  lemma InsertAllStep<T>(t: seq<Row<T>>, fs: seq<T>, i: nat)
    requires i < |fs|
    ensures InsertAll(t, fs[i..]) == InsertAll(Insert(t, fs[i]), fs[i + 1..])
  {
    assert fs[i..][0] == fs[i] && fs[i..][1..] == fs[i + 1..];
  }

  /** The first element of s satisfying p: `query.filter_by(...).first()`. */
  function First<T(==)>(s: seq<T>, p: T -> bool): (r: Option<T>)
    ensures r.None? <==> forall i :: 0 <= i < |s| ==> !p(s[i])
    ensures r.Some? ==> r.value in s && p(r.value)
  {
    if s == [] then None
    else if p(s[0]) then Some(s[0])
    else
      assert forall i :: 1 <= i < |s| ==> s[i] == s[1..][i - 1];
      First(s[1..], p)
  }

  /** `Model.query.get(id)`: the row with primary key id, if any. */
  function Get<T(==)>(t: seq<Row<T>>, id: int): (r: Option<Row<T>>)
    ensures r.None? <==> id !in Ids(t)
    ensures r.Some? ==> r.value in t && r.value.id == id
    ensures UniqueIds(t) ==> forall row :: row in t && row.id == id ==> r == Some(row)
  {
    First(t, (row: Row<T>) => row.id == id)
  }

  /** The elements of s that satisfy keep, in their order, each as often as in s. */
  function Filter<T(==,!new)>(s: seq<T>, keep: T -> bool): (r: seq<T>)
    ensures |r| <= |s|
    ensures forall x :: x in r <==> x in s && keep(x)
    ensures forall x :: multiset(r)[x] == if keep(x) then multiset(s)[x] else 0
    ensures (forall i :: 0 <= i < |s| ==> keep(s[i])) ==> r == s
  {
    if s == [] then []
    else
      var rest := Filter(s[1..], keep);
      assert forall i :: 1 <= i < |s| ==> s[i] == s[1..][i - 1];
      assert forall x :: x in s <==> x == s[0] || x in s[1..];
      assert s == [s[0]] + s[1..];
      assert multiset(s) == multiset{s[0]} + multiset(s[1..]);
      if keep(s[0]) then
        assert multiset([s[0]] + rest) == multiset{s[0]} + multiset(rest);
        [s[0]] + rest
      else rest
  }

  lemma {:induction false} FilterKeepsUniqueIds<T(!new)>(t: seq<Row<T>>, keep: Row<T> -> bool)
    ensures UniqueIds(t) ==> UniqueIds(Filter(t, keep))
  {
    if t != [] && UniqueIds(t) {
      var tail := t[1..];
      assert UniqueIds(tail) by {
        forall i, j | 0 <= i < |tail| && 0 <= j < |tail| && tail[i].id == tail[j].id ensures i == j {
          assert t[i + 1].id == t[j + 1].id;
        }
      }
      FilterKeepsUniqueIds(tail, keep);
      var rest := Filter(tail, keep);
      if keep(t[0]) {
        var r := [t[0]] + rest;
        assert forall x :: x in rest ==> x.id != t[0].id by {
          forall x | x in rest ensures x.id != t[0].id {
            var k :| 0 <= k < |tail| && tail[k] == x;
            assert t[k + 1] == x;
          }
        }
        forall i, j | 0 <= i < |r| && 0 <= j < |r| && r[i].id == r[j].id ensures i == j {
          if i > 0 && j > 0 {
            assert r[i] == rest[i - 1] && r[j] == rest[j - 1];
          }
        }
      }
    }
  }

  /** db.session.delete of the row with primary key id: every other row stays. */
  function RemoveId<T(==,!new)>(t: seq<Row<T>>, id: int): (r: seq<Row<T>>)
    ensures forall row :: row in r <==> row in t && row.id != id
    ensures Ids(r) == Ids(t) - {id}
    ensures id !in Ids(t) ==> r == t
    ensures UniqueIds(t) ==> UniqueIds(r)
  {
    var keep := (row: Row<T>) => row.id != id;
    FilterKeepsUniqueIds(t, keep);
    FilterIds(t, id);
    Filter(t, keep)
  }

  lemma FilterIds<T(!new)>(t: seq<Row<T>>, id: int)
    ensures Ids(Filter(t, (row: Row<T>) => row.id != id)) == Ids(t) - {id}
  {
    var r := Filter(t, (row: Row<T>) => row.id != id);
    forall x | x in Ids(r) ensures x in Ids(t) - {id} {
      var i :| 0 <= i < |r| && r[i].id == x;
      assert r[i] in r;
    }
    forall x | x in Ids(t) - {id} ensures x in Ids(r) {
      var i :| 0 <= i < |t| && t[i].id == x;
      assert t[i] in r;
      var k :| 0 <= k < |r| && r[k] == t[i];
    }
  }
}
