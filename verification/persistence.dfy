/**
 * The load half of the persistence bridge (`LoadJobsDB`, `LoadClientsDB`,
 * `LoadUsersDB`): every persisted record is merged into the live store by
 * key. A match has its mutable fields overwritten; anything else is rebuilt
 * through the constructor, so it receives a freshly counted key rather than
 * the one it was saved under. The saved blob is an abstract sequence of rows
 * (the JSON text itself is not modelled).
 */
module Persistence {
  import opened Wrappers
  import opened Store

  /** One `forEach` step of the merge. */
  function MergeOne<T>(t: Table<T>, p: Row<T>): (r: Table<T>)
    ensures HasKey(t.rows, p.key) ==> |r.rows| == |t.rows| && r.next == t.next
    ensures HasKey(t.rows, p.key) ==>
      var i := FindKey(t.rows, p.key).value;
      && r.rows[i] == Row(p.key, p.data)
      && forall j :: 0 <= j < |t.rows| && j != i ==> r.rows[j] == t.rows[j]
    ensures !HasKey(t.rows, p.key) ==> r == Insert(t, p.data)
    ensures forall i :: 0 <= i < |t.rows| ==> r.rows[i].key == t.rows[i].key
    ensures Valid(t) ==> Valid(r)
  {
    match FindKey(t.rows, p.key)
    case Some(i) => SetData(t, i, p.data)
    case None => Insert(t, p.data)
  }

  /** The whole merge: persisted records are processed in their saved order. */
  function Merge<T>(t: Table<T>, d: seq<Row<T>>): (r: Table<T>)
    ensures |r.rows| >= |t.rows|
    ensures r.next - t.next == |r.rows| - |t.rows|
    ensures |r.rows| <= |t.rows| + |d|
    ensures forall i :: 0 <= i < |t.rows| ==> r.rows[i].key == t.rows[i].key
    ensures Valid(t) ==> Valid(r)
    decreases |d|
  {
    if |d| == 0 then t else Merge(MergeOne(t, d[0]), d[1..])
  }

  /**
   * `LoadJobsDB` / `LoadClientsDB` / `LoadUsersDB` on one store: nothing when
   * `getItem` returns null (None), otherwise the merge of the saved snapshot.
   */
  function Load<T>(t: Table<T>, saved: Option<seq<Row<T>>>): (r: Table<T>)
    ensures saved.None? ==> r == t
    ensures |r.rows| >= |t.rows| && r.next - t.next == |r.rows| - |t.rows|
    ensures saved.Some? ==> |r.rows| <= |t.rows| + |saved.value|
    ensures forall i :: 0 <= i < |t.rows| ==> r.rows[i].key == t.rows[i].key
    ensures forall j :: |t.rows| <= j < |r.rows| ==> r.rows[j].key == t.next + (j - |t.rows|)
    ensures Valid(t) ==> Valid(r)
    ensures saved.Some? && Valid(t) ==>
      forall i :: 0 <= i < |t.rows| ==> r.rows[i] == Row(t.rows[i].key, Latest(saved.value, t.rows[i].key, t.rows[i].data))
    ensures saved.Some? && AllPresent(t, saved.value) ==> |r.rows| == |t.rows| && r.next == t.next
    ensures saved.Some? ==>
      forall j :: 0 <= j < |r.rows| ==>
        (j < |t.rows| && r.rows[j].data == t.rows[j].data) || Carries(saved.value, r.rows[j].data)
    ensures saved == Some(t.rows) && Valid(t) ==> r == t
    ensures saved.Some? && Valid(t) && ClearOfCounter(t, saved.value) ==>
      var f := Fresh(t.rows, saved.value);
      && |r.rows| == |t.rows| + |f| && r.next == t.next + |f|
      && forall m :: 0 <= m < |f| ==> r.rows[|t.rows| + m] == Row(t.next + m, f[m].data)
  {
    match saved
    case None => t
    case Some(d) =>
      MergeLaws(t, d);
      Merge(t, d)
  }

  /** Some saved record carries the fields `x`. */
  ghost predicate Carries<T>(d: seq<Row<T>>, x: T) {
    exists m :: 0 <= m < |d| && d[m].data == x
  }

  /** Every record after the merge holds either its own old fields or the fields of some saved record. */
  lemma {:induction false} MergeProvenance<T>(t: Table<T>, d: seq<Row<T>>)
    ensures forall j :: 0 <= j < |Merge(t, d).rows| ==>
      (j < |t.rows| && Merge(t, d).rows[j].data == t.rows[j].data) || Carries(d, Merge(t, d).rows[j].data)
    decreases |d|
  {
    if |d| > 0 {
      var t1 := MergeOne(t, d[0]);
      var r := Merge(t, d);
      assert r == Merge(t1, d[1..]);
      MergeProvenance(t1, d[1..]);
      forall j | 0 <= j < |r.rows|
        ensures (j < |t.rows| && r.rows[j].data == t.rows[j].data) || Carries(d, r.rows[j].data)
      {
        if j < |t1.rows| && r.rows[j].data == t1.rows[j].data {
          if !(j < |t.rows| && t1.rows[j].data == t.rows[j].data) {
            assert t1.rows[j].data == d[0].data;
          }
        } else {
          var m :| 0 <= m < |d[1..]| && d[1..][m].data == r.rows[j].data;
          assert d[m + 1].data == r.rows[j].data;
        }
      }
    }
  }

  /**
   * Every appended record carries a counter key: the one at position `|t.rows| + m`
   * has key `t.next + m`, so no key below the old counter is handed out again.
   */
  lemma {:induction false} MergeCounterKeys<T>(t: Table<T>, d: seq<Row<T>>)
    ensures forall j :: |t.rows| <= j < |Merge(t, d).rows| ==> Merge(t, d).rows[j].key == t.next + (j - |t.rows|)
    decreases |d|
  {
    if |d| > 0 {
      var t1 := MergeOne(t, d[0]);
      var r := Merge(t, d);
      assert r == Merge(t1, d[1..]);
      MergeCounterKeys(t1, d[1..]);
      if !HasKey(t.rows, d[0].key) {
        assert t1.rows[|t.rows|].key == t.next;
      }
    }
  }

  /** The laws `Load` passes on, gathered for its body. */
  lemma MergeLaws<T>(t: Table<T>, d: seq<Row<T>>)
    ensures Valid(t) ==>
      forall i :: 0 <= i < |t.rows| ==> Merge(t, d).rows[i] == Row(t.rows[i].key, Latest(d, t.rows[i].key, t.rows[i].data))
    ensures AllPresent(t, d) ==> |Merge(t, d).rows| == |t.rows| && Merge(t, d).next == t.next
    ensures forall j :: 0 <= j < |Merge(t, d).rows| ==>
      (j < |t.rows| && Merge(t, d).rows[j].data == t.rows[j].data) || Carries(d, Merge(t, d).rows[j].data)
    ensures Valid(t) && d == t.rows ==> Merge(t, d) == t
    ensures Valid(t) && ClearOfCounter(t, d) ==>
      var f := Fresh(t.rows, d);
      && |Merge(t, d).rows| == |t.rows| + |f| && Merge(t, d).next == t.next + |f|
      && forall m :: 0 <= m < |f| ==> Merge(t, d).rows[|t.rows| + m] == Row(t.next + m, f[m].data)
    ensures forall j :: |t.rows| <= j < |Merge(t, d).rows| ==> Merge(t, d).rows[j].key == t.next + (j - |t.rows|)
  {
    MergeCounterKeys(t, d);
    if Valid(t) && ClearOfCounter(t, d) {
      MergeAppends(t, d);
    }
    if Valid(t) {
      forall i | 0 <= i < |t.rows|
        ensures Merge(t, d).rows[i] == Row(t.rows[i].key, Latest(d, t.rows[i].key, t.rows[i].data))
      {
        MergeOverwrites(t, d, i);
      }
      if d == t.rows {
        MergeOwnRows(t, d);
      }
    }
    if AllPresent(t, d) {
      MergeAllPresent(t, d);
    }
    MergeProvenance(t, d);
  }

  /** The data of the last record in `d` keyed `k`, or `x` when no record has that key. */
  function Latest<T>(d: seq<Row<T>>, k: int, x: T): T
    decreases |d|
  {
    if |d| == 0 then x else Latest(d[1..], k, if d[0].key == k then d[0].data else x)
  }

  /** A record present before the merge keeps its key and ends with the last persisted version of its fields. */
  lemma {:induction false} MergeOverwrites<T>(t: Table<T>, d: seq<Row<T>>, i: nat)
    requires Valid(t)
    requires i < |t.rows|
    ensures Merge(t, d).rows[i] == Row(t.rows[i].key, Latest(d, t.rows[i].key, t.rows[i].data))
    decreases |d|
  {
    if |d| > 0 {
      var t1 := MergeOne(t, d[0]);
      var k := t.rows[i].key;
      if d[0].key == k {
        FindKeyUnique(t, i);
        assert t1.rows[i] == Row(k, d[0].data);
      } else {
        assert t1.rows[i] == t.rows[i];
      }
      MergeOverwrites(t1, d[1..], i);
    }
  }

  predicate AllPresent<T>(t: Table<T>, d: seq<Row<T>>) {
    forall j :: 0 <= j < |d| ==> HasKey(t.rows, d[j].key)
  }

  /** When every persisted key is already live, the merge appends nothing and the counter does not move. */
  lemma {:induction false} MergeAllPresent<T>(t: Table<T>, d: seq<Row<T>>)
    requires AllPresent(t, d)
    ensures |Merge(t, d).rows| == |t.rows|
    ensures Merge(t, d).next == t.next
    decreases |d|
  {
    if |d| > 0 {
      var t1 := MergeOne(t, d[0]);
      assert AllPresent(t1, d[1..]) by {
        forall j | 0 <= j < |d[1..]|
          ensures HasKey(t1.rows, d[1..][j].key)
        {
          assert d[1..][j] == d[j + 1];
          var w :| 0 <= w < |t.rows| && t.rows[w].key == d[j + 1].key;
          assert t1.rows[w].key == t.rows[w].key;
        }
      }
      MergeAllPresent(t1, d[1..]);
    }
  }

  /** Once a key occurs in `d`, the starting value no longer matters. */
  lemma {:induction false} LatestForgets<T>(d: seq<Row<T>>, k: int, x: T, y: T)
    requires HasKey(d, k)
    ensures Latest(d, k, x) == Latest(d, k, y)
    decreases |d|
  {
    if d[0].key != k {
      var w :| 0 <= w < |d| && d[w].key == k;
      assert d[1..][w - 1] == d[w];
      LatestForgets(d[1..], k, x, y);
    } else if HasKey(d[1..], k) {
      LatestForgets(d[1..], k, d[0].data, d[0].data);
    }
  }

  lemma {:induction false} LatestIdempotent<T>(d: seq<Row<T>>, k: int, x: T)
    ensures Latest(d, k, Latest(d, k, x)) == Latest(d, k, x)
  {
    if HasKey(d, k) {
      LatestForgets(d, k, Latest(d, k, x), x);
    } else {
      LatestAbsent(d, k, x);
      LatestAbsent(d, k, Latest(d, k, x));
    }
  }

  lemma {:induction false} LatestAbsent<T>(d: seq<Row<T>>, k: int, x: T)
    requires !HasKey(d, k)
    ensures Latest(d, k, x) == x
    decreases |d|
  {
    if |d| > 0 {
      assert !HasKey(d[1..], k) by {
        forall j | 0 <= j < |d[1..]|
          ensures d[1..][j].key != k
        {
          assert d[1..][j] == d[j + 1];
        }
      }
      LatestAbsent(d[1..], k, x);
    }
  }

  /** Loading the same snapshot twice equals loading it once, provided every saved key is already live. */
  lemma MergeIdempotentWhenPresent<T>(t: Table<T>, d: seq<Row<T>>)
    requires Valid(t)
    requires AllPresent(t, d)
    ensures Merge(Merge(t, d), d) == Merge(t, d)
  {
    var m := Merge(t, d);
    MergeAllPresent(t, d);
    assert AllPresent(m, d) by {
      forall j | 0 <= j < |d|
        ensures HasKey(m.rows, d[j].key)
      {
        var w :| 0 <= w < |t.rows| && t.rows[w].key == d[j].key;
        assert m.rows[w].key == t.rows[w].key;
      }
    }
    var mm := Merge(m, d);
    MergeAllPresent(m, d);
    forall i | 0 <= i < |m.rows|
      ensures mm.rows[i] == m.rows[i]
    {
      MergeOverwrites(t, d, i);
      MergeOverwrites(m, d, i);
      LatestIdempotent(d, t.rows[i].key, t.rows[i].data);
    }
    assert mm.rows == m.rows;
  }

  /** Every saved record is already in the live store (same key, same fields): nothing changes. */
  lemma {:induction false} MergeOwnRows<T>(t: Table<T>, d: seq<Row<T>>)
    requires Valid(t)
    requires forall j :: 0 <= j < |d| ==> d[j] in t.rows
    ensures Merge(t, d) == t
    decreases |d|
  {
    if |d| > 0 {
      var i :| 0 <= i < |t.rows| && t.rows[i] == d[0];
      FindKeyUnique(t, i);
      assert MergeOne(t, d[0]).rows == t.rows;
      assert forall j :: 0 <= j < |d[1..]| ==> d[1..][j] == d[j + 1];
      MergeOwnRows(t, d[1..]);
    }
  }

  /** The saved records whose keys are not live in `rows`, in saved order: the ones the merge appends. */
  function Fresh<T>(rows: seq<Row<T>>, d: seq<Row<T>>): (f: seq<Row<T>>)
    ensures |f| <= |d|
    ensures forall m :: 0 <= m < |f| ==> !HasKey(rows, f[m].key)
    decreases |d|
  {
    if |d| == 0 then []
    else if HasKey(rows, d[0].key) then Fresh(rows, d[1..])
    else [d[0]] + Fresh(rows, d[1..])
  }

  /**
   * No saved key falls among the counter values the merge can hand out
   * (`t.next` up to `t.next + |d| - 1`), so no renumbered record is hit by a later saved one.
   */
  predicate ClearOfCounter<T>(t: Table<T>, d: seq<Row<T>>) {
    forall j :: 0 <= j < |d| ==> d[j].key < t.next || t.next + |d| <= d[j].key
  }

  lemma {:induction false} FreshSame<T>(a: seq<Row<T>>, b: seq<Row<T>>, d: seq<Row<T>>)
    requires forall j :: 0 <= j < |d| ==> (HasKey(a, d[j].key) <==> HasKey(b, d[j].key))
    ensures Fresh(a, d) == Fresh(b, d)
    decreases |d|
  {
    if |d| > 0 {
      assert forall j :: 0 <= j < |d[1..]| ==> d[1..][j] == d[j + 1];
      FreshSame(a, b, d[1..]);
    }
  }

  /** Two stores with the same keys in the same order leave the same saved records to append. */
  /**
   * `r` is a store of `len` records with counter `next` followed by exactly the
   * records `f`, in order, the m-th renumbered to `next + m`.
   */
  ghost predicate Appended<T>(next: int, len: nat, r: Table<T>, f: seq<Row<T>>) {
    && |r.rows| == len + |f| && r.next == next + |f|
    && forall m :: 0 <= m < |f| ==> r.rows[len + m] == Row(next + m, f[m].data)
  }

  lemma SameKeysSameFresh<T>(a: seq<Row<T>>, b: seq<Row<T>>, d: seq<Row<T>>)
    requires |a| == |b| && forall i :: 0 <= i < |a| ==> a[i].key == b[i].key
    ensures Fresh(a, d) == Fresh(b, d)
  {
    forall k | HasKey(a, k)
      ensures HasKey(b, k)
    {
      var i :| 0 <= i < |a| && a[i].key == k;
      assert b[i].key == k;
    }
    forall k | HasKey(b, k)
      ensures HasKey(a, k)
    {
      var i :| 0 <= i < |b| && b[i].key == k;
      assert a[i].key == k;
    }
    FreshSame(a, b, d);
  }

  /** A first saved record with a non-live key heads the records to append. */
  lemma FreshCons<T>(rows: seq<Row<T>>, d: seq<Row<T>>)
    requires |d| > 0 && !HasKey(rows, d[0].key)
    ensures Fresh(rows, d) == [d[0]] + Fresh(rows, d[1..])
  {
  }

  /** Pushing a record under the counter's key changes nothing to append when no saved key is that key. */
  lemma InsertSameFresh<T>(t: Table<T>, x: T, d: seq<Row<T>>)
    requires forall j :: 0 <= j < |d| ==> d[j].key != t.next
    ensures Fresh(Insert(t, x).rows, d) == Fresh(t.rows, d)
  {
    var u := Insert(t, x).rows;
    forall j | 0 <= j < |d|
      ensures HasKey(u, d[j].key) <==> HasKey(t.rows, d[j].key)
    {
      if HasKey(u, d[j].key) {
        var i :| 0 <= i < |u| && u[i].key == d[j].key;
        assert i < |t.rows| && t.rows[i] == u[i];
      }
      if HasKey(t.rows, d[j].key) {
        var i :| 0 <= i < |t.rows| && t.rows[i].key == d[j].key;
        assert u[i] == t.rows[i];
      }
    }
    FreshSame(u, t.rows, d);
  }

  /**
   * The append half of the merge: when no saved key meets the counter's range,
   * the saved records with non-live keys are appended in saved order, the m-th
   * under key `t.next + m` with its saved fields, and the counter advances once each.
   */
  lemma {:induction false} MergeAppends<T>(t: Table<T>, d: seq<Row<T>>)
    requires Valid(t) && ClearOfCounter(t, d)
    ensures Appended(t.next, |t.rows|, Merge(t, d), Fresh(t.rows, d))
    decreases |d|, 2
  {
    if |d| > 0 {
      if HasKey(t.rows, d[0].key) {
        MergeAppendsKept(t, d);
      } else {
        MergeAppendsNew(t, d);
      }
    }
  }

  /** The step of `MergeAppends` where the first saved key is live: nothing is appended for it. */
  lemma {:induction false} MergeAppendsKept<T>(t: Table<T>, d: seq<Row<T>>)
    requires Valid(t) && ClearOfCounter(t, d)
    requires |d| > 0 && HasKey(t.rows, d[0].key)
    ensures Appended(t.next, |t.rows|, Merge(t, d), Fresh(t.rows, d))
    decreases |d|, 1
  {
    var tl := d[1..];
    var t1 := MergeOne(t, d[0]);
    assert Merge(t, d) == Merge(t1, tl);
    assert Fresh(t.rows, d) == Fresh(t.rows, tl);
    assert t1.next == t.next && |t1.rows| == |t.rows|;
    assert ClearOfCounter(t1, tl) by {
      assert forall j :: 0 <= j < |tl| ==> tl[j] == d[j + 1];
    }
    SameKeysSameFresh(t1.rows, t.rows, tl);
    MergeAppends(t1, tl);
  }

  /** The step of `MergeAppends` where the first saved key is not live and is appended. */
  lemma {:induction false} MergeAppendsNew<T>(t: Table<T>, d: seq<Row<T>>)
    requires Valid(t) && ClearOfCounter(t, d)
    requires |d| > 0 && !HasKey(t.rows, d[0].key)
    ensures Appended(t.next, |t.rows|, Merge(t, d), Fresh(t.rows, d))
    decreases |d|, 1
  {
    var tl := d[1..];
    var t1 := Insert(t, d[0].data);
    assert MergeOne(t, d[0]) == t1;
    assert Merge(t, d) == Merge(t1, tl);
    assert ClearOfCounter(t1, tl) by {
      assert forall j :: 0 <= j < |tl| ==> tl[j] == d[j + 1];
    }
    MergeAppends(t1, tl);
    InsertSameFresh(t, d[0].data, tl);
    PushedRowStays(t, d);
    FreshCons(t.rows, d);
    AppendedCons(t.next, |t.rows|, Merge(t, d), Fresh(t.rows, tl), d[0]);
  }

  /** A pushed record at the counter followed by an appended run is one longer appended run. */
  lemma AppendedCons<T>(next: int, len: nat, r: Table<T>, g: seq<Row<T>>, x: Row<T>)
    requires Appended(next + 1, len + 1, r, g)
    requires r.rows[len] == Row(next, x.data)
    ensures Appended(next, len, r, [x] + g)
  {
    var f := [x] + g;
    forall m | 0 <= m < |f|
      ensures r.rows[len + m] == Row(next + m, f[m].data)
    {
      if m > 0 {
        assert f[m] == g[m - 1];
        assert r.rows[len + 1 + (m - 1)] == Row(next + 1 + (m - 1), g[m - 1].data);
      }
    }
  }

  /** The record pushed for the first saved record keeps its key and fields through the rest of the merge. */
  lemma PushedRowStays<T>(t: Table<T>, d: seq<Row<T>>)
    requires Valid(t) && ClearOfCounter(t, d)
    requires |d| > 0 && !HasKey(t.rows, d[0].key)
    ensures |Merge(t, d).rows| > |t.rows| && Merge(t, d).rows[|t.rows|] == Row(t.next, d[0].data)
  {
    var tl := d[1..];
    assert forall j :: 0 <= j < |tl| ==> tl[j] == d[j + 1];
    var t1 := Insert(t, d[0].data);
    assert MergeOne(t, d[0]) == t1;
    assert Merge(t, d) == Merge(t1, tl);
    assert !HasKey(tl, t.next);
    MergeOverwrites(t1, tl, |t.rows|);
    LatestAbsent(tl, t.next, d[0].data);
  }

  /** The last saved record with a key decides that key's fields. */
  lemma {:induction false} LatestLast<T>(d: seq<Row<T>>, i: nat, x: T)
    requires i < |d|
    requires forall j :: i < j < |d| ==> d[j].key != d[i].key
    ensures Latest(d, d[i].key, x) == d[i].data
    decreases |d|
  {
    var k := d[i].key;
    var tl := d[1..];
    assert forall j :: 0 <= j < |tl| ==> tl[j] == d[j + 1];
    if i == 0 {
      LatestAbsent(tl, k, d[0].data);
    } else {
      LatestLast(tl, i - 1, if d[0].key == k then d[0].data else x);
    }
  }

  /** Merging a snapshot in two pieces is merging it whole. */
  lemma {:induction false} MergeSplit<T>(t: Table<T>, d1: seq<Row<T>>, d2: seq<Row<T>>)
    ensures Merge(t, d1 + d2) == Merge(Merge(t, d1), d2)
    decreases |d1|
  {
    if |d1| > 0 {
      assert (d1 + d2)[1..] == d1[1..] + d2;
      MergeSplit(MergeOne(t, d1[0]), d1[1..], d2);
    } else {
      assert d1 + d2 == d2;
    }
  }

  /** A snapshot holding exactly the live keys, in the same order, replaces every record's fields. */
  lemma MergeSameKeys<T>(t: Table<T>, d: seq<Row<T>>)
    requires Valid(t)
    requires |d| == |t.rows| && forall i :: 0 <= i < |d| ==> d[i].key == t.rows[i].key
    ensures Merge(t, d) == Table(d, t.next)
  {
    assert AllPresent(t, d) by {
      forall j | 0 <= j < |d|
        ensures HasKey(t.rows, d[j].key)
      {
        assert t.rows[j].key == d[j].key;
      }
    }
    MergeAllPresent(t, d);
    var r := Merge(t, d);
    forall i | 0 <= i < |d|
      ensures r.rows[i] == d[i]
    {
      MergeOverwrites(t, d, i);
      LatestLast(d, i, t.rows[i].data);
    }
  }

  /**
   * A store keyed 1..m with its counter at m + 1 (any session's seeded state)
   * loading a snapshot keyed 1..n, n >= m, becomes exactly the snapshot:
   * the first m saved records overwrite the live ones, the rest are appended verbatim.
   */
  lemma LoadExtends<T>(t: Table<T>, d: seq<Row<T>>)
    requires Consecutive(t.rows, 1) && t.next == |t.rows| + 1
    requires Consecutive(d, 1) && |d| >= |t.rows|
    ensures Load(t, Some(d)) == Table(d, |d| + 1)
  {
    MergeExtends(t, d);
  }

  lemma MergeExtends<T>(t: Table<T>, d: seq<Row<T>>)
    requires Consecutive(t.rows, 1) && t.next == |t.rows| + 1
    requires Consecutive(d, 1) && |d| >= |t.rows|
    ensures Merge(t, d) == Table(d, |d| + 1)
  {
    var m := |t.rows|;
    ConsecutiveParts(t.rows, d);
    var d1, d2 := d[..m], d[m..];
    MergeSplit(t, d1, d2);
    MergeSameKeys(t, d1);
    MergeConsecutive(Table(d1, m + 1), d2);
  }

  /** The facts `MergeExtends` needs about a numbered store and a longer numbered snapshot. */
  lemma ConsecutiveParts<T>(rows: seq<Row<T>>, d: seq<Row<T>>)
    requires Consecutive(rows, 1) && Consecutive(d, 1) && |d| >= |rows|
    ensures Valid(Table(rows, |rows| + 1))
    ensures forall i :: 0 <= i < |rows| ==> d[..|rows|][i].key == rows[i].key
    ensures Issued(d[..|rows|], |rows| + 1)
    ensures Consecutive(d[|rows|..], |rows| + 1)
    ensures d == d[..|rows|] + d[|rows|..]
  {
    var m := |rows|;
    forall j | 0 <= j < |d| - m
      ensures d[m..][j].key == m + 1 + j
    {
      assert d[m..][j] == d[m + j];
    }
  }

  /** Save followed by load within one session is the identity. */
  lemma SaveThenLoad<T>(t: Table<T>)
    requires Valid(t)
    ensures Load(t, Some(t.rows)) == t
  {
    MergeOwnRows(t, t.rows);
  }

  /** Keys `k, k+1, ...` in array order. */
  predicate Consecutive<T>(d: seq<Row<T>>, k: int) {
    forall j :: 0 <= j < |d| ==> d[j].key == k + j
  }

  /**
   * Loading into a store whose counter stands at `k` and whose keys are all
   * below `k` appends the snapshot unchanged when its keys run `k, k+1, ...`.
   */
  lemma {:induction false} MergeConsecutive<T>(t: Table<T>, d: seq<Row<T>>)
    requires 1 <= t.next && Issued(t.rows, t.next)
    requires Consecutive(d, t.next)
    ensures Merge(t, d) == Table(t.rows + d, t.next + |d|)
    decreases |d|
  {
    if |d| > 0 {
      assert !HasKey(t.rows, d[0].key);
      var t1 := MergeOne(t, d[0]);
      assert t1 == Table(t.rows + [d[0]], t.next + 1);
      assert Consecutive(d[1..], t1.next) by {
        forall j | 0 <= j < |d[1..]|
          ensures d[1..][j].key == t1.next + j
        {
          assert d[1..][j] == d[j + 1];
        }
      }
      MergeConsecutive(t1, d[1..]);
      assert t.rows + [d[0]] + d[1..] == t.rows + d;
    }
  }

  /** Loading a snapshot keyed 1..n into an empty, freshly counted store reproduces it exactly. */
  lemma LoadIntoFresh<T>(d: seq<Row<T>>)
    requires Consecutive(d, 1)
    ensures Load(Table([], 1), Some(d)) == Table(d, |d| + 1)
  {
    MergeConsecutive(Table([], 1), d);
  }

  /** A saved record whose key is not live is renumbered by the counter: key 5 comes back as key 1. */
  lemma LoadRenumbers<T>(x: T)
    ensures Load(Table([], 1), Some([Row(5, x)])) == Table([Row(1, x)], 2)
  {
    assert Merge(Table([], 1), [Row(5, x)]) == Merge(Table([Row(1, x)], 2), []);
  }

  /** Because of that renumbering, loading the same snapshot twice can duplicate a record. */
  lemma LoadTwiceDuplicates<T>(x: T)
    ensures Load(Load(Table([], 1), Some([Row(5, x)])), Some([Row(5, x)])) == Table([Row(1, x), Row(2, x)], 3)
  {
    LoadRenumbers(x);
    assert !HasKey([Row(1, x)], 5);
    assert Merge(Table([Row(1, x)], 2), [Row(5, x)]) == Merge(Table([Row(1, x), Row(2, x)], 3), []);
  }

  /** A renumbered record can collide with a later saved key: two saved records collapse into one. */
  lemma LoadCollides<T>(x: T, y: T)
    ensures Load(Table([], 1), Some([Row(2, x), Row(1, y)])) == Table([Row(1, y)], 2)
  {
    var t1 := MergeOne(Table([], 1), Row(2, x));
    assert t1 == Table([Row(1, x)], 2);
    assert FindKey(t1.rows, 1) == Some(0);
    assert MergeOne(t1, Row(1, y)) == Table([Row(1, y)], 2);
    var d := [Row(2, x), Row(1, y)];
    assert d[1..] == [Row(1, y)];
    assert Merge(Table([], 1), d) == Merge(t1, [Row(1, y)]);
    assert Merge(t1, [Row(1, y)]) == Merge(Table([Row(1, y)], 2), []);
  }
}
