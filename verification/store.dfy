/**
 * An entity store: an ordered array of keyed records together with the
 * store's private key counter (`jobUniqueID`, `clientUniqueID`,
 * `userUniqueID` in the source). Records are split into the key and the
 * mutable fields (`data`), so one definition serves jobs, clients and users.
 */
module Store {
  import opened Wrappers

  datatype Row<T> = Row(key: int, data: T)

  /** The records in array order and the next key the constructor will hand out. */
  datatype Table<T> = Table(rows: seq<Row<T>>, next: int)

  /** Keys strictly increase in array order. */
  predicate Increasing<T>(rows: seq<Row<T>>) {
    forall i, j :: 0 <= i < j < |rows| ==> rows[i].key < rows[j].key
  }

  /** Every key was issued by the counter: positive and below it. */
  predicate Issued<T>(rows: seq<Row<T>>, next: int) {
    forall i :: 0 <= i < |rows| ==> 1 <= rows[i].key < next
  }

  /** The key invariant of a store. */
  predicate Valid<T>(t: Table<T>) {
    1 <= t.next && Issued(t.rows, t.next) && Increasing(t.rows)
  }

  predicate HasKey<T>(rows: seq<Row<T>>, k: int) {
    exists i :: 0 <= i < |rows| && rows[i].key == k
  }

  /** The linear scan of `findJobByID` / `getClientByID` / `getUserByID`: the first index holding key `k`. */
  function FindKey<T>(rows: seq<Row<T>>, k: int): (r: Option<nat>)
    ensures r.Some? ==> r.value < |rows| && rows[r.value].key == k
    ensures r.Some? ==> forall j :: 0 <= j < r.value ==> rows[j].key != k
    ensures r.None? <==> !HasKey(rows, k)
  {
    if |rows| == 0 then None
    else if rows[0].key == k then Some(0)
    else match FindKey(rows[1..], k)
      case None => None
      case Some(j) => Some(j + 1)
  }

  /** Under the key invariant a key occurs at most once, so the scan finds the only match. */
  lemma FindKeyUnique<T>(t: Table<T>, i: int)
    requires Valid(t)
    requires 0 <= i < |t.rows|
    ensures FindKey(t.rows, t.rows[i].key) == Some(i)
  {
  }

  /** The constructor followed by `push`: the record gets the counter's key and the counter advances. */
  function Insert<T>(t: Table<T>, data: T): (r: Table<T>)
    ensures r.next == t.next + 1
    ensures |r.rows| == |t.rows| + 1 && r.rows[..|t.rows|] == t.rows
    ensures r.rows[|t.rows|] == Row(t.next, data)
    ensures Valid(t) ==> Valid(r) && !HasKey(t.rows, t.next)
  {
    Table(t.rows + [Row(t.next, data)], t.next + 1)
  }

  /** In-place field assignment on the record at index `i`: its key and every other record stay. */
  function SetData<T>(t: Table<T>, i: nat, data: T): (r: Table<T>)
    requires i < |t.rows|
    ensures r.next == t.next && |r.rows| == |t.rows|
    ensures r.rows[i] == Row(t.rows[i].key, data)
    ensures forall j :: 0 <= j < |t.rows| && j != i ==> r.rows[j] == t.rows[j]
    ensures forall j :: 0 <= j < |t.rows| ==> r.rows[j].key == t.rows[j].key
    ensures Valid(t) ==> Valid(r)
  {
    Table(t.rows[i := Row(t.rows[i].key, data)], t.next)
  }

  /** `splice(i, 1)`: drop the record at index `i`, keep the rest in order; the counter is untouched. */
  function RemoveAt<T>(t: Table<T>, i: nat): (r: Table<T>)
    requires i < |t.rows|
    ensures r.next == t.next && |r.rows| == |t.rows| - 1
    ensures forall j :: 0 <= j < i ==> r.rows[j] == t.rows[j]
    ensures forall j :: i <= j < |r.rows| ==> r.rows[j] == t.rows[j + 1]
    ensures Valid(t) ==> Valid(r) && !HasKey(r.rows, t.rows[i].key)
  {
    Table(t.rows[..i] + t.rows[i + 1..], t.next)
  }

  /** Independent reference for deletion: every record whose key differs from `k`, in order. */
  function Without<T>(rows: seq<Row<T>>, k: int): seq<Row<T>>
  {
    if |rows| == 0 then []
    else if rows[0].key == k then Without(rows[1..], k)
    else [rows[0]] + Without(rows[1..], k)
  }

  lemma {:induction false} WithoutAbsent<T>(rows: seq<Row<T>>, k: int)
    requires !HasKey(rows, k)
    ensures Without(rows, k) == rows
    decreases |rows|
  {
    if |rows| > 0 {
      assert !HasKey(rows[1..], k) by {
        forall j | 0 <= j < |rows[1..]|
          ensures rows[1..][j].key != k
        {
          assert rows[1..][j] == rows[j + 1];
        }
      }
      WithoutAbsent(rows[1..], k);
      assert rows == [rows[0]] + rows[1..];
    }
  }

  /** Dropping the first record keeps the order, and its key does not occur again. */
  lemma IncreasingTail<T>(rows: seq<Row<T>>)
    requires |rows| > 0 && Increasing(rows)
    ensures Increasing(rows[1..]) && !HasKey(rows[1..], rows[0].key)
  {
    var tl := rows[1..];
    forall j | 0 <= j < |tl|
      ensures tl[j] == rows[j + 1] && tl[j].key != rows[0].key
    {
      assert tl[j] == rows[j + 1];
    }
  }

  /** With increasing keys, removing the record at `i` is the same as filtering out its key. */
  lemma {:induction false} RemoveIsWithout<T>(rows: seq<Row<T>>, i: nat)
    requires i < |rows|
    ensures Increasing(rows) ==> rows[..i] + rows[i + 1..] == Without(rows, rows[i].key)
    decreases i
  {
    if Increasing(rows) {
      var k := rows[i].key;
      IncreasingTail(rows);
      var tl := rows[1..];
      if i == 0 {
        WithoutAbsent(tl, k);
        assert rows[..0] + rows[1..] == tl;
      } else {
        assert tl[i - 1] == rows[i];
        RemoveIsWithout(tl, i - 1);
        assert rows[0].key < k;
        assert rows[..i] + rows[i + 1..] == [rows[0]] + (tl[..i - 1] + tl[i..]);
      }
    }
  }
}
