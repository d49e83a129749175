/**
 * Related-entity tables (genres, actors, languages, countries) and the
 * get-or-create lookup that reconciles a natural key with a row.
 */
module Tables {
  import opened Wrappers

  /** A row: the surrogate id the database assigns and the natural key it is looked up by. */
  datatype Row<K> = Row(id: int, key: K)

  /** The contents of one table together with the next id its counter will hand out. */
  datatype TableState<K> = TableState(rows: seq<Row<K>>, nextId: int)

  predicate HasKey<K(==)>(rows: seq<Row<K>>, key: K)
  {
    exists r :: r in rows && r.key == key
  }

  /** No natural key occurs twice, so a lookup by key finds at most one row. */
  predicate KeysUnique<K(==)>(rows: seq<Row<K>>)
  {
    forall i, j :: 0 <= i < j < |rows| ==> rows[i].key != rows[j].key
  }

  /** Ids are positive, below the counter and increasing in insertion order. */
  predicate IdsIssued<K>(t: TableState<K>)
  {
    && t.nextId >= 1
    && (forall i :: 0 <= i < |t.rows| ==> 1 <= t.rows[i].id < t.nextId)
    && (forall i, j :: 0 <= i < j < |t.rows| ==> t.rows[i].id < t.rows[j].id)
  }

  predicate TableInv<K(==)>(t: TableState<K>)
  {
    KeysUnique(t.rows) && IdsIssued(t)
  }

  /** The query `select(model).filter_by(key)`: the first row with the key, if any. */
  function Lookup<K(==)>(rows: seq<Row<K>>, key: K): (r: Option<Row<K>>)
    ensures r.None? <==> !HasKey(rows, key)
    ensures r.Some? ==> r.value in rows && r.value.key == key
  {
    if |rows| == 0 then None
    else if rows[0].key == key then Some(rows[0])
    else
      assert rows == [rows[0]] + rows[1..];
      Lookup(rows[1..], key)
  }

  /** With unique keys, the row a lookup returns is the only row carrying that key. */
  lemma LookupUnique<K>(rows: seq<Row<K>>, key: K, r: Row<K>)
    requires KeysUnique(rows)
    requires r in rows && r.key == key
    ensures Lookup(rows, key) == Some(r)
  {
    var found := Lookup(rows, key).value;
    var i :| 0 <= i < |rows| && rows[i] == r;
    var j :| 0 <= j < |rows| && rows[j] == found;
    if i != j {
      assert false;
    }
  }

  /**
   * get_or_create on a table: the row with the key if there is one and the
   * table unchanged; otherwise a new row with the next id, appended.
   */
  function Resolve<K(==)>(t: TableState<K>, key: K): (res: (TableState<K>, Row<K>))
    ensures res.1.key == key && res.1 in res.0.rows
    ensures HasKey(t.rows, key) ==> res.0 == t && res.1 in t.rows
    ensures !HasKey(t.rows, key) ==>
      && res.1 == Row(t.nextId, key)
      && res.0 == TableState(t.rows + [res.1], t.nextId + 1)
  {
    match Lookup(t.rows, key)
    case Some(r) => (t, r)
    case None =>
      var row := Row(t.nextId, key);
      (TableState(t.rows + [row], t.nextId + 1), row)
  }

  /** get_or_create keeps keys unique and ids in order, and on a hit returns the one row with the key. */
  lemma ResolvePreservesInv<K>(t: TableState<K>, key: K)
    requires TableInv(t)
    ensures TableInv(Resolve(t, key).0)
    ensures forall r :: r in t.rows && r.key == key ==> Resolve(t, key).1 == r
  {
    forall r | r in t.rows && r.key == key
      ensures Resolve(t, key).1 == r
    {
      LookupUnique(t.rows, key, r);
    }
    if !HasKey(t.rows, key) {
      var t' := Resolve(t, key).0;
      forall i, j | 0 <= i < j < |t'.rows|
        ensures t'.rows[i].key != t'.rows[j].key
      {
        if j == |t.rows| {
          assert t'.rows[i] in t.rows;
        }
      }
    }
  }

  /** Calling get_or_create twice with the same key returns the same row and adds nothing the second time. */
  lemma ResolveIdempotent<K>(t: TableState<K>, key: K)
    requires TableInv(t)
    ensures var (t1, r1) := Resolve(t, key);
            Resolve(t1, key) == (t1, r1)
  {
    var (t1, r1) := Resolve(t, key);
    ResolvePreservesInv(t, key);
    LookupUnique(t1.rows, key, r1);
  }

  /**
   * The list comprehension `[get_or_create(model, name=k) for k in keys]`:
   * the keys resolved left to right, each against the table the previous ones left.
   */
  function ResolveAll<K(==)>(t: TableState<K>, keys: seq<K>): (res: (TableState<K>, seq<Row<K>>))
    ensures |res.1| == |keys|
    ensures forall i :: 0 <= i < |keys| ==> res.1[i].key == keys[i]
    decreases |keys|
  {
    if keys == [] then (t, [])
    else
      var (t1, rows) := ResolveAll(t, keys[..|keys| - 1]);
      var (t2, row) := Resolve(t1, keys[|keys| - 1]);
      (t2, rows + [row])
  }

  /** `before` is a prefix of `after`: rows are only ever appended, never changed or removed. */
  predicate Extends<K(==)>(before: TableState<K>, after: TableState<K>)
  {
    |before.rows| <= |after.rows| && after.rows[..|before.rows|] == before.rows && before.nextId <= after.nextId
  }

  /**
   * Every row `after` holds beyond `before` carries one of `keys` that
   * `before` lacked: rows are created only for referenced, absent keys.
   */
  predicate AddsOnly<K(==)>(before: TableState<K>, after: TableState<K>, keys: seq<K>)
  {
    forall k :: |before.rows| <= k < |after.rows| ==>
      after.rows[k].key in keys && !HasKey(before.rows, after.rows[k].key)
  }

  lemma ExtendsTransitive<K>(a: TableState<K>, b: TableState<K>, c: TableState<K>)
    requires Extends(a, b) && Extends(b, c)
    ensures Extends(a, c)
  {
    assert c.rows[..|a.rows|] == c.rows[..|b.rows|][..|a.rows|];
  }

  /**
   * Resolving a list of keys keeps the table invariant, only appends rows,
   * appends a row only for a given key the table lacked, and every row it
   * returns is in the resulting table.
   */
  lemma {:induction false} ResolveAllPreservesInv<K>(t: TableState<K>, keys: seq<K>)
    requires TableInv(t)
    ensures var (t', rows) := ResolveAll(t, keys);
            && TableInv(t')
            && Extends(t, t')
            && AddsOnly(t, t', keys)
            && (forall i :: 0 <= i < |rows| ==> rows[i] in t'.rows)
    decreases |keys|
  {
    if keys != [] {
      var init := keys[..|keys| - 1];
      var (t1, rows) := ResolveAll(t, init);
      ResolveAllPreservesInv(t, init);
      ResolvePreservesInv(t1, keys[|keys| - 1]);
      var (t2, row) := Resolve(t1, keys[|keys| - 1]);
      assert Extends(t1, t2) by {
        if !HasKey(t1.rows, keys[|keys| - 1]) {
          assert t2.rows[..|t1.rows|] == t1.rows;
        }
      }
      ExtendsTransitive(t, t1, t2);
      forall k | |t.rows| <= k < |t2.rows|
        ensures t2.rows[k].key in keys && !HasKey(t.rows, t2.rows[k].key)
      {
        if k < |t1.rows| {
          assert t2.rows[k] == t1.rows[k];
          assert t1.rows[k].key in init;
        } else {
          assert !HasKey(t1.rows, keys[|keys| - 1]);
        }
      }
      forall i | 0 <= i < |rows + [row]|
        ensures (rows + [row])[i] in t2.rows
      {
        if i < |rows| {
          assert rows[i] in t1.rows;
          var k :| 0 <= k < |t1.rows| && t1.rows[k] == rows[i];
          assert t2.rows[k] == t1.rows[k];
        }
      }
    }
  }

  /**
   * When every key is already present, resolving them changes nothing and
   * returns, for each key, the row the table already holds for it.
   */
  lemma {:induction false} ResolveAllPresent<K>(t: TableState<K>, keys: seq<K>)
    requires TableInv(t)
    requires forall k :: k in keys ==> HasKey(t.rows, k)
    ensures ResolveAll(t, keys).0 == t
    ensures forall i :: 0 <= i < |keys| ==> ResolveAll(t, keys).1[i] in t.rows
    decreases |keys|
  {
    if keys != [] {
      var init := keys[..|keys| - 1];
      assert forall k :: k in init ==> k in keys;
      ResolveAllPresent(t, init);
    }
  }

  /**
   * Resolving the same list of names twice in a row returns the same rows
   * and leaves the table as the first pass left it.
   */
  lemma ResolveAllIdempotent<K>(t: TableState<K>, keys: seq<K>)
    requires TableInv(t)
    ensures var (t1, rows1) := ResolveAll(t, keys);
            ResolveAll(t1, keys) == (t1, rows1)
  {
    var (t1, rows1) := ResolveAll(t, keys);
    ResolveAllPreservesInv(t, keys);
    forall k | k in keys
      ensures HasKey(t1.rows, k)
    {
      var i :| 0 <= i < |keys| && keys[i] == k;
      assert rows1[i] in t1.rows && rows1[i].key == k;
    }
    ResolveAllPresent(t1, keys);
    var rows2 := ResolveAll(t1, keys).1;
    forall i | 0 <= i < |keys|
      ensures rows2[i] == rows1[i]
    {
      var r1, r2 := rows1[i], rows2[i];
      var a :| 0 <= a < |t1.rows| && t1.rows[a] == r1;
      var b :| 0 <= b < |t1.rows| && t1.rows[b] == r2;
      if a != b {
        assert false;
      }
    }
    assert rows2 == rows1;
  }

  /** A table the store updates in place. */
  class Table<K(==)> {
    var rows: seq<Row<K>>
    var nextId: int

    function State(): TableState<K>
      reads this
    {
      TableState(rows, nextId)
    }

    ghost predicate Valid()
      reads this
    {
      TableInv(State())
    }

    constructor ()
      ensures Valid() && rows == [] && nextId == 1
    {
      rows := [];
      nextId := 1;
    }

    /** get_or_create(model, db, **key) */
    method GetOrCreate(key: K) returns (row: Row<K>)
      requires Valid()
      modifies this
      ensures Valid()
      ensures (State(), row) == Resolve(old(State()), key)
    {
      ResolvePreservesInv(State(), key);
      var found := Lookup(rows, key);
      match found
      case Some(r) =>
        row := r;
      case None =>
        row := Row(nextId, key);
        rows := rows + [row];
        nextId := nextId + 1;
    }

    /** `[await get_or_create(model, db, name=k) for k in keys]` */
    method GetOrCreateAll(keys: seq<K>) returns (found: seq<Row<K>>)
      requires Valid()
      modifies this
      ensures Valid()
      ensures (State(), found) == ResolveAll(old(State()), keys)
    {
      found := [];
      var i := 0;
      while i < |keys|
        invariant 0 <= i <= |keys|
        invariant Valid()
        invariant (State(), found) == ResolveAll(old(State()), keys[..i])
      {
        assert keys[..i + 1][..i] == keys[..i];
        var row := GetOrCreate(keys[i]);
        found := found + [row];
        i := i + 1;
      }
      assert keys[..i] == keys;
    }
  }
}
