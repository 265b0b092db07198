/** The `ad` table of issued keys and its three queries: insert a row with a
    new UUID, look a row up by its key, delete a row by its id.

    The table is modelled in memory as a map from row id to key plus the
    next id the store will hand out. The SQL behind the queries is not part
    of this model; what it is assumed to do is stated in each contract. A
    backend failure (lost connection, timeout, ...) is not something the
    model can decide, so each query takes the backend's answer as a
    parameter `failure`. `Some(e)` is taken to mean that the statement
    failed with `e` and changed nothing; a statement that takes effect and
    still reports an error is not modelled. */
module Models {
  import opened Wrappers

  /** A version-4 UUID, seen as its 128-bit value. */
  type Uuid = x: nat | x < 0x1_0000_0000_0000_0000_0000_0000_0000_0000

  /** One row of the table: a store-assigned integer id and the key handed out. */
  datatype Ad = Ad(id: int, key: Uuid)

  /** What a query can fail with. `RowNotFound` is what `fetch_one` reports
      when the statement returns no row; everything else is opaque. */
  datatype StoreError = RowNotFound | Database(code: nat)

  /** The contents of the table at one moment. */
  datatype Snapshot = Snapshot(rows: map<int, Uuid>, nextId: int) {

    /** Ids already handed out lie below `nextId`, so a new row never reuses
        one, and no two rows carry the same key. */
    ghost predicate Valid() {
      && (forall id :: id in rows ==> id < nextId)
      && (forall i, j :: i in rows && j in rows && rows[i] == rows[j] ==> i == j)
    }

    predicate HasKey(key: Uuid) {
      exists id :: id in rows && rows[id] == key
    }

    /** The table after inserting one row that carries `key`. */
    function Inserted(key: Uuid): (t: Snapshot)
      requires Valid() && !HasKey(key)
      ensures t.Valid() && t.HasKey(key)
      ensures nextId !in rows && t.rows == rows[nextId := key]
      ensures t.nextId > nextId
      ensures |t.rows| == |rows| + 1
    {
      assert rows[nextId := key][nextId] == key;
      Snapshot(rows[nextId := key], nextId + 1)
    }

    /** The table after removing the row that carries `key`, if there is one. */
    function WithoutKey(key: Uuid): (t: Snapshot)
      requires Valid()
      ensures t.Valid() && !t.HasKey(key) && t.nextId == nextId
      ensures forall id :: id in t.rows <==> id in rows && rows[id] != key
      ensures forall id :: id in t.rows ==> t.rows[id] == rows[id]
      ensures HasKey(key) ==> |t.rows| == |rows| - 1
      ensures !HasKey(key) ==> t == this
    {
      var kept := map id | id in rows && rows[id] != key :: rows[id];
      if HasKey(key) then
        assert |kept| == |rows| - 1 by {
          var victim :| victim in rows && rows[victim] == key;
          assert forall id :: id in kept.Keys <==> id in rows.Keys - {victim};
          assert kept.Keys == rows.Keys - {victim};
        }
        Snapshot(kept, nextId)
      else
        assert forall id :: id in kept <==> id in rows;
        assert kept == rows;
        Snapshot(kept, nextId)
    }
  }

  /** Deleting the row found by its key, addressed by its id, is the same as
      removing that key from the table. */
  lemma RemoveByIdIsRemoveByKey(s: Snapshot, id: int)
    requires s.Valid() && id in s.rows
    ensures Snapshot(s.rows - {id}, s.nextId) == s.WithoutKey(s.rows[id])
  {
    var t := s.WithoutKey(s.rows[id]);
    assert forall other :: other in t.rows <==> other in s.rows - {id};
    assert t.rows == s.rows - {id};
  }

  /** The table itself, changed in place by the queries. */
  class AdTable {
    var rows: map<int, Uuid>
    var nextId: int

    function Snap(): Snapshot
      reads this
    {
      Snapshot(rows, nextId)
    }

    ghost predicate Valid()
      reads this
    {
      Snap().Valid()
    }

    /** An empty table whose id sequence starts at 1. */
    constructor ()
      ensures Valid() && rows == map[] && nextId == 1
    {
      rows := map[];
      nextId := 1;
    }

    /** `Ad::create`: insert a row carrying `key`, the freshly generated UUID,
        and return the stored row. The UUID generator is assumed never to
        produce a key the table already holds. */
    method Create(key: Uuid, failure: Option<StoreError>) returns (r: Result<Ad, StoreError>)
      requires Valid() && !Snap().HasKey(key)
      modifies this
      ensures Valid()
      ensures failure.Some? ==> r == Err(failure.value) && Snap() == old(Snap())
      ensures failure.None? ==> r == Ok(Ad(old(nextId), key)) && Snap() == old(Snap()).Inserted(key)
    {
      if failure.Some? {
        return Err(failure.value);
      }
      var ad := Ad(nextId, key);
      rows := rows[nextId := key];
      nextId := nextId + 1;
      r := Ok(ad);
    }

    /** `Ad::get_by_key`: zero or one row, the one whose key is `key`. */
    method GetByKey(key: Uuid, failure: Option<StoreError>) returns (r: Result<Option<Ad>, StoreError>)
      requires Valid()
      ensures failure.Some? ==> r == Err(failure.value)
      ensures failure.None? ==> r.Ok? && (r.value.None? <==> !Snap().HasKey(key))
      ensures failure.None? && r.Ok? && r.value.Some? ==>
                r.value.value.key == key && r.value.value.id in rows && rows[r.value.value.id] == key
    {
      if failure.Some? {
        return Err(failure.value);
      }
      if !Snap().HasKey(key) {
        return Ok(None);
      }
      var id :| id in rows && rows[id] == key;
      r := Ok(Some(Ad(id, key)));
    }

    /** `Ad::delete`: remove the row addressed by `ad.id` and return it. The
        statement is read with `fetch_one`, so when no row has that id the
        call fails with `RowNotFound` instead of succeeding silently. */
    method Delete(ad: Ad, failure: Option<StoreError>) returns (r: Result<Ad, StoreError>)
      requires Valid()
      modifies this
      ensures Valid() && nextId == old(nextId)
      ensures failure.Some? ==> r == Err(failure.value) && rows == old(rows)
      ensures failure.None? && ad.id !in old(rows) ==> r == Err(RowNotFound) && rows == old(rows)
      ensures failure.None? && ad.id in old(rows) ==>
                r == Ok(Ad(ad.id, old(rows)[ad.id])) && rows == old(rows) - {ad.id}
    {
      if failure.Some? {
        return Err(failure.value);
      }
      if ad.id !in rows {
        return Err(RowNotFound);
      }
      var deleted := Ad(ad.id, rows[ad.id]);
      rows := rows - {ad.id};
      r := Ok(deleted);
    }
  }
}
