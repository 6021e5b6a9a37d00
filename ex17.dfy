/** The in-memory database of ex17.c: a `struct Database` whose MAX_ROWS
    rows the operations update in place, and the connection that pairs it
    with its backing file. Each method is proved against the function of
    module Store that says what it does to the rows. */
module Ex17 {
  import opened CString
  import Store

  class Database {
    /** `rows[MAX_ROWS]`: fixed for the database's lifetime. */
    const rows: array<Store.Address>

    ghost predicate Valid() { rows.Length == Store.MAX_ROWS }

    /** The allocation in Database_open: the memory holds whatever `contents`
        say until Database_create or Database_load fills it. */
    constructor (contents: seq<Store.Address>)
      requires |contents| == Store.MAX_ROWS
      ensures Valid() && fresh(rows) && rows[..] == contents
    {
      rows := new Store.Address[Store.MAX_ROWS](i requires 0 <= i < Store.MAX_ROWS => contents[i]);
    }

    /** Database_create: one pass over the slots, each given a blank record
        with its own index; afterwards the store is well formed and empty. */
    method Create()
      requires Valid()
      modifies rows
      ensures rows[..] == Store.Create()
      ensures Store.WellFormed(rows[..]) && Store.List(rows[..]) == []
    {
      for i := 0 to rows.Length
        invariant forall j :: 0 <= j < i ==> rows[j] == Store.Blank(j as Store.int32)
      {
        rows[i] := Store.Blank(i as Store.int32);
      }
      assert rows[..] == Store.Create();
      Store.CreateIsEmpty();
    }

    /** Database_set: on an occupied slot it fails with AlreadySet before any
        write; otherwise it raises the flag and fills both texts by strncpy,
        and the store stays well formed. */
    method Set(id: int, name: seq<byte>, email: seq<byte>) returns (r: Store.Outcome)
      requires Valid() && Store.ValidId(id)
      modifies rows
      ensures match Store.Set(old(rows[..]), id, name, email)
        case Ok(after) => r == Store.Pass && rows[..] == after
        case Err(e) => r == Store.Fail(e) && rows[..] == old(rows[..])
      ensures r.Fail? <==> old(Store.Occupied(rows[id]))
      ensures Store.WellFormed(old(rows[..])) ==> Store.WellFormed(rows[..])
    {
      if rows[id].isSet != 0 {
        return Store.Fail(Store.AlreadySet);
      }
      ghost var before := rows[..];
      rows[id] := rows[id].(isSet := 1);
      var name' := Strncpy(name, Store.MAX_DATA);
      rows[id] := rows[id].(name := name');
      var email' := Strncpy(email, Store.MAX_DATA);
      rows[id] := rows[id].(email := email');
      r := Store.Pass;
      assert rows[..] == before[id := Store.Filled(before[id], name, email)];
      if Store.WellFormed(before) {
        Store.OperationsKeepWellFormed(before, id, name, email);
      }
    }

    /** Database_get: the row of an occupied slot; NotSet on a free one. */
    method Get(id: int) returns (r: Store.Result<Store.Address>)
      requires Valid() && Store.ValidId(id)
      ensures r == Store.Get(rows[..], id)
      ensures r.Ok? <==> Store.Occupied(rows[id])
      ensures r.Ok? ==> r.value == rows[id]
      ensures r.Err? ==> r.error == Store.NotSet
    {
      var addr := rows[id];
      if addr.isSet != 0 {
        r := Store.Ok(addr);
      } else {
        r := Store.Err(Store.NotSet);
      }
    }

    /** Database_delete: slot id gets a blank record carrying id; nothing
        else changes and the store stays well formed. */
    method Delete(id: int)
      requires Valid() && Store.ValidId(id)
      modifies rows
      ensures rows[..] == Store.Delete(old(rows[..]), id)
      ensures !Store.Occupied(rows[id]) && rows[id].id as int == id
      ensures forall j :: 0 <= j < Store.MAX_ROWS && j != id ==> rows[j] == old(rows[j])
      ensures Store.WellFormed(old(rows[..])) ==> Store.WellFormed(rows[..])
    {
      rows[id] := Store.Blank(id as Store.int32);
      if Store.WellFormed(old(rows[..])) {
        Store.OperationsKeepWellFormed(old(rows[..]), id, [], []);
      }
    }

    /** Database_list: the loop over the slots, yielding each occupied row as
        it reaches it. The result is exactly the occupied rows, and on a well
        formed store they come in strictly ascending id order. */
    method List() returns (listed: seq<Store.Address>)
      requires Valid()
      ensures listed == Store.List(rows[..])
      ensures forall a :: a in listed <==> a in rows[..] && Store.Occupied(a)
      ensures Store.WellFormed(rows[..]) ==>
        forall k, m :: 0 <= k < m < |listed| ==> listed[k].id < listed[m].id
    {
      listed := [];
      for i := 0 to rows.Length
        invariant listed == Store.List(rows[..i])
      {
        var cur := rows[i];
        assert rows[..i + 1][..i] == rows[..i];
        if cur.isSet != 0 {
          listed := listed + [cur];
        }
      }
      assert rows[..rows.Length] == rows[..];
      Store.ListOccupiedInOrder(rows[..]);
    }
  }

  /** `struct Connection`: the database and its backing file, the file
      abstracted as the sequence of records it holds. */
  class Connection {
    const db: Database
    var file: seq<Store.Address>

    /** Database_open: `file` is what the backing file holds once opened,
        empty in create mode (`"w"` truncates it). */
    constructor (db: Database, file: seq<Store.Address>)
      ensures this.db == db && this.file == file
    {
      this.db := db;
      this.file := file;
    }

    /** Database_write: from the start of the file, one image of the rows
        overwrites what was there. A file opened with `"r+"` is not truncated,
        so whatever followed the first image stays. */
    method Write()
      requires db.Valid()
      modifies this`file
      ensures |file| >= Store.MAX_ROWS && file[..Store.MAX_ROWS] == db.rows[..]
      ensures file[Store.MAX_ROWS..] ==
        if |old(file)| > Store.MAX_ROWS then old(file)[Store.MAX_ROWS..] else []
    {
      var tail := if |file| > Store.MAX_ROWS then file[Store.MAX_ROWS..] else [];
      file := db.rows[..] + tail;
      assert file[..Store.MAX_ROWS] == db.rows[..];
      assert file[Store.MAX_ROWS..] == tail;
    }

    /** Database_load: succeeds only when the file holds a whole image, and
        then the rows are that image; otherwise the rows are left alone (the
        process ends). Loading a file whose first image is the rows restores
        them. */
    method Load() returns (r: Store.Outcome)
      requires db.Valid()
      modifies db.rows
      ensures match Store.Load(file)
        case Ok(image) => r == Store.Pass && db.rows[..] == image
        case Err(e) => r == Store.Fail(e) && db.rows[..] == old(db.rows[..])
      ensures |file| >= Store.MAX_ROWS && file[..Store.MAX_ROWS] == old(db.rows[..]) ==>
        r == Store.Pass && db.rows[..] == old(db.rows[..])
    {
      if |file| < Store.MAX_ROWS {
        return Store.Fail(Store.LoadFailed);
      }
      ghost var before := db.rows[..];
      forall i | 0 <= i < Store.MAX_ROWS {
        db.rows[i] := file[i];
      }
      assert db.rows[..] == file[..Store.MAX_ROWS];
      r := Store.Pass;
      if file[..Store.MAX_ROWS] == before {
        Store.LoadAfterWrite(before, file[Store.MAX_ROWS..]);
        assert file == before + file[Store.MAX_ROWS..];
      }
    }
  }
}
