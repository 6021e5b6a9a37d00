/** The record store of ex17.c as a value: the MAX_ROWS rows of a
    `struct Database`, and what each operation does to them. The class
    Ex17.Database runs these operations in place on an array and is
    proved against the functions here. */
module Store {
  import opened CString

  const MAX_DATA: nat := 512
  const MAX_ROWS: nat := 100

  /** C's `int` on the platforms the program targets. */
  newtype int32 = x: int | -0x8000_0000 <= x < 0x8000_0000

  /** A `char[MAX_DATA]` field. */
  type Text = s: seq<byte> | |s| == MAX_DATA witness seq(MAX_DATA, _ => NUL)

  /** `struct Address`; the member `set` is `isSet` here, since `set` is a
      Dafny keyword. */
  datatype Address = Address(id: int32, isSet: int32, name: Text, email: Text)

  datatype Error =
    | AlreadySet       // "Already set, delete it first"
    | NotSet           // "ID is not set"
    | TooManyRecords   // "There's not that many records."
    | LoadFailed       // "Failed to load database."

  datatype Result<T> = Ok(value: T) | Err(error: Error)

  datatype Outcome = Pass | Fail(error: Error)

  /** C tests the flag for being non-zero. */
  predicate Occupied(a: Address) { a.isSet != 0 }

  function ZeroText(): Text { seq(MAX_DATA, _ => NUL) }

  /** `(struct Address){.id = id, .set = 0}`: the designated initialiser
      zeroes every member it does not name. */
  function Blank(id: int32): Address { Address(id, 0, ZeroText(), ZeroText()) }

  /** The slots a caller may address. */
  predicate ValidId(id: int) { 0 <= id < MAX_ROWS }

  /** Slot i holds the record with id i. */
  predicate Indexed(rows: seq<Address>) {
    forall i :: 0 <= i < |rows| ==> rows[i].id as int == i
  }

  /** The shape every store built by this program keeps. */
  predicate WellFormed(rows: seq<Address>) { |rows| == MAX_ROWS && Indexed(rows) }

  // ---------------------------------------------------------------------
  // The operations

  /** Database_create: every slot blank, carrying its own index. */
  function Create(): (rows: seq<Address>)
  {
    seq(MAX_ROWS, i requires 0 <= i < MAX_ROWS => Blank(i as int32))
  }

  /** The row Database_set leaves in a free slot: the flag raised and both
      texts copied with strncpy into MAX_DATA bytes. */
  function Filled(a: Address, name: seq<byte>, email: seq<byte>): Address
  {
    a.(isSet := 1, name := StrncpyImage(name, MAX_DATA), email := StrncpyImage(email, MAX_DATA))
  }

  /** Database_set: refused on an occupied slot before anything is written. */
  function Set(rows: seq<Address>, id: int, name: seq<byte>, email: seq<byte>): Result<seq<Address>>
    requires |rows| == MAX_ROWS && ValidId(id)
  {
    if Occupied(rows[id]) then Err(AlreadySet)
    else Ok(rows[id := Filled(rows[id], name, email)])
  }

  /** Database_get: the row of an occupied slot (which Address_print then
      renders). */
  function Get(rows: seq<Address>, id: int): Result<Address>
    requires |rows| == MAX_ROWS && ValidId(id)
  {
    if Occupied(rows[id]) then Ok(rows[id]) else Err(NotSet)
  }

  /** Database_delete: slot id overwritten with a blank record carrying id. */
  function Delete(rows: seq<Address>, id: int): seq<Address>
    requires |rows| == MAX_ROWS && ValidId(id)
  {
    rows[id := Blank(id as int32)]
  }

  /** Database_list: the occupied rows in the order the loop over the
      indices visits them. */
  function List(rows: seq<Address>): seq<Address>
  {
    if rows == [] then []
    else
      var last := rows[|rows| - 1];
      List(rows[..|rows| - 1]) + (if Occupied(last) then [last] else [])
  }

  /** Database_load over the file abstracted as the records it holds: fread
      of one whole `struct Database` succeeds when the file holds at least
      one image, and takes the first. */
  function Load(file: seq<Address>): Result<seq<Address>>
  {
    if |file| < MAX_ROWS then Err(LoadFailed) else Ok(file[..MAX_ROWS])
  }

  // ---------------------------------------------------------------------
  // The id check of main

  /** The check main applies, as written: only ids at or above MAX_ROWS are
      refused, so a negative id reaches the store. */
  function CheckIdAsWritten(id: int): Outcome
  {
    if id >= MAX_ROWS then Fail(TooManyRecords) else Pass
  }

  /** The check as it is evidently meant: every id that names no slot is
      refused. */
  function CheckId(id: int): Outcome
  {
    if id < 0 || id >= MAX_ROWS then Fail(TooManyRecords) else Pass
  }

  /** The written check lets through an id that names no slot. */
  lemma NegativeIdPassesCheck()
    ensures CheckIdAsWritten(-1).Pass? && !ValidId(-1)
  {
  }

  /** The corrected check passes exactly the ids that name a slot; the
      written one passes those and every negative id besides; both refuse
      with TooManyRecords. */
  lemma CheckIdCorrection(id: int)
    ensures CheckId(id).Pass? <==> ValidId(id)
    ensures CheckIdAsWritten(id).Pass? <==> CheckId(id).Pass? || id < 0
    ensures CheckId(id).Fail? ==> CheckId(id).error == TooManyRecords
    ensures CheckIdAsWritten(id).Fail? ==> CheckIdAsWritten(id).error == TooManyRecords
  {
  }

  // ---------------------------------------------------------------------
  // Properties

  /** A fresh store has MAX_ROWS slots, slot i holds id i, none is occupied,
      every text is zero-filled, and listing it yields nothing. */
  lemma CreateIsEmpty()
    ensures WellFormed(Create())
    ensures forall i :: 0 <= i < MAX_ROWS ==>
      !Occupied(Create()[i]) && Create()[i].name == ZeroText() && Create()[i].email == ZeroText()
    ensures List(Create()) == []
  {
    var rows := Create();
    assert forall i :: 0 <= i < |rows| ==> rows[i] == Blank(i as int32);
    ListNoneOccupied(rows);
  }

  /** A store with no occupied slot lists nothing. */
  lemma ListNoneOccupied(rows: seq<Address>)
    requires forall i :: 0 <= i < |rows| ==> !Occupied(rows[i])
    ensures List(rows) == []
  {
    ListOccupiedInOrder(rows);
  }

  /** Listing yields exactly the occupied rows; on an indexed store they come
      in strictly ascending id order, so each occupied slot appears once. */
  lemma {:induction false} ListOccupiedInOrder(rows: seq<Address>)
    ensures forall a :: a in List(rows) <==> a in rows && Occupied(a)
    ensures Indexed(rows) ==> forall k :: 0 <= k < |List(rows)| ==> 0 <= List(rows)[k].id as int < |rows|
    ensures Indexed(rows) ==>
      forall k, m :: 0 <= k < m < |List(rows)| ==> List(rows)[k].id < List(rows)[m].id
  {
    if rows != [] {
      var init, last := rows[..|rows| - 1], rows[|rows| - 1];
      ListOccupiedInOrder(init);
      assert rows == init + [last];
      if Indexed(rows) {
        assert Indexed(init);
        assert last.id as int == |rows| - 1;
      }
    }
  }

  /** A set on a free slot succeeds; it touches only that slot, keeps its id,
      and a following get yields the row with the flag raised and the strncpy
      images of the two texts. */
  lemma GetAfterSet(rows: seq<Address>, id: int, name: seq<byte>, email: seq<byte>)
    requires |rows| == MAX_ROWS && ValidId(id)
    requires !Occupied(rows[id])
    ensures Set(rows, id, name, email).Ok?
    ensures var after := Set(rows, id, name, email).value;
      && |after| == MAX_ROWS
      && (forall j :: 0 <= j < MAX_ROWS && j != id ==> after[j] == rows[j])
      && Get(after, id) == Ok(Address(rows[id].id, 1, StrncpyImage(name, MAX_DATA), StrncpyImage(email, MAX_DATA)))
  {
  }

  /** The bytes of a stored text before its first NUL (all MAX_DATA of them
      when it has none) are the given text truncated to MAX_DATA bytes, and
      the stored text lacks a terminator exactly when the given text is
      MAX_DATA bytes or longer. */
  lemma SetStoresTruncatedText(rows: seq<Address>, id: int, name: seq<byte>, email: seq<byte>)
    requires |rows| == MAX_ROWS && ValidId(id)
    requires Set(rows, id, name, email).Ok?
    ensures var a := Set(rows, id, name, email).value[id];
      && Length(a.name) == Min(Length(name), MAX_DATA)
      && a.name[..Length(a.name)] == name[..Length(a.name)]
      && Length(a.email) == Min(Length(email), MAX_DATA)
      && a.email[..Length(a.email)] == email[..Length(a.email)]
      && (Terminated(a.name) <==> Length(name) < MAX_DATA)
      && (Terminated(a.email) <==> Length(email) < MAX_DATA)
  {
    StrncpyContents(name, MAX_DATA);
    StrncpyContents(email, MAX_DATA);
  }

  /** A set on an occupied slot fails with AlreadySet, so in particular a
      second set of the same slot is refused. */
  lemma SetOccupiedRefused(rows: seq<Address>, id: int, name: seq<byte>, email: seq<byte>,
                           name2: seq<byte>, email2: seq<byte>)
    requires |rows| == MAX_ROWS && ValidId(id)
    ensures Occupied(rows[id]) ==> Set(rows, id, name, email) == Err(AlreadySet)
    ensures Set(rows, id, name, email).Ok? ==>
      Set(Set(rows, id, name, email).value, id, name2, email2) == Err(AlreadySet)
  {
  }

  /** Get fails exactly on the free slots and otherwise yields the slot's row. */
  lemma GetOccupied(rows: seq<Address>, id: int)
    requires |rows| == MAX_ROWS && ValidId(id)
    ensures Get(rows, id).Ok? <==> Occupied(rows[id])
    ensures Get(rows, id).Ok? ==> Get(rows, id).value == rows[id]
    ensures Get(rows, id).Err? ==> Get(rows, id).error == NotSet
  {
  }

  /** Delete blanks slot id with id kept, touches nothing else, is
      idempotent, and a following get fails. */
  lemma DeleteBlanksSlot(rows: seq<Address>, id: int)
    requires |rows| == MAX_ROWS && ValidId(id)
    ensures var after := Delete(rows, id);
      && |after| == MAX_ROWS
      && after[id] == Address(id as int32, 0, ZeroText(), ZeroText())
      && (forall j :: 0 <= j < MAX_ROWS && j != id ==> after[j] == rows[j])
      && Delete(after, id) == after
      && Get(after, id) == Err(NotSet)
  {
  }

  /** Set and delete keep the store well formed: MAX_ROWS slots, slot i
      holding id i. */
  lemma OperationsKeepWellFormed(rows: seq<Address>, id: int, name: seq<byte>, email: seq<byte>)
    requires WellFormed(rows) && ValidId(id)
    ensures Set(rows, id, name, email).Ok? ==> WellFormed(Set(rows, id, name, email).value)
    ensures WellFormed(Delete(rows, id))
  {
  }

  /** Loading a file whose first image is what was written gives back the
      same rows, whatever follows that image in the file. */
  lemma LoadAfterWrite(rows: seq<Address>, tail: seq<Address>)
    requires |rows| == MAX_ROWS
    ensures Load(rows + tail) == Ok(rows)
  {
  }

  // ---------------------------------------------------------------------
  // Runs of the command line

  /** One invocation of the program that changes the store: `c`, `s` or `d`. */
  datatype Command =
    | CreateCommand
    | SetCommand(id: int, name: seq<byte>, email: seq<byte>)
    | DeleteCommand(id: int)

  /** The store after one invocation. Create gives a fresh store. An id the
      corrected check refuses, or a set on an occupied slot, ends the process
      before the store is written, so the stored rows stay as they were; an
      accepted set or delete stores what that operation yields. */
  function Step(rows: seq<Address>, c: Command): (after: seq<Address>)
    requires |rows| == MAX_ROWS
    ensures |after| == MAX_ROWS
    ensures c.CreateCommand? ==> after == Create()
    ensures !c.CreateCommand? && !ValidId(c.id) ==> after == rows
    ensures c.SetCommand? && ValidId(c.id) && Occupied(rows[c.id]) ==> after == rows
    ensures c.SetCommand? && ValidId(c.id) && !Occupied(rows[c.id]) ==>
      Set(rows, c.id, c.name, c.email) == Ok(after)
    ensures c.DeleteCommand? && ValidId(c.id) ==> after == Delete(rows, c.id)
  {
    match c
    case CreateCommand => Create()
    case SetCommand(id, name, email) =>
      if CheckId(id).Fail? then rows
      else (match Set(rows, id, name, email) case Ok(r) => r case Err(_) => rows)
    case DeleteCommand(id) =>
      if CheckId(id).Fail? then rows else Delete(rows, id)
  }

  /** The store after a series of invocations, starting from `rows`. */
  function Run(rows: seq<Address>, cs: seq<Command>): seq<Address>
    requires |rows| == MAX_ROWS
    decreases |cs|
  {
    if cs == [] then rows else Run(Step(rows, cs[0]), cs[1..])
  }

  /** One invocation keeps the store well formed. */
  lemma StepKeepsWellFormed(rows: seq<Address>, c: Command)
    requires WellFormed(rows)
    ensures WellFormed(Step(rows, c))
  {
    match c
    case CreateCommand => CreateIsEmpty();
    case SetCommand(id, name, email) =>
      if ValidId(id) { OperationsKeepWellFormed(rows, id, name, email); }
    case DeleteCommand(id) =>
      if ValidId(id) { OperationsKeepWellFormed(rows, id, [], []); }
  }

  /** Whatever series of invocations follows Database_create, the store keeps
      MAX_ROWS slots with slot i holding id i. */
  lemma {:induction false} RunKeepsWellFormed(rows: seq<Address>, cs: seq<Command>)
    requires WellFormed(rows)
    ensures WellFormed(Run(rows, cs))
    decreases |cs|
  {
    if cs != [] {
      StepKeepsWellFormed(rows, cs[0]);
      RunKeepsWellFormed(Step(rows, cs[0]), cs[1..]);
    }
  }
}
