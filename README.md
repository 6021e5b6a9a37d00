# ex17 record store, modelled in Dafny

`ex17.c` keeps a flat-file "database" of exactly `MAX_ROWS` (100) address
records, each with an `id`, a `set` occupancy flag and two `MAX_DATA` (512)
byte text fields `name` and `email`. The whole store is one fixed array in
memory. The program creates it, sets a free slot, gets an occupied slot,
deletes (blanks) a slot and lists the occupied slots. The whole image is
written to the backing file after each change and read back in when the
file is opened for editing.

The project has three modules:

- `CString` (`cstring.dfy`): bytes, the length of a C string, and the bounded
  copy `strncpy` as section 7.24.2.4 of ISO/IEC 9899:2011 defines it. It copies
  at most `n` bytes, stops at the source's NUL, pads the rest with NULs, and
  leaves no terminator when the source has `n` or more bytes. `StrncpyImage`
  gives the resulting bytes. `Strncpy` is the byte loop, proved equal to it.
- `Store` (`store.dfy`): constants, `struct Address` as the datatype `Address`,
  and each operation as a function on the sequence of rows. This module holds
  the lemmas: what each operation does, how the operations relate, and the
  invariant they keep (100 slots, slot `i` has id `i`). It also holds the id
  check from `main`, both as written and as corrected.
- `Ex17` (`ex17.dfy`): `struct Database` as a class over an
  `array<Address>` that the operations update in place. Each method is proved
  to leave the array equal to the matching `Store` function applied to the old
  contents. `struct Connection` pairs the database with its backing file. The
  file is modelled as the list of records it holds.

Some deliberate choices:

- The C member `set` is called `isSet`, because `set` is a Dafny keyword.
  Like the C code, the model treats any non-zero value as occupied.
- `id` and `set` are C `int`s, modelled as the 32-bit type `int32`. Each text
  field is a sequence of exactly `MAX_DATA` bytes.
- A C string argument is a byte sequence. The string ends at its first NUL,
  or at the end of the sequence if it has no NUL.
- `die` becomes an error value (`Store.Error`). Each constructor's comment
  gives the message `die` prints. A failing operation leaves the rows as they
  were. In C this holds because the process exits before anything is written.
- The store operations require `0 <= id < MAX_ROWS`. `main` refuses ids of
  `MAX_ROWS` and above before any operation runs. It does not refuse negative
  ids (see Findings).

Three facts about the code that the model keeps:

- A load reads one whole image with `fread` and fails only when the file is
  shorter than one image; whatever follows the first image is ignored
  (`Store.Load`).
- The only range check on ids is the one in `main`, and it lets negative
  ids through (see Findings).
- `strncpy` leaves a text of `MAX_DATA` (512) bytes or more without a
  terminator; the source marks that line as a known bug.
  `CString.StrncpyContents` and `Store.SetStoresTruncatedText` state
  exactly when this happens.

## Model

| member | source | states |
|---|---|---|
| CString.Strncpy | ex17.c:167-172 | Copying the text byte by byte, as strncpy does, yields exactly `StrncpyImage(src, n)`: the source bytes before its NUL, at most `n` of them, then NUL padding up to `n`. |
| CString.StrncpyContents | ex17.c:167-172 | The destination holds the first `min(len, n)` source bytes and NULs after them. Its bytes before the first NUL (all `n` when it has none) are the source truncated to `n` bytes. It holds a NUL exactly when the source is shorter than `n`. |
| Store.CreateIsEmpty | ex17.c:143-156 | After create there are `MAX_ROWS` slots, slot `i` has id `i`, no slot is occupied, every text is all zero bytes, and the list is empty. |
| Store.ListOccupiedInOrder | ex17.c:193-205 | List yields a row exactly when it is a stored row that is occupied. On a store where slot `i` has id `i`, the ids listed are in range and strictly ascending, so each occupied slot appears once, in index order. |
| Store.ListNoneOccupied | ex17.c:198-204 | A store with no occupied slot lists nothing. |
| Store.GetAfterSet | ex17.c:158-185 | Set on a free slot succeeds and changes no other slot. A following get yields that slot's id, flag 1, and the strncpy images of name and email. |
| Store.SetStoresTruncatedText | ex17.c:166-173 | The bytes of the stored name and email before their first NUL (all `MAX_DATA` when there is none) are the given texts cut to `MAX_DATA` bytes. Each has a terminator exactly when the given text is shorter than `MAX_DATA`. |
| Store.SetOccupiedRefused | ex17.c:163-164 | Set on an occupied slot fails with AlreadySet. So a second set of a slot just set is refused. |
| Store.GetOccupied | ex17.c:176-185 | Get succeeds exactly on occupied slots and yields that slot's row. On a free slot it fails with NotSet. |
| Store.DeleteBlanksSlot | ex17.c:187-191 | After delete, slot `id` holds `{id, set 0}` with zero-filled texts. Other slots are unchanged. Deleting again changes nothing, and a following get fails with NotSet. |
| Store.OperationsKeepWellFormed | ex17.c:158-191 | A successful set, and any delete, keep the store at `MAX_ROWS` slots with slot `i` holding id `i`. |
| Store.LoadAfterWrite | ex17.c:64-73 | Loading a file whose first image is the one just written gives back the same rows, whatever follows that image. |
| Store.NegativeIdPassesCheck | ex17.c:216-217 | The check as written lets id -1 through, although -1 names no slot. |
| Store.CheckIdCorrection | ex17.c:216-217 | The corrected check passes an id exactly when it names a slot, `0 <= id < MAX_ROWS`. The written check passes those ids and every negative id besides. Both checks refuse with TooManyRecords. |
| Store.Step | ex17.c:216-243 | One invocation keeps `MAX_ROWS` slots. Create gives a fresh store. A refused id, or a set on an occupied slot, leaves the rows unchanged, because the process dies before writing. An accepted set stores `Store.Set`'s result, and an accepted delete stores `Store.Delete`'s. |
| Store.StepKeepsWellFormed | ex17.c:219-243 | One invocation (create, or the id check followed by set or delete) keeps slot `i` holding id `i`. |
| Store.RunKeepsWellFormed | ex17.c:219-243 | Any series of create, set and delete invocations keeps the store at `MAX_ROWS` slots with slot `i` holding id `i`. |
| Ex17.Database.constructor | ex17.c:88-90 | Allocating the database gives a fresh array of exactly `MAX_ROWS` rows. It holds whatever the memory held (a parameter). |
| Ex17.Database.Create | ex17.c:143-156 | The loop leaves every slot `i` holding `{id i, set 0}` with zero texts. The store is then well formed and lists nothing. |
| Ex17.Database.Set | ex17.c:158-174 | An occupied slot gives AlreadySet and leaves all rows unchanged. Otherwise only slot `id` changes: the flag becomes 1 and both texts are strncpy-filled. Result and new rows equal `Store.Set` of the old rows. Set keeps the store well formed. |
| Ex17.Database.Get | ex17.c:176-185 | Returns the slot's row exactly when it is occupied, and NotSet otherwise. The rows are not changed. |
| Ex17.Database.Delete | ex17.c:187-191 | Slot `id` becomes the blank record with id `id`. Every other slot is unchanged, and the store stays well formed. |
| Ex17.Database.List | ex17.c:193-205 | The loop yields `Store.List` of the rows: exactly the occupied rows, in strictly ascending id order on a well-formed store. |
| Ex17.Connection.constructor | ex17.c:30-36 | A connection pairs a database with the records its backing file holds once opened, given as a parameter. A caller opening in create mode passes an empty file. |
| Ex17.Connection.Write | ex17.c:128-140 | Starting at the front of the file, one image of the rows overwrites what was there. The file then holds at least one image, its first image is the rows, and whatever followed the old first image is kept. |
| Ex17.Connection.Load | ex17.c:64-73 | If the file holds less than one image, load fails with LoadFailed and leaves the rows alone. Otherwise the rows become the file's first image. Loading a file whose first image is the rows leaves them as they are, so a load after a write restores them. |

## Findings

| source | as written | input that shows it | evidently intended | confidence | as-written member | corrected member |
|---|---|---|---|---|---|---|
| ex17.c:216-217 | `main` refuses only ids at or above `MAX_ROWS` | id `-1` passes the check, and `rows[-1]` is then read or written outside the array | refuse every id outside `0 .. MAX_ROWS-1` | not executed | Store.CheckIdAsWritten, Store.NegativeIdPassesCheck | Store.CheckId, Store.CheckIdCorrection |

The store operations and `Store.Step` use the corrected range
(`Store.ValidId`, `Store.CheckId`).

## Left out

- Opening and closing files (`Database_open`, `Database_close`, `fopen`, `fclose`): these are operating-system calls. The file is modelled only as the records it holds (`Ex17.Connection.file`).
- The byte layout of the image (field widths, struct padding, byte order): the model does not describe how the image is encoded. It has no file partly filled with records either. A file is a list of whole records.
- Failures of `fwrite` and `fflush` in `Database_write`: these are I/O errors outside the model, so `Write` always succeeds.
- Ex17.Connection.Load: when `fread` comes up short, the C code may already have overwritten part of the database before `die` ends the process. The model leaves the rows unchanged, because the process never uses them again.
- Loading a file that another program wrote: the model does not check that slot `i` holds id `i` afterwards, and neither does the code.
- `malloc`/`free` and the "Memory error" exits: Dafny allocation does not fail.
- The "Name copy failed" / "Email copy failed" checks in `Database_set`: `strncpy` returns its destination, which is never NULL, so these branches are dead.
- `die`, `errno`, `perror` and `exit`: replaced by the error values of `Store.Error`.
- `Address_print` and all `printf` output: `Get` and `List` return the rows that would be printed.
- Parsing of `argc`/`argv`, `atoi`, the argument-count checks and the action dispatch in `main`: only the id-range check is modelled. The three mutating verbs (create, set, delete) are abstracted as `Store.Command`, `Store.Step` and `Store.Run`.
- A create invocation given an id argument: `main` checks that id too, and opening in create mode has already emptied the file when a refused id ends the process. `Store.CreateCommand` carries no id, so this is not modelled.
- Reading a field that has no NUL as a C string: `Address_print`'s `%s` would run past the field, into the next member. `CString.Length` stops at the end of the field instead, so the model does not follow what gets printed.
- ex16.c (the `Person` struct demo): it is not part of this model.
