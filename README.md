# go-notes-api: the in-memory account and note store

This project models the notes web service of `main.go` in Dafny. The service
keeps two process-wide tables. The user table maps an e-mail address to an
account. The note table maps a `uint32` note ID to a note. Five HTTP handlers
read and change them: signup, login, list notes, create note and delete note.

The model has five modules:

- `Types` (types.dfy): `uint32`, Go's truncating conversion `uint32(n)` as
  `ToU32`, the `User` and `Note` records, the request bodies, and `Body<T>`.
  `Body<T>` says whether a JSON body decoded or not.
- `Digits` (digits.dfy): `%d` formatting of the session identifier (`Decimal`),
  and a parser that reads it back.
- `UserTable` (user_table.dfy): signup and login as functions on the user map,
  and the invariant that account IDs follow signup order.
- `NoteTable` (note_table.dfy): createNote and deleteNote as functions on the
  note map. Also the multiset of stored notes that getAllNotes returns, and
  lemmas on the size-derived note IDs.
- `Service` (service.dfy): class `NoteService`. Its fields `users` and `notes`
  are the two maps. It has one method per Go function, and each method is
  proved against the functions of `UserTable` and `NoteTable`.
  `AccountScenario` (signup, duplicate signup, login) and `NoteScenario`
  (create, list, delete, delete again) step through a session, checked
  from the methods' contracts alone.

New IDs are `uint32(len(table) + 1)` for both tables. After a note is deleted,
the next create can therefore get an ID that is still in use. The old note
under that ID is then overwritten. `NoteTable.DeleteThenCreateOverwrites`
states this for any table holding IDs 1..n. `NoteTable.CollisionExample`
shows it on create "a", create "b", delete 1, create "c". Accounts are never
removed, so account IDs stay exactly 1..n while fewer than 2^32 accounts
exist (`UserTable.RegisteredIdsInRange`,
`UserTable.RegisteredIdsCovered`, `UserTable.RegisteredIdsUnique`).

So even when requests run one at a time, a new note can get the ID of a note
that still exists (`NoteTable.DeleteThenCreateOverwrites`).

## Model

| member | source | states |
|---|---|---|
| `Types.ToU32` | main.go:73 | the conversion to uint32 is the identity below 2^32 and subtracts 2^32 once between 2^32 and 2^33 |
| `Digits.Decimal` | main.go:97 | the session identifier is a non-empty string of decimal digits, with no leading zero except for 0 itself, and one digit exactly for numbers below 10 |
| `Digits.ParseDecimalInverts` | main.go:97 | reading the decimal string back gives the number that was written |
| `Digits.DecimalInjective` | main.go:97 | distinct numbers are written as distinct strings |
| `UserTable.Signup` | main.go:68-75 | signup fails exactly when the e-mail is already a key. Otherwise the account is stored under its e-mail with the client's ID replaced by `len(users)+1`, the table grows by one, and every other entry is unchanged |
| `UserTable.Login` | main.go:91-97 | login succeeds exactly when the e-mail is registered and the stored password equals the given one; the sid is then a digit string that reads back as the account's ID |
| `UserTable.EmptyIsRegistered` | main.go:48 | the empty user table satisfies the signup-order invariant |
| `UserTable.SignupKeepsRegistered` | main.go:73-75 | a successful signup keeps the invariant: the i-th account in signup order carries ID `uint32(i+1)`, each account sits under its own e-mail, each e-mail appears once |
| `UserTable.RegisteredIdByIndex` | main.go:73-75 | with fewer than 2^32 accounts, the i-th account to sign up (from 0) has ID i + 1 |
| `UserTable.RegisteredIdsInRange` | main.go:73-75 | with fewer than 2^32 accounts, every account ID lies in 1..n |
| `UserTable.RegisteredIdsCovered` | main.go:73-75 | with fewer than 2^32 accounts, every ID in 1..n belongs to some account |
| `UserTable.RegisteredIdsUnique` | main.go:73-75 | with fewer than 2^32 accounts, no two accounts share an ID |
| `UserTable.SignupIdWrapsAround` | main.go:73 | once 2^32 accounts exist, the next signup gets ID 1, which the first account already has |
| `UserTable.LoginAfterSignup` | main.go:68-99 | logging in with the credentials of an account just signed up returns the decimal form of the ID that signup gave it |
| `UserTable.SessionIdsDistinct` | main.go:91-97 | with fewer than 2^32 accounts, successful logins under different e-mails return different sids |
| `NoteTable.Create` | main.go:156-165 | createNote returns `len(notes)+1` as uint32 and stores a note with that ID and the given text under it. All other keys are unchanged. The table grows by one only if the ID was free; otherwise the old note is overwritten. Notes stay stored under their own IDs |
| `NoteTable.Delete` | main.go:168-178 | deleteNote reports "not found" exactly for an absent ID. Otherwise it removes exactly that key, the table shrinks by one, and all other notes are unchanged |
| `NoteTable.ValuesBagRemove` | main.go:147-150 | the multiset of stored notes does not depend on the order the map is walked in |
| `NoteTable.ValuesBagSize` | main.go:147 | the multiset of stored notes has one element per key |
| `NoteTable.ValuesBagHas` | main.go:148-149 | a note is in the multiset exactly when some key holds it |
| `NoteTable.DeletedNoteNotListed` | main.go:168-178 | after a note is deleted, no remaining note carries its ID |
| `NoteTable.SequentialCreatesDense` | main.go:160-162 | with creates only, the table's IDs are exactly 1..n and note i holds the i-th text, so every create picked an unused ID |
| `NoteTable.DeleteThenCreateOverwrites` | main.go:160-176 | on a table with IDs 1..n, deleting any k < n and then creating returns ID n, which is still in use. Note n is overwritten and the table holds n-1 notes |
| `NoteTable.CollisionExample` | main.go:156-178 | create "a", create "b", delete 1, create "c" gives IDs 1, 2, 2, and leaves only note 2 with text "c" |
| `Service.NoteService.constructor` | main.go:47-55 | both tables start empty and the store invariant holds |
| `Service.NoteService.HandleSignup` | main.go:57-78 | a malformed body or a registered e-mail leaves the tables unchanged. Otherwise the user table becomes `UserTable.Signup` of the old one. The note table is never touched |
| `Service.NoteService.HandleLogin` | main.go:80-100 | for a decoded body, the outcome and sid are those of `UserTable.Login`: "logged in" exactly for a registered e-mail with a matching password, the sid being the decimal form of that account's ID. The failure is "malformed" or "unauthorized". Nothing is modified |
| `Service.NoteService.GetAllNotes` | main.go:143-153 | the result holds every stored note once per key (multiset equality with the table's notes), in unspecified order, and has the table's size |
| `Service.NoteService.HandleListNotes` | main.go:102-111 | an empty sid is refused whatever is stored. Any other sid lists exactly the stored notes |
| `Service.NoteService.CreateNote` | main.go:156-165 | the new note table and the returned ID are those of `NoteTable.Create`; the user table is unchanged |
| `Service.NoteService.DeleteNote` | main.go:168-178 | reports found exactly when the ID was present. Then the table becomes `NoteTable.Delete` of the old one; otherwise it is unchanged |
| `Service.NoteService.HandleCreateNote` | main.go:113-124 | a malformed body changes nothing. Otherwise the outcome carries the ID createNote assigns and the table is updated by it. The sid is never read |
| `Service.NoteService.HandleDeleteNote` | main.go:126-140 | a malformed body changes nothing. An absent ID is reported as not found with that ID. Otherwise the note is removed. The sid is never read |

## Left out

- The gin router, `router.Run` and the listening address (main.go:180-190) are framework I/O. JSON decoding by `ShouldBindJSON` is reduced to `Body<T>`: a body either failed to decode or produced a value.
- The two mutexes (main.go:49, 54) are not modelled. Every operation holds its mutex for its whole body, so each method is one atomic step, and interleavings are not modelled.
- HTTP status codes and response bodies are reduced to the `Outcome` datatype. Error message texts are not modelled; a not-found outcome carries the note ID that the message prints.
- The order of Go's map iteration in getAllNotes is unspecified. The model picks keys with `:|` and specifies the result as a multiset.
- Gin's `c.Query("sid")` returns "" for an absent parameter. The model receives the sid string directly, so "absent" and "empty" are one case.
