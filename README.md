# Guestbook and RSVP backend

A model of the collection logic of a small wedding-invitation backend
(`backend/server.js`): a guestbook of comments that can be created, liked,
edited and deleted, and a list of attendance confirmations (RSVPs) that can
only be created. Each HTTP handler reads its whole collection from a JSON
file, changes it and writes it back; the model keeps each collection as a
`seq` field of a store object and turns each handler into a method on it.

- `js.dfy` (module `Js`): the JavaScript semantics the handlers rely on — a
  `Value` datatype for what a JSON body can hold plus `undefined`,
  truthiness, `typeof`, `a || b`, and `String.prototype.trim` with its
  whitespace set.
- `http.dfy` (module `Http`): status codes, error texts and the
  `Reply`/`Outcome` datatypes a handler produces.
- `comments.dfy` (module `Comments`): the comment record, `findIndex`, and
  one function per comment handler mapping the collection as read to the
  reply and the collection as written; the collection invariant
  (`Consistent`: unique ids, truthy name and message, non-negative numeric
  likes) and lemmas relating several requests.
- `rsvps.dfy` (module `Rsvps`): the RSVP record, the create handler as a
  function, its invariant and lemmas.
- `server.dfy` (module `Server`): classes `CommentStore` and `RsvpStore`
  whose methods perform the handlers' in-place steps (`unshift`, assignment
  to one element's field, `splice`) and are proved to produce exactly the
  reply and collection of the corresponding function; two client methods
  exercise a session of requests against those contracts.

The generated UUID and the ISO timestamp are parameters of the create
operations (`id`, `createdAt`); the store methods require the id to be
absent from the collection, as a fresh UUID is.

Validation is only as strict as the code makes it:

- RSVP `guests` is `guests || 1`, which keeps any truthy value — `-5`,
  `"abc"`, an object — unchanged (`Rsvps.NegativeGuestsKept`); only a falsy
  value becomes 1.
- Comment create only tests `name` and `message` for truthiness and stores
  them untrimmed, so `" "` is accepted as a name; only the edit handler
  trims.
- Comment `presence` is stored as sent and never defaulted: it is
  `undefined` when the body has none.

## Model

| member | source | states |
|---|---|---|
| `Js.Truthy` | backend/server.js:43 | defined as JavaScript truthiness: false exactly for `undefined`, `null`, `false`, `0` and `""`, the `!x` tests at lines 43 and 133 |
| `Js.IsNumber` | backend/server.js:73 | defined as `typeof v === 'number'` |
| `Js.IsString` | backend/server.js:95-99 | defined as `typeof v === 'string'`, the guard of both edit branches |
| `Js.IsUndefined` | backend/server.js:133 | defined as `typeof v === 'undefined'`, the presence check |
| `Js.Or` | backend/server.js:142 | `a || b` is one of its operands, is `a` exactly when `a` is truthy, and is truthy whenever `b` is |
| `Js.StartOfText` | backend/server.js:95-100 | the scan stops at the first position from its start that is not whitespace (or the end), having passed only whitespace |
| `Js.EndOfText` | backend/server.js:95-100 | the scan backs up from the end over whitespace only, stopping after a non-whitespace character or at the start of the text |
| `Js.Trim` | backend/server.js:95-100 | `trim()` yields a string that is empty or has no whitespace at either end |
| `Js.TrimIsSlice` | backend/server.js:95-100 | `trim()` keeps one contiguous slice of the input and only whitespace is dropped on either side of it |
| `Js.TrimEmptyIff` | backend/server.js:95-99 | `s.trim().length > 0` holds exactly when `s` has a character that is not whitespace |
| `Js.TrimFixesTrimmed` | backend/server.js:95-100 | a string with no whitespace at either end is its own trim |
| `Js.TrimIdempotent` | backend/server.js:96-100 | trimming an already trimmed value changes nothing |
| `Comments.FindIndex` | backend/server.js:67 | `findIndex` returns -1 exactly when no comment has the id, and otherwise the position of the first comment with it |
| `Comments.Create` | backend/server.js:40-61 | a falsy name or message gives 400 "Faltan datos." with the collection unchanged; otherwise 201 with the record (given id, name, presence and message untrimmed, likes 0, given timestamp) placed at index 0 ahead of the old records in their order |
| `Comments.Like` | backend/server.js:64-81 | an unknown id gives 404 with the collection unchanged; otherwise the first matching record's likes becomes old+1, or 1 when it was not a number, the reply is 200 `{id, likes}`, and every other field and record is unchanged |
| `Comments.Edit` | backend/server.js:84-105 | an unknown id gives 404 with the collection unchanged; otherwise message and name of the first match are revised, id, presence, likes and createdAt and all other records stay, and the reply is the updated record |
| `Comments.Delete` | backend/server.js:108-121 | an unknown id gives 404 with the collection unchanged; otherwise the first match is removed, the records before it keep their positions and those after it move up by one, and the reply is `{deleted: true, id}` |
| `Comments.Bumped` | backend/server.js:73-77 | the counter after one like is 1 plus the stored number, or 1 plus the 0 it is repaired to; a non-negative counter strictly grows |
| `Comments.Revised` | backend/server.js:95-101 | a field after an edit is either its current value or the trimmed string sent, which is then truthy |
| `Comments.RevisedIff` | backend/server.js:95-101 | a field is replaced exactly when a string with a non-whitespace character was sent, and then by that string trimmed; otherwise it keeps its value |
| `Comments.BlankEditChangesNothing` | backend/server.js:95-104 | an edit whose name and message are missing, not strings or blank leaves the collection unchanged and replies with the stored record |
| `Comments.EditIdempotent` | backend/server.js:84-105 | sending the same edit twice gives the same collection and reply as sending it once |
| `Comments.RevisedKeepsTruthy` | backend/server.js:95-101 | an edit cannot make a truthy name or message falsy |
| `Comments.CreatePreservesConsistent` | backend/server.js:43-57 | creating with a fresh id keeps ids unique, names and messages truthy and likes non-negative numbers |
| `Comments.LikePreservesConsistent` | backend/server.js:73-77 | liking keeps the collection consistent |
| `Comments.EditPreservesConsistent` | backend/server.js:95-101 | editing keeps the collection consistent |
| `Comments.DeletePreservesConsistent` | backend/server.js:117 | deleting keeps the collection consistent |
| `Comments.DeleteRemovesId` | backend/server.js:111-117 | with unique ids a successful delete leaves no record with that id and removes exactly one record from the multiset |
| `Comments.NewestFirst` | backend/server.js:57 | creating A, then B, then C gives `[C, B, A]` ahead of the earlier records |
| `Comments.DeleteUndoesCreate` | backend/server.js:57-117 | deleting the comment just created restores the collection and replies `{deleted: true, id}` |
| `Comments.LikeTimes` | backend/server.js:64-81 | n like requests in a row, one after another; they keep the collection's length |
| `Comments.LikeTimesAdds` | backend/server.js:77 | n likes in a row add exactly n to a numeric counter and change nothing else |
| `Comments.CreatedThenLikedTimes` | backend/server.js:53-77 | a new comment liked n times has exactly n likes |
| `Rsvps.GuestsOrDefault` | backend/server.js:142 | `guests || 1` is the given value when it is truthy and 1 otherwise, so the stored count is always truthy |
| `Rsvps.Create` | backend/server.js:131-150 | rejected with 400 "Faltan datos." and the collection unchanged exactly when name is falsy or presence is undefined; otherwise 201 with the record (guests defaulted) at index 0 ahead of the old records |
| `Rsvps.CreatePreservesConsistent` | backend/server.js:133-146 | creating with a fresh id keeps ids unique, names truthy, presence defined and guests truthy |
| `Rsvps.MissingGuestsDefaultsToOne` | backend/server.js:142 | `{name: "Ana", presence: 1}` without guests records one guest |
| `Rsvps.PresenceZeroAccepted` | backend/server.js:133 | presence 0 is accepted while an absent presence gives 400 with the collection unchanged |
| `Rsvps.NegativeGuestsKept` | backend/server.js:142 | a negative guest count is stored as given, not replaced by 1 |
| `Server.CommentStore.constructor` | backend/server.js:20 | a new comments file holds the empty collection |
| `Server.CommentStore.List` | backend/server.js:34-37 | GET returns the whole collection as stored |
| `Server.CommentStore.Create` | backend/server.js:40-61 | the new collection and reply are those of `Comments.Create` on the old collection, and consistency is preserved |
| `Server.CommentStore.Like` | backend/server.js:64-81 | the repair-then-increment steps produce the collection and reply of `Comments.Like`, preserving consistency |
| `Server.CommentStore.Edit` | backend/server.js:84-105 | the two conditional field assignments produce the collection and reply of `Comments.Edit`, preserving consistency |
| `Server.CommentStore.Delete` | backend/server.js:108-121 | the splice produces the collection and reply of `Comments.Delete`, preserving consistency |
| `Server.RsvpStore.constructor` | backend/server.js:21 | a new RSVP file holds the empty collection |
| `Server.RsvpStore.List` | backend/server.js:126-129 | GET returns the whole collection as stored |
| `Server.RsvpStore.Create` | backend/server.js:131-150 | the new collection and reply are those of `Rsvps.Create` on the old collection, and consistency is preserved |

## Left out

- Express routing, CORS, body parsing and `res.status(...).json(...)`: framework calls; a handler's result is a `Reply` value.
- File persistence (`fs.existsSync`, `mkdirSync`, `readFileSync`, `writeFileSync`, `JSON.parse`, `JSON.stringify`): I/O; each collection is in-memory state that every handler reads at its start and leaves at its end. Stored counters are never `NaN` or `Infinity`, since the file cannot hold them.
- `uuidv4()` and `new Date().toISOString()`: nondeterministic foreign calls, passed in as `id` and `createdAt`; freshness of the id is a precondition of the store methods.
- Numbers that overflow to `Infinity` in a request body (e.g. `1e999` as `name` or `guests`), which the write turns into `null`, are not modelled; `Comments.Consistent` and `Rsvps.Consistent` hold of the model only, not of a file written after such a request.
- Numbers are mathematical integers: fractional numbers and the loss of precision of `likes += 1` above 2^53 are not modelled.
- Arrays and objects in a request body are one `Compound` value: the handlers only test them for truthiness and store them.
- `trim` works on Unicode scalar values rather than UTF-16 code units; its whitespace set is ECMAScript's (WhiteSpace with Unicode category Zs, and LineTerminator).
- Stored ids are modelled as strings; a file edited by hand to hold a non-string id is not modelled.
- Each stored record is a value updated through its sequence position rather than a shared mutable object; the handlers parse a fresh copy per request, so no aliasing is lost.
- The second `POST /api/rsvp` handler and the second `app.listen` (lines 156-179): Express dispatches to the first handler, so the duplicate is never reached, and the second `listen` binds the same `PORT` again, which fails with `EADDRINUSE` and, with no `'error'` listener, ends the process right after startup.
- Races between concurrent requests doing read-modify-write on the same file: concurrency is outside this model; each request is one atomic step.
- The `presence` codes (0/1/2 for comments, 1/2 for RSVPs) are not validated by the code and are stored as any value.
