# Note store and note validators, modelled in Dafny

This project models the core of a small note-taking REST backend:

- **`NoteStore`** (`notes_backend/src/models/note.js`): an insertion-ordered map
  from id to note, mirrored to a JSON file. It generates ids by linear probing
  (`${base}-${counter}`, the smallest free counter), creates, lists, gets,
  updates and deletes notes, rewrites the whole file after every successful
  mutation, and rebuilds the map from the file when it is constructed.
- **The request validators** (`notes_backend/src/middleware/validateNote.js`):
  `validateCreateNote` and `validateUpdateNote`, which build an ordered list of
  error messages and either pass the request on (`next()`) or answer 400.

Files:

- `wrappers.dfy` — `Option`, used for `null` / `undefined` results.
- `decimal.dfy` — how a template literal renders the probe counter, and that
  distinct counters render differently.
- `ordered_map.dfy` — the JavaScript `Map` the store uses: `get`, `set` (an
  existing key keeps its position, a new key goes last), `delete`, and
  `values()` in insertion order.
- `note_store.dfy` — notes, id generation, loading and saving, the
  `NoteStore` class, and two client methods (delete twice, restart).
- `validate_note.dfy` — the two validators, with `String.prototype.trim` over
  the exact ECMAScript whitespace and line-terminator set.

The clock and the file system are inputs. `base` is the millisecond
timestamp already rendered in base 36. `now` is the ISO-8601 time. `file` is
the parsed content of the persistence file, where `None` stands for "nothing
loadable". A `WriteOutcome` says how a file rewrite ended. The store's `disk`
field holds what the file would give back when loaded. `writeFileSync`
truncates the file before it writes. So a write that fails before the file is
opened (`Refused`) leaves it as it was, and one that fails part-way
(`Truncated`, for example on a full disk) leaves a file that does not parse,
from which the next start loads an empty store. In every case the `try`/`catch`
keeps the in-memory mutation.

## Model

| member | source | states |
|---|---|---|
| `Decimal.NatToString` | notes_backend/src/models/note.js:22-25 | the rendered counter is a non-empty digit string whose decimal value is the counter, one digit exactly below 10, no leading zero |
| `Decimal.NatToStringInjective` | notes_backend/src/models/note.js:20-27 | distinct counters render as distinct strings |
| `OrderedMaps.Empty` | notes_backend/src/models/note.js:10 | a new map is well formed, holds no key and lists no value |
| `OrderedMaps.OrderedMap.Get` | notes_backend/src/models/note.js:104 | a value is found exactly when the key is present, and it is the stored one |
| `OrderedMaps.OrderedMap.Values` | notes_backend/src/models/note.js:61 | one value per key, in insertion order, as many as the map has keys |
| `OrderedMaps.OrderedMap.Set` | notes_backend/src/models/note.js:83 | the map stays well formed; the key maps to the new value, every other key is unchanged; existing keys keep their order and a present key keeps its position |
| `OrderedMaps.OrderedMap.Delete` | notes_backend/src/models/note.js:134 | the map stays well formed; the key is gone, all other entries remain, the size drops by one when the key was present, and nothing changes when it was absent |
| `OrderedMaps.SetValues` | notes_backend/src/models/note.js:122 | setting a present key replaces its value in place in `values()`; setting a new key appends it |
| `OrderedMaps.DeleteValues` | notes_backend/src/models/note.js:134 | deleting a present key drops its value from `values()` and keeps the rest in order |
| `Notes.Candidate` | notes_backend/src/models/note.js:22-25 | the candidate id is the base, a `-`, then at least one decimal digit |
| `Notes.CandidateCounter` | notes_backend/src/models/note.js:22-25 | the digits after `base-` in a candidate denote its counter in decimal |
| `Notes.CandidateInjective` | notes_backend/src/models/note.js:22-25 | different counters give different candidate ids |
| `Notes.ProbeBound` | notes_backend/src/models/note.js:23-26 | if the candidates for counters 0..n-1 are all taken, at least n ids are taken, so probing stops at a counter no larger than the map's size |
| `Notes.FirstFreeUnique` | notes_backend/src/models/note.js:19-28 | only one id is the first free candidate, so the generated id is determined by the base and the map |
| `Notes.Accept` | notes_backend/src/models/note.js:40-42 | a record that is not an object or whose id is missing or empty leaves the map as it was; the map stays well formed and keyed by id |
| `Notes.Replay` | notes_backend/src/models/note.js:39-43 | loading records keeps the map well formed, with every key non-empty and equal to its note's id |
| `Notes.Load` | notes_backend/src/models/note.js:33-50 | a missing, unreadable or non-array file gives an empty store; any file gives a well-formed map keyed by id |
| `Notes.LaterRecordWins` | notes_backend/src/models/note.js:39-43 | of several records with one id, the last one supplies the stored note |
| `Notes.UnmentionedKeyKept` | notes_backend/src/models/note.js:39-43 | an id that no record carries keeps its previous value |
| `Notes.ReplayKeepsOrder` | notes_backend/src/models/note.js:41 | loading only appends to the key order: a key keeps the position where it was first seen |
| `Notes.FileAfter` | notes_backend/src/models/note.js:55-66 | a rewrite that fails before opening the file leaves it as it was; one cut off after truncation leaves a file from which nothing loads; a completed one holds the saved records of the listed notes, and loading it gives back any well-formed map keyed by id whose values are that list |
| `Notes.Persist` | notes_backend/src/models/note.js:61-62 | the file holds one note record per listed note, the i-th record carrying the i-th note |
| `Notes.SaveThenLoad` | notes_backend/src/models/note.js:38-44 | loading what was saved gives back the same map, same ids, notes and order |
| `Notes.SpreadUpdate` | notes_backend/src/models/note.js:117-121 | the spread always stamps `updatedAt`; `id` and `createdAt` are each kept when the body does not carry them and replaced by the body's value when it does |
| `Notes.SpreadUpdateLosesNoteOnRestart` | notes_backend/src/models/note.js:117-123 | an update body carrying `id` leaves a note whose id differs from its key; after save and restart it is found under the other id and not under its own |
| `Notes.NoteStore.constructor` | notes_backend/src/models/note.js:9-13 | the new store holds exactly what loading the file gives, and the file is untouched |
| `Notes.NoteStore.LoadFromDisk` | notes_backend/src/models/note.js:33-50 | the loop sets every record with a non-empty id, in file order, leaving a well-formed map |
| `Notes.NoteStore.GenerateId` | notes_backend/src/models/note.js:19-28 | the id is not a key yet, and it is the candidate for the smallest counter whose candidate is free, that counter being at most the number of notes |
| `Notes.NoteStore.SaveToDisk` | notes_backend/src/models/note.js:55-66 | a completed write leaves the file holding the notes in insertion order; a write refused before opening leaves it unchanged; a write cut off after truncation leaves nothing loadable |
| `Notes.NoteStore.Create` | notes_backend/src/models/note.js:74-86 | exactly one key is added, the fresh probed id; the note has the payload's title and content and `createdAt == updatedAt == now`; it is listed last and found by `get`; other entries are unchanged; the file then follows the write's outcome, holding the list when the write completes |
| `Notes.NoteStore.List` | notes_backend/src/models/note.js:93-95 | the notes in insertion order, one per key, the i-th being the note stored under the i-th key; no id twice, every stored note present, each listed note stored under its own id |
| `Notes.NoteStore.Get` | notes_backend/src/models/note.js:103-105 | the stored note, which carries the id asked for, when the id is present; nothing (`null`) otherwise; no state changes |
| `Notes.NoteStore.Update` | notes_backend/src/models/note.js:114-125 | an absent id gives nothing and changes neither the map nor the file; a present id gets the provided fields, keeps the omitted ones and its `id` and `createdAt`, gets `updatedAt = now`, keeps its key and list position; other entries are untouched |
| `Notes.NoteStore.Delete` | notes_backend/src/models/note.js:133-139 | returns whether the id was present; afterwards it is absent and everything else remains; the list loses exactly that note; a missing id changes neither the map nor the file |
| `Notes.DeleteTwice` | notes_backend/src/models/note.js:133-139 | deleting the same id twice reports presence, then false, and removes only that id |
| `Notes.Restart` | notes_backend/src/models/note.js:9-13 | a store built from the file of a store whose last write succeeded holds the same notes in the same order |
| `ValidateNote.Trim` | notes_backend/src/middleware/validateNote.js:16 | the trimmed string is a contiguous piece `s[i..j]` of the input with `s[..i]` and `s[j..]` all JavaScript whitespace, and it neither starts nor ends with whitespace |
| `ValidateNote.TrimEmptyIffBlank` | notes_backend/src/middleware/validateNote.js:16 | a string trims to the empty string exactly when every character is JavaScript whitespace |
| `ValidateNote.Respond` | notes_backend/src/middleware/validateNote.js:53-61 | an empty error list passes the request on; otherwise the answer is 400, "error", "Validation failed" with the list |
| `ValidateNote.ValidateCreateNote` | notes_backend/src/middleware/validateNote.js:13-31 | a title error exactly when the title is not a non-blank string and a content error exactly when the content is not a string, title error first, no other messages; a missing body gives both; the request passes exactly when both fields are good |
| `ValidateNote.ValidateUpdateNote` | notes_backend/src/middleware/validateNote.js:41-62 | a title error only for a provided title that is not a non-blank string, a content error only for a provided non-string content, the "at least one" error exactly when both are absent and then alone; the request passes exactly when some field is provided and every provided field is good |

## Left out

- File I/O (`existsSync`, `readFileSync`, `mkdirSync`, `writeFileSync`), `JSON.parse` / `JSON.stringify` and `console.error` are not modelled. The file is the `disk` field holding parsed records. Every load failure is `None`, and every write failure is `Refused` or `Truncated`.
- `Date.now().toString(36)` and `new Date().toISOString()` are inputs (`base`, `now`). Base-36 and ISO-8601 formatting are not modelled, so no ordering between `createdAt` and `updatedAt` is claimed.
- Records in the file carry exactly the five note fields as strings. A missing or empty `id` is written `""`, and a non-object element is `Blank`. Truthy non-string ids and extra fields are not modelled.
- Notes.NoteStore.Update: the body is typed `{title?, content?}`, as the method's doc comment says. `Notes.SpreadUpdate` models the spread of a body carrying any of the five note fields as strings (see Findings). Two things the spread copies and the next save persists are modelled nowhere: body keys outside those five (such as `"foo"`), and a non-string value for `id`, `createdAt` or `updatedAt`, which the update validator does not inspect.
- Notes are values. The aliasing between the object `create` returns and the one the map holds is not modelled.
- The module-level singleton export and the hard-coded persistence path are not modelled. The store is constructed from the file content.
- The Express plumbing is not modelled: `notes_backend/src/app.js`, `notes_backend/src/routes/notes.js`, `notes_backend/src/controllers/notes.js`, `notes_backend/src/services/notes.js` and `notes_backend/swagger.js`. They map results to status codes and delegate without logic of their own.
- A validator's request body is represented by the two fields read from it, and `res.status(400).json(...)` by the `Reject` value. Concurrency is not modelled.

## Findings

| source | as written | input that shows it | evidently intended | confidence | as-written member | corrected member |
|---|---|---|---|---|---|---|
| notes_backend/src/models/note.js:117-121 | the whole request body is spread over the stored note, and the update validator does not strip other keys | `PUT` a note stored under `k-0` with body `{"title": "t", "id": "x-0"}`; the note saved under key `k-0` then has id `x-0`, and after a restart `get("k-0")` is `null` | only `title` and `content` change; `id` and `createdAt` are never altered (doc comment at note.js:111) | medium, not executed | `Notes.SpreadUpdateLosesNoteOnRestart` | `Notes.NoteStore.Update` |
