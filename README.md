# Vehicle upload endpoint — a Dafny model

This project models the upload endpoint of the DR1V3 vehicle intake service (`api/upload.js`).
A customer's browser posts a multipart form to it. The form holds the order's text fields (e-mail, order
number, name, VIN, make, model, year, colour) and any number of file fields carrying photos and documents.
The endpoint:

1. refuses every method but POST with 405;
2. builds a `submissions` record with the generated identifier, the creation time and status `pending`,
   and inserts it; an insert error aborts the request with 500 and a `Database error: ` message, before any
   file work;
3. walks the file fields in order and each field's list of parts in order;
   - a null part is skipped;
   - every other part is uploaded to the object store under the key `{submissionId}/{fieldName}_{i+1}.{ext}`;
   - a failed upload is skipped;
   - every stored upload gives one `uploaded_files` row, with file type `photo` or `document` decided by the
     field name;
4. inserts those rows when there is at least one; an error there is only logged;
5. answers 200 with the submission identifier, or 500 with the caught error's message (or a fallback when the
   message is empty).

The modules follow that structure:

- `Wrappers`: an `Option` type.
- `Text`: the JavaScript string operations the endpoint relies on, on `seq<char>`:
  - a number in a template literal;
  - `split` on a one-character separator, and `pop`;
  - `includes`.
- `Fields`: the field normaliser and the submission record builder.
- `StorageKeys`: the extension, the storage key and the `file_type` classification.
- `Transfer`: the nested transfer loop as two imperative methods with loop invariants, `TransferFiles` and
  `TransferField`.
  - Both are proved against the specification function `TransferOf`, a fold of the per-part step `SlotStep`
    over the parts in visiting order (`Slots`).
  - The object store is an oracle `Storage = UploadRequest -> UploadOutcome`.
- `TransferFacts`: what the loop promises, proved about `TransferOf`.
- `Handler`: the decision path as a total function `Handle` of the request and the services' outcomes.
  - The identifier, the clock, the two inserts and storage are all inputs.
  - The method `HandleRequest` runs the steps in the endpoint's order and is proved equal to `Handle`.
  - A `Run` records the response and every write the endpoint issued: the record, the uploads and the rows.
- `HandlerFacts`: the response decision's properties.

A part whose `originalFilename` is null is not skipped by the code. `null.split('.')` throws a TypeError,
which the `catch` block answers with 500 and the TypeError's message. The model keeps that behaviour: such a
part ends the transfer, the file rows are never inserted, and the submission record already written stays.

A row's `file_path` is the path storage returns (`uploadData.path`, api/upload.js:89), not the key built at
line 69. The model keeps the two apart, and `TransferFacts.RowRecordsItsUpload` states what follows when
storage echoes the key.

A name with no dot has the whole name as its extension, which is what `split('.').pop()` returns.

## Model

| member | source | states |
|---|---|---|
| Fields.Normalize | api/upload.js:36-43 | a missing field and an empty array give nothing; a bare value gives itself; a non-empty array gives its first element |
| Fields.NormalizeKeepsFirst | api/upload.js:36-43 | an array normalises to its first element alone, so a one-element array and the bare value agree |
| Fields.BuildSubmission | api/upload.js:34-46 | the record's id and time are the given ones; its status is `pending`; each of the eight form columns holds the normalised value of its field |
| Fields.RecordIgnoresArrayWrapping | api/upload.js:36-43 | sending every field as a one-element array instead of a bare value yields the identical record |
| Fields.OtherFieldsIgnored | api/upload.js:34-46 | fields outside the eight form names do not affect the record |
| Text.NatToString | api/upload.js:69 | the rendered position is a non-empty digit string with no leading zero |
| Text.DigitsValueOfNatToString | api/upload.js:69 | reading the rendered digits back gives the number |
| Text.NatToStringInjective | api/upload.js:69 | different positions render differently |
| Text.SplitJoin | api/upload.js:68 | no piece of `split` contains the separator, and joining the pieces with it gives back the string |
| Text.JoinLast | api/upload.js:68 | with two or more pieces, the popped last piece is what follows the last separator |
| Text.IncludesIff | api/upload.js:90 | `includes` holds exactly when the substring occurs at some index |
| StorageKeys.ExtensionAfterLastDot | api/upload.js:68 | the extension is a dot-free suffix of the name, preceded by a dot unless it is the whole name; the whole name exactly when there is no dot; empty when the name ends in a dot |
| StorageKeys.KeyKeepsExtension | api/upload.js:68-69 | the extension of a storage key is the extension of the original file name |
| StorageKeys.KeyInjective | api/upload.js:69 | within one submission, equal keys have equal field name, position and extension |
| StorageKeys.DistinctPositionsDistinctKeys | api/upload.js:64-69 | two different (field, position) pairs get different keys, whatever the file names |
| StorageKeys.FileTypeIsPhotoIff | api/upload.js:90 | the file type is `photo` exactly when the field name contains `photo` (case-sensitive), and `document` otherwise |
| Transfer.FileList | api/upload.js:62 | a single entry becomes a one-element list; an array is kept as it is |
| Transfer.FieldSlots | api/upload.js:64-65 | a field's list gives one slot per position, with its 0-based index, null parts included |
| Transfer.TransferField | api/upload.js:64-94 | the inner loop appends to the rows and uploads so far exactly what `TransferOf` gives for that field's slots, including the early exit on a nameless part |
| Transfer.TransferFiles | api/upload.js:59-95 | the nested loop's rows, issued uploads and thrown error equal `TransferOf` over all slots in visiting order |
| Transfer.TransferAppend | api/upload.js:61-64 | the loop over two consecutive runs of parts is the first run followed by the second, when the first does not throw |
| Transfer.TransferStopsAtThrow | api/upload.js:68 | once a part throws, no later part is visited |
| TransferFacts.RowRecordsItsUpload | api/upload.js:68-93 | a row belongs to the submission and carries the file's name, size and field classification; its path is what storage answered for the upload of that file under its key; when storage echoes the key, the path is the key and keeps the file's extension |
| TransferFacts.RowsComeFromStoredUploads | api/upload.js:82-93 | every row names the submission and comes from a visited part whose upload was stored |
| TransferFacts.RowCountBounded | api/upload.js:64-87 | rows ≤ uploads issued ≤ non-null parts ≤ parts |
| TransferFacts.RowsCountStoredUploads | api/upload.js:82-93 | there is exactly one row per upload that storage stored |
| TransferFacts.ThrowsIffNameless | api/upload.js:66-68 | the loop throws exactly when some non-null part has no file name, and then with the TypeError's message |
| TransferFacts.RunsToEndIffAllNamed | api/upload.js:61-95 | the loop finishes exactly when every non-null part has a file name |
| TransferFacts.FailedUploadDoesNotStopLoop | api/upload.js:82-85 | a failed upload gives no row but is issued, and every later part is handled as if it were not there |
| TransferFacts.NullPartSkipped | api/upload.js:65-66 | a null part issues nothing and adds nothing, and the loop goes on |
| TransferFacts.RowsAreStoredUploadsInOrder | api/upload.js:61-93 | without nameless parts, the rows are exactly the stored uploads' rows, fields in order, then positions in order |
| TransferFacts.SlotsAreListPositions | api/upload.js:61-65 | every visited slot is a position of some field's list, with that field's name and the part at that position |
| TransferFacts.ListPositionsAreSlots | api/upload.js:61-65 | every position of every field's list, null parts included, is visited |
| TransferFacts.IssuedKey | api/upload.js:68-69 | an issued upload's key is built from the slot's field, its 1-based position, counting null parts, and its file's extension |
| TransferFacts.UploadsComeFromSlots | api/upload.js:61-80 | every issued upload is issued for one of the visited slots |
| TransferFacts.UploadKeysDistinct | api/upload.js:64-80 | when no two slots share field and position, no two issued uploads share a key |
| TransferFacts.UploadKeysNeverCollide | api/upload.js:61-80 | since a request's file fields have distinct names, no upload of a request overwrites another of the same request |
| Text.Split | api/upload.js:68 | `split('.')` always gives at least one piece; `Text.SplitJoin` characterises it fully |
| Text.Last | api/upload.js:68 | `pop()` on the pieces: their last element; `Text.JoinLast` states it is what follows the last separator |
| Text.Includes | api/upload.js:90 | `includes`; specified by `Text.IncludesIff` |
| StorageKeys.Extension | api/upload.js:68 | `originalFilename.split('.').pop()`; specified by `StorageKeys.ExtensionAfterLastDot` |
| StorageKeys.StorageKey | api/upload.js:69 | the key `{submissionId}/{fieldName}_{position}.{ext}`; `StorageKeys.KeyInjective` and `StorageKeys.KeyKeepsExtension` state what it determines |
| StorageKeys.FileType | api/upload.js:90 | the `file_type` column; specified by `StorageKeys.FileTypeIsPhotoIff` |
| Transfer.Slots | api/upload.js:61-65 | the parts in visiting order, fields in order and then positions in order, as its definition concatenates them; `TransferFacts.SlotsAreListPositions` and `TransferFacts.ListPositionsAreSlots` state that the visited slots are exactly the list positions |
| Transfer.SlotStep | api/upload.js:65-93 | the loop body on one part; specified by `TransferFacts.RowRecordsItsUpload`, `TransferFacts.IssuedKey`, `TransferFacts.NullPartSkipped` and `TransferFacts.FailedUploadDoesNotStopLoop` |
| Transfer.TransferOf | api/upload.js:59-95 | the whole transfer loop as a fold of `SlotStep`; `Transfer.TransferFiles` is proved equal to it and the `TransferFacts` lemmas state its properties |
| Handler.ErrorMessage | api/upload.js:121 | the `catch` block's message is never empty: the error's own message when it has one, the fallback otherwise |
| Handler.Failed | api/upload.js:117-122 | the `catch` block answers 500 with `success: false` and a non-empty message: the error's own when it has one, `Upload failed. Please try again.` otherwise |
| Handler.Handle | api/upload.js:17-124 | the decision path; `Handler.HandleRequest` is proved equal to it and the `HandlerFacts` lemmas state its properties |
| Handler.HandleRequest | api/upload.js:17-124 | running the endpoint's steps in order gives exactly the decision `Handle` |
| HandlerFacts.NonPostRefused | api/upload.js:18-19 | any method but POST gives 405 `Method not allowed`, with no write and no upload |
| HandlerFacts.ParseErrorAnswered | api/upload.js:117-122 | a parse error gives 500 with its message or the fallback, with nothing written |
| HandlerFacts.DatabaseErrorAborts | api/upload.js:54-56 | a failed submission insert gives 500 with `Database error: ` and the error's message, and no file is uploaded or recorded |
| HandlerFacts.StatusDecision | api/upload.js:18-122 | 405 exactly for a method other than POST; 200 exactly for a parsed POST whose submission insert succeeded and whose non-null parts all have names; 500 otherwise |
| HandlerFacts.FailureMessageNonEmpty | api/upload.js:119-122 | every 500 answer carries a non-empty message |
| HandlerFacts.SuccessNamesStoredRecord | api/upload.js:111-115 | a 200 answer carries the identifier of the submitted record, which is `pending` |
| HandlerFacts.FilesWrittenAfterSubmission | api/upload.js:98-101 | the rows are inserted only after the submission, only when there is at least one, and only with rows naming the submission; on a 200 run they are inserted exactly when some upload was stored |
| HandlerFacts.FilesInsertErrorIgnored | api/upload.js:103-106 | the outcome of the rows insert changes nothing in the response or the writes |

## Left out

- The Supabase client, its table inserts and the storage upload are network calls. They are inputs:
  - the two inserts are `DbOk | DbError(message)` values;
  - storage is a function from the upload request to `Stored(path) | UploadFailed(message)`.
- The `.select()` result of the submission insert is not modelled; the endpoint never uses it.
- formidable's parsing and its limits (100 files, 10 MiB per file) are library behaviour. The parse is an
  input: the parsed fields and files, or an error with its message.
- Text fields are strings or arrays of strings; other values formidable could produce are not modelled.
- `uuidv4()` and `new Date().toISOString()` are nondeterministic. They are the inputs `submissionId` and
  `createdAt`.
- `fs.readFileSync` is file I/O. An upload request carries the part's temporary path in place of the bytes
  read from it, and a failing read is not modelled.
- A storage answer with neither an error nor data (so `uploadData.path` would throw) is not modelled; storage
  answers one or the other.
- The TypeError for a null `originalFilename` is modelled by its message only. Other runtime errors inside
  the loop are not modelled.
- `console.error` logging, the commented-out confirmation e-mail, the Next.js `config` export and the `res`
  object's API are left out as plumbing. The response is a status with a JSON body value.
- `res.status(...).json(...)` after a response was sent, and concurrency between requests, are outside the
  model.
