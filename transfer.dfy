/**
 * The file transfer loop: every file part the parser produced is visited
 * in order, field by field and then position by position; each present
 * part is uploaded to the object store under its derived key, and each
 * upload that succeeds contributes one row for the `uploaded_files` table.
 * The object store is an oracle from upload requests to outcomes.
 */
module Transfer {
  import opened Wrappers
  import opened StorageKeys

  /** A parsed file part: the client's file name (possibly missing), size, declared type and temp path. */
  datatype FilePart = FilePart(originalFilename: Option<string>, size: nat, mimetype: Option<string>, filepath: string)

  /** The value under one file field: a single part or an array of parts; any of them may be null. */
  datatype FileEntry = One(part: Option<FilePart>) | Many(parts: seq<Option<FilePart>>)

  /** `Object.entries(files)`: the file fields with their entries, in iteration order. */
  type FileFields = seq<(string, FileEntry)>

  /** What the handler hands to storage: the key, the bytes (read from the temp path) and the content type. */
  datatype UploadRequest = UploadRequest(key: string, localPath: string, contentType: Option<string>)

  /** What storage answers: the stored object's path, or an error. */
  datatype UploadOutcome = Stored(path: string) | UploadFailed(message: string)

  /** The object store, as a function from the request to its outcome. */
  type Storage = UploadRequest -> UploadOutcome

  /** One row of the `uploaded_files` table. */
  datatype FileRow = FileRow(submissionId: string, filePath: string, fileType: string, originalName: string, fileSize: nat)

  /** The message of the TypeError that `null.split('.')` raises when a part has no file name. */
  const NullFilenameError: string := "Cannot read properties of null (reading 'split')"

  /** `Array.isArray(fileArray) ? fileArray : [fileArray]`. */
  function FileList(entry: FileEntry): (list: seq<Option<FilePart>>)
    ensures entry.One? ==> list == [entry.part]
    ensures entry.Many? ==> list == entry.parts
  {
    match entry
    case One(p) => [p]
    case Many(ps) => ps
  }

  /** One position of one field's list: the field, the 0-based position `i`, and the part there. */
  datatype Slot = Slot(fieldName: string, index: nat, part: Option<FilePart>)

  /** The slots of one field, one per list position, null parts included. */
  function FieldSlots(fieldName: string, list: seq<Option<FilePart>>): (slots: seq<Slot>)
    ensures |slots| == |list|
    ensures forall j :: 0 <= j < |list| ==> slots[j] == Slot(fieldName, j, list[j])
  {
    seq(|list|, j requires 0 <= j < |list| => Slot(fieldName, j, list[j]))
  }

  /** The slots the nested loop visits, in visiting order. */
  function Slots(files: FileFields): seq<Slot> {
    if files == [] then []
    else FieldSlots(files[0].0, FileList(files[0].1)) + Slots(files[1..])
  }

  /** What the loop body does with one slot. */
  datatype Step =
    | Skip                                                // a null part: `continue`
    | Throw(message: string)                              // a part without a file name: the loop is left by an exception
    | Attempt(request: UploadRequest, row: Option<FileRow>) // an upload, and the row it yields when it succeeds

  /** The loop body on one slot. */
  function SlotStep(submissionId: string, slot: Slot, storage: Storage): Step {
    match slot.part
    case None => Skip
    case Some(file) =>
      match file.originalFilename
      case None => Throw(NullFilenameError)
      case Some(name) =>
        var key := StorageKey(submissionId, slot.fieldName, slot.index + 1, Extension(name));
        var request := UploadRequest(key, file.filepath, file.mimetype);
        match storage(request)
        case UploadFailed(_) => Attempt(request, None)
        case Stored(path) =>
          Attempt(request, Some(FileRow(submissionId, path, FileType(slot.fieldName), name, file.size)))
  }

  /** What the loop leaves behind: `uploadedFiles`, the uploads it issued, and the exception that ended it, if any. */
  datatype TransferResult = TransferResult(rows: seq<FileRow>, attempted: seq<UploadRequest>, thrown: Option<string>)

  /** The effect of one step in front of what the rest of the loop does; an exception discards the rest. */
  function Prepend(step: Step, rest: TransferResult): TransferResult {
    match step
    case Skip => rest
    case Throw(m) => TransferResult([], [], Some(m))
    case Attempt(request, row) =>
      var mine := if row.Some? then [row.value] else [];
      TransferResult(mine + rest.rows, [request] + rest.attempted, rest.thrown)
  }

  /** The loop over a sequence of slots, one step after the other; an exception ends it. */
  function TransferOf(submissionId: string, slots: seq<Slot>, storage: Storage): TransferResult {
    if slots == [] then TransferResult([], [], None)
    else Prepend(SlotStep(submissionId, slots[0], storage), TransferOf(submissionId, slots[1..], storage))
  }

  /** Running `second` after a `first` that did not throw. */
  function Then(first: TransferResult, second: TransferResult): TransferResult {
    TransferResult(first.rows + second.rows, first.attempted + second.attempted, second.thrown)
  }

  /** A step that does not throw commutes with appending a later run. */
  lemma PrependThen(step: Step, first: TransferResult, second: TransferResult)
    requires !step.Throw?
    ensures Prepend(step, Then(first, second)) == Then(Prepend(step, first), second)
  {
  }

  /** The loop over consecutive runs of slots is the first run followed by the second. */
  lemma {:induction false} TransferAppend(submissionId: string, a: seq<Slot>, b: seq<Slot>, storage: Storage)
    requires TransferOf(submissionId, a, storage).thrown.None?
    ensures TransferOf(submissionId, a + b, storage)
         == Then(TransferOf(submissionId, a, storage), TransferOf(submissionId, b, storage))
  {
    if a == [] {
      assert a + b == b;
    } else {
      assert (a + b)[1..] == a[1..] + b;
      var step := SlotStep(submissionId, a[0], storage);
      assert !step.Throw?;
      TransferAppend(submissionId, a[1..], b, storage);
      PrependThen(step, TransferOf(submissionId, a[1..], storage), TransferOf(submissionId, b, storage));
    }
  }

  /** Once a run of slots throws, later slots are never visited. */
  lemma {:induction false} TransferStopsAtThrow(submissionId: string, a: seq<Slot>, b: seq<Slot>, storage: Storage)
    requires TransferOf(submissionId, a, storage).thrown.Some?
    ensures TransferOf(submissionId, a + b, storage) == TransferOf(submissionId, a, storage)
  {
    assert a != [];
    assert (a + b)[1..] == a[1..] + b;
    if !SlotStep(submissionId, a[0], storage).Throw? {
      TransferStopsAtThrow(submissionId, a[1..], b, storage);
    }
  }

  /** The loop over a single slot is that slot's step. */
  lemma SingleSlot(submissionId: string, slot: Slot, storage: Storage)
    ensures TransferOf(submissionId, [slot], storage)
         == Prepend(SlotStep(submissionId, slot, storage), TransferResult([], [], None))
  {
    assert [slot][1..] == [];
  }

  /** One more slot of a run that has not thrown: its step is added, and a throw there ends the whole run. */
  lemma TransferExtend(submissionId: string, slots: seq<Slot>, i: nat, storage: Storage)
    requires i < |slots|
    requires TransferOf(submissionId, slots[..i], storage).thrown.None?
    ensures TransferOf(submissionId, slots[..i + 1], storage)
         == Then(TransferOf(submissionId, slots[..i], storage),
                 Prepend(SlotStep(submissionId, slots[i], storage), TransferResult([], [], None)))
    ensures SlotStep(submissionId, slots[i], storage).Throw? ==>
              (TransferOf(submissionId, slots, storage)
               == Then(TransferOf(submissionId, slots[..i], storage),
                       TransferResult([], [], Some(SlotStep(submissionId, slots[i], storage).message))))
  {
    assert slots[..i + 1] == slots[..i] + [slots[i]];
    TransferAppend(submissionId, slots[..i], [slots[i]], storage);
    SingleSlot(submissionId, slots[i], storage);
    assert slots == slots[..i] + slots[i..];
    TransferAppend(submissionId, slots[..i], slots[i..], storage);
  }

  /**
   * The inner `for` of the transfer loop, over one field's list: it skips
   * null parts, skips failed uploads and pushes a row onto `uploadedFiles`
   * for every stored file. A part without a file name throws, which leaves
   * both loops.
   */
  method TransferField(submissionId: string, fieldName: string, fileList: seq<Option<FilePart>>, storage: Storage,
                       uploadedFiles: seq<FileRow>, attempted: seq<UploadRequest>)
    returns (result: TransferResult)
    ensures result == Then(TransferResult(uploadedFiles, attempted, None),
                           TransferOf(submissionId, FieldSlots(fieldName, fileList), storage))
  {
    var rows, issued := uploadedFiles, attempted;
    ghost var slots := FieldSlots(fieldName, fileList);
    for i := 0 to |fileList|
      invariant Then(TransferResult(uploadedFiles, attempted, None), TransferOf(submissionId, slots[..i], storage))
             == TransferResult(rows, issued, None)
    {
      var file := fileList[i];
      ghost var slot := Slot(fieldName, i, file);
      TransferExtend(submissionId, slots, i, storage);
      if file.None? {
        assert SlotStep(submissionId, slot, storage) == Skip;
        continue;
      }
      var part := file.value;
      if part.originalFilename.None? {
        assert SlotStep(submissionId, slot, storage) == Throw(NullFilenameError);
        return TransferResult(rows, issued, Some(NullFilenameError));
      }
      var originalName := part.originalFilename.value;
      var fileExt := Extension(originalName);
      var fileName := StorageKey(submissionId, fieldName, i + 1, fileExt);
      var request := UploadRequest(fileName, part.filepath, part.mimetype);
      var outcome := storage(request);
      issued := issued + [request];
      assert slot.part == Some(part) && part.originalFilename == Some(originalName);
      assert request == UploadRequest(StorageKey(submissionId, slot.fieldName, slot.index + 1, Extension(originalName)),
                                      part.filepath, part.mimetype);
      if outcome.UploadFailed? {
        assert SlotStep(submissionId, slot, storage) == Attempt(request, None);
        continue;
      }
      var row := FileRow(submissionId, outcome.path, FileType(fieldName), originalName, part.size);
      assert SlotStep(submissionId, slot, storage) == Attempt(request, Some(row));
      rows := rows + [row];
    }
    assert slots[..|fileList|] == slots;
    result := TransferResult(rows, issued, None);
  }

  /** The slots of a run of fields are those of its first part followed by those of the rest. */
  lemma {:induction false} SlotsSplit(files: FileFields, k: nat)
    requires k <= |files|
    ensures Slots(files) == Slots(files[..k]) + Slots(files[k..])
  {
    if k > 0 {
      SlotsSplit(files[1..], k - 1);
      assert files[1..][..k - 1] == files[..k][1..];
      assert files[1..][k - 1..] == files[k..];
    } else {
      assert files[..0] == [];
      assert files[0..] == files;
    }
  }

  /** The slots of the first `k + 1` fields: those of the first `k`, then those of field `k`. */
  lemma SlotsExtend(files: FileFields, k: nat)
    requires k < |files|
    ensures Slots(files[..k + 1]) == Slots(files[..k]) + FieldSlots(files[k].0, FileList(files[k].1))
  {
    var slots := FieldSlots(files[k].0, FileList(files[k].1));
    SlotsSplit(files[..k + 1], k);
    assert files[..k + 1][..k] == files[..k];
    assert files[..k + 1][k..] == [files[k]];
    assert [files[k]][1..] == [];
    assert Slots([files[k]]) == slots + Slots([]);
  }

  /** One more field of a run that has not thrown: its slots are added, and a throw there ends the whole loop. */
  lemma FieldExtend(submissionId: string, files: FileFields, k: nat, storage: Storage)
    requires k < |files|
    requires TransferOf(submissionId, Slots(files[..k]), storage).thrown.None?
    ensures TransferOf(submissionId, Slots(files[..k + 1]), storage)
         == Then(TransferOf(submissionId, Slots(files[..k]), storage),
                 TransferOf(submissionId, FieldSlots(files[k].0, FileList(files[k].1)), storage))
    ensures TransferOf(submissionId, Slots(files[..k + 1]), storage).thrown.Some? ==>
              TransferOf(submissionId, Slots(files), storage) == TransferOf(submissionId, Slots(files[..k + 1]), storage)
  {
    SlotsExtend(files, k);
    TransferAppend(submissionId, Slots(files[..k]), FieldSlots(files[k].0, FileList(files[k].1)), storage);
    SlotsSplit(files, k + 1);
    if TransferOf(submissionId, Slots(files[..k + 1]), storage).thrown.Some? {
      TransferStopsAtThrow(submissionId, Slots(files[..k + 1]), Slots(files[k + 1..]), storage);
    }
  }

  /**
   * The transfer loop of the handler: a `for ... of` over the file fields,
   * each field's entry read as a list, and the inner loop over that list.
   */
  method TransferFiles(submissionId: string, files: FileFields, storage: Storage) returns (result: TransferResult)
    ensures result == TransferOf(submissionId, Slots(files), storage)
  {
    var uploadedFiles: seq<FileRow> := [];
    var attempted: seq<UploadRequest> := [];
    assert files[..0] == [];
    for k := 0 to |files|
      invariant TransferOf(submissionId, Slots(files[..k]), storage) == TransferResult(uploadedFiles, attempted, None)
    {
      var (fieldName, fileArray) := files[k];
      var fileList := FileList(fileArray);
      FieldExtend(submissionId, files, k, storage);
      var field := TransferField(submissionId, fieldName, fileList, storage, uploadedFiles, attempted);
      if field.thrown.Some? {
        return field;
      }
      uploadedFiles, attempted := field.rows, field.attempted;
    }
    assert files[..|files|] == files;
    result := TransferResult(uploadedFiles, attempted, None);
  }
}

/** What the transfer loop promises, stated over its specification `TransferOf`. */
module TransferFacts {
  import opened Wrappers
  import opened Text
  import opened StorageKeys
  import opened Transfer

  /** `slot` is a present part whose upload stored the file and produced `row`. */
  ghost predicate YieldsRow(submissionId: string, slot: Slot, storage: Storage, row: FileRow) {
    var step := SlotStep(submissionId, slot, storage);
    step.Attempt? && step.row == Some(row)
  }

  /** `slot` holds a part with no file name, on which the loop throws. */
  predicate Nameless(slot: Slot) {
    slot.part.Some? && slot.part.value.originalFilename.None?
  }

  /** The number of present (non-null) parts among `slots`. */
  function PresentParts(slots: seq<Slot>): (n: nat)
    ensures n <= |slots|
  {
    if slots == [] then 0 else (if slots[0].part.Some? then 1 else 0) + PresentParts(slots[1..])
  }

  /**
   * What a row says about the file it records: it belongs to the
   * submission, carries the file's name and size and the classification
   * of its field, and its path is what storage answered to the upload of
   * that file under its key; when storage answers with the key it was
   * given, the row's path is that key and has the file's extension.
   */
  lemma RowRecordsItsUpload(submissionId: string, slot: Slot, storage: Storage, row: FileRow)
    requires YieldsRow(submissionId, slot, storage, row)
    ensures slot.part.Some? && slot.part.value.originalFilename == Some(row.originalName)
    ensures row.submissionId == submissionId
    ensures row.fileSize == slot.part.value.size
    ensures row.fileType == FileType(slot.fieldName)
    ensures row.fileType == "photo" <==> exists k :: OccursAt(slot.fieldName, "photo", k)
    ensures var key := StorageKey(submissionId, slot.fieldName, slot.index + 1, Extension(row.originalName));
            var request := UploadRequest(key, slot.part.value.filepath, slot.part.value.mimetype);
            && storage(request) == Stored(row.filePath)
            && (storage(request) == Stored(key) ==> row.filePath == key && Extension(row.filePath) == Extension(row.originalName))
  {
    var name := slot.part.value.originalFilename.value;
    FileTypeIsPhotoIff(slot.fieldName);
    KeyKeepsExtension(submissionId, slot.fieldName, slot.index + 1, name);
  }

  /** `row` is the row of one of `slots`' stored uploads. */
  ghost predicate FromStoredUpload(submissionId: string, slots: seq<Slot>, storage: Storage, row: FileRow) {
    exists k :: 0 <= k < |slots| && YieldsRow(submissionId, slots[k], storage, row)
  }

  /** Every row comes from one of the visited slots whose upload succeeded, and names the submission. */
  lemma {:induction false} RowsComeFromStoredUploads(submissionId: string, slots: seq<Slot>, storage: Storage)
    ensures forall j :: 0 <= j < |TransferOf(submissionId, slots, storage).rows| ==>
              TransferOf(submissionId, slots, storage).rows[j].submissionId == submissionId &&
              FromStoredUpload(submissionId, slots, storage, TransferOf(submissionId, slots, storage).rows[j])
  {
    if slots != [] {
      RowsComeFromStoredUploads(submissionId, slots[1..], storage);
      var rest := TransferOf(submissionId, slots[1..], storage).rows;
      var rows := TransferOf(submissionId, slots, storage).rows;
      var step := SlotStep(submissionId, slots[0], storage);
      if !step.Throw? {
        var mine := RowsOfSlot(submissionId, slots[0], storage);
        assert rows == mine + rest;
        assert mine != [] ==> YieldsRow(submissionId, slots[0], storage, mine[0]);
        forall j | |mine| <= j < |rows|
          ensures rows[j].submissionId == submissionId && FromStoredUpload(submissionId, slots, storage, rows[j])
        {
          var row := rest[j - |mine|];
          assert rows[j] == row;
          var k :| 0 <= k < |slots[1..]| && YieldsRow(submissionId, slots[1..][k], storage, row);
          assert slots[1..][k] == slots[k + 1];
        }
      }
    }
  }

  /** At most one upload per present part, and at most one row per upload. */
  lemma {:induction false} RowCountBounded(submissionId: string, slots: seq<Slot>, storage: Storage)
    ensures var t := TransferOf(submissionId, slots, storage);
            |t.rows| <= |t.attempted| <= PresentParts(slots) <= |slots|
  {
    if slots != [] {
      RowCountBounded(submissionId, slots[1..], storage);
    }
  }

  /** The loop throws exactly when it meets a part with no file name, and then with the TypeError's message. */
  lemma {:induction false} ThrowsIffNameless(submissionId: string, slots: seq<Slot>, storage: Storage)
    ensures var thrown := TransferOf(submissionId, slots, storage).thrown;
            && (thrown.Some? <==> exists k :: 0 <= k < |slots| && Nameless(slots[k]))
            && (thrown.Some? ==> thrown == Some(NullFilenameError))
  {
    if slots != [] {
      ThrowsIffNameless(submissionId, slots[1..], storage);
      if exists k :: 0 <= k < |slots[1..]| && Nameless(slots[1..][k]) {
        var k :| 0 <= k < |slots[1..]| && Nameless(slots[1..][k]);
        assert Nameless(slots[k + 1]);
      }
      if exists k :: 0 <= k < |slots| && Nameless(slots[k]) {
        var k :| 0 <= k < |slots| && Nameless(slots[k]);
        if k > 0 {
          assert Nameless(slots[1..][k - 1]);
        }
      }
    }
  }

  /** Every present part among `slots` has a file name. */
  ghost predicate AllNamed(slots: seq<Slot>) {
    forall k :: 0 <= k < |slots| ==> !Nameless(slots[k])
  }

  /** The loop runs to its end exactly when every present part has a file name. */
  lemma RunsToEndIffAllNamed(submissionId: string, slots: seq<Slot>, storage: Storage)
    ensures TransferOf(submissionId, slots, storage).thrown.None? <==> AllNamed(slots)
  {
    ThrowsIffNameless(submissionId, slots, storage);
  }

  /**
   * Each slot contributes its own step in place: what comes before it
   * (which did not throw), then its step, then the rest of the loop.
   */
  lemma SlotInContext(submissionId: string, before: seq<Slot>, slot: Slot, after: seq<Slot>, storage: Storage)
    requires TransferOf(submissionId, before, storage).thrown.None?
    ensures TransferOf(submissionId, before + [slot] + after, storage)
         == Then(TransferOf(submissionId, before, storage),
                 Prepend(SlotStep(submissionId, slot, storage), TransferOf(submissionId, after, storage)))
  {
    assert before + [slot] + after == before + ([slot] + after);
    TransferAppend(submissionId, before, [slot] + after, storage);
    assert ([slot] + after)[1..] == after;
  }

  /**
   * A failed upload does not stop the loop: that file gets no row, its
   * upload was issued, and every later file is handled as if it were not
   * there.
   */
  lemma FailedUploadDoesNotStopLoop(submissionId: string, before: seq<Slot>, slot: Slot, after: seq<Slot>, storage: Storage)
    requires TransferOf(submissionId, before, storage).thrown.None?
    requires SlotStep(submissionId, slot, storage).Attempt? && SlotStep(submissionId, slot, storage).row.None?
    ensures var t := TransferOf(submissionId, before + [slot] + after, storage);
            var b, a := TransferOf(submissionId, before, storage), TransferOf(submissionId, after, storage);
            && t.rows == b.rows + a.rows
            && t.attempted == b.attempted + [SlotStep(submissionId, slot, storage).request] + a.attempted
            && t.thrown == a.thrown
  {
    SlotInContext(submissionId, before, slot, after, storage);
    var step := SlotStep(submissionId, slot, storage);
    var a := TransferOf(submissionId, after, storage);
    assert Prepend(step, a) == TransferResult([] + a.rows, [step.request] + a.attempted, a.thrown);
    assert [] + a.rows == a.rows;
  }

  /** A null part is skipped without an upload, and the loop goes on. */
  lemma NullPartSkipped(submissionId: string, before: seq<Slot>, fieldName: string, index: nat, after: seq<Slot>,
                        storage: Storage)
    requires TransferOf(submissionId, before, storage).thrown.None?
    ensures TransferOf(submissionId, before + [Slot(fieldName, index, None)] + after, storage)
         == Then(TransferOf(submissionId, before, storage), TransferOf(submissionId, after, storage))
  {
    SlotInContext(submissionId, before, Slot(fieldName, index, None), after, storage);
  }

  /** The rows a slot contributes on its own: one for a stored upload, none otherwise. */
  function RowsOfSlot(submissionId: string, slot: Slot, storage: Storage): seq<FileRow> {
    var step := SlotStep(submissionId, slot, storage);
    if step.Attempt? && step.row.Some? then [step.row.value] else []
  }

  /** The stored uploads' rows, in visiting order, collected from the last slot backwards. */
  function StoredRows(submissionId: string, slots: seq<Slot>, storage: Storage): seq<FileRow> {
    if slots == [] then []
    else StoredRows(submissionId, slots[..|slots| - 1], storage) + RowsOfSlot(submissionId, slots[|slots| - 1], storage)
  }

  /**
   * When no part lacks a name, the loop's rows are exactly the rows of the
   * stored uploads, in visiting order: fields in order, then positions in order.
   */
  lemma {:induction false} RowsAreStoredUploadsInOrder(submissionId: string, slots: seq<Slot>, storage: Storage)
    requires forall k :: 0 <= k < |slots| ==> !Nameless(slots[k])
    ensures TransferOf(submissionId, slots, storage).thrown.None?
    ensures TransferOf(submissionId, slots, storage).rows == StoredRows(submissionId, slots, storage)
  {
    ThrowsIffNameless(submissionId, slots, storage);
    if slots != [] {
      var n := |slots| - 1;
      var front := slots[..n];
      assert forall k :: 0 <= k < |front| ==> front[k] == slots[k];
      RowsAreStoredUploadsInOrder(submissionId, front, storage);
      assert slots == front + [slots[n]] + [];
      SlotInContext(submissionId, front, slots[n], [], storage);
    }
  }

  /** How many of `requests` storage answered with a stored object. */
  function StoredCount(requests: seq<UploadRequest>, storage: Storage): nat {
    if requests == [] then 0
    else (if storage(requests[0]).Stored? then 1 else 0) + StoredCount(requests[1..], storage)
  }

  /** Some upload was stored exactly when the count of stored uploads is positive. */
  lemma {:induction false} StoredCountPositive(requests: seq<UploadRequest>, storage: Storage)
    ensures StoredCount(requests, storage) > 0 <==> exists j :: 0 <= j < |requests| && storage(requests[j]).Stored?
  {
    if requests != [] {
      StoredCountPositive(requests[1..], storage);
      if exists j :: 0 <= j < |requests| && storage(requests[j]).Stored? {
        var j :| 0 <= j < |requests| && storage(requests[j]).Stored?;
        if j > 0 {
          assert requests[1..][j - 1] == requests[j];
        }
      }
      if exists j :: 0 <= j < |requests[1..]| && storage(requests[1..][j]).Stored? {
        var j :| 0 <= j < |requests[1..]| && storage(requests[1..][j]).Stored?;
        assert requests[1..][j] == requests[j + 1];
      }
    }
  }

  /** There is one row per upload that storage stored, and none for an upload it refused. */
  lemma {:induction false} RowsCountStoredUploads(submissionId: string, slots: seq<Slot>, storage: Storage)
    ensures var t := TransferOf(submissionId, slots, storage);
            |t.rows| == StoredCount(t.attempted, storage)
  {
    if slots != [] {
      RowsCountStoredUploads(submissionId, slots[1..], storage);
      var rest := TransferOf(submissionId, slots[1..], storage);
      var step := SlotStep(submissionId, slots[0], storage);
      if step.Attempt? {
        var attempted := [step.request] + rest.attempted;
        assert attempted[1..] == rest.attempted;
        assert step.row.Some? <==> storage(step.request).Stored?;
        assert TransferOf(submissionId, slots, storage).attempted == attempted;
      }
    }
  }

  /** The slots of the file fields: each names its field and its 0-based position there, null parts included. */
  lemma {:induction false} SlotsAreListPositions(files: FileFields)
    ensures forall s :: s in Slots(files) ==>
              exists f :: 0 <= f < |files| && s.fieldName == files[f].0 &&
                s.index < |FileList(files[f].1)| && s.part == FileList(files[f].1)[s.index]
  {
    if files != [] {
      SlotsAreListPositions(files[1..]);
      forall s | s in Slots(files)
        ensures exists f :: 0 <= f < |files| && s.fieldName == files[f].0 &&
                  s.index < |FileList(files[f].1)| && s.part == FileList(files[f].1)[s.index]
      {
        if s in FieldSlots(files[0].0, FileList(files[0].1)) {
          assert s.fieldName == files[0].0;
        } else {
          assert s in Slots(files[1..]);
          var f :| 0 <= f < |files[1..]| && s.fieldName == files[1..][f].0 &&
                   s.index < |FileList(files[1..][f].1)| && s.part == FileList(files[1..][f].1)[s.index];
          assert files[1..][f] == files[f + 1];
        }
      }
    }
  }

  /** Conversely, every position of every field's list is visited, null parts included. */
  lemma {:induction false} ListPositionsAreSlots(files: FileFields)
    ensures forall f, j :: 0 <= f < |files| && 0 <= j < |FileList(files[f].1)| ==>
              Slot(files[f].0, j, FileList(files[f].1)[j]) in Slots(files)
  {
    if files != [] {
      ListPositionsAreSlots(files[1..]);
      forall f, j | 0 <= f < |files| && 0 <= j < |FileList(files[f].1)|
        ensures Slot(files[f].0, j, FileList(files[f].1)[j]) in Slots(files)
      {
        if f == 0 {
          var first := FieldSlots(files[0].0, FileList(files[0].1));
          assert first[j] == Slot(files[0].0, j, FileList(files[0].1)[j]);
          assert first[j] in first;
        } else {
          assert files[1..][f - 1] == files[f];
          assert Slot(files[f].0, j, FileList(files[f].1)[j]) in Slots(files[1..]);
        }
      }
    }
  }

  /** `request` is the upload the loop issues for `slot`. */
  ghost predicate IssuedFor(submissionId: string, slot: Slot, storage: Storage, request: UploadRequest) {
    var step := SlotStep(submissionId, slot, storage);
    step.Attempt? && step.request == request
  }

  /** An issued upload's key is the slot's key: its field, its 1-based position, its file's extension. */
  lemma IssuedKey(submissionId: string, slot: Slot, storage: Storage, request: UploadRequest)
    requires IssuedFor(submissionId, slot, storage, request)
    ensures slot.part.Some? && slot.part.value.originalFilename.Some?
    ensures request.key == StorageKey(submissionId, slot.fieldName, slot.index + 1,
                                      Extension(slot.part.value.originalFilename.value))
  {
  }

  /** `request` is issued for some slot of `slots`. */
  ghost predicate IssuedForSome(submissionId: string, slots: seq<Slot>, storage: Storage, request: UploadRequest) {
    exists k :: 0 <= k < |slots| && IssuedFor(submissionId, slots[k], storage, request)
  }

  /** Every upload the loop issues is issued for one of the visited slots. */
  lemma {:induction false} UploadsComeFromSlots(submissionId: string, slots: seq<Slot>, storage: Storage)
    ensures forall j :: 0 <= j < |TransferOf(submissionId, slots, storage).attempted| ==>
              IssuedForSome(submissionId, slots, storage, TransferOf(submissionId, slots, storage).attempted[j])
  {
    if slots != [] {
      UploadsComeFromSlots(submissionId, slots[1..], storage);
      var rest := TransferOf(submissionId, slots[1..], storage).attempted;
      var attempted := TransferOf(submissionId, slots, storage).attempted;
      var step := SlotStep(submissionId, slots[0], storage);
      if !step.Throw? {
        var mine := if step.Attempt? then [step.request] else [];
        assert attempted == mine + rest;
        assert mine != [] ==> IssuedFor(submissionId, slots[0], storage, mine[0]);
        forall j | |mine| <= j < |attempted|
          ensures IssuedForSome(submissionId, slots, storage, attempted[j])
        {
          var request := rest[j - |mine|];
          assert attempted[j] == request;
          var k :| 0 <= k < |slots[1..]| && IssuedFor(submissionId, slots[1..][k], storage, request);
          assert slots[1..][k] == slots[k + 1];
        }
      }
    }
  }

  /** No two slots share a field name and a position. */
  ghost predicate DistinctPositions(slots: seq<Slot>) {
    forall i, j :: 0 <= i < j < |slots| ==>
      slots[i].fieldName != slots[j].fieldName || slots[i].index != slots[j].index
  }

  /** Slots at different positions of one submission never get the same key. */
  lemma DifferentSlotsDifferentKeys(submissionId: string, s1: Slot, r1: UploadRequest, s2: Slot, r2: UploadRequest,
                                    storage: Storage)
    requires IssuedFor(submissionId, s1, storage, r1) && IssuedFor(submissionId, s2, storage, r2)
    requires s1.fieldName != s2.fieldName || s1.index != s2.index
    ensures r1.key != r2.key
  {
    IssuedKey(submissionId, s1, storage, r1);
    IssuedKey(submissionId, s2, storage, r2);
    DistinctPositionsDistinctKeys(submissionId, s1.fieldName, s1.index, s1.part.value.originalFilename.value,
                                  s2.fieldName, s2.index, s2.part.value.originalFilename.value);
  }

  /** No two uploads go to the same key. */
  ghost predicate DistinctKeys(requests: seq<UploadRequest>) {
    forall i, j :: 0 <= i < j < |requests| ==> requests[i].key != requests[j].key
  }

  /** When the slots have distinct positions, every upload of the loop goes to its own key. */
  lemma {:induction false} UploadKeysDistinct(submissionId: string, slots: seq<Slot>, storage: Storage)
    requires DistinctPositions(slots)
    ensures DistinctKeys(TransferOf(submissionId, slots, storage).attempted)
  {
    if slots != [] {
      var tail := slots[1..];
      assert DistinctPositions(tail) by {
        forall i, j | 0 <= i < j < |tail|
          ensures tail[i].fieldName != tail[j].fieldName || tail[i].index != tail[j].index
        {
          assert tail[i] == slots[i + 1] && tail[j] == slots[j + 1];
        }
      }
      UploadKeysDistinct(submissionId, tail, storage);
      var rest := TransferOf(submissionId, tail, storage).attempted;
      var step := SlotStep(submissionId, slots[0], storage);
      if step.Attempt? {
        HeadKeyFresh(submissionId, slots, storage);
        assert TransferOf(submissionId, slots, storage).attempted == [step.request] + rest;
        DistinctKeysCons(step.request, rest);
      } else if step.Skip? {
        assert TransferOf(submissionId, slots, storage).attempted == rest;
      }
    }
  }

  /** None of `requests` goes to `key`. */
  ghost predicate KeyUnused(requests: seq<UploadRequest>, key: string) {
    forall j :: 0 <= j < |requests| ==> requests[j].key != key
  }

  /** Prepending an upload whose key none of the others uses keeps the keys distinct. */
  lemma DistinctKeysCons(request: UploadRequest, rest: seq<UploadRequest>)
    requires DistinctKeys(rest)
    requires KeyUnused(rest, request.key)
    ensures DistinctKeys([request] + rest)
  {
    var all := [request] + rest;
    forall i, j | 0 <= i < j < |all| ensures all[i].key != all[j].key {
      assert all[j] == rest[j - 1];
      if i > 0 {
        assert all[i] == rest[i - 1];
      }
    }
  }

  /** The upload issued for the first slot goes to a key no later slot's upload uses. */
  lemma HeadKeyFresh(submissionId: string, slots: seq<Slot>, storage: Storage)
    requires slots != [] && DistinctPositions(slots)
    requires SlotStep(submissionId, slots[0], storage).Attempt?
    ensures KeyUnused(TransferOf(submissionId, slots[1..], storage).attempted,
                      SlotStep(submissionId, slots[0], storage).request.key)
  {
    var tail := slots[1..];
    var request := SlotStep(submissionId, slots[0], storage).request;
    var rest := TransferOf(submissionId, tail, storage).attempted;
    UploadsComeFromSlots(submissionId, tail, storage);
    forall j | 0 <= j < |rest| ensures rest[j].key != request.key {
      assert IssuedForSome(submissionId, tail, storage, rest[j]);
      var k :| 0 <= k < |tail| && IssuedFor(submissionId, tail[k], storage, rest[j]);
      assert tail[k] == slots[k + 1];
      assert slots[0].fieldName != slots[k + 1].fieldName || slots[0].index != slots[k + 1].index;
      DifferentSlotsDifferentKeys(submissionId, slots[0], request, slots[k + 1], rest[j], storage);
    }
  }

  /**
   * The file fields of a request have distinct names (they are the keys
   * of one object), so their slots have distinct positions.
   */
  lemma {:induction false} FieldsGiveDistinctPositions(files: FileFields)
    requires forall a, b :: 0 <= a < b < |files| ==> files[a].0 != files[b].0
    ensures DistinctPositions(Slots(files))
  {
    if files != [] {
      var tail := files[1..];
      assert forall a, b :: 0 <= a < b < |tail| ==> tail[a].0 != tail[b].0 by {
        forall a, b | 0 <= a < b < |tail| ensures tail[a].0 != tail[b].0 {
          assert tail[a] == files[a + 1] && tail[b] == files[b + 1];
        }
      }
      FieldsGiveDistinctPositions(tail);
      SlotsAreListPositions(tail);
      var head := FieldSlots(files[0].0, FileList(files[0].1));
      var later := Slots(tail);
      var all := Slots(files);
      assert all == head + later;
      forall i, j | 0 <= i < j < |all|
        ensures all[i].fieldName != all[j].fieldName || all[i].index != all[j].index
      {
        if j < |head| {
          assert all[i] == head[i] && all[j] == head[j];
        } else if i >= |head| {
          assert all[i] == later[i - |head|] && all[j] == later[j - |head|];
        } else {
          assert all[i] == head[i] && all[j] == later[j - |head|];
          assert later[j - |head|] in later;
          var f :| 0 <= f < |tail| && later[j - |head|].fieldName == tail[f].0 &&
                   later[j - |head|].index < |FileList(tail[f].1)| &&
                   later[j - |head|].part == FileList(tail[f].1)[later[j - |head|].index];
          assert tail[f] == files[f + 1];
        }
      }
    }
  }

  /** No two uploads of one request share a key, so no upload overwrites another of the same submission. */
  lemma UploadKeysNeverCollide(submissionId: string, files: FileFields, storage: Storage)
    requires forall a, b :: 0 <= a < b < |files| ==> files[a].0 != files[b].0
    ensures var attempted := TransferOf(submissionId, Slots(files), storage).attempted;
            forall i, j :: 0 <= i < j < |attempted| ==> attempted[i].key != attempted[j].key
  {
    FieldsGiveDistinctPositions(files);
    UploadKeysDistinct(submissionId, Slots(files), storage);
  }
}
