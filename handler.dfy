/**
 * The upload endpoint's decision path, as a total function of the request
 * and of the outcomes of the services it calls: the method check, the
 * multipart parse, the submission insert, the file transfer loop and the
 * file-row insert. What the endpoint answers, and which service calls it
 * makes, follow from those outcomes alone.
 */
module Handler {
  import opened Wrappers
  import opened Fields
  import opened Transfer

  /** What the multipart parser produced: the text fields and the file fields, or its error. */
  datatype ParseOutcome = Parsed(fields: FieldMap, files: FileFields) | ParseFailed(message: string)

  /** An incoming request: its HTTP method and what parsing its body gives. */
  datatype Request = Request(httpMethod: string, body: ParseOutcome)

  /** What a table insert answers: success, or an error with its message. */
  datatype DbOutcome = DbOk | DbError(message: string)

  /**
   * Everything the handler draws from outside: the identifier `uuidv4()`
   * returns, the time the clock gives, and the answers of the two inserts
   * and of storage.
   */
  datatype Services = Services(
    submissionId: string,
    createdAt: string,
    insertSubmission: DbOutcome,
    storage: Storage,
    insertFiles: DbOutcome)

  /** The JSON body: `{message}` for a refused method, `{success: false, message}`, or `{success: true, submissionId, message}`. */
  datatype Body = MessageOnly(message: string) | Failure(message: string) | Success(submissionId: string, message: string)

  datatype Response = Response(status: nat, body: Body)

  /** One run of the handler: its response and the writes it issued, in order. */
  datatype Run = Run(
    response: Response,
    submissionWrite: Option<Submission>,   // the record handed to the `submissions` insert, if any
    uploads: seq<UploadRequest>,           // the uploads handed to storage
    filesWrite: Option<seq<FileRow>>)      // the rows handed to the `uploaded_files` insert, if any

  const MethodNotAllowed: string := "Method not allowed"
  const FallbackMessage: string := "Upload failed. Please try again."
  const SuccessMessage: string := "Upload successful! You will receive an email confirmation shortly."
  const DatabaseErrorPrefix: string := "Database error: "

  /** `error.message || 'Upload failed. Please try again.'`: the empty message is the only falsy one. */
  function ErrorMessage(message: string): (r: string)
    ensures r != ""
    ensures message != "" ==> r == message
    ensures message == "" ==> r == FallbackMessage
  {
    if message == "" then FallbackMessage else message
  }

  /** The `catch` block's answer. */
  function Failed(message: string): (r: Response)
    ensures r.status == 500 && r.body.Failure? && r.body.message != ""
    ensures message != "" ==> r.body.message == message
    ensures message == "" ==> r.body.message == FallbackMessage
  {
    Response(500, Failure(ErrorMessage(message)))
  }

  /** The handler. The outcome of the file-row insert is only logged, so the answer never depends on it. */
  function Handle(req: Request, services: Services): Run {
    if req.httpMethod != "POST" then
      Run(Response(405, MessageOnly(MethodNotAllowed)), None, [], None)
    else
      match req.body
      case ParseFailed(m) => Run(Failed(m), None, [], None)
      case Parsed(fields, files) =>
        var record := BuildSubmission(fields, services.submissionId, services.createdAt);
        match services.insertSubmission
        case DbError(m) => Run(Failed(DatabaseErrorPrefix + m), Some(record), [], None)
        case DbOk =>
          var t := TransferOf(services.submissionId, Slots(files), services.storage);
          if t.thrown.Some? then
            Run(Failed(t.thrown.value), Some(record), t.attempted, None)
          else
            Run(Response(200, Success(services.submissionId, SuccessMessage)),
                Some(record), t.attempted, if |t.rows| > 0 then Some(t.rows) else None)
  }

  /**
   * The handler as the endpoint runs it, one awaited step after the other;
   * an error thrown by a step is caught at the end and answered with 500.
   */
  method HandleRequest(req: Request, services: Services) returns (run: Run)
    ensures run == Handle(req, services)
  {
    if req.httpMethod != "POST" {
      return Run(Response(405, MessageOnly(MethodNotAllowed)), None, [], None);
    }
    if req.body.ParseFailed? {
      return Run(Failed(req.body.message), None, [], None);
    }
    var fields, files := req.body.fields, req.body.files;
    var submissionId := services.submissionId;
    var formData := BuildSubmission(fields, submissionId, services.createdAt);
    var dbResult := services.insertSubmission;
    if dbResult.DbError? {
      return Run(Failed(DatabaseErrorPrefix + dbResult.message), Some(formData), [], None);
    }
    var transfer := TransferFiles(submissionId, files, services.storage);
    if transfer.thrown.Some? {
      return Run(Failed(transfer.thrown.value), Some(formData), transfer.attempted, None);
    }
    var uploadedFiles := transfer.rows;
    var filesWrite: Option<seq<FileRow>> := None;
    if |uploadedFiles| > 0 {
      filesWrite := Some(uploadedFiles);
      // services.insertFiles is only logged when it is an error
    }
    run := Run(Response(200, Success(submissionId, SuccessMessage)), Some(formData), transfer.attempted, filesWrite);
  }
}

/** What the handler promises, stated over `Handle`. */
module HandlerFacts {
  import opened Wrappers
  import opened Fields
  import opened Transfer
  import opened TransferFacts
  import opened Handler

  /** A request with any method but POST is refused with 405 before anything else happens. */
  lemma NonPostRefused(req: Request, services: Services)
    requires req.httpMethod != "POST"
    ensures Handle(req, services) == Run(Response(405, MessageOnly("Method not allowed")), None, [], None)
  {
  }

  /** A parse error is answered with 500 and its message (or the fallback), and nothing is written. */
  lemma ParseErrorAnswered(req: Request, services: Services)
    requires req.httpMethod == "POST" && req.body.ParseFailed?
    ensures var run := Handle(req, services);
            && run.response.status == 500
            && run.response.body == Failure(if req.body.message == "" then FallbackMessage else req.body.message)
            && run.submissionWrite.None? && run.uploads == [] && run.filesWrite.None?
  {
  }

  /** A failed submission insert is answered with 500 and a "Database error: " message, and no file is processed. */
  lemma DatabaseErrorAborts(req: Request, services: Services)
    requires req.httpMethod == "POST" && req.body.Parsed? && services.insertSubmission.DbError?
    ensures var run := Handle(req, services);
            && run.response.status == 500
            && run.response.body.Failure?
            && run.response.body.message == "Database error: " + services.insertSubmission.message
            && run.uploads == [] && run.filesWrite.None?
  {
  }

  /**
   * 200 is answered exactly for a parsed POST whose submission insert
   * succeeded and all of whose present file parts have a name; 405 exactly
   * for another method; 500 otherwise.
   */
  lemma StatusDecision(req: Request, services: Services)
    ensures var status := Handle(req, services).response.status;
            && (status == 405 <==> req.httpMethod != "POST")
            && (status == 200 <==>
                  req.httpMethod == "POST" && req.body.Parsed? && services.insertSubmission.DbOk?
                  && AllNamed(Slots(req.body.files)))
            && (status == 405 || status == 200 || status == 500)
  {
    if req.httpMethod == "POST" && req.body.Parsed? && services.insertSubmission.DbOk? {
      RunsToEndIffAllNamed(services.submissionId, Slots(req.body.files), services.storage);
    }
  }

  /** Every 500 answer carries a non-empty message; the fallback replaces only an empty one. */
  lemma FailureMessageNonEmpty(req: Request, services: Services)
    ensures var body := Handle(req, services).response.body;
            body.Failure? ==> body.message != ""
  {
  }

  /** A successful answer names the identifier the stored record carries, and that record is pending. */
  lemma SuccessNamesStoredRecord(req: Request, services: Services)
    ensures var run := Handle(req, services);
            run.response.status == 200 ==>
              && run.response.body == Success(services.submissionId, SuccessMessage)
              && run.submissionWrite.Some?
              && run.submissionWrite.value.id == services.submissionId
              && run.submissionWrite.value.status == "pending"
  {
  }

  /**
   * The file-row insert is issued only after the submission insert, only
   * with at least one row, and only with rows that reference the
   * submission's identifier; on a successful run it is issued exactly when
   * some upload succeeded.
   */
  lemma {:induction false} FilesWrittenAfterSubmission(req: Request, services: Services)
    ensures var run := Handle(req, services);
            run.filesWrite.Some? ==>
              && run.submissionWrite.Some?
              && |run.filesWrite.value| > 0
              && forall j :: 0 <= j < |run.filesWrite.value| ==>
                   run.filesWrite.value[j].submissionId == run.submissionWrite.value.id
    ensures var run := Handle(req, services);
            run.response.status == 200 ==>
              (run.filesWrite.Some? <==>
                 exists j :: 0 <= j < |run.uploads| && services.storage(run.uploads[j]).Stored?)
  {
    if req.httpMethod == "POST" && req.body.Parsed? && services.insertSubmission.DbOk? {
      RowsComeFromStoredUploads(services.submissionId, Slots(req.body.files), services.storage);
      RowsCountStoredUploads(services.submissionId, Slots(req.body.files), services.storage);
      StoredCountPositive(Handle(req, services).uploads, services.storage);
    }
  }

  /**
   * The outcome of the file-row insert changes nothing the handler does.
   * An error there is only logged, so `Handle` never reads
   * `services.insertFiles`; this lemma records that reading rather than
   * proving anything about a separate code path.
   */
  lemma FilesInsertErrorIgnored(req: Request, services: Services, other: DbOutcome)
    ensures Handle(req, services.(insertFiles := other)) == Handle(req, services)
  {
  }
}
