/**
 * The submission record builder: the form's text fields, each of which the
 * multipart parser hands over either as one value or as an array of
 * values, are reduced to one value each and stored with the generated
 * identifier, the creation time and the initial status.
 */
module Fields {
  import opened Wrappers

  /** A parsed text field: a bare value, or an array when the client sent the field several times. */
  datatype FieldValue = Scalar(text: string) | Multiple(texts: seq<string>)

  /** The parsed text fields by name; a name that is not a key was not sent. */
  type FieldMap = map<string, FieldValue>

  /** The status every new submission starts in; no transition out of it exists here. */
  const InitialStatus: string := "pending"

  /** The form field names the record is built from, in the order of its columns. */
  const FormFieldNames: seq<string> :=
    ["email", "orderNumber", "fullName", "vin", "make", "model", "year", "color"]

  /** `fields[name]`: the value under `name`, or nothing when the field was not sent. */
  function Lookup(fields: FieldMap, name: string): Option<FieldValue> {
    if name in fields then Some(fields[name]) else None
  }

  /**
   * `Array.isArray(v) ? v[0] : v`: the first element of an array, the value
   * itself otherwise; a missing field and an empty array give nothing.
   */
  function Normalize(v: Option<FieldValue>): (r: Option<string>)
    ensures r.None? <==> v.None? || v == Some(Multiple([]))
    ensures v.Some? && v.value.Scalar? ==> r == Some(v.value.text)
    ensures v.Some? && v.value.Multiple? && |v.value.texts| > 0 ==> r == Some(v.value.texts[0])
  {
    match v
    case None => None
    case Some(Scalar(t)) => Some(t)
    case Some(Multiple(ts)) => if |ts| == 0 then None else Some(ts[0])
  }

  /** One row of the `submissions` table. */
  datatype Submission = Submission(
    id: string,
    email: Option<string>,
    orderNumber: Option<string>,
    fullName: Option<string>,
    vin: Option<string>,
    make: Option<string>,
    model: Option<string>,
    year: Option<string>,
    color: Option<string>,
    createdAt: string,
    status: string)

  /** The column of `r` that the form field `name` fills. */
  function Column(r: Submission, name: string): Option<string>
    requires name in FormFieldNames
  {
    match name
    case "email" => r.email
    case "orderNumber" => r.orderNumber
    case "fullName" => r.fullName
    case "vin" => r.vin
    case "make" => r.make
    case "model" => r.model
    case "year" => r.year
    case "color" => r.color
  }

  /**
   * The record inserted into `submissions`. The identifier and the
   * timestamp, which the handler draws from `uuidv4()` and the clock, are
   * parameters.
   */
  function BuildSubmission(fields: FieldMap, submissionId: string, createdAt: string): (r: Submission)
    ensures r.id == submissionId && r.createdAt == createdAt
    ensures r.status == InitialStatus
    ensures forall name :: name in FormFieldNames ==> Column(r, name) == Normalize(Lookup(fields, name))
  {
    Submission(
      submissionId,
      Normalize(Lookup(fields, "email")),
      Normalize(Lookup(fields, "orderNumber")),
      Normalize(Lookup(fields, "fullName")),
      Normalize(Lookup(fields, "vin")),
      Normalize(Lookup(fields, "make")),
      Normalize(Lookup(fields, "model")),
      Normalize(Lookup(fields, "year")),
      Normalize(Lookup(fields, "color")),
      createdAt,
      InitialStatus)
  }

  /** Only the first element of an array is kept: a one-element array reads like the bare value. */
  lemma NormalizeKeepsFirst(t: string, rest: seq<string>)
    ensures Normalize(Some(Multiple([t] + rest))) == Normalize(Some(Scalar(t)))
    ensures Normalize(Some(Multiple([t]))) == Normalize(Some(Scalar(t)))
  {
  }

  /** A bare value turned into a one-element array. */
  function AsArray(v: FieldValue): FieldValue {
    match v
    case Scalar(t) => Multiple([t])
    case Multiple(ts) => v
  }

  /** Every field of `fields` sent as an array. */
  function AllAsArrays(fields: FieldMap): FieldMap {
    map name | name in fields :: AsArray(fields[name])
  }

  /** Whether each field arrives bare or as a one-element array does not change the stored record. */
  lemma RecordIgnoresArrayWrapping(fields: FieldMap, submissionId: string, createdAt: string)
    ensures BuildSubmission(AllAsArrays(fields), submissionId, createdAt)
         == BuildSubmission(fields, submissionId, createdAt)
  {
  }

  /** Fields outside the form's eight names never reach the record. */
  lemma OtherFieldsIgnored(fields: FieldMap, extra: FieldMap, submissionId: string, createdAt: string)
    requires forall name :: name in extra ==> name !in FormFieldNames
    ensures BuildSubmission(fields + extra, submissionId, createdAt)
         == BuildSubmission(fields, submissionId, createdAt)
  {
  }
}
