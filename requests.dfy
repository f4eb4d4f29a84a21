/**
 * The requests the file controller accepts and the validation rules it
 * applies to them before touching either store.
 */
module Requests {

  import opened Storage

  datatype Option<T> = None | Some(value: T)

  /**
   * An uploaded file: the name the client sent, its contents, and the
   * extension the framework guesses from the contents' MIME type.
   */
  datatype Upload = Upload(clientName: string, contents: Bytes, extension: string)

  /** The request fields of store and update; the file is optional in an update. */
  datatype Request = Request(file: Option<Upload>, uploader: string, category: string, date: string)

  /** The request fields a validation error can name. */
  datatype Field = FileField | UploaderField | CategoryField | DateField

  /** `max:255` on the descriptive fields. */
  const MaxFieldLength: nat := 255

  /** `max:10240` on the file: a limit in kilobytes of 1024 bytes. */
  const MaxFileKilobytes: nat := 10240

  /** The `mimes:` list of the store rules. */
  const AllowedExtensions: set<string> :=
    {"jpg", "jpeg", "png", "pdf", "doc", "docx", "xls", "xlsx", "ppt", "pptx"}

  /** `required|max:255`: present, non-empty, at most 255 characters. */
  predicate RequiredBoundedText(s: string) {
    0 < |s| <= MaxFieldLength
  }

  /** `max:10240` on a file: its size in kilobytes is at most the limit. */
  predicate WithinFileLimit(u: Upload) {
    |u.contents| <= MaxFileKilobytes * 1024
  }

  /** `required|date`, with date parsing supplied by the caller as `isDate`. */
  predicate RequiredDate(date: string, isDate: string -> bool) {
    0 < |date| && isDate(date)
  }

  /** The fields shared by both rule sets: uploader, category and date. */
  function DetailViolations(req: Request, isDate: string -> bool): (v: set<Field>)
    ensures FileField !in v
    ensures UploaderField in v <==> !RequiredBoundedText(req.uploader)
    ensures CategoryField in v <==> !RequiredBoundedText(req.category)
    ensures DateField in v <==> !RequiredDate(req.date, isDate)
  {
    (if RequiredBoundedText(req.uploader) then {} else {UploaderField}) +
    (if RequiredBoundedText(req.category) then {} else {CategoryField}) +
    (if RequiredDate(req.date, isDate) then {} else {DateField})
  }

  /**
   * The store rules: the file is required, must be of an allowed type and
   * within the size limit; uploader, category and date as above. Every
   * violated field is reported, not only the first.
   */
  function StoreViolations(req: Request, isDate: string -> bool): (v: set<Field>)
    ensures FileField !in v <==>
      req.file.Some? && req.file.value.extension in AllowedExtensions && WithinFileLimit(req.file.value)
    ensures UploaderField in v <==> !RequiredBoundedText(req.uploader)
    ensures CategoryField in v <==> !RequiredBoundedText(req.category)
    ensures DateField in v <==> !RequiredDate(req.date, isDate)
  {
    var fileOk := req.file.Some? && req.file.value.extension in AllowedExtensions && WithinFileLimit(req.file.value);
    DetailViolations(req, isDate) + (if fileOk then {} else {FileField})
  }

  /**
   * The update rules: the file is optional and, when present, only its
   * size is checked (no type allowlist); uploader, category and date as above.
   */
  function UpdateViolations(req: Request, isDate: string -> bool): (v: set<Field>)
    ensures FileField in v <==> req.file.Some? && !WithinFileLimit(req.file.value)
    ensures UploaderField in v <==> !RequiredBoundedText(req.uploader)
    ensures CategoryField in v <==> !RequiredBoundedText(req.category)
    ensures DateField in v <==> !RequiredDate(req.date, isDate)
  {
    DetailViolations(req, isDate) +
    (if req.file.Some? && !WithinFileLimit(req.file.value) then {FileField} else {})
  }

  /**
   * The update rules are weaker: whatever passes the store rules passes the
   * update rules; the converse fails only for a missing file or a file type
   * outside the allowlist.
   */
  lemma UpdateRulesWeaker(req: Request, isDate: string -> bool)
    ensures UpdateViolations(req, isDate) <= StoreViolations(req, isDate)
    ensures StoreViolations(req, isDate) - UpdateViolations(req, isDate) <= {FileField}
    ensures FileField in StoreViolations(req, isDate) - UpdateViolations(req, isDate) <==>
      req.file.None? || (WithinFileLimit(req.file.value) && req.file.value.extension !in AllowedExtensions)
  {
  }
}
