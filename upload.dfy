/** The upload form: the validation schema of its four fields, the form resolver that
    turns a schema failure into a field-error map, and the record saved for a new
    upload. */
module Upload {
  import opened JsText
  import opened Records

  /** What the form needs of a browser `File`. */
  datatype FileInfo = FileInfo(name: string, size: nat, mimeType: string)

  /** 20 MiB, the largest accepted upload. */
  const MaxUploadBytes: nat := 20 * 1024 * 1024

  /** The accepted MIME types, exactly. */
  const ValidTypes: seq<string> := ["application/pdf", "image/jpeg", "image/jpg", "image/png", "image/webp"]

  /** The raw form values; `file` is `None` when the field does not hold a `File`. */
  datatype FormValues = FormValues(
    companyName: string,
    jobTitle: string,
    jobDescription: string,
    file: Option<FileInfo>)

  /** The values once the schema accepted them. */
  datatype UploadData = UploadData(
    companyName: string,
    jobTitle: string,
    jobDescription: string,
    file: FileInfo)

  /** One schema issue: the path of the field and the message of the failed rule. */
  datatype Issue = Issue(path: seq<string>, message: string)

  /** The upload rules stated field by field. */
  predicate ValidForm(v: FormValues) {
    && v.companyName != ""
    && v.jobTitle != ""
    && |v.jobDescription| >= 10
    && v.file.Some?
    && v.file.value.size <= MaxUploadBytes
    && v.file.value.mimeType in ValidTypes
  }

  /** The issues of the `file` field: a value that is not a `File` fails the `instanceof`
      check and stops there; a `File` is checked for size and then for type, and both
      refinements report. */
  function FileIssues(f: Option<FileInfo>): (issues: seq<Issue>)
    ensures forall i :: 0 <= i < |issues| ==> issues[i].path == ["file"]
    ensures issues == [] <==> f.Some? && f.value.size <= MaxUploadBytes && f.value.mimeType in ValidTypes
  {
    match f
    case None => [Issue(["file"], "Please upload a file")]
    case Some(file) =>
      (if file.size <= MaxUploadBytes then [] else [Issue(["file"], "File size must be less than 20MB")]) +
      (if file.mimeType in ValidTypes then [] else [Issue(["file"], "File must be a PDF or image (JPEG, PNG, WebP)")])
  }

  /** The issues `uploadSchema.parse` reports, in the order of the schema's fields. */
  function SchemaIssues(v: FormValues): (issues: seq<Issue>)
    ensures forall i :: 0 <= i < |issues| ==> |issues[i].path| == 1 && issues[i].path[0] in Fields
  {
    TextIssues("companyName", v.companyName, 1, "Company name is required") +
    TextIssues("jobTitle", v.jobTitle, 1, "Job title is required") +
    TextIssues("jobDescription", v.jobDescription, 10, "Job description must be at least 10 characters") +
    FileIssues(v.file)
  }

  /** The schema reports no issue exactly when the form satisfies every rule. */
  lemma SchemaAcceptsIff(v: FormValues)
    ensures SchemaIssues(v) == [] <==> ValidForm(v)
  {
  }

  /** Some issue of `issues` is on path `p`. */
  predicate HasIssueAt(issues: seq<Issue>, p: seq<string>) {
    exists i :: 0 <= i < |issues| && issues[i].path == p
  }

  lemma HasIssueAtConcat(x: seq<Issue>, y: seq<Issue>, p: seq<string>)
    ensures HasIssueAt(x + y, p) <==> HasIssueAt(x, p) || HasIssueAt(y, p)
  {
    if HasIssueAt(x + y, p) {
      var i :| 0 <= i < |x + y| && (x + y)[i].path == p;
      if i >= |x| {
        assert y[i - |x|].path == p;
      } else {
        assert x[i].path == p;
      }
    }
    if HasIssueAt(x, p) {
      var i :| 0 <= i < |x| && x[i].path == p;
      assert (x + y)[i].path == p;
    }
    if HasIssueAt(y, p) {
      var i :| 0 <= i < |y| && y[i].path == p;
      assert (x + y)[|x| + i].path == p;
    }
  }

  /** In a list whose issues are all on path `q`, an issue is on `p` exactly when the
      list is non-empty and `p` is `q`. */
  lemma HasIssueAtUniform(x: seq<Issue>, q: seq<string>, p: seq<string>)
    requires forall i :: 0 <= i < |x| ==> x[i].path == q
    ensures HasIssueAt(x, p) <==> x != [] && p == q
  {
    if x != [] && p == q {
      assert x[0].path == p;
    }
  }

  /** The issues of one text field: a single issue on its path when it is too short. */
  function TextIssues(field: string, value: string, min: nat, message: string): (issues: seq<Issue>)
    ensures forall i :: 0 <= i < |issues| ==> issues[i].path == [field]
    ensures issues == [] <==> |value| >= min
  {
    if |value| >= min then [] else [Issue([field], message)]
  }

  /** The names of the form's fields. */
  const Fields: set<string> := {"companyName", "jobTitle", "jobDescription", "file"}

  /** The rule of the named field fails. */
  predicate FieldFails(v: FormValues, field: string) {
    || (field == "companyName" && v.companyName == "")
    || (field == "jobTitle" && v.jobTitle == "")
    || (field == "jobDescription" && |v.jobDescription| < 10)
    || (field == "file" &&
        !(v.file.Some? && v.file.value.size <= MaxUploadBytes && v.file.value.mimeType in ValidTypes))
  }

  /** A field has an issue exactly when its own rule fails. */
  lemma FieldIssueIff(v: FormValues, field: string)
    requires field in Fields
    ensures HasIssueAt(SchemaIssues(v), [field]) <==> FieldFails(v, field)
  {
    var a := TextIssues("companyName", v.companyName, 1, "Company name is required");
    var b := TextIssues("jobTitle", v.jobTitle, 1, "Job title is required");
    var c := TextIssues("jobDescription", v.jobDescription, 10, "Job description must be at least 10 characters");
    var d := FileIssues(v.file);
    var p := [field];
    HasIssueAtConcat(a + b + c, d, p);
    HasIssueAtConcat(a + b, c, p);
    HasIssueAtConcat(a, b, p);
    HasIssueAtUniform(a, ["companyName"], p);
    HasIssueAtUniform(b, ["jobTitle"], p);
    HasIssueAtUniform(c, ["jobDescription"], p);
    HasIssueAtUniform(d, ["file"], p);
    assert p == ["companyName"] <==> field == "companyName";
    assert p == ["jobTitle"] <==> field == "jobTitle";
    assert p == ["jobDescription"] <==> field == "jobDescription";
    assert p == ["file"] <==> field == "file";
  }

  /** The error map of the schema has a key for a field exactly when that field's rule
      fails. */
  lemma SchemaErrorKeys(v: FormValues, field: string)
    requires field in Fields
    ensures field in ErrorMap(SchemaIssues(v)) <==> FieldFails(v, field)
  {
    var issues := SchemaIssues(v);
    ErrorMapKeys(issues);
    FieldIssueIff(v, field);
    JoinPathsOfSchema(v);
    if field in ErrorMap(issues) {
      var i :| 0 <= i < |issues| && JoinPath(issues[i].path) == field;
      assert issues[i].path == [field];
    }
    if HasIssueAt(issues, [field]) {
      var i :| 0 <= i < |issues| && issues[i].path == [field];
      assert JoinPath(issues[i].path) == field;
    }
  }

  /** The form is valid exactly when no field's rule fails. */
  lemma ValidIffNoFieldFails(v: FormValues)
    ensures ValidForm(v) <==> forall field :: field in Fields ==> !FieldFails(v, field)
  {
    if !ValidForm(v) {
      if v.companyName == "" {
        assert FieldFails(v, "companyName");
      } else if v.jobTitle == "" {
        assert FieldFails(v, "jobTitle");
      } else if |v.jobDescription| < 10 {
        assert FieldFails(v, "jobDescription");
      } else {
        assert FieldFails(v, "file");
      }
    }
  }

  /** When the file field fails, its entry carries the message of the last of its
      failing rules: a missing file, else a wrong type (even when the file is also too
      large), else the size. */
  lemma FileErrorMessage(v: FormValues)
    requires FieldFails(v, "file")
    ensures "file" in ErrorMap(SchemaIssues(v))
    ensures ErrorMap(SchemaIssues(v))["file"].message ==
      if v.file.None? then "Please upload a file"
      else if v.file.value.mimeType !in ValidTypes then "File must be a PDF or image (JPEG, PNG, WebP)"
      else "File size must be less than 20MB"
  {
    var issues := SchemaIssues(v);
    var d := FileIssues(v.file);
    assert d != [];
    assert issues[|issues| - 1] == d[|d| - 1];
    ErrorMapLastWins(issues, |issues| - 1);
  }

  /** The outcome of `uploadSchema.parse`: accepted values, a `ZodError` with its issues,
      or any other exception. */
  datatype ParseOutcome = Parsed(data: UploadData) | ZodFailure(issues: seq<Issue>) | Thrown

  /** `uploadSchema.parse(values)`; the modelled schema never throws anything but a
      `ZodError`, and that only with at least one issue. */
  function SchemaParse(v: FormValues): (o: ParseOutcome)
    ensures o.Parsed? <==> ValidForm(v)
    ensures o.Parsed? ==> o.data == UploadData(v.companyName, v.jobTitle, v.jobDescription, v.file.value)
    ensures o.ZodFailure? ==> o.issues != [] && o.issues == SchemaIssues(v)
    ensures !o.Thrown?
  {
    var issues := SchemaIssues(v);
    SchemaAcceptsIff(v);
    if issues == [] then Parsed(UploadData(v.companyName, v.jobTitle, v.jobDescription, v.file.value))
    else ZodFailure(issues)
  }

  /** `issue.path.join('.')`. */
  function JoinPath(path: seq<string>): (key: string)
    ensures |path| == 1 ==> key == path[0]
  {
    if path == [] then ""
    else if |path| == 1 then path[0]
    else path[0] + "." + JoinPath(path[1..])
  }

  datatype FieldError = FieldError(kind: string, message: string)

  /** The error map the resolver builds: every issue in turn writes its entry under its
      joined path, so a later issue on the same path overwrites an earlier one. */
  function ErrorMap(issues: seq<Issue>): (m: map<string, FieldError>)
    ensures m == map[] <==> issues == []
    ensures forall k :: k in m ==> m[k].kind == "validation"
  {
    if issues == [] then map[]
    else
      var last := issues[|issues| - 1];
      var m := ErrorMap(issues[..|issues| - 1])[JoinPath(last.path) := FieldError("validation", last.message)];
      assert JoinPath(last.path) in m;
      m
  }

  /** The keys of the error map are exactly the joined paths of the issues. */
  lemma {:induction false} ErrorMapKeys(issues: seq<Issue>)
    ensures ErrorMap(issues).Keys == set i | 0 <= i < |issues| :: JoinPath(issues[i].path)
  {
    if issues != [] {
      var init := issues[..|issues| - 1];
      ErrorMapKeys(init);
      assert forall i :: 0 <= i < |init| ==> init[i] == issues[i];
    }
  }

  /** The entry under a path is the message of the last issue on that path. */
  lemma {:induction false} ErrorMapLastWins(issues: seq<Issue>, i: nat)
    requires i < |issues|
    requires forall j :: i < j < |issues| ==> JoinPath(issues[j].path) != JoinPath(issues[i].path)
    ensures JoinPath(issues[i].path) in ErrorMap(issues)
    ensures ErrorMap(issues)[JoinPath(issues[i].path)] == FieldError("validation", issues[i].message)
  {
    if i < |issues| - 1 {
      var init := issues[..|issues| - 1];
      ErrorMapLastWins(init, i);
    }
  }

  /** The `forEach` of the resolver, filling `fieldErrors` one issue at a time. */
  method BuildFieldErrors(issues: seq<Issue>) returns (fieldErrors: map<string, FieldError>)
    ensures fieldErrors == ErrorMap(issues)
  {
    fieldErrors := map[];
    for n := 0 to |issues|
      invariant fieldErrors == ErrorMap(issues[..n])
    {
      assert issues[..n + 1][..n] == issues[..n];
      var issue := issues[n];
      var path := JoinPath(issue.path);
      fieldErrors := fieldErrors[path := FieldError("validation", issue.message)];
    }
    assert issues[..|issues|] == issues;
  }

  /** The resolver's answer: validated values, or `{}` as `None`, and the error map. */
  datatype ResolverResult = ResolverResult(values: Option<UploadData>, errors: map<string, FieldError>)

  /** The `try`/`catch` of the resolver over the outcome of the parse. */
  method ResolveOutcome(o: ParseOutcome) returns (r: ResolverResult)
    ensures o.Parsed? ==> r == ResolverResult(Some(o.data), map[])
    ensures o.ZodFailure? ==> r == ResolverResult(None, ErrorMap(o.issues))
    ensures o.Thrown? ==> r == ResolverResult(None, map[])
  {
    match o
    case Parsed(data) =>
      r := ResolverResult(Some(data), map[]);
    case ZodFailure(issues) =>
      var fieldErrors := BuildFieldErrors(issues);
      r := ResolverResult(None, fieldErrors);
    case Thrown =>
      r := ResolverResult(None, map[]);
  }

  /** The form resolver: valid values come back with no errors; otherwise no values and
      one entry per failing field, keyed by the field's name. */
  method Resolver(v: FormValues) returns (r: ResolverResult)
    ensures r.values.Some? <==> ValidForm(v)
    ensures ValidForm(v) ==>
      (r.errors == map[] && r.values.value == UploadData(v.companyName, v.jobTitle, v.jobDescription, v.file.value))
    ensures !ValidForm(v) ==> r.errors == ErrorMap(SchemaIssues(v)) && r.errors != map[]
    ensures forall field :: field in Fields ==> (field in r.errors <==> FieldFails(v, field))
  {
    var o := SchemaParse(v);
    r := ResolveOutcome(o);
    forall field | field in Fields
      ensures field in r.errors <==> FieldFails(v, field)
    {
      SchemaErrorKeys(v, field);
    }
  }

  /** Every issue of the schema is on a one-segment path, so its key is the field name. */
  lemma JoinPathsOfSchema(v: FormValues)
    ensures forall i :: 0 <= i < |SchemaIssues(v)| ==>
      |SchemaIssues(v)[i].path| == 1 && JoinPath(SchemaIssues(v)[i].path) == SchemaIssues(v)[i].path[0]
  {
    var issues := SchemaIssues(v);
    forall i | 0 <= i < |issues|
      ensures |issues[i].path| == 1
    {
    }
  }

  /** The record `handleAnalyze` writes under `resume:<uuid>` after the upload. A PDF gets
      the path of its rendered first page as image; any other file is its own image. */
  function NewRecord(uuid: string, data: UploadData, uploadedPath: string, renderedImagePath: string): (r: Resume)
    ensures r.id == uuid && r.resumePath == uploadedPath
    ensures data.file.mimeType == "application/pdf" ==> r.imagePath == renderedImagePath
    ensures data.file.mimeType != "application/pdf" ==> r.imagePath == r.resumePath
    ensures r.feedback == ""
    ensures r.companyName == data.companyName && r.jobTitle == data.jobTitle &&
            r.jobDescription == data.jobDescription
  {
    var imagePath := if data.file.mimeType == "application/pdf" then renderedImagePath else uploadedPath;
    Resume(uuid, uploadedPath, imagePath, data.companyName, data.jobTitle, data.jobDescription, "")
  }
}
