/** The request-body preparation of the talent routes: the POST and PUT
    handlers first copy the paths of uploaded files into the body, then
    replace the JSON-encoded nested fields by their parsed values.

    `JSON.parse` is a parameter: a partial function from strings to values,
    `None` where it throws. */
module TalentRoutes {
  import opened Wrappers

  /** A JavaScript value as it may appear in a request body or come out of
      `JSON.parse`. Numbers are modelled as integers: only whether a value is
      truthy matters here. */
  datatype Value =
    | Undefined
    | Null
    | Bool(b: bool)
    | Num(n: int)
    | Str(s: string)
    | Arr(items: seq<Value>)
    | Obj(fields: map<string, Value>)

  /** JavaScript truthiness. */
  predicate Truthy(v: Value) {
    match v
    case Undefined => false
    case Null => false
    case Bool(b) => b
    case Num(n) => n != 0
    case Str(s) => |s| > 0
    case Arr(_) => true
    case Obj(_) => true
  }

  /** A request body; a key that is not in the map reads as `undefined`. */
  type Body = map<string, Value>

  /** The uninterpreted `JSON.parse`: `None` where it throws. */
  type Parser = string -> Option<Value>

  /** The fields the form sends as JSON-encoded strings, in processing order. */
  const NestedFields: seq<string> :=
    ["address", "social", "topSkills", "tools", "experiences", "education", "certifications"]

  /** The upload fields, each holding at most one file. */
  const ProfileImageField: string := "profileImage"
  const ResumeField: string := "resume"

  predicate Distinct(keys: seq<string>) {
    forall i, j :: 0 <= i < j < |keys| ==> keys[i] != keys[j]
  }

  /** The value a nested field ends up with: a truthy string is replaced by
      its parse when the parse succeeds; anything else stays. */
  function ParsedValue(v: Value, parse: Parser): Value {
    if Truthy(v) && v.Str? && parse(v.s).Some? then parse(v.s).value else v
  }

  lemma ParsedValueCases(parse: Parser)
    ensures forall v: Value :: !(v.Str? && v.s != "") ==> ParsedValue(v, parse) == v
    ensures forall v: Value :: v.Str? && v.s != "" ==>
              ParsedValue(v, parse) == (match parse(v.s) case Some(p) => p case None => v)
  {
  }

  /** One iteration of `fields.forEach(...)`: parse `data[field]` in place
      when it is a truthy string; a parse that throws leaves it as it was. */
  function ParseField(body: Body, parse: Parser, field: string): (r: Body)
    ensures r.Keys == body.Keys
    ensures forall k :: k in body && k != field ==> r[k] == body[k]
    ensures field in body ==> r[field] == ParsedValue(body[field], parse)
  {
    if field in body && Truthy(body[field]) && body[field].Str? then
      match parse(body[field].s)
      case Some(v) => body[field := v]
      case None => body
    else body
  }

  /** `fields.forEach(...)` over distinct fields, in order. */
  function ParseFields(body: Body, parse: Parser, fields: seq<string>): (r: Body)
    requires Distinct(fields)
    ensures r.Keys == body.Keys
    ensures forall k :: k in body && k !in fields ==> r[k] == body[k]
    ensures forall k :: k in body && k in fields ==> r[k] == ParsedValue(body[k], parse)
    decreases |fields|
  {
    if |fields| == 0 then body
    else
      assert Distinct(fields[1..]) by {
        forall i, j | 0 <= i < j < |fields[1..]| ensures fields[1..][i] != fields[1..][j] {
          assert fields[1..][i] == fields[i + 1] && fields[1..][j] == fields[j + 1];
        }
      }
      assert forall k :: k in fields[1..] ==> k != fields[0];
      ParseFields(ParseField(body, parse, fields[0]), parse, fields[1..])
  }

  lemma NestedFieldsDistinct()
    ensures Distinct(NestedFields)
  {
  }

  /** `parseNestedFields`: only the seven nested fields can change; each of
      them that holds a non-empty string is replaced by its parse, or keeps
      the string when the parse throws; every other key keeps its value. */
  function ParseNestedFields(body: Body, parse: Parser): (r: Body)
    ensures r.Keys == body.Keys
    ensures forall k :: k in body && k !in NestedFields ==> r[k] == body[k]
    ensures forall k :: k in body && k in NestedFields && !(body[k].Str? && body[k].s != "") ==> r[k] == body[k]
    ensures forall k :: k in body && k in NestedFields && body[k].Str? && body[k].s != "" ==>
              r[k] == (match parse(body[k].s) case Some(v) => v case None => body[k])
  {
    NestedFieldsDistinct();
    ParsedValueCases(parse);
    ParseFields(body, parse, NestedFields)
  }

  /** An uploaded file as stored by the upload middleware. */
  datatype UploadedFile = UploadedFile(path: string)

  /** `req.files`: `None` when the request carries no files; otherwise the
      files of each upload field that received one. */
  type Files = Option<map<string, seq<UploadedFile>>>

  /** `if (req.files.F) data.F = req.files.F[0].path`: `None` when the field
      is present with no file, where `[0].path` throws. */
  function MergeUpload(body: Body, files: map<string, seq<UploadedFile>>, field: string): (r: Option<Body>)
    ensures r.None? <==> field in files && |files[field]| == 0
    ensures r.Some? ==> forall k :: k != field ==> (k in r.value <==> k in body)
    ensures r.Some? ==> forall k :: k != field && k in body ==> r.value[k] == body[k]
    ensures r.Some? && field in files ==> field in r.value && r.value[field] == Str(files[field][0].path)
    ensures r.Some? && field !in files ==> r.value == body
  {
    if field !in files then Some(body)
    else if |files[field]| == 0 then None
    else Some(body[field := Str(files[field][0].path)])
  }

  /** The file handling of both handlers: `profileImage` and `resume` take the
      path of the first uploaded file of that field when there is one, and
      keep the body's value otherwise; nothing else changes. */
  function MergeUploads(body: Body, files: Files): (r: Option<Body>)
    ensures files.None? ==> r == Some(body)
    ensures r.None? <==> (files.Some? &&
              exists f :: f in {ProfileImageField, ResumeField} && f in files.value && |files.value[f]| == 0)
    ensures r.Some? ==> forall k :: k != ProfileImageField && k != ResumeField ==>
              (k in r.value <==> k in body) && (k in body ==> r.value[k] == body[k])
    ensures r.Some? ==> forall f :: f == ProfileImageField || f == ResumeField ==>
              if files.Some? && f in files.value
              then f in r.value && r.value[f] == Str(files.value[f][0].path)
              else (f in r.value <==> f in body) && (f in body ==> r.value[f] == body[f])
  {
    match files
    case None => Some(body)
    case Some(fs) =>
      match MergeUpload(body, fs, ProfileImageField)
      case None => None
      case Some(b) => MergeUpload(b, fs, ResumeField)
  }

  /** The body the POST and PUT handlers pass on to the database: uploads
      merged, then nested fields parsed. `None` when the merge throws. A
      nested field present in the request ends with its parsed value; a key
      that is neither nested nor an upload field passes through unchanged. */
  function PrepareTalentData(body: Body, files: Files, parse: Parser): (r: Option<Body>)
    ensures r.None? <==> MergeUploads(body, files).None?
    ensures r.Some? ==> r.value.Keys == MergeUploads(body, files).value.Keys
    ensures r.Some? ==> forall k :: k in NestedFields && k in body ==>
              k in r.value && r.value[k] == ParsedValue(body[k], parse)
    ensures r.Some? ==> forall k :: k !in NestedFields && k != ProfileImageField && k != ResumeField ==>
              (k in r.value <==> k in body) && (k in body ==> r.value[k] == body[k])
  {
    match MergeUploads(body, files)
    case None => None
    case Some(b) =>
      ParsePassesOtherKeys(body, b, parse);
      Some(ParseNestedFields(b, parse))
  }

  /** Parsing a merged body: nested keys get their parsed value from the
      original body, and every key outside the nested and upload fields keeps
      its original value. */
  lemma ParsePassesOtherKeys(body: Body, merged: Body, parse: Parser)
    requires forall k :: k != ProfileImageField && k != ResumeField ==>
               (k in merged <==> k in body) && (k in body ==> merged[k] == body[k])
    ensures var r := ParseNestedFields(merged, parse);
            && (forall k :: k in NestedFields && k in body ==> k in r && r[k] == ParsedValue(body[k], parse))
            && (forall k :: k !in NestedFields && k != ProfileImageField && k != ResumeField ==>
                  (k in r <==> k in body) && (k in body ==> r[k] == body[k]))
  {
    UploadFieldsNotNested();
    NestedFieldsDistinct();
    var r := ParseFields(merged, parse, NestedFields);
    assert r == ParseNestedFields(merged, parse);
    forall k | k in NestedFields && k in body
      ensures k in r && r[k] == ParsedValue(body[k], parse)
    {
      assert k != ProfileImageField && k != ResumeField;
      assert k in merged && merged[k] == body[k];
    }
    forall k | k !in NestedFields && k != ProfileImageField && k != ResumeField
      ensures (k in r <==> k in body) && (k in body ==> r[k] == body[k])
    {
      assert k in merged <==> k in body;
    }
  }

  lemma UploadFieldsNotNested()
    ensures ProfileImageField !in NestedFields && ResumeField !in NestedFields
  {
  }

  /** Parsing the nested fields never overwrites an uploaded file's path:
      after both steps `profileImage` and `resume` hold the upload's path
      when one was sent, and the body's own value otherwise. */
  lemma UploadedPathsSurviveParsing(body: Body, files: Files, parse: Parser, f: string)
    requires f == ProfileImageField || f == ResumeField
    requires PrepareTalentData(body, files, parse).Some?
    ensures var r := PrepareTalentData(body, files, parse).value;
            if files.Some? && f in files.value
            then f in r && r[f] == Str(files.value[f][0].path)
            else (f in r <==> f in body) && (f in body ==> r[f] == body[f])
  {
    assert f !in NestedFields;
  }
}
