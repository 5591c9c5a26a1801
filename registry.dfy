/**
 One registry lookup, `fetchVersion`: parse the identifier, obtain the
 registry's decoded JSON response, and pick the record's fields out of it.
 The HTTP exchange itself is not modelled: its outcome arrives as a
 `Response`, either a failure of any step up to and including JSON decoding,
 or the decoded top-level object.
 */
module Registry {
  import opened PkgTypes
  import SpecParser

  /** What the network part of a lookup delivered. */
  datatype Response = Failed | Decoded(raw: map<string, JsonValue>)

  /** Why a lookup produced no record. */
  datatype FetchError =
    | RequestFailed        // building, sending, reading or decoding the request failed
    | InvalidVersionData   // the decoded object has no string "version"

  /** The response carries a usable version: a string under "version". */
  predicate HasVersion(raw: map<string, JsonValue>) {
    "version" in raw && raw["version"].JString?
  }

  /** The response names an author: an object under "author" with a string "name". */
  predicate HasAuthorName(raw: map<string, JsonValue>) {
    "author" in raw && raw["author"].JObject?
    && "name" in raw["author"].fields && raw["author"].fields["name"].JString?
  }

  /** Best-effort author: `author.name` when present and well typed, otherwise "". */
  function AuthorOf(raw: map<string, JsonValue>): (r: string)
    ensures HasAuthorName(raw) ==> r == raw["author"].fields["name"].s
    ensures !HasAuthorName(raw) ==> r == ""
  {
    if "author" in raw then
      match raw["author"]
      case JObject(a) =>
        if "name" in a then
          match a["name"]
          case JString(name) => name
          case _ => ""
        else ""
      case _ => ""
    else ""
  }

  /** Field extraction from the decoded response object. */
  function ExtractInfo(name: string, raw: map<string, JsonValue>): (r: Result<PackageInfo, FetchError>)
    ensures r.Err? <==> !HasVersion(raw)
    ensures r.Err? ==> r.error == InvalidVersionData
    ensures r.Ok? ==> r.value.name == name && r.value.version == raw["version"].s
    ensures r.Ok? && HasAuthorName(raw) ==> r.value.author == raw["author"].fields["name"].s
    ensures r.Ok? && !HasAuthorName(raw) ==> r.value.author == ""
  {
    if "version" in raw then
      match raw["version"]
      case JString(version) => Ok(PackageInfo(name, version, AuthorOf(raw)))
      case _ => Err(InvalidVersionData)
    else Err(InvalidVersionData)
  }

  /** `fetchVersion` with the network exchange replaced by its outcome. */
  function FetchVersion(pkg: string, resp: Response): (r: Result<PackageInfo, FetchError>)
    ensures r.Ok? <==> resp.Decoded? && HasVersion(resp.raw)
    ensures resp.Failed? ==> r == Err(RequestFailed)
    ensures resp.Decoded? && !HasVersion(resp.raw) ==> r == Err(InvalidVersionData)
    ensures r.Ok? ==> r.value == PackageInfo(SpecParser.Parse(pkg).name, resp.raw["version"].s, AuthorOf(resp.raw))
  {
    match resp
    case Failed => Err(RequestFailed)
    case Decoded(raw) => ExtractInfo(SpecParser.Parse(pkg).name, raw)
  }

  /**
   A registry response carrying the given record, in the shape the registry
   sends: a string "version" and an "author" object with a string "name".
   */
  function Encode(info: PackageInfo): map<string, JsonValue> {
    map["version" := JString(info.version),
        "author" := JObject(map["name" := JString(info.author)])]
  }

  /** Extraction recovers every field of a well-formed response. */
  lemma ExtractEncode(info: PackageInfo)
    ensures ExtractInfo(info.name, Encode(info)) == Ok(info)
  {
    var raw := Encode(info);
    assert HasVersion(raw) && HasAuthorName(raw);
  }

  /**
   An author field of any shape never turns a lookup into an error, and
   never changes the name or the version.
   */
  lemma AuthorNeverFails(name: string, raw: map<string, JsonValue>, author: JsonValue)
    requires HasVersion(raw)
    ensures var r := ExtractInfo(name, raw["author" := author]);
      r.Ok? && r.value.name == name && r.value.version == raw["version"].s
  {
    assert "version" in raw["author" := author];
  }

  /** Only the "version" and "author" keys of the response matter. */
  lemma OtherKeysIgnored(name: string, raw: map<string, JsonValue>, key: string, v: JsonValue)
    requires key != "version" && key != "author"
    ensures ExtractInfo(name, raw[key := v]) == ExtractInfo(name, raw)
  {
    var raw' := raw[key := v];
    assert ("version" in raw') == ("version" in raw);
    assert "version" in raw ==> raw'["version"] == raw["version"];
    assert ("author" in raw') == ("author" in raw);
    assert "author" in raw ==> raw'["author"] == raw["author"];
  }
}
