/** The two decision rules of the scraper's `Extractor`: how `make_request`
    turns a response into JSON or text, and how `save_json` guards against
    `None` and names the file it writes.

    The HTTP session, its retries and the GET itself are not modelled: a
    request is given by its outcome, an `Exchange`. The decoded JSON is
    opaque (the type parameter `J`); `Reply.json` is `None` when the body
    does not decode, which `requests` reports with an exception derived
    from `RequestException`. */
module Extractor {
  import opened Wrappers
  import Text

  /** The `mode` argument of `make_request`. */
  datatype Mode = JsonMode | TextMode | AutoMode

  /** A response as the session returns it: status code, the Content-Type
      header if present, the body as text, and the body decoded as JSON. */
  datatype Reply<J> = Reply(status: int, contentType: Option<string>, text: string, json: Option<J>)

  /** What the GET produced: a transport-level `RequestException`, or a reply. */
  datatype Exchange<J> = TransportFailure | Received(reply: Reply<J>)

  /** What `make_request` returns when it does not return `None`. */
  datatype Payload<J> = Json(doc: J) | TextBody(body: string)

  /** How the body is to be read. */
  datatype Decoding = DecodeJson | TakeText

  const JsonMediaType: string := "application/json"
  const JsonSuffix: string := ".json"

  /** `raise_for_status` raises for client (4xx) and server (5xx) errors:
      exactly the statuses whose hundreds digit is 4 or 5. */
  predicate IsHttpError(status: int)
    ensures IsHttpError(status) <==> status / 100 == 4 || status / 100 == 5
  {
    400 <= status < 600
  }

  /** `response.headers.get("Content-Type", "").lower()`: empty without the
      header, otherwise the header's value with each letter lower-cased. */
  function ContentTypeOf(header: Option<string>): (ct: string)
    ensures header.None? ==> ct == ""
    ensures header.Some? ==> |ct| == |header.value|
    ensures forall i :: 0 <= i < |ct| ==> !Text.IsUpper(ct[i])
    ensures header.Some? ==> forall i :: 0 <= i < |ct| ==> ct[i] == Text.LowerChar(header.value[i])
  {
    match header
    case None => ""
    case Some(h) => Text.Lower(h)
  }

  /** The mode decides alone unless it is `auto`, where the lower-cased
      Content-Type decides. */
  function Decide(mode: Mode, contentType: string): (d: Decoding)
    ensures mode == JsonMode ==> d == DecodeJson
    ensures mode == TextMode ==> d == TakeText
    ensures mode == AutoMode ==> (d == DecodeJson <==> Text.Contains(contentType, JsonMediaType))
  {
    match mode
    case JsonMode => DecodeJson
    case TextMode => TakeText
    case AutoMode => if Text.Contains(contentType, JsonMediaType) then DecodeJson else TakeText
  }

  /** `make_request` once the session has done its work. Every
      `RequestException` (a transport failure, an error status, a body that
      does not decode as JSON) becomes `None`. */
  function MakeRequest<J>(mode: Mode, exchange: Exchange<J>): (r: Option<Payload<J>>)
    ensures exchange.TransportFailure? ==> r.None?
    ensures exchange.Received? && IsHttpError(exchange.reply.status) ==> r.None?
    ensures r.Some? && r.value.TextBody? ==> r.value.body == exchange.reply.text
    ensures r.Some? && r.value.Json? ==> exchange.reply.json == Some(r.value.doc)
    ensures exchange.Received? && !IsHttpError(exchange.reply.status) ==>
      var d := Decide(mode, ContentTypeOf(exchange.reply.contentType));
      && (r.Some? && r.value.Json? <==> d == DecodeJson && exchange.reply.json.Some?)
      && (r.Some? && r.value.TextBody? <==> d == TakeText)
  {
    match exchange
    case TransportFailure => None
    case Received(reply) =>
      if IsHttpError(reply.status) then None
      else
        match Decide(mode, ContentTypeOf(reply.contentType))
        case DecodeJson => (match reply.json case None => None case Some(doc) => Some(Json(doc)))
        case TakeText => Some(TextBody(reply.text))
  }

  /** With mode `json` or `text` the Content-Type plays no part. */
  lemma ExplicitModeIgnoresContentType<J>(mode: Mode, reply: Reply<J>, other: Option<string>)
    requires mode != AutoMode
    ensures MakeRequest(mode, Received(reply)) == MakeRequest(mode, Received(reply.(contentType := other)))
  {
  }

  /** In `auto` mode the header is matched without regard to letter case. */
  lemma AutoModeIgnoresCase<J>(reply: Reply<J>, other: string)
    requires reply.contentType.Some? && Text.Lower(other) == Text.Lower(reply.contentType.value)
    ensures MakeRequest(AutoMode, Received(reply)) == MakeRequest(AutoMode, Received(reply.(contentType := Some(other))))
  {
  }

  /** In `auto` mode a reply without a Content-Type header is read as text. */
  lemma MissingContentTypeGivesText<J>(reply: Reply<J>)
    requires reply.contentType.None? && !IsHttpError(reply.status)
    ensures MakeRequest(AutoMode, Received(reply)) == Some(TextBody(reply.text))
  {
  }

  /** A mixed-case JSON media type with parameters is still recognised. */
  lemma MixedCaseJsonHeaderDecodes<J>(reply: Reply<J>)
    requires reply.contentType == Some("Application/JSON; charset=utf-8")
    requires !IsHttpError(reply.status) && reply.json.Some?
    ensures MakeRequest(AutoMode, Received(reply)) == Some(Json(reply.json.value))
  {
    var lowered := Text.Lower(reply.contentType.value);
    assert lowered[..|JsonMediaType|] == JsonMediaType;
    Text.OccursAtIff(lowered, JsonMediaType, 0);
  }

  /** `save_json`'s file name: `.json` is appended unless the name already
      ends with it (compared with letter case). */
  function JsonFileName(filename: string): (name: string)
    ensures Text.EndsWith(name, JsonSuffix)
    ensures Text.EndsWith(filename, JsonSuffix) ==> name == filename
    ensures !Text.EndsWith(filename, JsonSuffix) ==> name == filename + JsonSuffix
  {
    if Text.EndsWith(filename, JsonSuffix) then filename else filename + JsonSuffix
  }

  lemma JsonFileNameIdempotent(filename: string)
    ensures JsonFileName(JsonFileName(filename)) == JsonFileName(filename)
  {
  }

  /** The suffix test does not fold case: `x.JSON` gets a second extension. */
  lemma JsonFileNameIsCaseSensitive()
    ensures JsonFileName("x.JSON") == "x.JSON.json"
  {
    assert "x.JSON"[2] == 'J';
    assert !Text.EndsWith("x.JSON", JsonSuffix);
  }

  /** `output_dir / filename`. */
  datatype FilePath = FilePath(dir: string, name: string)

  /** The part of the file system `save_json` touches: the directories it
      has created and the data each written file holds. */
  class FileStore<D> {
    var dirs: set<string>
    var files: map<FilePath, D>

    constructor ()
      ensures dirs == {} && files == map[]
    {
      dirs := {};
      files := map[];
    }
  }

  /** `save_json`: `None` writes nothing and returns `None`; any other value,
      an empty list included, is written to the normalised file name under
      `outputDir`, which is created first. */
  method SaveJson<D>(store: FileStore<D>, data: Option<D>, outputDir: string, filename: string)
    returns (path: Option<FilePath>)
    modifies store
    ensures path.None? <==> data.None?
    ensures data.None? ==> store.dirs == old(store.dirs) && store.files == old(store.files)
    ensures data.Some? ==>
      && path == Some(FilePath(outputDir, JsonFileName(filename)))
      && store.dirs == old(store.dirs) + {outputDir}
      && store.files == old(store.files)[path.value := data.value]
  {
    if data.None? {
      return None;
    }
    store.dirs := store.dirs + {outputDir};
    var name := filename;
    if !Text.EndsWith(name, JsonSuffix) {
      name := name + JsonSuffix;
    }
    var target := FilePath(outputDir, name);
    store.files := store.files[target := data.value];
    path := Some(target);
  }

  /** The guard tests for `None` only: an empty list of records is still
      written, under the normalised name. */
  method SaveEmptyRecordList() returns (path: Option<FilePath>, store: FileStore<seq<int>>)
    ensures path == Some(FilePath("out", "featured.json"))
    ensures fresh(store)
    ensures store.dirs == {"out"}
    ensures store.files == map[FilePath("out", "featured.json") := []]
  {
    store := new FileStore<seq<int>>();
    assert "featured"[3..][0] != JsonSuffix[0];
    assert JsonFileName("featured") == "featured.json";
    path := SaveJson(store, Some([]), "out", "featured");
    assert store.files[path.value] == [];
  }
}
