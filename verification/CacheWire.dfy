/**
 The wire format of a cache GET: the response builders of packages/core/src/adapters/cache-handler.ts and the
 parser of packages/core/src/utils/cache-get.ts.
 */
module CacheWire {
  import opened Wrappers
  import opened CacheTypes
  import opened WireHeaders
  import Decimal

  datatype CacheValue =
    | Fetch(url: string, body: string, headers: Headers, status: Option<int>, dataTags: Option<seq<string>>,
            tags: Option<seq<string>>, fetchRevalidate: Revalidate)
    | File(file: CachedFile)
    | Composable(text: string, cacheTags: seq<string>, stale: int, expire: int, timestamp: int, seconds: int)

  datatype Entry = Entry(value: CacheValue, lastModified: Option<int>, bypass: bool)

  datatype Response = Response(headers: Headers, body: string)

  /** The text of JSON values and of numbers; `parseInt` answers `None` for NaN. */
  datatype Codec = Codec(stringify: Json -> string, parse: string -> Option<Json>,
                         printInt: int -> string, parseInt: string -> Option<int>)

  /** Every value is read back from its text, JSON text is never empty, and no number prints as `false`. */
  ghost predicate Lawful(codec: Codec) {
    (forall j :: JsonReadsBack(codec, j)) && (forall n :: NumberReadsBack(codec, n))
  }

  ghost predicate JsonReadsBack(codec: Codec, j: Json) {
    codec.stringify(j) != "" && codec.parse(codec.stringify(j)) == Some(j)
  }

  ghost predicate NumberReadsBack(codec: Codec, n: int) {
    codec.printInt(n) != "false" && codec.parseInt(codec.printInt(n)) == Some(n)
  }

  /** Decimal numbers meet the law. */
  lemma DecimalIsLawful(stringify: Json -> string, parse: string -> Option<Json>)
    requires forall j :: stringify(j) != "" && parse(stringify(j)) == Some(j)
    ensures Lawful(Codec(stringify, parse, n => Decimal.Print(n), s => Decimal.Parse(s)))
  {
    var codec := Codec(stringify, parse, n => Decimal.Print(n), s => Decimal.Parse(s));
    forall j ensures JsonReadsBack(codec, j) {
      assert parse(stringify(j)) == Some(j);
    }
    forall n ensures NumberReadsBack(codec, n) {
      Decimal.ParsePrint(n);
      Decimal.PrintIsNotFalse(n);
    }
  }

  // ---- JSON shapes

  function TagsJson(tags: seq<string>): (j: Json)
    ensures j.JArray? && |j.items| == |tags| && forall i :: 0 <= i < |tags| ==> j.items[i] == JString(tags[i])
  {
    JArray(seq(|tags|, i requires 0 <= i < |tags| => JString(tags[i])))
  }

  function TagsOfJson(j: Json): Option<seq<string>> {
    if j.JArray? && forall i :: 0 <= i < |j.items| ==> j.items[i].JString?
    then Some(seq(|j.items|, i requires 0 <= i < |j.items| && j.items[i].JString? => j.items[i].s))
    else None
  }

  function RecordJson(record: map<string, string>): Json {
    JObject(map key | key in record :: JString(record[key]))
  }

  function RecordOfJson(j: Json): Option<map<string, string>> {
    if j.JObject? && forall key :: key in j.fields ==> j.fields[key].JString?
    then Some(map key | key in j.fields && j.fields[key].JString? :: j.fields[key].s)
    else None
  }

  lemma TagsJsonRoundTrip(tags: seq<string>)
    ensures TagsOfJson(TagsJson(tags)) == Some(tags)
  {
    assert TagsOfJson(TagsJson(tags)).Some?;
    assert TagsOfJson(TagsJson(tags)).value == tags;
  }

  lemma RecordJsonRoundTrip(record: map<string, string>)
    ensures RecordOfJson(RecordJson(record)) == Some(record)
  {
    var j := RecordJson(record);
    assert forall key :: key in j.fields <==> key in record;
    assert forall key :: key in record ==> j.fields[key] == JString(record[key]);
    assert RecordOfJson(j).Some?;
    assert RecordOfJson(j).value == record;
  }

  const EMPTY_OBJECT := JObject(map[])

  /** `props ?? {}` */
  function PropsJson(props: Option<Json>): Json {
    if props.None? || props.value.JNull? then EMPTY_OBJECT else props.value
  }

  function AppJson(html: string, rsc: string, segmentData: Option<map<string, string>>): Json {
    JObject(map["html" := JString(html), "rsc" := JString(rsc)]
            + if segmentData.Some? then map["segmentData" := RecordJson(segmentData.value)] else map[])
  }

  function PageJson(html: string, json: Json): Json {
    JObject(map["json" := json, "html" := JString(html)])
  }

  // ---- What the builders print

  function IntText(n: Option<int>, codec: Codec): Option<string> {
    if n.Some? then Some(codec.printInt(n.value)) else None
  }

  function RevalidateText(r: Revalidate, codec: Codec): Option<string> {
    match r
    case Unset => None
    case Never => Some("false")
    case Every(seconds) => Some(codec.printInt(seconds))
  }

  function TagsText(tags: Option<seq<string>>, codec: Codec): Option<string> {
    if tags.Some? then Some(codec.stringify(TagsJson(tags.value))) else None
  }

  function SubTypeText(content: FileBody): string {
    match content
    case Redirect(_) => "redirect"
    case Page(_, _) => "page"
    case App(_, _, _) => "app"
    case Route(_) => "route"
  }

  function MetaOf(file: CachedFile): Meta {
    if file.meta.Some? then file.meta.value else Meta(None, None, None)
  }

  /** The text of each control header, when it is sent. */
  function Text(entry: Entry, c: Control, codec: Codec): Option<string> {
    match c
    case Found => Some("true")
    case CacheControl => Some("no-store")
    case LastModified => IntText(entry.lastModified, codec)
    case ShouldBypass => if entry.bypass then Some("true") else None
    case _ =>
      match entry.value
      case Fetch(_, _, _, _, _, _, _) => FetchText(entry.value, c, codec)
      case File(file) => FileText(file, c, codec)
      case Composable(_, _, _, _, _, _) => ComposableText(entry.value, c, codec)
  }

  function FetchText(value: CacheValue, c: Control, codec: Codec): Option<string>
    requires value.Fetch?
  {
    match c
    case CacheType => Some("fetch")
    case FetchKind => Some("FETCH")
    case FetchDataUrl => Some(value.url)
    case Revalidated => RevalidateText(value.fetchRevalidate, codec)
    case FetchDataStatus => IntText(value.status, codec)
    case FetchDataTags => TagsText(value.dataTags, codec)
    case FetchTags => TagsText(value.tags, codec)
    case ContentType => Some("text/plain")
    case _ => None
  }

  function FileText(file: CachedFile, c: Control, codec: Codec): Option<string> {
    match c
    case CacheType => Some("cache")
    case SubType => Some(SubTypeText(file.content))
    case Revalidated => RevalidateText(file.revalidate, codec)
    case MetaStatus => IntText(MetaOf(file).status, codec)
    case MetaPostponed => MetaOf(file).postponed
    case ContentType => Some(if file.content.Route? then "text/plain" else "application/json")
    case _ => None
  }

  function ComposableText(value: CacheValue, c: Control, codec: Codec): Option<string>
    requires value.Composable?
  {
    match c
    case CacheType => Some("composable")
    case ComposableStale => Some(codec.printInt(value.stale))
    case ComposableExpire => Some(codec.printInt(value.expire))
    case ComposableTimestamp => Some(codec.printInt(value.timestamp))
    case ComposableRevalidate => Some(codec.printInt(value.seconds))
    case ComposableTags => Some(codec.stringify(TagsJson(value.cacheTags)))
    case ContentType => Some("text/plain")
    case _ => None
  }

  function ControlsOf(entry: Entry, codec: Codec): (m: map<Control, string>)
    ensures forall c :: Lookup(m, c) == Text(entry, c, codec)
  {
    map c: Control | Text(entry, c, codec).Some? :: Text(entry, c, codec).value
  }

  function Lookup(m: map<Control, string>, c: Control): Option<string> {
    if c in m then Some(m[c]) else None
  }

  lemma SameLookups(a: map<Control, string>, b: map<Control, string>)
    requires forall c :: Lookup(a, c) == Lookup(b, c)
    ensures a == b
  {
    assert forall c :: c in a <==> Lookup(a, c).Some?;
    assert forall c :: c in b <==> Lookup(b, c).Some?;
    assert forall c :: c in a ==> a[c] == Lookup(a, c).value == Lookup(b, c).value == b[c];
  }

  function UserHeaders(value: CacheValue): Headers {
    match value
    case Fetch(_, _, headers, _, _, _, _) => headers
    case File(file) => MetaOf(file).headers.GetOr(map[])
    case Composable(_, _, _, _, _, _) => map[]
  }

  function BodyText(value: CacheValue, codec: Codec): string {
    match value
    case Fetch(_, body, _, _, _, _, _) => body
    case Composable(text, _, _, _, _, _) => text
    case File(file) =>
      match file.content
      case Route(body) => body
      case Page(html, json) => codec.stringify(PageJson(html, json))
      case App(html, rsc, segmentData) => codec.stringify(AppJson(html, rsc, segmentData))
      case Redirect(props) => codec.stringify(PropsJson(props))
  }

  function Printed(entry: Entry, codec: Codec): Response {
    Response(Render(ControlsOf(entry, codec), UserHeaders(entry.value)), BodyText(entry.value, codec))
  }

  // ---- The builders, filling one header record

  /** The controls set so far have their text, the others are not there. */
  ghost predicate Filled(m: map<Control, string>, done: set<Control>, entry: Entry, codec: Codec) {
    forall c :: Lookup(m, c) == if c in done then Text(entry, c, codec) else None
  }

  /** One assignment `headers[name] = text`, left out when there is no text. */
  method SetHeader(headers: Headers, c: Control, text: Option<string>, ghost user: Headers, ghost entry: Entry,
                   codec: Codec, ghost m: map<Control, string>, ghost done: set<Control>)
    returns (headers': Headers, ghost m': map<Control, string>, ghost done': set<Control>)
    requires headers == Render(m, user) && Filled(m, done, entry, codec) && c !in done
    requires text == Text(entry, c, codec)
    ensures headers' == Render(m', user) && Filled(m', done', entry, codec) && done' == done + {c}
  {
    headers', m', done' := headers, m, done + {c};
    if text.Some? {
      RenderControl(m, user, c, text.value);
      m' := m[c := text.value];
      headers' := headers[Name(c) := One(text.value)];
    }
  }

  /** The loop over `Object.entries` that copies user headers under the prefix. */
  method SetUserHeaders(headers: Headers, user: Headers, ghost m: map<Control, string>) returns (headers': Headers)
    requires headers == Render(m, map[])
    ensures headers' == Render(m, user)
  {
    headers' := headers;
    var names := user.Keys;
    ghost var done: Headers := map[];
    while names != {}
      invariant names <= user.Keys
      invariant done == map key | key in user && key !in names :: user[key]
      invariant headers' == Render(m, done)
      decreases |names|
    {
      var key :| key in names;
      RenderUser(m, done, key, user[key]);
      done := done[key := user[key]];
      headers' := headers'[USER_PREFIX + key := user[key]];
      names := names - {key};
    }
    assert done == user;
  }

  const BASE := {Found, CacheControl, LastModified, ShouldBypass}

  /** All controls that have a text are set, so the record is the printed one. */
  lemma AllFilled(headers: Headers, m: map<Control, string>, done: set<Control>, entry: Entry, codec: Codec)
    requires headers == Render(m, UserHeaders(entry.value)) && Filled(m, done, entry, codec)
    requires forall c :: c !in done ==> Text(entry, c, codec).None?
    ensures headers == Printed(entry, codec).headers
  {
    SameLookups(m, ControlsOf(entry, codec));
  }

  lemma FetchIsDone(entry: Entry, codec: Codec, done: set<Control>)
    requires entry.value.Fetch? && BASE <= done
    requires CacheType in done && FetchKind in done && FetchDataUrl in done && Revalidated in done
    requires FetchDataStatus in done && FetchDataTags in done && FetchTags in done && ContentType in done
    ensures forall c :: c !in done ==> Text(entry, c, codec).None?
  {
  }

  lemma FileIsDone(entry: Entry, codec: Codec, done: set<Control>)
    requires entry.value.File? && BASE <= done && CacheType in done && SubType in done && Revalidated in done
    requires MetaStatus in done && MetaPostponed in done && ContentType in done
    ensures forall c :: c !in done ==> Text(entry, c, codec).None?
  {
  }

  lemma ComposableIsDone(entry: Entry, codec: Codec, done: set<Control>)
    requires entry.value.Composable? && BASE <= done
    requires CacheType in done && ContentType in done && ComposableStale in done && ComposableExpire in done
    requires ComposableTimestamp in done && ComposableRevalidate in done && ComposableTags in done
    ensures forall c :: c !in done ==> Text(entry, c, codec).None?
  {
  }

  /** The first assignments of `buildFetchResponse`. */
  method SetFetchKind(entry: Entry, headers: Headers, codec: Codec, ghost base: map<Control, string>)
    returns (h: Headers, ghost m: map<Control, string>, ghost done: set<Control>)
    requires entry.value.Fetch? && headers == Render(base, map[]) && Filled(base, BASE, entry, codec)
    ensures h == Render(m, map[]) && Filled(m, done, entry, codec)
    ensures done == BASE + {CacheType} + {FetchKind} + {FetchDataUrl} + {Revalidated}
  {
    h, m, done := SetHeader(headers, CacheType, Some("fetch"), map[], entry, codec, base, BASE);
    h, m, done := SetHeader(h, FetchKind, Some("FETCH"), map[], entry, codec, m, done);
    h, m, done := SetHeader(h, FetchDataUrl, Some(entry.value.url), map[], entry, codec, m, done);
    h, m, done := SetHeader(h, Revalidated, RevalidateText(entry.value.fetchRevalidate, codec), map[], entry, codec,
                            m, done);
  }

  /** Its optional assignments. */
  method SetFetchTags(entry: Entry, headers: Headers, codec: Codec, ghost m0: map<Control, string>,
                      ghost done0: set<Control>)
    returns (h: Headers, ghost m: map<Control, string>, ghost done: set<Control>)
    requires entry.value.Fetch? && headers == Render(m0, map[]) && Filled(m0, done0, entry, codec)
    requires FetchDataStatus !in done0 && FetchDataTags !in done0 && FetchTags !in done0
    ensures h == Render(m, map[]) && Filled(m, done, entry, codec)
    ensures done == done0 + {FetchDataStatus} + {FetchDataTags} + {FetchTags}
  {
    h, m, done := SetHeader(headers, FetchDataStatus, IntText(entry.value.status, codec), map[], entry, codec, m0,
                            done0);
    h, m, done := SetHeader(h, FetchDataTags, TagsText(entry.value.dataTags, codec), map[], entry, codec, m, done);
    h, m, done := SetHeader(h, FetchTags, TagsText(entry.value.tags, codec), map[], entry, codec, m, done);
  }

  method BuildFetchResponse(entry: Entry, headers: Headers, codec: Codec, ghost base: map<Control, string>)
    returns (response: Response)
    requires entry.value.Fetch? && headers == Render(base, map[]) && Filled(base, BASE, entry, codec)
    ensures response == Printed(entry, codec)
  {
    var h, m, done := SetFetchKind(entry, headers, codec, base);
    h, m, done := SetFetchTags(entry, h, codec, m, done);
    h := SetUserHeaders(h, entry.value.headers, m);
    h, m, done := SetHeader(h, ContentType, Some("text/plain"), entry.value.headers, entry, codec, m, done);
    FetchIsDone(entry, codec, done);
    AllFilled(h, m, done, entry, codec);
    response := Response(h, entry.value.body);
  }

  /** The first assignments of `buildCachedFileResponse`. */
  method SetFileKind(entry: Entry, headers: Headers, codec: Codec, ghost base: map<Control, string>)
    returns (h: Headers, ghost m: map<Control, string>, ghost done: set<Control>)
    requires entry.value.File? && headers == Render(base, map[]) && Filled(base, BASE, entry, codec)
    ensures h == Render(m, map[]) && Filled(m, done, entry, codec)
    ensures done == BASE + {CacheType} + {SubType} + {Revalidated}
  {
    var file := entry.value.file;
    h, m, done := SetHeader(headers, CacheType, Some("cache"), map[], entry, codec, base, BASE);
    h, m, done := SetHeader(h, SubType, Some(SubTypeText(file.content)), map[], entry, codec, m, done);
    h, m, done := SetHeader(h, Revalidated, RevalidateText(file.revalidate, codec), map[], entry, codec, m, done);
  }

  /** Its assignments from `meta`, the copied headers included. */
  method SetFileMeta(entry: Entry, headers: Headers, codec: Codec, ghost m0: map<Control, string>,
                     ghost done0: set<Control>)
    returns (h: Headers, ghost m: map<Control, string>, ghost done: set<Control>)
    requires entry.value.File? && headers == Render(m0, map[]) && Filled(m0, done0, entry, codec)
    requires MetaStatus !in done0 && MetaPostponed !in done0
    ensures h == Render(m, UserHeaders(entry.value)) && Filled(m, done, entry, codec)
    ensures done == done0 + {MetaStatus} + {MetaPostponed}
  {
    var meta := MetaOf(entry.value.file);
    h, m, done := SetHeader(headers, MetaStatus, IntText(meta.status, codec), map[], entry, codec, m0, done0);
    h, m, done := SetHeader(h, MetaPostponed, meta.postponed, map[], entry, codec, m, done);
    h := SetUserHeaders(h, UserHeaders(entry.value), m);
  }

  /** The switch on the type of the file. */
  method PrintContent(file: CachedFile, codec: Codec) returns (contentType: string, body: string)
    ensures FileText(file, ContentType, codec) == Some(contentType) && body == BodyText(File(file), codec)
  {
    contentType := "application/json";
    match file.content {
      case Route(text) =>
        contentType, body := "text/plain", text;
      case Page(html, json) =>
        body := codec.stringify(PageJson(html, json));
      case App(html, rsc, segmentData) =>
        body := codec.stringify(AppJson(html, rsc, segmentData));
      case Redirect(props) =>
        body := codec.stringify(PropsJson(props));
    }
  }

  method BuildCachedFileResponse(entry: Entry, headers: Headers, codec: Codec, ghost base: map<Control, string>)
    returns (response: Response)
    requires entry.value.File? && headers == Render(base, map[]) && Filled(base, BASE, entry, codec)
    ensures response == Printed(entry, codec)
  {
    var h, m, done := SetFileKind(entry, headers, codec, base);
    h, m, done := SetFileMeta(entry, h, codec, m, done);
    var contentType, body := PrintContent(entry.value.file, codec);
    h, m, done := SetHeader(h, ContentType, Some(contentType), UserHeaders(entry.value), entry, codec, m, done);
    FileIsDone(entry, codec, done);
    AllFilled(h, m, done, entry, codec);
    response := Response(h, body);
  }

  /** The first assignments of `buildComposableResponse`. */
  method SetComposableTimes(entry: Entry, headers: Headers, codec: Codec, ghost base: map<Control, string>)
    returns (h: Headers, ghost m: map<Control, string>, ghost done: set<Control>)
    requires entry.value.Composable? && headers == Render(base, map[]) && Filled(base, BASE, entry, codec)
    ensures h == Render(m, map[]) && Filled(m, done, entry, codec)
    ensures done == BASE + {CacheType} + {ComposableStale} + {ComposableExpire}
  {
    h, m, done := SetHeader(headers, CacheType, Some("composable"), map[], entry, codec, base, BASE);
    h, m, done := SetHeader(h, ComposableStale, Some(codec.printInt(entry.value.stale)), map[], entry, codec, m, done);
    h, m, done := SetHeader(h, ComposableExpire, Some(codec.printInt(entry.value.expire)), map[], entry, codec, m,
                            done);
  }

  /** Its further assignments. */
  method SetComposableRest(entry: Entry, headers: Headers, codec: Codec, ghost m0: map<Control, string>,
                           ghost done0: set<Control>)
    returns (h: Headers, ghost m: map<Control, string>, ghost done: set<Control>)
    requires entry.value.Composable? && headers == Render(m0, map[]) && Filled(m0, done0, entry, codec)
    requires ComposableTimestamp !in done0 && ComposableRevalidate !in done0 && ComposableTags !in done0
    ensures h == Render(m, map[]) && Filled(m, done, entry, codec)
    ensures done == done0 + {ComposableTimestamp} + {ComposableRevalidate} + {ComposableTags}
  {
    var value := entry.value;
    h, m, done := SetHeader(headers, ComposableTimestamp, Some(codec.printInt(value.timestamp)), map[], entry, codec,
                            m0, done0);
    h, m, done := SetHeader(h, ComposableRevalidate, Some(codec.printInt(value.seconds)), map[], entry, codec, m, done);
    h, m, done := SetHeader(h, ComposableTags, Some(codec.stringify(TagsJson(value.cacheTags))), map[], entry, codec,
                            m, done);
  }

  method BuildComposableResponse(entry: Entry, headers: Headers, codec: Codec, ghost base: map<Control, string>)
    returns (response: Response)
    requires entry.value.Composable? && headers == Render(base, map[]) && Filled(base, BASE, entry, codec)
    ensures response == Printed(entry, codec)
  {
    var h, m, done := SetComposableTimes(entry, headers, codec, base);
    h, m, done := SetComposableRest(entry, h, codec, m, done);
    h, m, done := SetHeader(h, ContentType, Some("text/plain"), map[], entry, codec, m, done);
    ComposableIsDone(entry, codec, done);
    AllFilled(h, m, done, entry, codec);
    response := Response(h, entry.value.text);
  }

  method BuildCacheGetResponse(entry: Entry, codec: Codec) returns (response: Response)
    ensures response == Printed(entry, codec)
  {
    assert Render(map[], map[]) == map[];
    var h, m, done := SetHeader(map[], Found, Some("true"), map[], entry, codec, map[], {});
    h, m, done := SetHeader(h, CacheControl, Some("no-store"), map[], entry, codec, m, done);
    h, m, done := SetHeader(h, LastModified, IntText(entry.lastModified, codec), map[], entry, codec, m, done);
    h, m, done := SetHeader(h, ShouldBypass, if entry.bypass then Some("true") else None, map[], entry, codec, m, done);
    assert done == BASE;
    match entry.value
    case Fetch(_, _, _, _, _, _, _) => response := BuildFetchResponse(entry, h, codec, m);
    case File(_) => response := BuildCachedFileResponse(entry, h, codec, m);
    case Composable(_, _, _, _, _, _) => response := BuildComposableResponse(entry, h, codec, m);
  }

  // ---- The parser

  /** `Malformed` is text no builder prints: JSON that does not parse, or not to the expected shape. */
  datatype Parsed = Hit(entry: Entry) | Miss | Malformed

  function GetHeaderNumber(headers: Headers, c: Control, codec: Codec): Option<int> {
    match GetHeaderValue(headers, Name(c))
    case None => None
    case Some(text) => codec.parseInt(text)
  }

  function GetHeaderRevalidate(headers: Headers, codec: Codec): Revalidate {
    var text := GetHeaderValue(headers, Name(Revalidated));
    if text == Some("false") then Never
    else
      match GetHeaderNumber(headers, Revalidated, codec)
      case None => Unset
      case Some(n) => Every(n)
  }

  /** `text ? JSON.parse(text) : undefined`, read as a list of tags. */
  datatype TagsRead = NoTags | Tags(tags: seq<string>) | BadTags

  function GetHeaderTags(headers: Headers, c: Control, codec: Codec): TagsRead {
    match GetHeaderValue(headers, Name(c))
    case None => NoTags
    case Some(text) =>
      if text == "" then NoTags
      else
        match codec.parse(text)
        case None => BadTags
        case Some(j) =>
          match TagsOfJson(j)
          case None => BadTags
          case Some(tags) => Tags(tags)
  }

  function TagsOption(read: TagsRead): Option<seq<string>> {
    if read.Tags? then Some(read.tags) else None
  }

  function ParseCacheGetResponse(response: Response, codec: Codec): Parsed {
    var headers := response.headers;
    if GetHeaderValue(headers, Name(Found)) != Some("true") then Miss
    else
      var cacheType := GetHeaderValue(headers, Name(CacheType));
      var lastModified := GetHeaderNumber(headers, LastModified, codec);
      var bypass := GetHeaderValue(headers, Name(ShouldBypass)) == Some("true");
      if cacheType == Some("composable") then ReconstructComposable(response, lastModified, bypass, codec)
      else if cacheType == Some("fetch") then ReconstructFetch(response, lastModified, bypass, codec)
      else ReconstructCachedFile(response, lastModified, bypass, codec)
  }

  function ReconstructComposable(response: Response, lastModified: Option<int>, bypass: bool, codec: Codec): Parsed {
    var headers := response.headers;
    var stale := GetHeaderNumber(headers, ComposableStale, codec);
    var expire := GetHeaderNumber(headers, ComposableExpire, codec);
    var timestamp := GetHeaderNumber(headers, ComposableTimestamp, codec);
    var seconds := GetHeaderNumber(headers, ComposableRevalidate, codec);
    var tags := GetHeaderTags(headers, ComposableTags, codec);
    if tags.BadTags? then Malformed
    else if stale.None? || expire.None? || timestamp.None? || seconds.None? then Miss
    else
      var value := Composable(response.body, TagsOption(tags).GetOr([]),
                              stale.value, expire.value, timestamp.value, seconds.value);
      Hit(Entry(value, lastModified, bypass))
  }

  function ReconstructFetch(response: Response, lastModified: Option<int>, bypass: bool, codec: Codec): Parsed {
    var headers := response.headers;
    if GetHeaderValue(headers, Name(FetchKind)) != Some("FETCH") then Miss
    else
      var dataTags, tags := GetHeaderTags(headers, FetchDataTags, codec), GetHeaderTags(headers, FetchTags, codec);
      if dataTags.BadTags? || tags.BadTags? then Malformed
      else Hit(Entry(Fetch(GetHeaderValue(headers, Name(FetchDataUrl)).GetOr(""), response.body, Prefixed(headers),
                           GetHeaderNumber(headers, FetchDataStatus, codec), TagsOption(dataTags), TagsOption(tags),
                           GetHeaderRevalidate(headers, codec)),
                     lastModified, bypass))
  }

  /** The `meta` object the parser fills: `undefined` when nothing would be in it. */
  function ReadMeta(headers: Headers, codec: Codec): Option<Meta> {
    var status := GetHeaderNumber(headers, MetaStatus, codec);
    var postponed := GetHeaderValue(headers, Name(MetaPostponed));
    var user := Prefixed(headers);
    if status.None? && postponed.None? && user == map[] then None
    else Some(Meta(status, if user == map[] then None else Some(user), postponed))
  }

  function ReconstructCachedFile(response: Response, lastModified: Option<int>, bypass: bool, codec: Codec): Parsed {
    var subType := GetHeaderValue(response.headers, Name(SubType));
    if subType !in [Some("route"), Some("page"), Some("app"), Some("redirect")] then Miss
    else
      match ReadContent(subType.value, response.body, codec)
      case None => Malformed
      case Some(content) =>
        var meta, revalidate := ReadMeta(response.headers, codec), GetHeaderRevalidate(response.headers, codec);
        Hit(Entry(File(CachedFile(content, meta, revalidate)), lastModified, bypass))
  }

  function ReadContent(subType: string, body: string, codec: Codec): Option<FileBody> {
    if subType == "route" then Some(Route(body))
    else
      match codec.parse(body)
      case None => None
      case Some(j) => if subType == "redirect" then Some(Redirect(Some(j))) else ReadPage(subType, j)
  }

  function ReadPage(subType: string, j: Json): Option<FileBody> {
    if !j.JObject? || "html" !in j.fields || !j.fields["html"].JString? then None
    else
      var html := j.fields["html"].s;
      if subType == "page" then
        if "json" in j.fields then Some(Page(html, j.fields["json"])) else None
      else if "rsc" !in j.fields || !j.fields["rsc"].JString? then None
      else if "segmentData" !in j.fields then Some(App(html, j.fields["rsc"].s, None))
      else
        match RecordOfJson(j.fields["segmentData"])
        case None => None
        case Some(record) => Some(App(html, j.fields["rsc"].s, Some(record)))
  }

  // ---- What the wire does not tell apart

  function NormalMeta(meta: Option<Meta>): Option<Meta> {
    if meta.None? then None
    else
      var headers := if meta.value.headers == Some(map[]) then None else meta.value.headers;
      if meta.value.status.None? && meta.value.postponed.None? && headers.None? then None
      else Some(meta.value.(headers := headers))
  }

  /** Empty meta data is dropped and missing redirect props become `{}`; everything else is kept. */
  function Normal(entry: Entry): Entry {
    match entry.value
    case File(file) =>
      var content := if file.content.Redirect? then Redirect(Some(PropsJson(file.content.props))) else file.content;
      entry.(value := File(CachedFile(content, NormalMeta(file.meta), file.revalidate)))
    case _ => entry
  }

  lemma NormalIsIdempotent(entry: Entry)
    ensures Normal(Normal(entry)) == Normal(entry)
  {
  }

  /** What the normalisation may change, and nothing else. */
  lemma NormalMeans(entry: Entry)
    ensures Normal(entry).lastModified == entry.lastModified && Normal(entry).bypass == entry.bypass
    ensures !entry.value.File? ==> Normal(entry) == entry
    ensures entry.value.File? ==>
              && Normal(entry).value.File?
              && var file, normal := entry.value.file, Normal(entry).value.file;
              && normal.revalidate == file.revalidate
              && (!file.content.Redirect? ==> normal.content == file.content)
              && (file.content.Redirect? ==>
                    normal.content == Redirect(Some(if file.content.props.None? || file.content.props == Some(JNull)
                                                    then JObject(map[]) else file.content.props.value)))
              && SameMeta(file.meta.GetOr(Meta(None, None, None)), normal.meta.GetOr(Meta(None, None, None)))
  {
  }

  /** The same status, postponed state and headers, no headers being no different from none given. */
  predicate SameMeta(a: Meta, b: Meta) {
    a.status == b.status && a.postponed == b.postponed && a.headers.GetOr(map[]) == b.headers.GetOr(map[])
  }

  /** The headers every hit is sent with, by their names on the wire. */
  lemma HitHeaders(entry: Entry, codec: Codec, key: string)
    ensures var headers := Printed(entry, codec).headers;
            && headers.Keys >= {"x-opennext-cache-found", "Cache-Control", "Content-Type", "x-opennext-cache-type"}
            && headers["x-opennext-cache-found"] == One("true")
            && headers["Cache-Control"] == One("no-store")
            && headers["Content-Type"] == One(if entry.value.File? && !entry.value.file.content.Route?
                                              then "application/json" else "text/plain")
            && headers["x-opennext-cache-type"] == One(if entry.value.Fetch? then "fetch"
                                                       else if entry.value.File? then "cache" else "composable")
            && ("x-opennext-cache-last-modified" in headers <==> entry.lastModified.Some?)
            && (key in UserHeaders(entry.value) ==>
                  && "x-opennext-cache-header-" + key in headers
                  && headers["x-opennext-cache-header-" + key] == UserHeaders(entry.value)[key])
  {
    var m, user := ControlsOf(entry, codec), UserHeaders(entry.value);
    HitControl(entry, codec, Found);
    HitControl(entry, codec, CacheControl);
    HitControl(entry, codec, ContentType);
    HitControl(entry, codec, CacheType);
    HitControl(entry, codec, LastModified);
    ReadUser(m, user, key);
  }

  lemma HitControl(entry: Entry, codec: Codec, c: Control)
    ensures Name(c) in Printed(entry, codec).headers <==> Text(entry, c, codec).Some?
    ensures Text(entry, c, codec).Some? ==> Printed(entry, codec).headers[Name(c)] == One(Text(entry, c, codec).value)
  {
    ReadControl(ControlsOf(entry, codec), UserHeaders(entry.value), c);
    assert Lookup(ControlsOf(entry, codec), c) == Text(entry, c, codec);
  }

  /** Without the header that says so nothing was found. */
  lemma UnfoundIsMiss(response: Response, codec: Codec)
    requires "x-opennext-cache-found" !in response.headers || response.headers["x-opennext-cache-found"] == One("false")
    ensures ParseCacheGetResponse(response, codec) == Miss
  {
  }

  // ---- The round trip

  lemma NumberReadBack(headers: Headers, c: Control, n: Option<int>, codec: Codec)
    requires Lawful(codec) && GetHeaderValue(headers, Name(c)) == IntText(n, codec)
    ensures GetHeaderNumber(headers, c, codec) == n
  {
    if n.Some? {
      assert NumberReadsBack(codec, n.value);
    }
  }

  lemma RevalidateReadBack(headers: Headers, r: Revalidate, codec: Codec)
    requires Lawful(codec) && GetHeaderValue(headers, Name(Revalidated)) == RevalidateText(r, codec)
    ensures GetHeaderRevalidate(headers, codec) == r
  {
    if r.Every? {
      assert NumberReadsBack(codec, r.seconds);
    }
  }

  function TagsAsRead(tags: Option<seq<string>>): TagsRead {
    if tags.Some? then Tags(tags.value) else NoTags
  }

  lemma TagsReadBack(headers: Headers, c: Control, tags: Option<seq<string>>, codec: Codec)
    requires Lawful(codec) && GetHeaderValue(headers, Name(c)) == TagsText(tags, codec)
    ensures GetHeaderTags(headers, c, codec) == TagsAsRead(tags)
  {
    if tags.Some? {
      assert JsonReadsBack(codec, TagsJson(tags.value));
      TagsJsonRoundTrip(tags.value);
    }
  }

  /** What a response says: each control header its text or nothing, and the user headers under the prefix. */
  ghost predicate Says(response: Response, entry: Entry, codec: Codec) {
    && (forall c :: GetHeaderValue(response.headers, Name(c)) == Text(entry, c, codec))
    && Prefixed(response.headers) == UserHeaders(entry.value)
    && response.body == BodyText(entry.value, codec)
  }

  lemma PrintedSays(entry: Entry, codec: Codec)
    ensures Says(Printed(entry, codec), entry, codec)
  {
    var m, user := ControlsOf(entry, codec), UserHeaders(entry.value);
    forall c
      ensures GetHeaderValue(Render(m, user), Name(c)) == Text(entry, c, codec)
    {
      ReadControl(m, user, c);
      assert Lookup(m, c) == Text(entry, c, codec);
    }
    PrefixedOfRender(m, user);
  }

  lemma FetchTagsRead(response: Response, entry: Entry, codec: Codec)
    requires Lawful(codec) && entry.value.Fetch? && Says(response, entry, codec)
    ensures GetHeaderTags(response.headers, FetchDataTags, codec) == TagsAsRead(entry.value.dataTags)
    ensures GetHeaderTags(response.headers, FetchTags, codec) == TagsAsRead(entry.value.tags)
  {
    assert Text(entry, FetchDataTags, codec) == TagsText(entry.value.dataTags, codec);
    TagsReadBack(response.headers, FetchDataTags, entry.value.dataTags, codec);
    assert Text(entry, FetchTags, codec) == TagsText(entry.value.tags, codec);
    TagsReadBack(response.headers, FetchTags, entry.value.tags, codec);
  }

  lemma FetchFieldsRead(response: Response, entry: Entry, codec: Codec)
    requires Lawful(codec) && entry.value.Fetch? && Says(response, entry, codec)
    ensures GetHeaderValue(response.headers, Name(FetchKind)) == Some("FETCH")
    ensures GetHeaderValue(response.headers, Name(FetchDataUrl)) == Some(entry.value.url)
    ensures GetHeaderNumber(response.headers, FetchDataStatus, codec) == entry.value.status
    ensures GetHeaderRevalidate(response.headers, codec) == entry.value.fetchRevalidate
  {
    NumberReadBack(response.headers, FetchDataStatus, entry.value.status, codec);
    RevalidateReadBack(response.headers, entry.value.fetchRevalidate, codec);
    assert GetHeaderValue(response.headers, Name(FetchKind)) == Text(entry, FetchKind, codec);
    assert GetHeaderValue(response.headers, Name(FetchDataUrl)) == Text(entry, FetchDataUrl, codec);
  }

  lemma FetchRoundTrip(response: Response, entry: Entry, codec: Codec)
    requires Lawful(codec) && entry.value.Fetch? && Says(response, entry, codec)
    ensures ReconstructFetch(response, entry.lastModified, entry.bypass, codec) == Hit(entry)
  {
    FetchTagsRead(response, entry, codec);
    FetchFieldsRead(response, entry, codec);
    FetchReads(response, entry.value, entry.lastModified, entry.bypass, codec);
  }

  /** The parser on a response whose fetch headers read as those of `value`. */
  lemma FetchReads(response: Response, value: CacheValue, lastModified: Option<int>, bypass: bool, codec: Codec)
    requires value.Fetch? && response.body == value.body
    requires GetHeaderValue(response.headers, Name(FetchKind)) == Some("FETCH")
    requires GetHeaderValue(response.headers, Name(FetchDataUrl)) == Some(value.url)
    requires GetHeaderNumber(response.headers, FetchDataStatus, codec) == value.status
    requires GetHeaderTags(response.headers, FetchDataTags, codec) == TagsAsRead(value.dataTags)
    requires GetHeaderTags(response.headers, FetchTags, codec) == TagsAsRead(value.tags)
    requires GetHeaderRevalidate(response.headers, codec) == value.fetchRevalidate
    requires Prefixed(response.headers) == value.headers
    ensures ReconstructFetch(response, lastModified, bypass, codec) == Hit(Entry(value, lastModified, bypass))
  {
  }

  lemma ComposableRoundTrip(response: Response, entry: Entry, codec: Codec)
    requires Lawful(codec) && entry.value.Composable? && Says(response, entry, codec)
    ensures ReconstructComposable(response, entry.lastModified, entry.bypass, codec) == Hit(entry)
  {
    var value, headers := entry.value, response.headers;
    NumberReadBack(headers, ComposableStale, Some(value.stale), codec);
    NumberReadBack(headers, ComposableExpire, Some(value.expire), codec);
    NumberReadBack(headers, ComposableTimestamp, Some(value.timestamp), codec);
    NumberReadBack(headers, ComposableRevalidate, Some(value.seconds), codec);
    TagsReadBack(headers, ComposableTags, Some(value.cacheTags), codec);
  }

  lemma ContentRoundTrip(content: FileBody, codec: Codec)
    requires Lawful(codec)
    ensures ReadContent(SubTypeText(content), BodyText(File(CachedFile(content, None, Unset)), codec), codec)
         == Some(if content.Redirect? then Redirect(Some(PropsJson(content.props))) else content)
  {
    match content
    case Route(_) =>
    case Redirect(props) =>
      assert JsonReadsBack(codec, PropsJson(props));
    case Page(html, json) =>
      assert JsonReadsBack(codec, PageJson(html, json));
      assert "html"[0] != "json"[0];
    case App(html, rsc, segmentData) =>
      assert JsonReadsBack(codec, AppJson(html, rsc, segmentData));
      if segmentData.Some? { RecordJsonRoundTrip(segmentData.value); }
  }

  lemma MetaRoundTrip(headers: Headers, file: CachedFile, codec: Codec)
    requires Lawful(codec)
    requires GetHeaderValue(headers, Name(MetaStatus)) == IntText(MetaOf(file).status, codec)
    requires GetHeaderValue(headers, Name(MetaPostponed)) == MetaOf(file).postponed
    requires Prefixed(headers) == MetaOf(file).headers.GetOr(map[])
    ensures ReadMeta(headers, codec) == NormalMeta(file.meta)
  {
    NumberReadBack(headers, MetaStatus, MetaOf(file).status, codec);
  }

  lemma FileRoundTrip(response: Response, entry: Entry, codec: Codec)
    requires Lawful(codec) && entry.value.File? && Says(response, entry, codec)
    ensures ReconstructCachedFile(response, entry.lastModified, entry.bypass, codec) == Hit(Normal(entry))
  {
    var file := entry.value.file;
    assert GetHeaderValue(response.headers, Name(SubType)) == Some(SubTypeText(file.content));
    RevalidateReadBack(response.headers, file.revalidate, codec);
    MetaRoundTrip(response.headers, file, codec);
    ContentRoundTrip(file.content, codec);
  }

  /** Parsing a response that says an entry gives the entry back, up to the normalisation, whatever its kind. */
  lemma SaidIsHeard(response: Response, entry: Entry, codec: Codec)
    requires Lawful(codec) && Says(response, entry, codec)
    ensures ParseCacheGetResponse(response, codec) == Hit(Normal(entry))
  {
    NumberReadBack(response.headers, LastModified, entry.lastModified, codec);
    assert GetHeaderValue(response.headers, Name(CacheType)) == Text(entry, CacheType, codec);
    match entry.value
    case Fetch(_, _, _, _, _, _, _) => FetchRoundTrip(response, entry, codec);
    case Composable(_, _, _, _, _, _) => ComposableRoundTrip(response, entry, codec);
    case File(_) => FileRoundTrip(response, entry, codec);
  }

  /** The wire round trip: parsing what was built gives the normalised entry, for every entry of every kind. */
  lemma WireRoundTrip(entry: Entry, codec: Codec)
    requires Lawful(codec)
    ensures ParseCacheGetResponse(Printed(entry, codec), codec) == Hit(Normal(entry))
  {
    PrintedSays(entry, codec);
    SaidIsHeard(Printed(entry, codec), entry, codec);
  }
}
