/**
 packages/core/src/adapters/cache.ts: how a value Next.js caches is turned into a stored file and back, and what
 comes back after the whole way through the cache handler and the wire format.
 */
module NextCache {
  import opened Wrappers
  import opened CacheTypes
  import opened BinaryContent
  import opened TagCaches
  import H = CacheHandler
  import R = TagRuns
  import W = CacheWire

  newtype byte = x: int | 0 <= x < 256

  type Bytes = seq<byte>

  /** `Buffer.toString` and `Buffer.from` in the two encodings used, and which bytes are valid UTF-8. */
  datatype BufferCodec = BufferCodec(toUtf8: Bytes -> string, fromUtf8: string -> Bytes, isUtf8: Bytes -> bool,
                                     toBase64: Bytes -> string, fromBase64: string -> Bytes)

  /** Base64 gives all bytes back; text is always encoded as valid UTF-8, and valid UTF-8 is given back. */
  ghost predicate Lawful(buffers: BufferCodec) {
    && (forall b :: buffers.fromBase64(buffers.toBase64(b)) == b)
    && (forall s :: buffers.isUtf8(buffers.fromUtf8(s)))
    && (forall b :: buffers.isUtf8(b) ==> buffers.fromUtf8(buffers.toUtf8(b)) == b)
  }

  /** Other bytes are never given back. */
  lemma TextComesBackExactly(b: Bytes, buffers: BufferCodec)
    requires Lawful(buffers)
    ensures buffers.fromUtf8(buffers.toUtf8(b)) == b <==> buffers.isUtf8(b)
  {
    assert buffers.isUtf8(buffers.fromUtf8(buffers.toUtf8(b)));
  }

  /** The kinds of value that go to the incremental cache. A page whose data is a string is an app page. */
  datatype NextValue =
    | AppRoute(body: Bytes, status: Option<int>, headers: Option<Headers>)
    | Pages(html: string, pageData: Json, status: Option<int>, headers: Option<Headers>)
    | AppPage(html: string, rscData: Bytes, status: Option<int>, headers: Option<Headers>, postponed: Option<string>,
              segmentData: Option<map<string, Bytes>>)
    | RedirectTo(props: Json)

  const CONTENT_TYPE := "content-type"

  /** `isBinaryContentType(String(headers?.["content-type"]))` */
  function IsBinary(headers: Option<Headers>): bool {
    if headers.None? || CONTENT_TYPE !in headers.value then IsBinaryContentType("undefined")
    else
      match headers.value[CONTENT_TYPE]
      case One(text) => IsBinaryContentType(text)
      case Many(texts) => IsBinaryContentType(Join(texts))
  }

  /** The content type, an array printed with commas, is a listed type or begins with one and a semicolon. */
  ghost predicate HasBinaryType(headers: Option<Headers>) {
    && headers.Some? && "content-type" in headers.value
    && match headers.value["content-type"]
       case One(text) => NamesListed(text)
       case Many(texts) => NamesListed(Join(texts))
  }

  lemma IsBinaryExactly(headers: Option<Headers>)
    ensures IsBinary(headers) <==> HasBinaryType(headers)
  {
    UndefinedIsNotBinary();
    if headers.Some? && "content-type" in headers.value {
      match headers.value["content-type"]
      case One(text) => BinaryExactly(text);
      case Many(texts) => BinaryExactly(Join(texts));
    }
  }

  function EncodeSegments(segments: map<string, Bytes>, buffers: BufferCodec): map<string, string> {
    map path | path in segments :: buffers.toUtf8(segments[path])
  }

  function DecodeSegments(segments: map<string, string>, buffers: BufferCodec): map<string, Bytes> {
    map path | path in segments :: buffers.fromUtf8(segments[path])
  }

  /**
   `set` reads the headers of a route without a guard, and splits the tags header of a page as a string: a route
   without headers and a page whose tags header is an array make it throw, and nothing is stored.
   */
  predicate SetThrows(data: NextValue) {
    || (data.AppRoute? && data.headers.None?)
    || (data.Pages? && !data.pageData.JString? && data.headers.Some? && TAGS_HEADER in data.headers.value
        && data.headers.value[TAGS_HEADER].Many?)
  }

  function ToStored(data: NextValue, revalidate: Revalidate, buffers: BufferCodec): Option<CachedFile> {
    if SetThrows(data) then None else Some(FileOf(data, revalidate, buffers))
  }

  /** A route's body as it is kept, and as it is read back. */
  function RouteText(body: Bytes, headers: Option<Headers>, buffers: BufferCodec): string {
    if IsBinary(headers) then buffers.toBase64(body) else buffers.toUtf8(body)
  }

  function RouteBytes(text: string, headers: Option<Headers>, buffers: BufferCodec): Bytes {
    if IsBinary(headers) then buffers.fromBase64(text) else buffers.fromUtf8(text)
  }

  /** The file `set` stores when it does not throw. */
  function FileOf(data: NextValue, revalidate: Revalidate, buffers: BufferCodec): CachedFile {
    match data
    case AppRoute(body, status, headers) =>
      CachedFile(Route(RouteText(body, headers, buffers)), Some(Meta(status, headers, None)), revalidate)
    case Pages(html, pageData, status, headers) =>
      if pageData.JString? then CachedFile(App(html, pageData.s, None), Some(Meta(status, headers, None)), revalidate)
      else CachedFile(Page(html, pageData), None, revalidate)
    case AppPage(html, rscData, status, headers, postponed, segmentData) =>
      CachedFile(App(html, buffers.toUtf8(rscData),
                     if segmentData.Some? then Some(EncodeSegments(segmentData.value, buffers)) else None),
                 Some(Meta(status, headers, postponed)), revalidate)
    case RedirectTo(props) => CachedFile(Redirect(Some(props)), None, revalidate)
  }

  /** The tags `set` passes beside the file: only pages have them, since their headers are not stored. */
  function AdditionalTags(data: NextValue): seq<string> {
    if data.Pages? && !data.pageData.JString? && data.headers.Some? && TAGS_HEADER in data.headers.value
       && data.headers.value[TAGS_HEADER].One?
    then SplitCommas(data.headers.value[TAGS_HEADER].text)
    else []
  }

  /** The value `getIncrementalCache` makes of a stored file. */
  function FromStored(file: CachedFile, buffers: BufferCodec): NextValue {
    var meta := file.meta.GetOr(Meta(None, None, None));
    match file.content
    case Route(body) =>
      AppRoute(RouteBytes(body, meta.headers, buffers), meta.status, meta.headers)
    case App(html, rsc, segmentData) =>
      AppPage(html, buffers.fromUtf8(rsc), meta.status, meta.headers, meta.postponed,
              Some(if segmentData.Some? then DecodeSegments(segmentData.value, buffers) else map[]))
    case Page(html, json) => Pages(html, json, meta.status, meta.headers)
    case Redirect(props) => RedirectTo(W.PropsJson(props))
  }

  /** The loop of `set` over the segments of an app page. */
  method SegmentsToWrite(segmentData: map<string, Bytes>, buffers: BufferCodec)
      returns (segmentToWrite: map<string, string>)
    ensures segmentToWrite == EncodeSegments(segmentData, buffers)
  {
    segmentToWrite := map[];
    var paths := segmentData.Keys;
    while paths != {}
      invariant paths <= segmentData.Keys
      invariant var read := map path | path in segmentData && path !in paths :: segmentData[path];
                segmentToWrite == EncodeSegments(read, buffers)
      decreases |paths|
    {
      var path :| path in paths;
      segmentToWrite := segmentToWrite[path := buffers.toUtf8(segmentData[path])];
      paths := paths - {path};
    }
    assert (map path | path in segmentData && path !in paths :: segmentData[path]) == segmentData;
  }

  /** The loop of `getIncrementalCache` over the stored segments. */
  method SegmentsRead(stored: map<string, string>, buffers: BufferCodec) returns (segmentData: map<string, Bytes>)
    ensures segmentData == DecodeSegments(stored, buffers)
  {
    segmentData := map[];
    var paths := stored.Keys;
    while paths != {}
      invariant paths <= stored.Keys
      invariant segmentData == DecodeSegments(map path | path in stored && path !in paths :: stored[path], buffers)
      decreases |paths|
    {
      var path :| path in paths;
      segmentData := segmentData[path := buffers.fromUtf8(stored[path])];
      paths := paths - {path};
    }
    assert (map path | path in stored && path !in paths :: stored[path]) == stored;
  }

  // ---- The whole way

  /** Headers as they come back: without the readable tags header, and `undefined` when nothing is left. */
  function HeadersBack(headers: Option<Headers>): Option<Headers> {
    if headers.None? then None
    else
      var kept := if TAGS_HEADER in headers.value && headers.value[TAGS_HEADER].One?
                  then headers.value - {TAGS_HEADER} else headers.value;
      if kept == map[] then None else Some(kept)
  }

  /** They differ from the given ones in the readable tags header only. */
  lemma HeadersBackMeans(headers: Headers, name: string)
    ensures var back := HeadersBack(Some(headers)).GetOr(map[]);
            && (name in back <==> name in headers && !(name == "x-next-cache-tags" && headers[name].One?))
            && (name in back ==> back[name] == headers[name])
    ensures HeadersBack(None) == None
  {
  }

  /** What Next.js receives when the handler answers a get with this file: printed, parsed and converted. */
  function Received(file: CachedFile, lastModified: nat, codec: W.Codec, buffers: BufferCodec): Option<NextValue> {
    match W.ParseCacheGetResponse(W.Printed(W.Entry(W.File(file), Some(lastModified), false), codec), codec)
    case Hit(back) => if back.value.File? then Some(FromStored(back.value.file, buffers)) else None
    case _ => None
  }

  /** Stored, stripped by the handler and sent back; `None` when nothing was stored. */
  function ThereAndBack(data: NextValue, revalidate: Revalidate, lastModified: nat, codec: W.Codec,
                        buffers: BufferCodec)
    : Option<NextValue>
  {
    match ToStored(data, revalidate, buffers)
    case None => None
    case Some(file) => Received(Stripped(file), lastModified, codec, buffers)
  }

  lemma BackIsNormal(data: NextValue, revalidate: Revalidate, lastModified: nat, codec: W.Codec, buffers: BufferCodec)
    requires W.Lawful(codec) && !SetThrows(data)
    ensures var entry := W.Entry(W.File(Stripped(FileOf(data, revalidate, buffers))), Some(lastModified), false);
            ThereAndBack(data, revalidate, lastModified, codec, buffers)
            == Some(FromStored(W.Normal(entry).value.file, buffers))
  {
    W.WireRoundTrip(W.Entry(W.File(Stripped(FileOf(data, revalidate, buffers))), Some(lastModified), false), codec);
  }

  lemma ContentTypeSurvives(headers: Option<Headers>)
    ensures IsBinary(HeadersBack(headers)) == IsBinary(headers)
  {
    assert CONTENT_TYPE[0] != TAGS_HEADER[0];
    if headers.Some? {
      var kept := if TAGS_HEADER in headers.value && headers.value[TAGS_HEADER].One?
                  then headers.value - {TAGS_HEADER} else headers.value;
      assert CONTENT_TYPE in kept <==> CONTENT_TYPE in headers.value;
      if kept == map[] { assert CONTENT_TYPE !in kept; }
    }
  }

  lemma MetaSurvives(content: FileBody, status: Option<int>, headers: Option<Headers>, postponed: Option<string>,
                     revalidate: Revalidate)
    ensures var file := CachedFile(content, Some(Meta(status, headers, postponed)), revalidate);
            && Stripped(file).content == content
            && W.NormalMeta(Stripped(file).meta).GetOr(Meta(None, None, None)) ==
                Meta(status, HeadersBack(headers), postponed)
  {
  }

  /**
   A route is stored exactly when it has headers. Then it comes back with its status and headers, and with its
   body exactly when the content type is binary or the body is valid UTF-8.
   */
  lemma RouteComesBack(data: NextValue, revalidate: Revalidate, lastModified: nat, codec: W.Codec, buffers: BufferCodec)
    requires W.Lawful(codec) && Lawful(buffers) && data.AppRoute?
    ensures var back := ThereAndBack(data, revalidate, lastModified, codec, buffers);
            if data.headers.None? then back.None?
            else
              && back.Some? && back.value.AppRoute?
              && back.value.status == data.status && back.value.headers == HeadersBack(data.headers)
              && (back.value.body == data.body <==> HasBinaryType(data.headers) || buffers.isUtf8(data.body))
  {
    if data.headers.None? { return; }
    IsBinaryExactly(data.headers);
    RouteIsConverted(data, revalidate, lastModified, codec, buffers);
    RouteReads(data.body, data.headers, buffers);
  }

  lemma RouteIsConverted(data: NextValue, revalidate: Revalidate, lastModified: nat, codec: W.Codec,
                         buffers: BufferCodec)
    requires W.Lawful(codec) && data.AppRoute? && data.headers.Some?
    ensures var body := RouteBytes(RouteText(data.body, data.headers, buffers), HeadersBack(data.headers), buffers);
            ThereAndBack(data, revalidate, lastModified, codec, buffers)
            == Some(AppRoute(body, data.status, HeadersBack(data.headers)))
  {
    BackIsNormal(data, revalidate, lastModified, codec, buffers);
    MetaSurvives(FileOf(data, revalidate, buffers).content, data.status, data.headers, None, revalidate);
  }

  lemma RouteReads(body: Bytes, headers: Option<Headers>, buffers: BufferCodec)
    requires Lawful(buffers)
    ensures RouteBytes(RouteText(body, headers, buffers), HeadersBack(headers), buffers) == body <==>
            IsBinary(headers) || buffers.isUtf8(body)
  {
    ContentTypeSurvives(headers);
    TextComesBackExactly(body, buffers);
    assert buffers.fromBase64(buffers.toBase64(body)) == body;
  }

  /**
   An app page comes back whole exactly when its RSC data and all its segments are valid UTF-8; no segments become
   none.
   */
  lemma AppPageComesBack(data: NextValue, revalidate: Revalidate, lastModified: nat, codec: W.Codec,
                         buffers: BufferCodec)
    requires W.Lawful(codec) && Lawful(buffers) && data.AppPage?
    ensures var segments := data.segmentData.GetOr(map[]);
            ThereAndBack(data, revalidate, lastModified, codec, buffers)
            == Some(AppPage(data.html, data.rscData, data.status, HeadersBack(data.headers), data.postponed,
                            Some(segments)))
            <==> buffers.isUtf8(data.rscData) && forall path :: path in segments ==> buffers.isUtf8(segments[path])
  {
    BackIsNormal(data, revalidate, lastModified, codec, buffers);
    MetaSurvives(FileOf(data, revalidate, buffers).content, data.status, data.headers, data.postponed, revalidate);
    var segments := data.segmentData.GetOr(map[]);
    SegmentsComeBack(segments, buffers);
    TextComesBackExactly(data.rscData, buffers);
    var stored := FileOf(data, revalidate, buffers).content.segmentData;
    assert (if stored.Some? then DecodeSegments(stored.value, buffers) else map[])
        == DecodeSegments(EncodeSegments(segments, buffers), buffers);
  }

  lemma SegmentsComeBack(segments: map<string, Bytes>, buffers: BufferCodec)
    requires Lawful(buffers)
    ensures DecodeSegments(EncodeSegments(segments, buffers), buffers) == segments <==>
            forall path :: path in segments ==> buffers.isUtf8(segments[path])
  {
    var back := DecodeSegments(EncodeSegments(segments, buffers), buffers);
    assert back.Keys == segments.Keys;
    forall path | path in segments ensures back[path] == segments[path] <==> buffers.isUtf8(segments[path]) {
      TextComesBackExactly(segments[path], buffers);
    }
    if back == segments {
      forall path | path in segments ensures buffers.isUtf8(segments[path]) { assert back[path] == segments[path]; }
    }
  }

  /**
   A page comes back with html and data; its status and headers are not stored. String data comes back as an app
   page. A page whose tags header is an array is not stored.
   */
  lemma PagesComeBack(data: NextValue, revalidate: Revalidate, lastModified: nat, codec: W.Codec, buffers: BufferCodec)
    requires W.Lawful(codec) && data.Pages?
    ensures ThereAndBack(data, revalidate, lastModified, codec, buffers) ==
            if data.pageData.JString?
            then Some(AppPage(data.html, buffers.fromUtf8(data.pageData.s), data.status, HeadersBack(data.headers),
                              None, Some(map[])))
            else if data.headers.Some? && "x-next-cache-tags" in data.headers.value
                 && data.headers.value["x-next-cache-tags"].Many? then None
            else Some(Pages(data.html, data.pageData, None, None))
  {
    if SetThrows(data) { return; }
    BackIsNormal(data, revalidate, lastModified, codec, buffers);
    MetaSurvives(FileOf(data, revalidate, buffers).content, data.status, data.headers, None, revalidate);
  }

  lemma RedirectComesBack(data: NextValue, revalidate: Revalidate, lastModified: nat, codec: W.Codec,
                          buffers: BufferCodec)
    requires W.Lawful(codec) && data.RedirectTo?
    ensures ThereAndBack(data, revalidate, lastModified, codec, buffers) ==
            Some(RedirectTo(if data.props == JNull then JObject(map[]) else data.props))
  {
    BackIsNormal(data, revalidate, lastModified, codec, buffers);
  }

  /** The revalidation time given to `set` reaches the reader of the response, unless there is none. */
  lemma RevalidateComesBack(data: NextValue, revalidate: Revalidate, lastModified: nat, codec: W.Codec,
                            buffers: BufferCodec)
    requires W.Lawful(codec) && !SetThrows(data)
    ensures var entry := W.Entry(W.File(Stripped(FileOf(data, revalidate, buffers))), Some(lastModified), false);
            var heard := W.ParseCacheGetResponse(W.Printed(entry, codec), codec);
            && heard.Hit? && heard.entry.value.File? && heard.entry.value.file.revalidate == revalidate
            && heard.entry.lastModified == Some(lastModified) && !heard.entry.bypass
  {
    W.WireRoundTrip(W.Entry(W.File(Stripped(FileOf(data, revalidate, buffers))), Some(lastModified), false), codec);
  }

  // ---- The tags a value carries

  /** The headers of the value name these tags. */
  ghost predicate CarriesTags(data: NextValue, tags: seq<string>) {
    && !data.RedirectTo? && tags != [] && CommaFree(tags)
    && data.headers.Some? && "x-next-cache-tags" in data.headers.value
    && data.headers.value["x-next-cache-tags"] == One(Join(tags))
  }

  lemma CarriedTagsAreSet(data: NextValue, revalidate: Revalidate, buffers: BufferCodec, tags: seq<string>)
    requires CarriesTags(data, tags)
    ensures AdditionalTags(data) + TagsOf(FileOf(data, revalidate, buffers)) == tags
    ensures IsPlainPage(data) ==> TagsOf(FileOf(data, revalidate, buffers)) == []
    ensures !IsPlainPage(data) ==> HasTagsHeader(FileOf(data, revalidate, buffers), tags)
  {
    SplitOfCommaJoin(tags);
    if !IsPlainPage(data) { TagsOfHeader(FileOf(data, revalidate, buffers), tags); }
  }

  predicate IsPlainPage(data: NextValue) {
    data.Pages? && !data.pageData.JString?
  }

  /**
   A later revalidation of any tag in the value's own headers: the original mode refuses every kind of value from then
   on; the nextMode refuses all but pages, whose headers are not stored, and goes on serving those.
   */
  lemma OwnTagRefuses(t: R.Trace, i: int, k: int, j: int, key: string, data: NextValue, revalidate: Revalidate,
                      buffers: BufferCodec, tags: seq<string>, tag: string)
    requires R.IsRun(t, 1) && R.LastSet(t, i, j, key) && i < k < j && !SetThrows(data)
    requires t.ops[i] == H.Set(key, AdditionalTags(data), FileOf(data, revalidate, buffers))
    requires CarriesTags(data, tags) && |tags| <= 100
    requires t.ops[k].RevalidateTags? && tag in tags && tag in t.ops[k].tags
    ensures H.GetAnswer(t.states[j], H.OriginalMode, key, []).Revalidated?
    ensures H.GetAnswer(t.states[j], H.NextMode, key, []).Revalidated? <==> !IsPlainPage(data)
    ensures IsPlainPage(data) ==> H.GetAnswer(t.states[j], H.NextMode, key, []).Hit?
  {
    var file := FileOf(data, revalidate, buffers);
    CarriedTagsAreSet(data, revalidate, buffers, tags);
    assert [] + TagsOf(file) == TagsOf(file);
    assert R.Names(t.ops[k], tags);
    R.NamedIsTouched(t, 1, i, j, k, key, tags);
    R.ServedUntilTouched(t, i, j, key, []);
    R.ServedUntilNamed(t, i, j, key, []);
  }

  // ---- All kinds of value together

  /** What ought to come back: the value without the tags header; a page has lost its status and headers. */
  function Returned(data: NextValue, buffers: BufferCodec): NextValue {
    match data
    case AppRoute(body, status, headers) => AppRoute(body, status, HeadersBack(headers))
    case Pages(html, pageData, status, headers) =>
      if pageData.JString?
      then AppPage(html, buffers.fromUtf8(pageData.s), status, HeadersBack(headers), None, Some(map[]))
      else Pages(html, pageData, None, None)
    case AppPage(html, rscData, status, headers, postponed, segmentData) =>
      AppPage(html, rscData, status, HeadersBack(headers), postponed, Some(segmentData.GetOr(map[])))
    case RedirectTo(props) => RedirectTo(if props == JNull then JObject(map[]) else props)
  }

  /** The bytes of the value survive their encoding. */
  ghost predicate Encodable(data: NextValue, buffers: BufferCodec) {
    match data
    case AppRoute(body, _, headers) => HasBinaryType(headers) || buffers.isUtf8(body)
    case AppPage(_, rscData, _, _, _, segmentData) =>
      buffers.isUtf8(rscData)
      && forall path :: path in segmentData.GetOr(map[]) ==> buffers.isUtf8(segmentData.GetOr(map[])[path])
    case _ => true
  }

  /** Any value comes back exactly when storing it does not throw and its bytes survive their encoding. */
  lemma ValueComesBackExactly(data: NextValue, revalidate: Revalidate, lastModified: nat, codec: W.Codec,
                              buffers: BufferCodec)
    requires W.Lawful(codec) && Lawful(buffers)
    ensures ThereAndBack(data, revalidate, lastModified, codec, buffers) == Some(Returned(data, buffers)) <==>
            !SetThrows(data) && Encodable(data, buffers)
  {
    match data
    case AppRoute(_, _, _) => RouteComesBack(data, revalidate, lastModified, codec, buffers);
    case AppPage(_, _, _, _, _, _) => AppPageComesBack(data, revalidate, lastModified, codec, buffers);
    case Pages(_, _, _, _) => PagesComeBack(data, revalidate, lastModified, codec, buffers);
    case RedirectTo(_) => RedirectComesBack(data, revalidate, lastModified, codec, buffers);
  }

  /** Nothing since the set makes a get of the file in this mode be refused. */
  ghost predicate StillServed(t: R.Trace, i: int, j: int, key: string, file: CachedFile, mode: H.Mode)
    requires 0 <= i < j <= |t.ops| < |t.states|
  {
    match mode
    case OriginalMode => !R.TouchedBetween(t, i, j, key)
    case NextMode => !R.NamedBetween(t, i, j, TagsOf(file)) && |TagsOf(file)| <= MAX_TAGS_PER_QUERY
  }

  /**
   End to end, in both modes: after any run in which `data` was the last value set for `key` and which still serves it,
   a get is a hit, and what Next.js receives through handler, wire format and parser is the value, exactly when its
   bytes survive their encoding.
   */
  lemma SetThenGet(t: R.Trace, i: int, j: int, key: string, data: NextValue, revalidate: Revalidate, mode: H.Mode,
                   codec: W.Codec, buffers: BufferCodec)
    requires W.Lawful(codec) && Lawful(buffers)
    requires R.IsRun(t, 1) && R.LastSet(t, i, j, key) && !SetThrows(data)
    requires t.ops[i] == H.Set(key, AdditionalTags(data), FileOf(data, revalidate, buffers))
    requires StillServed(t, i, j, key, FileOf(data, revalidate, buffers), mode)
    ensures var answer := H.GetAnswer(t.states[j], mode, key, []);
            && answer.Hit?
            && (Received(answer.value, answer.lastModified, codec, buffers) == Some(Returned(data, buffers)) <==>
                Encodable(data, buffers))
  {
    var file := FileOf(data, revalidate, buffers);
    assert [] + TagsOf(file) == TagsOf(file);
    if mode.OriginalMode? {
      R.ServedUntilTouched(t, i, j, key, []);
    } else {
      R.ServedUntilNamed(t, i, j, key, []);
    }
    ValueComesBackExactly(data, revalidate, t.states[j].entries[key].lastModified, codec, buffers);
  }
}
