/**
 Values handed to and stored by the caches (packages/core/src/types/overrides.ts and cache.ts).
 A JavaScript property that may be `undefined` is an `Option`; a record is a `map`.
 */
module CacheTypes {
  import opened Wrappers

  datatype Json =
    | JNull
    | JBool(b: bool)
    | JNumber(n: int)
    | JString(s: string)
    | JArray(items: seq<Json>)
    | JObject(fields: map<string, Json>)

  datatype HeaderValue = One(text: string) | Many(texts: seq<string>)

  type Headers = map<string, HeaderValue>

  datatype Meta = Meta(status: Option<int>, headers: Option<Headers>, postponed: Option<string>)

  /** `revalidate?: number | false` */
  datatype Revalidate = Unset | Never | Every(seconds: int)

  datatype FileBody =
    | Redirect(props: Option<Json>)
    | Page(html: string, json: Json)
    | App(html: string, rsc: string, segmentData: Option<map<string, string>>)
    | Route(body: string)

  datatype CachedFile = CachedFile(content: FileBody, meta: Option<Meta>, revalidate: Revalidate)

  const TAGS_HEADER := "x-next-cache-tags"

  /** The texts joined by commas, as `toString` of an array and a list-valued header print them. */
  function Join(parts: seq<string>): string {
    if parts == [] then ""
    else if |parts| == 1 then parts[0]
    else parts[0] + "," + Join(parts[1..])
  }

  /** `s.split(",")` */
  function SplitCommas(s: string): (parts: seq<string>)
    ensures |parts| > 0
  {
    if s == "" then [""]
    else
      var rest := SplitCommas(s[1..]);
      if s[0] == ',' then [""] + rest else [[s[0]] + rest[0]] + rest[1..]
  }

  predicate CommaFree(parts: seq<string>) {
    forall i :: 0 <= i < |parts| ==> ',' !in parts[i]
  }

  /** What the split is: no piece holds a comma, and the pieces joined by commas give the text. */
  lemma {:induction false} SplitCommasMeaning(s: string)
    ensures CommaFree(SplitCommas(s)) && Join(SplitCommas(s)) == s
  {
    if s != "" {
      SplitCommasMeaning(s[1..]);
      var rest := SplitCommas(s[1..]);
      if s[0] == ',' {
        assert ([""] + rest)[1..] == rest;
      } else if |rest| > 1 {
        assert ([[s[0]] + rest[0]] + rest[1..])[1..] == rest[1..];
      }
    }
  }

  lemma {:induction false} SplitCommasWhole(p: string)
    requires ',' !in p
    ensures SplitCommas(p) == [p]
  {
    if p != "" {
      SplitCommasWhole(p[1..]);
      assert p[0] in p && [p[0]] + p[1..] == p;
      assert [p[1..]][1..] == [];
    }
  }

  lemma {:induction false} SplitCommasFirst(p: string, rest: string)
    requires ',' !in p
    ensures SplitCommas(p + "," + rest) == [p] + SplitCommas(rest)
  {
    var s := p + "," + rest;
    if p == "" {
      assert s[1..] == rest;
    } else {
      SplitCommasFirst(p[1..], rest);
      assert s[0] == p[0] && s[1..] == p[1..] + "," + rest;
      assert [p[0]] + p[1..] == p;
      assert ([p[1..]] + SplitCommas(rest))[1..] == SplitCommas(rest);
    }
  }

  lemma {:induction false} SplitOfCommaJoin(parts: seq<string>)
    requires parts != [] && CommaFree(parts)
    ensures SplitCommas(Join(parts)) == parts
  {
    if |parts| == 1 {
      SplitCommasWhole(parts[0]);
    } else {
      SplitOfCommaJoin(parts[1..]);
      SplitCommasFirst(parts[0], Join(parts[1..]));
    }
  }

  /** The two conditions of `SplitCommasMeaning` leave one list. */
  lemma SplitCommasUnique(s: string, parts: seq<string>)
    requires parts != [] && CommaFree(parts) && Join(parts) == s
    ensures SplitCommas(s) == parts
  {
    SplitOfCommaJoin(parts);
  }

  /** The headers of an entry, when both `meta` and `meta.headers` are defined. */
  function HeadersOf(file: CachedFile): Option<Headers> {
    if file.meta.Some? then file.meta.value.headers else None
  }

  function WithHeaders(file: CachedFile, headers: Headers): CachedFile
    requires file.meta.Some?
  {
    file.(meta := Some(file.meta.value.(headers := Some(headers))))
  }

  /** The tags `getTagsFromValue` returns: an array-valued header makes `split` throw, which is swallowed. */
  function TagsOf(file: CachedFile): seq<string> {
    var headers := HeadersOf(file);
    if headers.Some? && TAGS_HEADER in headers.value && headers.value[TAGS_HEADER].One?
    then SplitCommas(headers.value[TAGS_HEADER].text)
    else []
  }

  /** What `getTagsFromValue` leaves of the entry: the tags header is deleted unless `split` threw first. */
  function Stripped(file: CachedFile): CachedFile {
    var headers := HeadersOf(file);
    if headers.Some? && TAGS_HEADER in headers.value && headers.value[TAGS_HEADER].One?
    then WithHeaders(file, headers.value - {TAGS_HEADER})
    else file
  }

  /** The entry carries these tags in its tags header, as Next.js writes them. */
  ghost predicate HasTagsHeader(file: CachedFile, tags: seq<string>) {
    && tags != [] && CommaFree(tags)
    && file.meta.Some? && file.meta.value.headers.Some?
    && "x-next-cache-tags" in file.meta.value.headers.value
    && file.meta.value.headers.value["x-next-cache-tags"] == One(Join(tags))
  }

  lemma TagsOfHeader(file: CachedFile, tags: seq<string>)
    requires HasTagsHeader(file, tags)
    ensures TagsOf(file) == tags
  {
    SplitOfCommaJoin(tags);
  }

  /** A stripped entry never leaks a tags header that was readable, and a second strip finds no tags. */
  lemma StrippedHasNoTags(file: CachedFile)
    ensures TagsOf(Stripped(file)) == []
    ensures Stripped(Stripped(file)) == Stripped(file)
    ensures Stripped(file).content == file.content && Stripped(file).revalidate == file.revalidate
    ensures forall name :: HeadersOf(file).Some? && name in HeadersOf(file).value && name != TAGS_HEADER ==>
              HeadersOf(Stripped(file)).Some? && name in HeadersOf(Stripped(file)).value
              && HeadersOf(Stripped(file)).value[name] == HeadersOf(file).value[name]
  {
  }
}
