/**
 The header names of a cache GET response and what can be read back from a response that carries control headers
 and prefixed user headers side by side (packages/core/src/adapters/cache-handler.ts, utils/cache-get.ts).
 */
module WireHeaders {
  import opened Wrappers
  import opened CacheTypes

  datatype Control =
    | CacheControl | ContentType | Found | LastModified | ShouldBypass | CacheType | Revalidated
    | FetchKind | FetchDataUrl | FetchDataStatus | FetchDataTags | FetchTags
    | SubType | MetaStatus | MetaPostponed
    | ComposableStale | ComposableExpire | ComposableTimestamp | ComposableRevalidate | ComposableTags

  function Name(c: Control): string {
    match c
    case CacheControl => "Cache-Control"
    case ContentType => "Content-Type"
    case Found => "x-opennext-cache-found"
    case LastModified => "x-opennext-cache-last-modified"
    case ShouldBypass => "x-opennext-cache-should-bypass"
    case CacheType => "x-opennext-cache-type"
    case Revalidated => "x-opennext-cache-revalidate"
    case FetchKind => "x-opennext-cache-fetch-kind"
    case FetchDataUrl => "x-opennext-cache-fetch-data-url"
    case FetchDataStatus => "x-opennext-cache-fetch-data-status"
    case FetchDataTags => "x-opennext-cache-fetch-data-tags"
    case FetchTags => "x-opennext-cache-fetch-tags"
    case SubType => "x-opennext-cache-sub-type"
    case MetaStatus => "x-opennext-cache-meta-status"
    case MetaPostponed => "x-opennext-cache-meta-postponed"
    case ComposableStale => "x-opennext-cache-composable-stale"
    case ComposableExpire => "x-opennext-cache-composable-expire"
    case ComposableTimestamp => "x-opennext-cache-composable-timestamp"
    case ComposableRevalidate => "x-opennext-cache-composable-revalidate"
    case ComposableTags => "x-opennext-cache-composable-tags"
  }

  const USER_PREFIX := "x-opennext-cache-header-"

  /** Tells the control names apart by their length and, where two have the same, one character. */
  function ControlOf(name: string): Control {
    match |name|
    case 13 => CacheControl
    case 12 => ContentType
    case 22 => Found
    case 30 => if name[17] == 'l' then LastModified else ShouldBypass
    case 21 => CacheType
    case 27 => if name[17] == 'r' then Revalidated else if name[23] == 'k' then FetchKind else FetchTags
    case 31 => if name[17] == 'f' then FetchDataUrl else MetaPostponed
    case 34 => if name[17] == 'f' then FetchDataStatus else ComposableExpire
    case 32 => if name[17] == 'f' then FetchDataTags else ComposableTags
    case 25 => SubType
    case 28 => MetaStatus
    case 33 => ComposableStale
    case 37 => ComposableTimestamp
    case _ => ComposableRevalidate
  }

  lemma NamesAreDistinct(c: Control)
    ensures ControlOf(Name(c)) == c
  {
    if c.FetchKind? || c.FetchDataUrl? || c.FetchDataStatus? || c.FetchDataTags? || c.FetchTags? {
      FetchNamesAreDistinct(c);
    } else if c.ComposableStale? || c.ComposableExpire? || c.ComposableTimestamp? || c.ComposableRevalidate?
        || c.ComposableTags? {
      ComposableNamesAreDistinct(c);
    } else {
      CommonNamesAreDistinct(c);
    }
  }

  lemma FetchNamesAreDistinct(c: Control)
    requires c.FetchKind? || c.FetchDataUrl? || c.FetchDataStatus? || c.FetchDataTags? || c.FetchTags?
    ensures ControlOf(Name(c)) == c
  {
  }

  lemma ComposableNamesAreDistinct(c: Control)
    requires c.ComposableStale? || c.ComposableExpire? || c.ComposableTimestamp? || c.ComposableRevalidate?
        || c.ComposableTags?
    ensures ControlOf(Name(c)) == c
  {
  }

  lemma CommonNamesAreDistinct(c: Control)
    requires c.CacheControl? || c.ContentType? || c.Found? || c.LastModified? || c.ShouldBypass? || c.CacheType?
             || c.Revalidated? || c.SubType? || c.MetaStatus? || c.MetaPostponed?
    ensures ControlOf(Name(c)) == c
  {
  }

  /** No control header can be taken for a user header. */
  lemma NoControlHasUserPrefix(c: Control)
    ensures !(USER_PREFIX <= Name(c))
  {
    var n, p := Name(c), USER_PREFIX;
    if |n| >= |p| {
      assert n[17] != p[17];
    }
  }

  // ---- A header record with control values `m` and user headers `user`

  function ControlNames(m: map<Control, string>): set<string> {
    set c | c in m :: Name(c)
  }

  function UserNames(user: Headers): set<string> {
    set key | key in user :: USER_PREFIX + key
  }

  /** Reads a user name back. */
  lemma UserNameParts(key: string)
    ensures USER_PREFIX <= USER_PREFIX + key && (USER_PREFIX + key)[|USER_PREFIX|..] == key
  {
  }

  function ValueAt(m: map<Control, string>, user: Headers, name: string): HeaderValue
    requires name in ControlNames(m) + UserNames(user)
  {
    if USER_PREFIX <= name then
      NotAControlName(m, name);
      var key := name[|USER_PREFIX|..];
      assert name in UserNames(user);
      assert key in user by { var k :| k in user && USER_PREFIX + k == name; UserNameParts(k); }
      user[key]
    else
      assert name in ControlNames(m) by { NotAUserName(user, name); }
      assert ControlOf(name) in m by { var c :| c in m && Name(c) == name; NamesAreDistinct(c); }
      One(m[ControlOf(name)])
  }

  lemma NotAControlName(m: map<Control, string>, name: string)
    requires USER_PREFIX <= name
    ensures name !in ControlNames(m)
  {
    if c :| c in m && Name(c) == name { NoControlHasUserPrefix(c); }
  }

  lemma NotAUserName(user: Headers, name: string)
    requires !(USER_PREFIX <= name)
    ensures name !in UserNames(user)
  {
    if k :| k in user && USER_PREFIX + k == name { UserNameParts(k); }
  }

  function Render(m: map<Control, string>, user: Headers): Headers {
    map name | name in ControlNames(m) + UserNames(user) :: ValueAt(m, user, name)
  }

  /** A control header is there exactly when its control is, with its value. */
  lemma ReadControl(m: map<Control, string>, user: Headers, c: Control)
    ensures Name(c) in Render(m, user) <==> c in m
    ensures c in m ==> Render(m, user)[Name(c)] == One(m[c])
  {
    NoControlHasUserPrefix(c);
    NotAUserName(user, Name(c));
    NamesAreDistinct(c);
    if d :| d in m && Name(d) == Name(c) { NamesAreDistinct(d); }
  }

  /** Likewise for user headers. */
  lemma ReadUser(m: map<Control, string>, user: Headers, key: string)
    ensures USER_PREFIX + key in Render(m, user) <==> key in user
    ensures key in user ==> Render(m, user)[USER_PREFIX + key] == user[key]
  {
    UserNameParts(key);
    NotAControlName(m, USER_PREFIX + key);
    if k :| k in user && USER_PREFIX + k == USER_PREFIX + key { UserNameParts(k); }
  }

  lemma RenderedNames(m: map<Control, string>, user: Headers, name: string)
    requires name in Render(m, user)
    ensures (exists c :: c in m && name == Name(c)) || (exists key :: key in user && name == USER_PREFIX + key)
  {
  }

  /** Setting a control header is setting the control. */
  lemma RenderControl(m: map<Control, string>, user: Headers, c: Control, value: string)
    ensures Render(m, user)[Name(c) := One(value)] == Render(m[c := value], user)
  {
    var a, b := Render(m, user)[Name(c) := One(value)], Render(m[c := value], user);
    forall name | name in a.Keys + b.Keys
      ensures name in a && name in b && a[name] == b[name]
    {
      if name in a && name != Name(c) { RenderedNames(m, user, name); }
      if name in b { RenderedNames(m[c := value], user, name); }
      ReadControl(m[c := value], user, c);
      if d :| name == Name(d) {
        ReadControl(m, user, d);
        ReadControl(m[c := value], user, d);
        NamesAreDistinct(c);
        NamesAreDistinct(d);
      }
      if key :| name == USER_PREFIX + key {
        ReadUser(m, user, key);
        ReadUser(m[c := value], user, key);
        UserNameParts(key);
        NoControlHasUserPrefix(c);
      }
    }
    assert a.Keys == b.Keys;
  }

  /** Setting a prefixed header is setting the user header. */
  lemma RenderUser(m: map<Control, string>, user: Headers, key: string, value: HeaderValue)
    ensures Render(m, user)[USER_PREFIX + key := value] == Render(m, user[key := value])
  {
    var a, b := Render(m, user)[USER_PREFIX + key := value], Render(m, user[key := value]);
    forall name | name in a.Keys + b.Keys
      ensures name in a && name in b && a[name] == b[name]
    {
      if name in a && name != USER_PREFIX + key { RenderedNames(m, user, name); }
      if name in b { RenderedNames(m, user[key := value], name); }
      ReadUser(m, user[key := value], key);
      if d :| name == Name(d) {
        ReadControl(m, user, d);
        ReadControl(m, user[key := value], d);
        NoControlHasUserPrefix(d);
        UserNameParts(key);
      }
      if k :| name == USER_PREFIX + k {
        ReadUser(m, user, k);
        ReadUser(m, user[key := value], k);
        UserNameParts(key);
        UserNameParts(k);
      }
    }
    assert a.Keys == b.Keys;
  }

  // ---- Reading a response

  /** `getHeaderValue` */
  function GetHeaderValue(headers: Headers, name: string): Option<string> {
    if name !in headers then None
    else
      match headers[name]
      case One(text) => Some(text)
      case Many(texts) => if texts == [] then None else Some(texts[0])
  }

  function Suffixes(headers: Headers): set<string> {
    set name | name in headers && USER_PREFIX <= name :: name[|USER_PREFIX|..]
  }

  function Prefixed(headers: Headers): Headers {
    map key | key in Suffixes(headers) && USER_PREFIX + key in headers :: headers[USER_PREFIX + key]
  }

  lemma SuffixOf(headers: Headers, key: string)
    ensures key in Suffixes(headers) <==> USER_PREFIX + key in headers
  {
    UserNameParts(key);
    if name :| name in headers && USER_PREFIX <= name && name[|USER_PREFIX|..] == key {
      assert name == USER_PREFIX + key;
    }
    if USER_PREFIX + key in headers {
      var name := USER_PREFIX + key;
      assert name in headers && USER_PREFIX <= name && name[|USER_PREFIX|..] == key;
    }
  }

  /** `collectPrefixedHeaders` with the user prefix. */
  method CollectPrefixedHeaders(headers: Headers) returns (result: Headers)
    ensures result == Prefixed(headers)
  {
    result := map[];
    var names := headers.Keys;
    while names != {}
      invariant names <= headers.Keys
      invariant forall key :: key in result <==> USER_PREFIX + key in headers.Keys - names
      invariant forall key :: key in result ==> result[key] == headers[USER_PREFIX + key]
      decreases |names|
    {
      var name :| name in names;
      if USER_PREFIX <= name {
        var originalName := name[|USER_PREFIX|..];
        assert USER_PREFIX + originalName == name;
        result := result[originalName := headers[name]];
      }
      names := names - {name};
      forall key
        ensures key in result <==> USER_PREFIX + key in headers.Keys - names
      {
        UserNameParts(key);
      }
    }
    forall key
      ensures key in Prefixed(headers) <==> key in result
    {
      SuffixOf(headers, key);
    }
  }

  /** User headers are recovered exactly, whatever control headers travel with them. */
  lemma PrefixedOfRender(m: map<Control, string>, user: Headers)
    ensures Prefixed(Render(m, user)) == user
  {
    var headers := Render(m, user);
    forall key
      ensures key in Prefixed(headers) <==> key in user
      ensures key in user ==> Prefixed(headers)[key] == user[key]
    {
      SuffixOf(headers, key);
      ReadUser(m, user, key);
    }
  }
}
