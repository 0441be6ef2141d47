/**
 packages/core/src/http/util.ts and openNextResponse.ts: splitting a comma-joined list of Set-Cookie values, and
 the merge of cookies when headers are flushed. Cookie syntax is section 4.1.1 of RFC 6265; section 3 says
 why folding several Set-Cookie fields into one is unsafe.
 */
module SetCookie {
  import opened Wrappers
  import opened CacheTypes

  predicate IsWordChar(c: char) {
    'a' <= c <= 'z' || 'A' <= c <= 'Z' || '0' <= c <= '9' || c == '_'
  }

  function Lower(c: char): char {
    if 'A' <= c <= 'Z' then (c as int + 32) as char else c
  }

  const EXPIRES := "expires="

  predicate IsExpires(s: string) {
    |s| == |EXPIRES| && forall k :: 0 <= k < |s| ==> Lower(s[k]) == EXPIRES[k]
  }

  /** The `i` flag: each letter may be small or capital. */
  predicate SpellsExpires(s: string) {
    |s| == 8 && forall k :: 0 <= k < 8 ==> s[k] == "expires="[k] || s[k] == "EXPIRES="[k]
  }

  lemma IsExpiresMeans(s: string)
    ensures IsExpires(s) <==> SpellsExpires(s)
  {
    if |s| == 8 {
      forall k | 0 <= k < 8
        ensures Lower(s[k]) == EXPIRES[k] <==> s[k] == "expires="[k] || s[k] == "EXPIRES="[k]
      {
        LowerMeans(s[k]);
      }
    }
  }

  lemma LowerMeans(c: char)
    ensures 'A' <= c <= 'Z' ==> Lower(c) as int == c as int + 32
    ensures !('A' <= c <= 'Z') ==> Lower(c) == c
  {
  }

  predicate AllWord(s: string) {
    forall c :: c in s ==> IsWordChar(c)
  }

  /** The text without its trailing word characters. */
  function StripWord(s: string): (base: string)
    ensures base <= s
    ensures AllWord(s[|base|..])
    ensures base != "" ==> !IsWordChar(base[|base| - 1])
  {
    if s == "" || !IsWordChar(s[|s| - 1]) then s
    else
      var base := StripWord(s[..|s| - 1]);
      assert s[|base|..] == s[..|s| - 1][|base|..] + [s[|s| - 1]];
      base
  }

  /** The lookbehind `(?<!Expires=\w+)` fails after this text: it ends in `Expires=` and a word. */
  predicate EndsInExpires(s: string) {
    var base := StripWord(s);
    |base| < |s| && |base| >= |EXPIRES| && IsExpires(base[|base| - |EXPIRES|..])
  }

  /** `\w+` */
  predicate MatchesWord(s: string) {
    s != "" && forall c :: c in s ==> 'a' <= c <= 'z' || 'A' <= c <= 'Z' || '0' <= c <= '9' || c == '_'
  }

  lemma WordsMatch(s: string)
    ensures MatchesWord(s) <==> s != "" && AllWord(s)
  {
  }

  /** What the regular expression says, for any split of the text into three. */
  lemma LookbehindMeaning(s: string)
    ensures EndsInExpires(s) <==>
            exists p, q :: 0 <= p <= q < |s| && SpellsExpires(s[p..q]) && MatchesWord(s[q..])
  {
    var base := StripWord(s);
    if EndsInExpires(s) {
      var q := |base|;
      var p := q - |EXPIRES|;
      assert s[p..q] == base[p..];
      IsExpiresMeans(s[p..q]);
      WordsMatch(s[q..]);
      assert SpellsExpires(s[p..q]) && MatchesWord(s[q..]);
    }
    if p, q :| 0 <= p <= q < |s| && SpellsExpires(s[p..q]) && MatchesWord(s[q..]) {
      IsExpiresMeans(s[p..q]);
      WordsMatch(s[q..]);
      LookbehindFound(s, p, q);
    }
  }

  lemma LookbehindFound(s: string, p: int, q: int)
    requires 0 <= p <= q < |s| && IsExpires(s[p..q]) && AllWord(s[q..])
    ensures EndsInExpires(s)
  {
    assert Lower(s[p..q][|EXPIRES| - 1]) == '=';
    WordRunStart(s, q);
    assert StripWord(s)[q - |EXPIRES|..] == s[p..q];
  }

  lemma {:induction false} WordRunStart(s: string, q: int)
    requires 0 < q <= |s| && AllWord(s[q..]) && !IsWordChar(s[q - 1])
    ensures StripWord(s) == s[..q]
  {
    if q < |s| {
      var front := s[..|s| - 1];
      assert s[|s| - 1] in s[q..];
      assert forall c :: c in front[q..] ==> c in s[q..];
      WordRunStart(front, q);
      assert front[..q] == s[..q];
    } else {
      assert s[..q] == s;
    }
  }

  /** Position `i` holds a comma that the regular expression splits at; it looks at all the text before. */
  predicate SplitsAt(s: string, i: int)
    requires 0 <= i < |s|
  {
    s[i] == ',' && !EndsInExpires(s[..i])
  }

  /** A character, and whether the text is split at it. */
  datatype MarkedChar = MarkedChar(c: char, splits: bool)

  function Marked(s: string): (m: seq<MarkedChar>)
    ensures |m| == |s| && forall i :: 0 <= i < |m| ==> m[i] == MarkedChar(s[i], SplitsAt(s, i))
  {
    seq(|s|, i requires 0 <= i < |s| => MarkedChar(s[i], SplitsAt(s, i)))
  }

  /** `piece` is the text read since the last split. */
  function SplitMarked(m: seq<MarkedChar>, piece: string): seq<string> {
    if m == [] then [piece]
    else if m[0].splits then [piece] + SplitMarked(m[1..], "")
    else SplitMarked(m[1..], piece + [m[0].c])
  }

  /** `cookies.split(/(?<!Expires=\w+),/i)` */
  function Split(s: string): seq<string> {
    SplitMarked(Marked(s), "")
  }

  predicate IsSpace(c: char) {
    c in " \t\n\r" || c == '\U{000B}' || c == '\U{000C}' || c == '\U{00A0}' || c == '\U{FEFF}'
    || c == '\U{1680}' || '\U{2000}' <= c <= '\U{200A}' || c in "\U{2028}\U{2029}\U{202F}\U{205F}\U{3000}"
  }

  function Trim(s: string): (t: string)
    ensures |t| <= |s|
    ensures |t| == |s| ==> t == s
  {
    if s == "" then s
    else if IsSpace(s[0]) then Trim(s[1..])
    else if IsSpace(s[|s| - 1]) then Trim(s[..|s| - 1])
    else s
  }

  /** A text is trimmed exactly when it has no blank at either end. */
  lemma TrimmedExactly(s: string)
    ensures Trim(s) == s <==> s == "" || (!IsSpace(s[0]) && !IsSpace(s[|s| - 1]))
  {
  }

  /** Trimming takes the blanks at both ends off, and nothing else. */
  lemma {:induction false} TrimTakesBlanks(left: string, core: string, right: string)
    requires (forall c :: c in left ==> IsSpace(c)) && (forall c :: c in right ==> IsSpace(c))
    requires core != "" && !IsSpace(core[0]) && !IsSpace(core[|core| - 1])
    ensures Trim(left + core + right) == core
    decreases |left| + |right|
  {
    var s := left + core + right;
    if left != "" {
      assert s[1..] == left[1..] + core + right && s[0] == left[0];
      TrimTakesBlanks(left[1..], core, right);
    } else if right != "" {
      var shorter := right[..|right| - 1];
      assert s[..|s| - 1] == left + core + shorter && s[|s| - 1] == right[|right| - 1] && s[0] == core[0];
      TrimTakesBlanks(left, core, shorter);
    } else {
      assert s == core;
    }
  }

  /**
   By code point: tab to carriage return, space, no-break space, the Unicode spaces and line ends, the byte order
   mark.
   */
  lemma SpacesAre(c: char)
    ensures var n := c as int;
            IsSpace(c) <==> 9 <= n <= 13 || n == 32 || n == 0xA0 || n == 0x1680 || 0x2000 <= n <= 0x200A
                            || n == 0x2028 || n == 0x2029 || n == 0x202F || n == 0x205F || n == 0x3000 || n == 0xFEFF
  {
  }

  function TrimAll(pieces: seq<string>): (r: seq<string>)
    ensures |r| == |pieces|
    ensures forall i :: 0 <= i < |r| ==> r[i] == Trim(pieces[i])
  {
    if pieces == [] then [] else [Trim(pieces[0])] + TrimAll(pieces[1..])
  }

  /** `parseSetCookieHeader` of a string; the empty string counts as no header. */
  function ParseCookieText(cookies: string): seq<string> {
    if cookies == "" then [] else TrimAll(Split(cookies))
  }

  // ---- The lookbehind never reaches past an earlier comma

  lemma {:induction false} StripWordAfterComma(q: string, t: string)
    ensures StripWord(q + "," + t) == q + "," + StripWord(t)
  {
    if t == "" {
      assert q + "," + t == q + ",";
    } else {
      var s, front := q + "," + t, t[..|t| - 1];
      assert s[|s| - 1] == t[|t| - 1];
      assert s[..|s| - 1] == q + "," + front;
      StripWordAfterComma(q, front);
    }
  }

  lemma EndsInExpiresAfterComma(q: string, t: string)
    ensures EndsInExpires(q + "," + t) <==> EndsInExpires(t)
  {
    StripWordAfterComma(q, t);
    var base, n := StripWord(t), |EXPIRES|;
    var whole := q + "," + base;
    if |base| >= n {
      assert whole[|whole| - n..] == base[|base| - n..];
    } else if |whole| >= n {
      var tail := whole[|whole| - n..];
      assert tail[n - 1 - |base|] == ',';
      assert forall k :: 0 <= k < n ==> EXPIRES[k] != ',';
    }
  }

  lemma SplitsAtAfterComma(q: string, s: string, i: int)
    requires 0 <= i < |s|
    ensures SplitsAt(q + "," + s, |q| + 1 + i) <==> SplitsAt(s, i)
  {
    assert (q + "," + s)[..|q| + 1 + i] == q + "," + s[..i];
    EndsInExpiresAfterComma(q, s[..i]);
  }

  /** After a comma a text is marked as if it stood alone. */
  lemma MarkedAfterComma(q: string, s: string)
    ensures Marked(q + "," + s)[|q| + 1..] == Marked(s)
  {
    forall i | 0 <= i < |s|
      ensures Marked(q + "," + s)[|q| + 1 + i] == Marked(s)[i]
    {
      SplitsAtAfterComma(q, s, i);
      assert (q + "," + s)[|q| + 1 + i] == s[i];
    }
  }

  /** Every comma inside the piece is protected by an `Expires=` word. */
  predicate InnerCommasProtected(piece: string) {
    forall k :: 0 <= k < |piece| && piece[k] == ',' ==> EndsInExpires(piece[..k])
  }

  /** A list whose commas all say what they are: inner ones are protected, separating ones are not. */
  predicate Unambiguous(cookies: seq<string>) {
    forall i :: 0 <= i < |cookies| ==>
      InnerCommasProtected(cookies[i]) && (i < |cookies| - 1 ==> !EndsInExpires(cookies[i]))
  }

  /** Scanning text that is not split reads it whole. */
  lemma {:induction false} ScanPiece(m: seq<MarkedChar>, head: string, piece: string)
    requires |head| <= |m| && forall i :: 0 <= i < |head| ==> m[i] == MarkedChar(head[i], false)
    ensures SplitMarked(m, piece) == SplitMarked(m[|head|..], piece + head)
  {
    if head == "" {
      assert m[0..] == m && piece + head == piece;
    } else {
      ScanPiece(m[1..], head[1..], piece + [head[0]]);
      assert m[1..][|head| - 1..] == m[|head|..];
      assert piece + [head[0]] + head[1..] == piece + head;
    }
  }

  lemma SplitAtFirstMark(m: seq<MarkedChar>, head: string)
    requires |head| < |m| && forall i :: 0 <= i < |head| ==> m[i] == MarkedChar(head[i], false)
    requires m[|head|].splits
    ensures SplitMarked(m, "") == [head] + SplitMarked(m[|head| + 1..], "")
  {
    ScanPiece(m, head, "");
    assert "" + head == head;
    assert m[|head|..][1..] == m[|head| + 1..];
  }

  lemma HeadIsNotSplit(s: string, head: string)
    requires InnerCommasProtected(head) && head <= s
    ensures forall i :: 0 <= i < |head| ==> Marked(s)[i] == MarkedChar(head[i], false)
  {
    forall i | 0 <= i < |head| ensures !SplitsAt(s, i) {
      assert s[..i] == head[..i];
    }
  }

  lemma SplitFirst(head: string, rest: string)
    requires InnerCommasProtected(head) && !EndsInExpires(head)
    ensures Split(head + "," + rest) == [head] + Split(rest)
  {
    var s := head + "," + rest;
    assert s[..|head|] == head;
    HeadIsNotSplit(s, head);
    SplitAtFirstMark(Marked(s), head);
    MarkedAfterComma(head, rest);
  }

  lemma SplitWhole(s: string)
    requires InnerCommasProtected(s)
    ensures Split(s) == [s]
  {
    HeadIsNotSplit(s, s);
    ScanPiece(Marked(s), s, "");
    assert Marked(s)[|s|..] == [] && "" + s == s;
  }

  lemma UnambiguousParts(cookies: seq<string>)
    requires Unambiguous(cookies) && cookies != []
    ensures InnerCommasProtected(cookies[0]) && (|cookies| > 1 ==> !EndsInExpires(cookies[0]))
        && Unambiguous(cookies[1..])
  {
  }

  lemma {:induction false} SplitOfJoin(cookies: seq<string>)
    requires Unambiguous(cookies) && cookies != []
    ensures Split(Join(cookies)) == cookies
  {
    UnambiguousParts(cookies);
    if |cookies| == 1 {
      SplitWhole(cookies[0]);
    } else {
      var first, rest := cookies[0], cookies[1..];
      SplitOfJoin(rest);
      SplitFirst(first, Join(rest));
      assert Join(cookies) == first + "," + Join(rest);
      assert cookies == [first] + rest;
    }
  }

  /** The first place the text is split at, or its end. */
  function FirstSplit(s: string, i: int): (j: int)
    requires 0 <= i <= |s|
    ensures i <= j <= |s|
    ensures j < |s| ==> SplitsAt(s, j)
    ensures forall k :: i <= k < j ==> !SplitsAt(s, k)
    decreases |s| - i
  {
    if i == |s| || SplitsAt(s, i) then i else FirstSplit(s, i + 1)
  }

  /** The pieces of any text are unambiguous, and joining them gives the text back. */
  lemma {:induction false} SplitPieces(s: string)
    ensures Split(s) != [] && Unambiguous(Split(s)) && Join(Split(s)) == s
    decreases |s|
  {
    var j := FirstSplit(s, 0);
    var head := s[..j];
    forall k | 0 <= k < |head| && head[k] == ','
      ensures EndsInExpires(head[..k])
    {
      assert head[..k] == s[..k];
      assert !SplitsAt(s, k);
    }
    if j == |s| {
      assert head == s;
      SplitWhole(s);
    } else {
      var rest := s[j + 1..];
      assert s == head + "," + rest;
      SplitFirst(head, rest);
      SplitPieces(rest);
      var pieces := Split(rest);
      assert ([head] + pieces)[1..] == pieces;
    }
  }

  // ---- The round trip

  function TotalLength(parts: seq<string>): int {
    if parts == [] then 0 else |parts[0]| + TotalLength(parts[1..])
  }

  lemma {:induction false} JoinLength(parts: seq<string>)
    requires parts != []
    ensures |Join(parts)| == TotalLength(parts) + |parts| - 1
  {
    if |parts| > 1 {
      JoinLength(parts[1..]);
    } else {
      assert parts[1..] == [];
    }
  }

  lemma {:induction false} TrimmingShortens(parts: seq<string>)
    ensures TotalLength(TrimAll(parts)) <= TotalLength(parts)
    ensures TotalLength(TrimAll(parts)) == TotalLength(parts) ==> TrimAll(parts) == parts
  {
    if parts != [] {
      TrimmingShortens(parts[1..]);
    }
  }

  /**
   Parsing the joined text gives a list of cookies back exactly when the list is not the single empty string, every
   cookie is trimmed, every comma inside a cookie follows `Expires=` and a word, and no cookie but the last
   ends in `Expires=` and a word.
   */
  lemma ParseOfJoin(cookies: seq<string>)
    ensures ParseCookieText(Join(cookies)) == cookies <==>
            cookies != [""] && TrimAll(cookies) == cookies && Unambiguous(cookies)
  {
    if cookies == [] {
      assert TrimAll(cookies) == [];
    } else {
      var s := Join(cookies);
      JoinLength(cookies);
      if cookies != [""] && Unambiguous(cookies) {
        EmptyJoin(cookies);
        SplitOfJoin(cookies);
      }
      if ParseCookieText(s) == cookies {
        var pieces := Split(s);
        SplitPieces(s);
        JoinLength(pieces);
        TrimmingShortens(pieces);
        assert TrimAll(pieces) == cookies;
        assert pieces == cookies;
      }
    }
  }

  /**
   The comma of a date does not split its cookie: text without commas, `Expires=` in any case, one word,
       a comma and more
   text without commas come back as one cookie.
   */
  lemma ExpiresDateStaysWhole(p: string, expires: string, w: string, q: string)
    requires ',' !in p && ',' !in q && (p != "" ==> !IsSpace(p[0])) && (q != "" ==> !IsSpace(q[|q| - 1]))
    requires SpellsExpires(expires)
    requires MatchesWord(w)
    ensures ParseCookieText(p + expires + w + "," + q) == [p + expires + w + "," + q]
  {
    var head := p + expires + w;
    var s := head + "," + q;
    ExpiresIsVisible(expires);
    WordsMatch(w);
    DateCommaIsProtected(p, expires, w);
    NoCommaInDate(p, expires, w);
    assert s[..|head|] == head;
    forall k | 0 <= k < |s| && s[k] == ',' ensures EndsInExpires(s[..k]) {
      OneComma(head, q, k);
    }
    assert s[0] == if p != "" then p[0] else expires[0];
    assert s[|s| - 1] == if q != "" then q[|q| - 1] else ',';
    TrimmedExactly(s);
    SpacesAre(',');
    SplitWhole(s);
    assert TrimAll([s]) == [s];
  }

  lemma ExpiresIsVisible(expires: string)
    requires SpellsExpires(expires)
    ensures !IsSpace(expires[0]) && ',' !in expires
  {
    SpacesAre(expires[0]);
    forall k | 0 <= k < 8 ensures expires[k] != ',' {
      assert "expires="[k] != ',' && "EXPIRES="[k] != ',';
    }
  }

  lemma DateCommaIsProtected(p: string, expires: string, w: string)
    requires SpellsExpires(expires)
    requires w != "" && AllWord(w)
    ensures EndsInExpires(p + expires + w)
  {
    var head := p + expires + w;
    IsExpiresMeans(expires);
    assert head[|p|..|p| + 8] == expires && head[|p| + 8..] == w;
    LookbehindFound(head, |p|, |p| + 8);
  }

  lemma NoCommaInDate(p: string, expires: string, w: string)
    requires ',' !in p && ',' !in expires && AllWord(w)
    ensures ',' !in p + expires + w
  {
    forall c | c in p + expires + w ensures c != ',' {
      assert c in p || c in expires || c in w;
    }
  }

  lemma OneComma(head: string, q: string, k: int)
    requires ',' !in head && ',' !in q && 0 <= k < |head + "," + q|
    ensures (head + "," + q)[k] == ',' <==> k == |head|
  {
    if k < |head| {
      assert (head + "," + q)[k] == head[k];
    }
  }

  lemma NoExpiresEndsInNone(a: string)
    requires forall p, q :: 0 <= p <= q <= |a| ==> !SpellsExpires(a[p..q])
    ensures !EndsInExpires(a)
  {
    LookbehindMeaning(a);
  }

  lemma CommaFreeIsProtected(a: string)
    requires ',' !in a
    ensures InnerCommasProtected(a)
  {
  }

  /** Two cookies without commas, the first without a date, are two cookies. */
  lemma PlainCookiesAreSplit(a: string, b: string)
    requires ',' !in a && ',' !in b && Trim(a) == a && Trim(b) == b
    requires forall p, q :: 0 <= p <= q <= |a| ==> !SpellsExpires(a[p..q])
    ensures ParseCookieText(a + "," + b) == [a, b]
  {
    NoExpiresEndsInNone(a);
    CommaFreeIsProtected(a);
    CommaFreeIsProtected(b);
    SplitFirst(a, b);
    SplitWhole(b);
    assert [a] + [b] == [a, b];
    assert TrimAll([a, b]) == [a, b];
  }

  lemma EmptyJoin(cookies: seq<string>)
    requires cookies != [] && cookies != [""]
    ensures Join(cookies) != ""
  {
    if |cookies| == 1 {
      assert cookies == [cookies[0]];
    }
  }

  // ---- flushHeaders

  datatype Priority = Middleware | Handler

  const SET_COOKIE_HEADER := "set-cookie"

  /** The cookies the initial headers give: one text, or a list of them. */
  function GivenCookies(initial: Headers): seq<string> {
    if SET_COOKIE_HEADER !in initial then []
    else
      match initial[SET_COOKIE_HEADER]
      case One(text) => [text]
      case Many(texts) => texts
  }

  /** `headers["set-cookie"]?.toString()`, then parsed: an array prints as its elements joined by commas. */
  function InitialCookies(initial: Headers): seq<string> {
    if SET_COOKIE_HEADER !in initial then [] else ParseCookieText(Join(GivenCookies(initial)))
  }

  function InOrder(own: seq<string>, given: seq<string>, priority: Priority): seq<string> {
    if priority.Middleware? then own + given else given + own
  }

  function MergedCookies(own: seq<string>, initial: Option<Headers>, priority: Priority): seq<string> {
    if initial.None? then own else InOrder(own, InitialCookies(initial.value), priority)
  }

  function MergedHeaders(own: Headers, initial: Option<Headers>, priority: Priority): Headers {
    if initial.None? then own else if priority.Middleware? then own + initial.value else initial.value + own
  }

  const CACHE_CONTROL := "cache-control"
  const ERROR_CACHE_CONTROL := "private, no-cache, no-store, max-age=0, must-revalidate"

  /** `fixHeadersForError` */
  function FixedForError(headers: Headers, statusCode: int, keepErrorHeaders: bool): Headers {
    if !keepErrorHeaders && (statusCode == 404 || statusCode == 500)
    then headers[CACHE_CONTROL := One(ERROR_CACHE_CONTROL)] else headers
  }

  class OpenNextNodeResponse {
    var headers: Headers
    var cookies: seq<string>
    var headersSent: bool
    var headersAlreadyFixed: bool
    var statusCode: int
    const initialHeaders: Option<Headers>
    const fixHeadersFn: Headers -> Headers
    const keepErrorHeaders: bool

    constructor (fixHeadersFn: Headers -> Headers, initialHeaders: Option<Headers>, statusCode: int,
                 keepErrorHeaders: bool)
      ensures headers == map[] && cookies == [] && !headersSent && !headersAlreadyFixed
      ensures this.initialHeaders == initialHeaders && this.fixHeadersFn == fixHeadersFn
      ensures this.keepErrorHeaders == keepErrorHeaders
      ensures this.statusCode == if 100 <= statusCode <= 599 then statusCode else 200
    {
      headers, cookies, headersSent, headersAlreadyFixed := map[], [], false, false;
      this.initialHeaders, this.fixHeadersFn, this.keepErrorHeaders := initialHeaders, fixHeadersFn, keepErrorHeaders;
      this.statusCode := if 100 <= statusCode <= 599 then statusCode else 200;
    }

    method FixHeaders()
      modifies this`headers, this`headersAlreadyFixed
      ensures headersAlreadyFixed
      ensures headers == if old(headersAlreadyFixed) then old(headers) else fixHeadersFn(old(headers))
    {
      if headersAlreadyFixed {
        return;
      }
      headers := fixHeadersFn(headers);
      headersAlreadyFixed := true;
    }

    /** What is sent as cookies is `cookies`; the header repairs run once, and cannot touch the cookies. */
    method FlushHeaders(mergeHeadersPriority: Priority)
      modifies this
      ensures headersSent && headersAlreadyFixed && statusCode == old(statusCode)
      ensures cookies == MergedCookies(old(cookies), initialHeaders, mergeHeadersPriority)
      ensures var merged := MergedHeaders(old(headers), initialHeaders, mergeHeadersPriority);
              var fixed := if old(headersAlreadyFixed) then merged else fixHeadersFn(merged);
              headers == FixedForError(fixed, statusCode, keepErrorHeaders)[SET_COOKIE_HEADER := Many(cookies)]
    {
      headersSent := true;
      if initialHeaders.Some? {
        var initial := initialHeaders.value;
        headers := if mergeHeadersPriority.Middleware? then headers + initial else initial + headers;
        var initialCookies := InitialCookies(initial);
        cookies := if mergeHeadersPriority.Middleware? then cookies + initialCookies else initialCookies + cookies;
      }
      FixHeaders();
      if !keepErrorHeaders {
        if statusCode == 404 || statusCode == 500 {
          headers := headers[CACHE_CONTROL := One(ERROR_CACHE_CONTROL)];
        }
      }
      headers := headers[SET_COOKIE_HEADER := Many(cookies)];
    }
  }

  /**
   What a flush sends as cookies is the response's own cookies and the given ones, each intact and in priority order,
   exactly when the given list survives joining and splitting. A single text counts as a list of one.
   */
  lemma FlushKeepsCookiesExactly(own: seq<string>, initial: Headers, priority: Priority)
    requires SET_COOKIE_HEADER in initial
    ensures var given := GivenCookies(initial);
            MergedCookies(own, Some(initial), priority) == (if priority == Middleware then own + given else given + own)
            <==> given != [""] && TrimAll(given) == given && Unambiguous(given)
  {
    var given, parsed := GivenCookies(initial), InitialCookies(initial);
    ParseOfJoin(given);
    if priority.Middleware? {
      assert (own + parsed)[|own|..] == parsed && (own + given)[|own|..] == given;
    } else if parsed + own == given + own {
      assert |parsed + own| == |given + own|;
      assert (parsed + own)[..|parsed|] == parsed && (given + own)[..|given|] == given;
    }
  }

  /**
   Which header a flush sends: the initial one wins for the middleware's priority, the handler's own one otherwise.
   */
  lemma MergedHeadersMeans(own: Headers, initial: Headers, name: string)
    ensures var merged := MergedHeaders(own, Some(initial), Middleware);
            && (name in merged <==> name in own || name in initial)
            && (name in initial ==> merged[name] == initial[name])
            && (name in own && name !in initial ==> merged[name] == own[name])
    ensures var merged := MergedHeaders(own, Some(initial), Handler);
            && (name in merged <==> name in own || name in initial)
            && (name in own ==> merged[name] == own[name])
            && (name in initial && name !in own ==> merged[name] == initial[name])
    ensures MergedHeaders(own, None, Middleware) == own && MergedHeaders(own, None, Handler) == own
  {
  }

  /** Pages that are not found or failed are never cached, unless the deployment asks for it; other headers stay. */
  lemma ErrorsAreNotCached(headers: Headers, statusCode: int, name: string)
    ensures FixedForError(headers, statusCode, true) == headers
    ensures var fixed := FixedForError(headers, statusCode, false);
            if statusCode == 404 || statusCode == 500 then
              && "cache-control" in fixed
              && fixed["cache-control"] == One("private, no-cache, no-store, max-age=0, must-revalidate")
              && (name != "cache-control" ==> (name in fixed <==> name in headers))
              && (name != "cache-control" && name in headers ==> fixed[name] == headers[name])
            else fixed == headers
  {
  }
}
