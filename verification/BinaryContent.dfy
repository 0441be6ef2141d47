/** packages/core/src/utils/binary.ts */
module BinaryContent {
  const OFFICE := "application/vnd.openxml" + "formats-officedocument."

  predicate IsDocument(t: string) {
    t == "application/octet-stream" || t == "application/epub+zip" || t == "application/msword"
    || t == "application/pdf" || t == "application/rtf" || t == "application/vnd.amazon.ebook"
    || t == "application/vnd.ms-excel" || t == "application/vnd.ms-powerpoint"
  }

  predicate IsOfficeDocument(t: string) {
    t == OFFICE + "presentationml.presentation" || t == OFFICE + "spreadsheetml.sheet"
    || t == OFFICE + "wordprocessingml.document"
  }

  predicate IsFont(t: string) {
    t == "font/otf" || t == "font/woff" || t == "font/woff2"
  }

  predicate IsImage(t: string) {
    t == "image/bmp" || t == "image/gif" || t == "image/jpeg" || t == "image/png" || t == "image/tiff"
    || t == "image/vnd.microsoft.icon" || t == "image/webp"
  }

  /** The source's list has lost a comma between two audio types. */
  predicate IsAudio(t: string) {
    t == "audio/3gpp" || t == "audio/aac" || t == "audio/basic" || t == "audio/flac" || t == "audio/mpeg"
    || t == "audio/ogg" || t == "audio/wavaudio/webm" || t == "audio/x-aiff" || t == "audio/x-midi"
    || t == "audio/x-wav"
  }

  predicate IsVideo(t: string) {
    t == "video/3gpp" || t == "video/mp2t" || t == "video/mpeg" || t == "video/ogg" || t == "video/quicktime"
    || t == "video/webm" || t == "video/x-msvideo"
  }

  predicate IsArchive(t: string) {
    t == "application/java-archive" || t == "application/vnd.apple.installer+xml"
    || t == "application/x-7z-compressed" || t == "application/x-apple-diskimage" || t == "application/x-bzip"
    || t == "application/x-bzip2"
  }

  predicate IsCompressed(t: string) {
    t == "application/x-gzip" || t == "application/x-java-archive" || t == "application/x-rar-compressed"
    || t == "application/x-tar" || t == "application/x-zip" || t == "application/zip"
    || t == "application/x-protobuf"
  }

  /** The members of the set of common binary types. */
  predicate IsListed(t: string) {
    IsDocument(t) || IsOfficeDocument(t) || IsFont(t) || IsImage(t) || IsAudio(t)
    || IsVideo(t) || IsArchive(t) || IsCompressed(t)
  }

  function BeforeSemicolon(s: string): string {
    if s == "" || s[0] == ';' then "" else [s[0]] + BeforeSemicolon(s[1..])
  }

  predicate IsBinaryContentType(contentType: string) {
    contentType != "" && IsListed(BeforeSemicolon(contentType))
  }

  // ---- What the test means

  /** The text is a listed type, or goes on after it with a semicolon. */
  ghost predicate NamesListed(contentType: string) {
    exists t :: IsListed(t) && (contentType == t || t + ";" <= contentType)
  }

  /** Every listed type is an application, font, image, audio or video type, without a semicolon. */
  predicate WellNamed(s: string) {
    s != "" && (s[0] == 'a' || s[0] == 'f' || s[0] == 'i' || s[0] == 'v') && forall k :: 0 <= k < |s| ==> s[k] != ';'
  }

  lemma DocumentIsWellNamed()
    ensures forall t :: IsDocument(t) ==> WellNamed(t)
  {
    assert WellNamed("application/octet-stream");
    assert WellNamed("application/epub+zip");
    assert WellNamed("application/msword");
    assert WellNamed("application/pdf");
    assert WellNamed("application/rtf");
    assert WellNamed("application/vnd.amazon.ebook");
    assert WellNamed("application/vnd.ms-excel");
    assert WellNamed("application/vnd.ms-powerpoint");
  }

  lemma OfficeDocumentIsWellNamed()
    ensures forall t :: IsOfficeDocument(t) ==> WellNamed(t)
  {
    assert WellNamed("application/vnd.openxml") && WellNamed("formats-officedocument.");
  }

  lemma FontIsWellNamed()
    ensures forall t :: IsFont(t) ==> WellNamed(t)
  {
    assert WellNamed("font/otf");
    assert WellNamed("font/woff");
    assert WellNamed("font/woff2");
  }

  lemma ImageIsWellNamed()
    ensures forall t :: IsImage(t) ==> WellNamed(t)
  {
    assert WellNamed("image/bmp");
    assert WellNamed("image/gif");
    assert WellNamed("image/jpeg");
    assert WellNamed("image/png");
    assert WellNamed("image/tiff");
    assert WellNamed("image/vnd.microsoft.icon");
    assert WellNamed("image/webp");
  }

  lemma AudioIsWellNamed()
    ensures forall t :: IsAudio(t) ==> WellNamed(t)
  {
    assert WellNamed("audio/3gpp");
    assert WellNamed("audio/aac");
    assert WellNamed("audio/basic");
    assert WellNamed("audio/flac");
    assert WellNamed("audio/mpeg");
    assert WellNamed("audio/ogg");
    assert WellNamed("audio/wavaudio/webm");
    assert WellNamed("audio/x-aiff");
    assert WellNamed("audio/x-midi");
    assert WellNamed("audio/x-wav");
  }

  lemma VideoIsWellNamed()
    ensures forall t :: IsVideo(t) ==> WellNamed(t)
  {
    assert WellNamed("video/3gpp");
    assert WellNamed("video/mp2t");
    assert WellNamed("video/mpeg");
    assert WellNamed("video/ogg");
    assert WellNamed("video/quicktime");
    assert WellNamed("video/webm");
    assert WellNamed("video/x-msvideo");
  }

  lemma ArchiveIsWellNamed()
    ensures forall t :: IsArchive(t) ==> WellNamed(t)
  {
    assert WellNamed("application/java-archive");
    assert WellNamed("application/vnd.apple.installer+xml");
    assert WellNamed("application/x-7z-compressed");
    assert WellNamed("application/x-apple-diskimage");
    assert WellNamed("application/x-bzip");
    assert WellNamed("application/x-bzip2");
  }

  lemma CompressedIsWellNamed()
    ensures forall t :: IsCompressed(t) ==> WellNamed(t)
  {
    assert WellNamed("application/x-gzip");
    assert WellNamed("application/x-java-archive");
    assert WellNamed("application/x-rar-compressed");
    assert WellNamed("application/x-tar");
    assert WellNamed("application/x-zip");
    assert WellNamed("application/zip");
    assert WellNamed("application/x-protobuf");
  }

  lemma ListedIsWellNamed(t: string)
    requires IsListed(t)
    ensures WellNamed(t)
  {
    DocumentIsWellNamed();
    OfficeDocumentIsWellNamed();
    FontIsWellNamed();
    ImageIsWellNamed();
    AudioIsWellNamed();
    VideoIsWellNamed();
    ArchiveIsWellNamed();
    CompressedIsWellNamed();
  }

  /** What stands before the first semicolon, or the whole text. */
  lemma {:induction false} BeforeSemicolonMeans(s: string, t: string)
    requires forall k :: 0 <= k < |t| ==> t[k] != ';'
    ensures BeforeSemicolon(s) == t <==> s == t || t + ";" <= s
  {
    if t == "" {
      assert s != "" ==> (";" <= s <==> s[0] == ';');
      assert "" + ";" == ";";
    } else if s != "" {
      BeforeSemicolonMeans(s[1..], t[1..]);
      assert s == t <==> s[0] == t[0] && s[1..] == t[1..];
      assert t + ";" == [t[0]] + (t[1..] + ";");
      assert t + ";" <= s <==> s[0] == t[0] && t[1..] + ";" <= s[1..];
    }
  }

  /** A content type is binary exactly when it is a listed type, or begins with one and a semicolon. */
  lemma BinaryExactly(contentType: string)
    ensures IsBinaryContentType(contentType) <==> NamesListed(contentType)
  {
    if IsBinaryContentType(contentType) {
      var t := BeforeSemicolon(contentType);
      ListedIsWellNamed(t);
      BeforeSemicolonMeans(contentType, t);
      assert NamesListed(contentType);
    }
    if NamesListed(contentType) {
      var t :| IsListed(t) && (contentType == t || t + ";" <= contentType);
      ListedIsWellNamed(t);
      BeforeSemicolonMeans(contentType, t);
    }
  }

  /** Images, fonts, documents, sound, film and archives are among the listed types, with any parameters. */
  lemma CommonTypesAreBinary(parameters: string)
    ensures IsBinaryContentType("image/png") && IsBinaryContentType("image/png" + ";" + parameters)
    ensures IsBinaryContentType("font/woff2") && IsBinaryContentType("application/pdf")
    ensures IsBinaryContentType("audio/mpeg") && IsBinaryContentType("video/webm")
    ensures IsBinaryContentType("application/zip") && IsBinaryContentType("application/octet-stream")
  {
    IsBinaryWith("image/png", parameters);
    IsBinaryWith("font/woff2", "");
    IsBinaryWith("application/pdf", "");
    IsBinaryWith("audio/mpeg", "");
    IsBinaryWith("video/webm", "");
    IsBinaryWith("application/zip", "");
    IsBinaryWith("application/octet-stream", "");
  }

  lemma IsBinaryWith(t: string, parameters: string)
    requires IsListed(t)
    ensures IsBinaryContentType(t) && IsBinaryContentType(t + ";" + parameters)
  {
    BinaryExactly(t);
    BinaryExactly(t + ";" + parameters);
    assert t + ";" <= t + ";" + parameters;
  }

  /** A header that is missing prints as `undefined`, which is not binary. */
  lemma UndefinedIsNotBinary()
    ensures !IsBinaryContentType("undefined")
  {
    BinaryExactly("undefined");
    forall t | IsListed(t) ensures !("undefined" == t || t + ";" <= "undefined") {
      ListedIsWellNamed(t);
      assert (t + ";")[0] == t[0] && "undefined"[0] == 'u';
    }
  }
}
