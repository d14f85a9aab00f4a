/** The upload configuration handed to multer: which MIME types each upload
    accepts, how the stored file is named, and how large it may be. The
    random part of a stored name (time stamp and random number) and the
    original file's extension are parameters. */
module Uploads {
  import opened Wrappers
  import opened Text

  /** multer's verdict on one file. A rejection carries the message of the
      `Error` passed to the callback together with `false`. */
  datatype FilterDecision = Accept | Reject(message: string)

  // ---------------------------------------------------------------------
  // Course-module files (slides, PDFs, videos).
  // ---------------------------------------------------------------------

  const MimePpt := "application/vnd.ms-powerpoint"
  /** `application/vnd.openxmlformats-officedocument.presentationml.presentation`,
      written as its pieces and the separators between them. */
  const MimePptx := "application" + "/" + "vnd" + "." + "openxmlformats" + "-" + "officedocument"
    + "." + "presentationml" + "." + "presentation"
  const MimePdf := "application/pdf"
  const MimeMp4 := "video/mp4"
  const MimeWebm := "video/webm"
  const MimeAvi := "video/x-msvideo"
  const MimeQuickTime := "video/quicktime"

  const ModuleMimeAllowList: seq<string> :=
    [MimePpt, MimePptx, MimePdf, MimeMp4, MimeWebm, MimeAvi, MimeQuickTime]

  const MsgModuleFileType := "Only ppt, pptx, pdf, or video files are allowed"

  /** 50 MiB, to leave room for videos. */
  const ModuleMaxFileSize: nat := 50 * 1024 * 1024

  /** Accepts exactly the listed MIME types. */
  function ModuleFileFilter(mime: string): (r: FilterDecision)
    ensures r.Accept? <==> mime in ModuleMimeAllowList
    ensures r.Reject? ==> r.message == MsgModuleFileType
  {
    if mime !in ModuleMimeAllowList then Reject(MsgModuleFileType) else Accept
  }

  /** Both disk configurations name a stored file `<prefix><suffix><ext>`:
      a fixed prefix, the time-and-random suffix, then the original
      extension. The suffix can be read back from the name. */
  function StoredFileName(prefix: string, suffix: string, ext: string): (r: string)
    ensures StartsWith(r, prefix) && EndsWith(r, ext)
    ensures |r| == |prefix| + |suffix| + |ext| && r[|prefix|..|r| - |ext|] == suffix
  {
    var r := prefix + suffix + ext;
    assert r[..|prefix|] == prefix;
    assert r[|r| - |ext|..] == ext;
    assert r[|prefix|..|r| - |ext|] == suffix;
    r
  }

  const ModuleFilePrefix := "module-"

  /** The name the module configuration gives a stored file. */
  function ModuleFileName(suffix: string, ext: string): string {
    StoredFileName(ModuleFilePrefix, suffix, ext)
  }

  /** multer refuses a file once it grows past the limit. */
  predicate ModuleSizeAccepted(size: nat) {
    size <= ModuleMaxFileSize
  }

  lemma ModuleLimitIsFiftyMebibytes()
    ensures ModuleSizeAccepted(52428800) && !ModuleSizeAccepted(52428801)
  {
  }

  // ---------------------------------------------------------------------
  // Course cover images.
  // ---------------------------------------------------------------------

  /** The extensions of `/\/(jpg|jpeg|png|gif|webp)$/`. */
  const ImageExtensions: seq<string> := ["jpg", "jpeg", "png", "gif", "webp"]

  const MsgImageFileType := "Only image files are allowed (jpg, jpeg, png, gif, webp)"

  /** 5 MiB. */
  const CourseImageMaxFileSize: nat := 5 * 1024 * 1024

  /** What the regular expression matches: the MIME type ends in a slash and
      one of the listed extensions. Only the end is anchored. */
  predicate MatchesImagePattern(mime: string) {
    exists k | 0 <= k < |ImageExtensions| :: EndsWith(mime, "/" + ImageExtensions[k])
  }

  /** The text after the last `/`, if there is a `/` at all. */
  function AfterLastSlash(s: string): (r: Option<string>)
    ensures r.Some? ==> exists i | 0 <= i < |s| :: s[i] == '/' && r.value == s[i + 1..]
    ensures r.Some? ==> '/' !in r.value
    ensures r.None? <==> '/' !in s
  {
    if |s| == 0 then None
    else if s[|s| - 1] == '/' then Some([])
    else match AfterLastSlash(s[..|s| - 1])
      case None =>
        assert s == s[..|s| - 1] + [s[|s| - 1]];
        None
      case Some(t) =>
        var i :| 0 <= i < |s| - 1 && s[..|s| - 1][i] == '/' && t == s[..|s| - 1][i + 1..];
        assert s[i + 1..] == t + [s[|s| - 1]];
        assert s == s[..|s| - 1] + [s[|s| - 1]];
        Some(t + [s[|s| - 1]])
  }

  /** The image filter, deciding by the last path segment of the MIME type. */
  function CourseImageFilter(mime: string): (r: FilterDecision)
    ensures r.Reject? ==> r.message == MsgImageFileType
  {
    match AfterLastSlash(mime)
      case Some(ext) => if ext in ImageExtensions then Accept else Reject(MsgImageFileType)
      case None => Reject(MsgImageFileType)
  }

  /** Deciding by the last segment is deciding by the pattern. */
  lemma CourseImageFilterMatchesPattern(mime: string)
    ensures CourseImageFilter(mime).Accept? <==> MatchesImagePattern(mime)
  {
    if CourseImageFilter(mime).Accept? {
      AcceptedMatchesPattern(mime);
    }
    if MatchesImagePattern(mime) {
      PatternIsAccepted(mime);
    }
  }

  lemma AcceptedMatchesPattern(mime: string)
    requires CourseImageFilter(mime).Accept?
    ensures MatchesImagePattern(mime)
  {
    var ext := AfterLastSlash(mime).value;
    var k :| 0 <= k < |ImageExtensions| && ImageExtensions[k] == ext;
    var i :| 0 <= i < |mime| && mime[i] == '/' && ext == mime[i + 1..];
    assert mime[i..] == "/" + ext;
    assert EndsWith(mime, "/" + ImageExtensions[k]);
  }

  /** No listed extension holds a slash. */
  lemma ExtensionsHaveNoSlash(k: int)
    requires 0 <= k < |ImageExtensions|
    ensures '/' !in ImageExtensions[k]
  {
    var e := ImageExtensions[k];
    forall j | 0 <= j < |e| ensures e[j] != '/' {
      if k == 0 { assert e == "jpg"; }
      else if k == 1 { assert e == "jpeg"; }
      else if k == 2 { assert e == "png"; }
      else if k == 3 { assert e == "gif"; }
      else { assert e == "webp"; }
    }
  }

  /** A slash-and-extension ending is a last segment equal to the extension,
      because the extension itself holds no slash. */
  lemma PatternIsAccepted(mime: string)
    requires MatchesImagePattern(mime)
    ensures CourseImageFilter(mime).Accept?
  {
    var k :| 0 <= k < |ImageExtensions| && EndsWith(mime, "/" + ImageExtensions[k]);
    var e := ImageExtensions[k];
    ExtensionsHaveNoSlash(k);
    var p := |mime| - |e| - 1;
    assert mime[p..] == "/" + e;
    assert mime[p] == '/';
    assert mime[p + 1..] == e;
    var t := AfterLastSlash(mime).value;
    var j :| 0 <= j < |mime| && mime[j] == '/' && t == mime[j + 1..];
    forall q | j < q < |mime| ensures mime[q] != '/' {
      assert mime[q] == t[q - j - 1];
    }
    forall q | p < q < |mime| ensures mime[q] != '/' {
      assert mime[q] == e[q - p - 1];
    }
    assert j == p;
  }

  /** Only the ending counts: any top-level type passes with a listed extension. */
  lemma ImageFilterAcceptsAnyTopLevelType()
    ensures CourseImageFilter("application/png").Accept?
  {
    var s := "application/png";
    var e := "/" + ImageExtensions[2];
    assert e == "/png";
    assert s[|s| - 4..] == e;
    assert MatchesImagePattern(s);
    PatternIsAccepted(s);
  }

  /** An SVG image is refused: its type does not end in a listed extension. */
  lemma ImageFilterRejectsSvg()
    ensures CourseImageFilter("image/svg+xml").Reject?
  {
    var s := "image/svg+xml";
    forall k | 0 <= k < |ImageExtensions| ensures !EndsWith(s, "/" + ImageExtensions[k]) {
      var e := "/" + ImageExtensions[k];
      assert e[|e| - 1] != 'l';
      if |e| <= |s| {
        assert s[|s| - |e|..][|e| - 1] == s[|s| - 1] == 'l';
      }
    }
    CourseImageFilterMatchesPattern(s);
  }

  /** `image/x-png` is refused: the extension must follow the slash directly. */
  lemma ImageFilterRejectsXPng()
    ensures CourseImageFilter("image/x-png").Reject?
  {
    var s := "image/x-png";
    assert s[6] == 'x' && s[7] == '-';
    forall k | 0 <= k < |ImageExtensions| ensures !EndsWith(s, "/" + ImageExtensions[k]) {
      assert |ImageExtensions[k]| == 3 || |ImageExtensions[k]| == 4;
      NoSlashBeforeEnding(s, ImageExtensions[k]);
    }
    CourseImageFilterMatchesPattern(s);
  }

  /** A MIME type whose character just before the last `|ext|` is not a slash
      does not end in a slash and `ext`. */
  lemma NoSlashBeforeEnding(mime: string, ext: string)
    requires |ext| < |mime| ==> mime[|mime| - |ext| - 1] != '/'
    ensures !EndsWith(mime, "/" + ext)
  {
    var e := "/" + ext;
    if |e| <= |mime| {
      assert mime[|mime| - |e|..][0] != e[0];
    }
  }

  const CourseFilePrefix := "course-"

  /** The name the course image configuration gives a stored file. */
  function CourseFileName(suffix: string, ext: string): string {
    StoredFileName(CourseFilePrefix, suffix, ext)
  }

  predicate CourseImageSizeAccepted(size: nat) {
    size <= CourseImageMaxFileSize
  }

  lemma CourseImageLimitIsFiveMebibytes()
    ensures CourseImageSizeAccepted(5242880) && !CourseImageSizeAccepted(5242881)
  {
  }
}
