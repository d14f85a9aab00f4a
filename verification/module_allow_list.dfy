/** The module upload allow-list read through the module-type classifier:
    every accepted video, PDF and PowerPoint type gets its own type, and the
    one accepted type the classifier does not recognise is pptx. */
module ModuleAllowList {
  import opened Text
  import opened Entities
  import opened Uploads
  import opened Courses

  lemma NotVideo(mime: string)
    requires |mime| > 0 && mime[0] == 'a'
    ensures !StartsWith(mime, "video/")
  {
    if |mime| >= 6 {
      assert mime[..6][0] == 'a';
    }
  }

  lemma VideoTypesAreVideo()
    ensures ResolveModuleType(MimeMp4) == VIDEO
    ensures ResolveModuleType(MimeWebm) == VIDEO
    ensures ResolveModuleType(MimeAvi) == VIDEO
    ensures ResolveModuleType(MimeQuickTime) == VIDEO
  {
    assert MimeMp4[..6] == "video/";
    assert MimeWebm[..6] == "video/";
    assert MimeAvi[..6] == "video/";
    assert MimeQuickTime[..6] == "video/";
  }

  lemma PowerPointIsPpt()
    ensures ResolveModuleType(MimePpt) == PPT
  {
    NotVideo(MimePpt);
    assert OccursAt(MimePpt, "powerpoint", 19);
  }

  lemma PdfIsPdf()
    ensures ResolveModuleType(MimePdf) == PDF
  {
    NotVideo(MimePdf);
    MissingCharNotContained(MimePdf, "powerpoint", 'w');
    assert OccursAt(MimePdf, "pdf", 12);
  }

  /** Neither `powerpoint` nor `pdf` occurs in the pptx type: each piece lacks
      a letter of them, and no occurrence can run across a separator. */
  lemma PptxIsOther()
    ensures ResolveModuleType(MimePptx) == OTHER
  {
    NotVideo(MimePptx);
    var p := ["application", "vnd", "openxmlformats", "officedocument", "presentationml", "presentation"];
    forall i | 0 <= i < |p| ensures !Contains(p[i], "powerpoint") {
      MissingCharNotContained(p[i], "powerpoint", 'w');
    }
    MissingCharNotContained(p[0], "pdf", 'd');
    MissingCharNotContained(p[1], "pdf", 'p');
    MissingCharNotContained(p[2], "pdf", 'd');
    MissingCharNotContained(p[3], "pdf", 'p');
    MissingCharNotContained(p[4], "pdf", 'd');
    MissingCharNotContained(p[5], "pdf", 'd');
    NotAcross(p, "powerpoint");
    NotAcross(p, "pdf");
  }

  /** Joining the pptx pieces at its separators creates no occurrence of a
      word without `/`, `.` or `-`. */
  lemma NotAcross(p: seq<string>, word: string)
    requires p == ["application", "vnd", "openxmlformats", "officedocument", "presentationml", "presentation"]
    requires '/' !in word && '.' !in word && '-' !in word
    requires forall i | 0 <= i < |p| :: !Contains(p[i], word)
    ensures !Contains(MimePptx, word)
  {
    var s1 := p[0] + "/" + p[1];
    SeparatorSplit(p[0], '/', p[1], word);
    assert s1 == p[0] + ['/'] + p[1];
    var s2 := s1 + "." + p[2];
    SeparatorSplit(s1, '.', p[2], word);
    assert s2 == s1 + ['.'] + p[2];
    var s3 := s2 + "-" + p[3];
    SeparatorSplit(s2, '-', p[3], word);
    assert s3 == s2 + ['-'] + p[3];
    var s4 := s3 + "." + p[4];
    SeparatorSplit(s3, '.', p[4], word);
    assert s4 == s3 + ['.'] + p[4];
    var s5 := s4 + "." + p[5];
    SeparatorSplit(s4, '.', p[5], word);
    assert s5 == s4 + ['.'] + p[5];
    assert s5 == MimePptx;
  }

  /** Of the seven accepted module types, pptx alone is classified OTHER. */
  lemma OnlyPptxIsOther(mime: string)
    requires ModuleFileFilter(mime).Accept?
    ensures ResolveModuleType(mime) == OTHER <==> mime == MimePptx
  {
    VideoTypesAreVideo();
    PowerPointIsPpt();
    PdfIsPdf();
    PptxIsOther();
  }
}
