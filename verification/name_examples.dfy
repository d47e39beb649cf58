/**
  Concrete entry names run through the batch script's filter and naming rule:
  which names are kept, and what an upper-case extension does to the derived names.

  The `...Spelling` lemmas each state how one literal name is spelled: that it
  splits into the given pieces, has no '/', and where its dots are. They sit
  apart from the lemmas that use them so that each proof about a literal string
  is checked on its own, which keeps the verifier's work per proof small; they
  model nothing by themselves.
 */
module NameExamples {
  import opened Wrappers
  import opened NodePath
  import opened ImageOptimizer

  /** "a.JPG" has the real extension ".JPG", lower-cased to ".jpg". */
  lemma UpperCaseExt()
    ensures IsSegment("a.JPG") && Extname("a.JPG") == ".JPG" && Ext("a.JPG") == ".jpg"
    ensures !IsLower(Extname("a.JPG"))
  {
    UpperJpgSpelling();
    DotSuffix("a", ".JPG");
  }

  /** The pieces of "a.JPG". */
  lemma UpperJpgSpelling()
    ensures IsSegment("a") && "a" + ".JPG" == "a.JPG"
    ensures |".JPG"| >= 2 && ".JPG"[0] == '.'
    ensures forall j :: 0 < j < |".JPG"| ==> ".JPG"[j] != '.' && ".JPG"[j] != '/'
    ensures Lower(".JPG") == ".jpg" && !IsLower(".JPG")
  {
    assert IsUpperAscii(".JPG"[1]);
  }

  /** An upper-case extension is accepted. */
  lemma UpperCaseAccepted()
    ensures IsSegment("a.JPG") && IsImageFile("a.JPG") && Ext("a.JPG") == ".jpg"
  {
    UpperCaseExt();
    assert Ext("a.JPG") == AllowList[0];
  }

  /** ".tif" is not on the allow-list, even though ".tiff" is. */
  lemma TifRejected()
    ensures IsSegment("b.tiff") && IsImageFile("b.tiff")
    ensures IsSegment("c.tif") && !IsImageFile("c.tif")
  {
    TiffAccepted();
    TifNotAllowed();
  }

  lemma TiffAccepted()
    ensures IsSegment("b.tiff") && IsImageFile("b.tiff")
  {
    TiffSpelling();
    AllowedSuffixIsImage("b", ".tiff");
  }

  /** Spelling of "b.tiff". */
  lemma TiffSpelling()
    ensures IsSegment("b") && "b" + ".tiff" == "b.tiff" && ".tiff" == AllowList[6]
  {
  }

  lemma TifNotAllowed()
    ensures IsSegment("c.tif") && Ext("c.tif") == ".tif" && !IsImageFile("c.tif")
  {
    TifSpelling();
    LowerSuffix("c", ".tif");
    TifNotListed();
  }

  /** Spelling of "c.tif". */
  lemma TifSpelling()
    ensures IsSegment("c") && "c" + ".tif" == "c.tif"
    ensures |".tif"| >= 2 && ".tif"[0] == '.' && forall j :: 0 < j < |".tif"| ==> 'a' <= ".tif"[j] <= 'z'
  {
  }

  lemma TifNotListed()
    ensures ".tif" !in AllowList
  {
    assert forall i :: 0 <= i < |AllowList| ==> AllowList[i] != ".tif";
  }

  /** A name without an extension, a name whose only dot starts it, and the two
      variant sub-directories as they appear in the uploads listing are all skipped. */
  lemma NoExtensionRejected()
    ensures IsSegment("notes") && !IsImageFile("notes")
    ensures IsSegment(".jpg") && !IsImageFile(".jpg")
    ensures IsSegment("optimized") && !IsImageFile("optimized")
    ensures IsSegment("thumbnails") && !IsImageFile("thumbnails")
  {
    PlainSpelling();
    NoDotRejected("notes");
    NoDotRejected("optimized");
    NoDotRejected("thumbnails");
    LeadingDotRejected();
  }

  /** Spelling of three names with neither '.' nor '/'. */
  lemma PlainSpelling()
    ensures forall j :: 0 <= j < |"notes"| ==> "notes"[j] != '.' && "notes"[j] != '/'
    ensures forall j :: 0 <= j < |"optimized"| ==> "optimized"[j] != '.' && "optimized"[j] != '/'
    ensures forall j :: 0 <= j < |"thumbnails"| ==> "thumbnails"[j] != '.' && "thumbnails"[j] != '/'
  {
  }

  /** A name with no dot at all is skipped. */
  lemma NoDotRejected(f: string)
    requires forall j :: 0 <= j < |f| ==> f[j] != '.' && f[j] != '/'
    ensures IsSegment(f) && !IsImageFile(f)
  {
    assert LastDot(f) == None;
    EmptyExtRejected(f);
  }

  /** ".jpg" has its only dot at the start, so its extension is empty. */
  lemma LeadingDotRejected()
    ensures IsSegment(".jpg") && !IsImageFile(".jpg")
  {
    LeadingDotSpelling();
    LastDotUnique(".jpg", 0);
    EmptyExtRejected(".jpg");
  }

  /** Spelling of ".jpg" as an entry name. */
  lemma LeadingDotSpelling()
    ensures IsSegment(".jpg") && |".jpg"| > 0 && ".jpg"[0] == '.'
    ensures forall j :: 0 < j < |".jpg"| ==> ".jpg"[j] != '.'
  {
  }

  /** An entry whose extension is empty is skipped. */
  lemma EmptyExtRejected(f: string)
    requires IsSegment(f) && Extname(f) == ""
    ensures !IsImageFile(f)
  {
    assert Ext(f) == "";
  }

  /** "a.JPG" keeps its whole name as the stem. */
  lemma UpperCaseExtensionExample()
    ensures IsSegment("a.JPG")
    ensures OptimizedName("a.JPG") == "a.JPG-optimized.jpg"
    ensures ThumbnailName("a.JPG") == "a.JPG-thumb.jpg"
  {
    Markers();
    UpperCaseName("-optimized");
    UpperCaseName("-thumb");
    ExampleSpelling();
  }

  /** Spelling of the two derived names of "a.JPG". */
  lemma ExampleSpelling()
    ensures "a.JPG" + "-optimized" + ".jpg" == "a.JPG-optimized.jpg"
    ensures "a.JPG" + "-thumb" + ".jpg" == "a.JPG-thumb.jpg"
  {
  }

  lemma UpperCaseName(marker: string)
    requires IsMarker(marker)
    ensures IsSegment("a.JPG") && DerivedName("a.JPG", marker) == "a.JPG" + marker + ".jpg"
  {
    UpperCaseExt();
    DerivedNameParts("a.JPG", marker);
  }

  /** "a.JPG.jpg" is an image file with the lower-case extension ".jpg" and stem "a.JPG". */
  lemma DoubleExtStem()
    ensures IsSegment("a.JPG.jpg") && IsImageFile("a.JPG.jpg")
    ensures Ext("a.JPG.jpg") == ".jpg" && Stem("a.JPG.jpg") == "a.JPG"
  {
    DoubleExtSpelling();
    AllowedSuffixIsImage("a.JPG", ".jpg");
    AllowListShape(".jpg");
    LowerSuffix("a.JPG", ".jpg");
  }

  /** Spelling of "a.JPG.jpg". */
  lemma DoubleExtSpelling()
    ensures IsSegment("a.JPG") && "a.JPG" + ".jpg" == "a.JPG.jpg" && ".jpg" == AllowList[0]
  {
  }

  lemma DoubleExtName(marker: string)
    requires IsMarker(marker)
    ensures IsSegment("a.JPG.jpg") && DerivedName("a.JPG.jpg", marker) == "a.JPG" + marker + ".jpg"
  {
    DoubleExtStem();
    DerivedNameParts("a.JPG.jpg", marker);
  }

  /** Two different image files can be given the same derived names when one of
      them has an upper-case extension: "a.JPG" and "a.JPG.jpg". */
  lemma UpperCaseExtensionCollision()
    ensures IsSegment("a.JPG") && IsSegment("a.JPG.jpg")
    ensures IsImageFile("a.JPG") && IsImageFile("a.JPG.jpg")
    ensures OptimizedName("a.JPG") == OptimizedName("a.JPG.jpg")
    ensures ThumbnailName("a.JPG") == ThumbnailName("a.JPG.jpg")
  {
    UpperCaseAccepted();
    DoubleExtStem();
    Markers();
    UpperCaseName("-optimized");
    UpperCaseName("-thumb");
    DoubleExtName("-optimized");
    DoubleExtName("-thumb");
  }
}
