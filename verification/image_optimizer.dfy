/**
  The file-name arithmetic of the batch script that derives an optimized copy
  and a thumbnail for every image already in the uploads directory.

  Resizing and JPEG encoding are not modelled: each write of a variant is an
  opaque step whose success is given by the oracle `write(entry, variant)`.
 */
module ImageOptimizer {
  import opened Wrappers
  import opened NodePath

  /** The three directories of the asset store. */
  datatype Dir = Uploads | Optimized | Thumbnails

  /** A file in one of the directories. */
  datatype Target = Target(dir: Dir, name: string)

  /** The two derived variants of an image. */
  datatype Variant = OptimizedVariant | Thumbnail

  /** Directory prefixes, relative to the script's own directory. */
  function DirPrefix(d: Dir): string {
    match d
    case Uploads => "uploads/"
    case Optimized => "uploads/optimized/"
    case Thumbnails => "uploads/thumbnails/"
  }

  /** `path.join(dir, name)` for a plain name (non-empty, not "." or "..", no '/'). */
  function PathOf(t: Target): string {
    DirPrefix(t.dir) + t.name
  }

  /** The extensions the batch script treats as images. */
  const AllowList: seq<string> := [".jpg", ".jpeg", ".png", ".gif", ".webp", ".bmp", ".tiff"]

  /** The lower-cased extension of an entry. */
  function Ext(f: string): (e: string)
    requires IsSegment(f)
    ensures |e| == |Extname(f)| && IsLower(e)
    ensures e == "" || e[0] == '.'
    ensures forall j :: 0 < j < |e| ==> e[j] != '.'
  {
    LowerFixedPoints(Extname(f));
    Lower(Extname(f))
  }

  /** The entry name with its lower-cased extension removed. Since the removal
      is case-sensitive, it happens only when the extension is already lower case. */
  function Stem(f: string): (s: string)
    requires IsSegment(f)
    ensures IsLower(Extname(f)) ==> s + Ext(f) == f
    ensures !IsLower(Extname(f)) ==> s == f
  {
    var e := Extname(f);
    LowerFixedPoints(e);
    assert !IsLower(e) ==> f[|f| - |e|..] == e;
    Basename(f, Ext(f))
  }

  /** A marker inserted into a derived name: "-optimized" or "-thumb". */
  predicate IsMarker(marker: string) {
    |marker| > 0 && marker[0] == '-' && forall j :: 0 <= j < |marker| ==> marker[j] != '.' && marker[j] != '/'
  }

  /** The name of a derived copy: the stem, the marker, then the lower-cased extension.
      It is again a plain entry name. */
  function DerivedName(f: string, marker: string): (n: string)
    requires IsSegment(f) && IsMarker(marker)
    ensures IsSegment(n)
  {
    var s := Stem(f);
    var e := Ext(f);
    StemSegment(f);
    ExtSegment(f);
    SegmentConcat(s, marker, e);
    s + marker + e
  }

  /** `marker` goes before the extension when the extension is already lower case;
      otherwise it goes after the whole name, followed by the lower-cased extension.
      Either way the derived name ends with the lower-cased extension. */
  lemma DerivedNamePlacement(f: string, marker: string)
    requires IsSegment(f) && IsMarker(marker)
    ensures IsLower(Extname(f)) ==> DerivedName(f, marker) == f[..|f| - |Ext(f)|] + marker + Ext(f)
    ensures !IsLower(Extname(f)) ==> DerivedName(f, marker) == f + marker + Ext(f)
    ensures EndsWith(DerivedName(f, marker), Ext(f))
  {
    var s := Stem(f);
    var e := Ext(f);
    var n := s + marker + e;
    assert n[|n| - |e|..] == e;
    if IsLower(Extname(f)) {
      assert s == (s + e)[..|f| - |e|];
    }
  }

  /** How both derived names are assembled. */
  lemma DerivedNameParts(f: string, marker: string)
    requires IsSegment(f) && IsMarker(marker)
    ensures DerivedName(f, marker) == Stem(f) + marker + Ext(f)
    ensures DerivedName(f, marker) == Stem(f) + (marker + Ext(f))
  {
    assert Stem(f) + marker + Ext(f) == Stem(f) + (marker + Ext(f));
  }

  /** The two markers the script uses. */
  lemma Markers()
    ensures IsMarker("-optimized") && IsMarker("-thumb")
  {
  }

  /** The stem of an entry name has no '/'. */
  lemma StemSegment(f: string)
    requires IsSegment(f)
    ensures IsSegment(Stem(f))
  {
    var s := Stem(f);
    assert forall i :: 0 <= i < |s| ==> s[i] == f[i];
  }

  /** The lower-cased extension of an entry name has no '/'. */
  lemma ExtSegment(f: string)
    requires IsSegment(f)
    ensures IsSegment(Ext(f))
  {
    var x := Extname(f);
    assert forall i :: 0 <= i < |x| ==> x[i] == f[|f| - |x| + i];
    assert forall i :: 0 <= i < |x| ==> Ext(f)[i] == LowerChar(x[i]);
  }

  /** Joining three segments gives a segment. */
  lemma SegmentConcat(a: string, b: string, c: string)
    requires IsSegment(a) && IsSegment(b) && IsSegment(c)
    ensures IsSegment(a + b + c)
  {
    var n := a + b + c;
    forall i | 0 <= i < |n| ensures n[i] != '/' {
      if i < |a| {
        assert n[i] == a[i];
      } else if i < |a| + |b| {
        assert n[i] == b[i - |a|];
      } else {
        assert n[i] == c[i - |a| - |b|];
      }
    }
  }

  /** Name of the optimized copy. */
  function OptimizedName(f: string): (n: string)
    requires IsSegment(f)
  {
    DerivedName(f, "-optimized")
  }

  /** Name of the thumbnail. */
  function ThumbnailName(f: string): (n: string)
    requires IsSegment(f)
  {
    DerivedName(f, "-thumb")
  }

  /** The optimized and thumbnail names: each marker is inserted before an extension
      that is already lower case, and otherwise appended to the whole name together with
      the lower-cased extension; both names end with the lower-cased extension. */
  lemma VariantNames(f: string)
    requires IsSegment(f)
    ensures IsLower(Extname(f)) ==> OptimizedName(f) == f[..|f| - |Ext(f)|] + "-optimized" + Ext(f)
    ensures IsLower(Extname(f)) ==> ThumbnailName(f) == f[..|f| - |Ext(f)|] + "-thumb" + Ext(f)
    ensures !IsLower(Extname(f)) ==> OptimizedName(f) == f + "-optimized" + Ext(f)
    ensures !IsLower(Extname(f)) ==> ThumbnailName(f) == f + "-thumb" + Ext(f)
    ensures EndsWith(OptimizedName(f), Ext(f)) && EndsWith(ThumbnailName(f), Ext(f))
  {
    Markers();
    DerivedNamePlacement(f, "-optimized");
    DerivedNamePlacement(f, "-thumb");
  }

  /** What one call of the optimizer reports and which writes it attempted, in order. */
  datatype ImageOutcome = ImageOutcome(success: bool, attempted: seq<Target>)

  /** One image: write the optimized copy, and only if that succeeded the thumbnail;
      report success only if both writes succeeded. */
  function OptimizeImage(f: string, write: (string, Variant) -> bool): (o: ImageOutcome)
    requires IsSegment(f)
    ensures o.success <==> write(f, OptimizedVariant) && write(f, Thumbnail)
    ensures |o.attempted| == (if write(f, OptimizedVariant) then 2 else 1)
    ensures o.attempted[0] == Target(Optimized, OptimizedName(f))
    ensures |o.attempted| == 2 ==> o.attempted[1] == Target(Thumbnails, ThumbnailName(f))
  {
    var optimized := Target(Optimized, OptimizedName(f));
    if !write(f, OptimizedVariant) then
      ImageOutcome(false, [optimized])
    else
      var thumbnail := Target(Thumbnails, ThumbnailName(f));
      ImageOutcome(write(f, Thumbnail), [optimized, thumbnail])
  }

  /** The extension of `stem + marker + e` is `e`, for a non-empty `e` shaped like an extension. */
  lemma DerivedExtname(stem: string, marker: string, e: string)
    requires IsSegment(stem + marker + e) && IsMarker(marker)
    requires e == "" || e[0] == '.'
    requires forall j :: 0 < j < |e| ==> e[j] != '.'
    ensures e != "" ==> Extname(stem + marker + e) == e
  {
    var n := stem + marker + e;
    if e != "" {
      var d := |stem| + |marker|;
      assert n[d] == '.';
      assert forall j :: d < j < |n| ==> n[j] == e[j - d];
      LastDotUnique(n, d);
      assert n[|stem|] == '-';
      assert n != "..";
      assert n[d..] == e;
    }
  }

  /** A non-empty lower-cased extension stays the extension of a derived name. */
  lemma DerivedNameKeepsExt(f: string, marker: string)
    requires IsSegment(f) && IsMarker(marker)
    ensures Ext(f) != "" ==> Extname(DerivedName(f, marker)) == Ext(f)
  {
    DerivedNameParts(f, marker);
    DerivedExtname(Stem(f), marker, Ext(f));
  }

  /** A derived name is longer than the entry by exactly its marker when the extension
      is lower case, and by the marker and extension otherwise. */
  lemma DerivedNameLength(f: string, marker: string)
    requires IsSegment(f) && IsMarker(marker)
    ensures |DerivedName(f, marker)| == |f| + |marker| + (if IsLower(Extname(f)) then 0 else |Ext(f)|)
  {
  }

  /** The optimized and thumbnail names of one entry differ from each other and
      from the entry itself, and a non-empty lower-cased extension stays the
      extension of both. */
  lemma DerivedNamesDistinct(f: string)
    requires IsSegment(f)
    ensures OptimizedName(f) != ThumbnailName(f)
    ensures OptimizedName(f) != f && ThumbnailName(f) != f
    ensures Ext(f) != "" ==> Extname(OptimizedName(f)) == Ext(f) && Extname(ThumbnailName(f)) == Ext(f)
  {
    Markers();
    DerivedNameLength(f, "-optimized");
    DerivedNameLength(f, "-thumb");
    DerivedNameKeepsExt(f, "-optimized");
    DerivedNameKeepsExt(f, "-thumb");
  }

  /** Every path the optimizer writes lies outside the uploads directory proper, so
      no original is ever overwritten; the two variants never share a path. */
  lemma WritesAvoidOriginals(f: string, g: string, write: (string, Variant) -> bool)
    requires IsSegment(f) && IsSegment(g)
    ensures forall t :: t in OptimizeImage(f, write).attempted ==>
              t.dir != Uploads && PathOf(t) != PathOf(Target(Uploads, g))
    ensures PathOf(Target(Optimized, OptimizedName(f))) != PathOf(Target(Thumbnails, ThumbnailName(f)))
  {
    var ws := OptimizeImage(f, write).attempted;
    forall t | t in ws
      ensures t.dir != Uploads && PathOf(t) != PathOf(Target(Uploads, g))
    {
      DerivedPathNotOriginal(t, g);
    }
    VariantPathsDiffer(OptimizedName(f), ThumbnailName(f));
  }

  /** Paths in the two variant directories never coincide. */
  lemma VariantPathsDiffer(a: string, b: string)
    ensures PathOf(Target(Optimized, a)) != PathOf(Target(Thumbnails, b))
  {
    assert PathOf(Target(Optimized, a))[8] == 'o';
    assert PathOf(Target(Thumbnails, b))[8] == 't';
  }

  /** A path in either variant directory has a second '/' at the end of its
      directory prefix, past index 7, where a path of a plain name in the uploads
      directory has none. */
  lemma DerivedPathNotOriginal(t: Target, g: string)
    requires t.dir != Uploads && IsSegment(g)
    ensures PathOf(t) != PathOf(Target(Uploads, g))
  {
    var p := PathOf(t);
    var q := PathOf(Target(Uploads, g));
    var k := |DirPrefix(t.dir)| - 1;
    assert p[k] == '/';
    assert |q| <= k || q[k] == g[k - 8];
  }

  /** The batch filter: an entry is processed iff its lower-cased extension is allowed. */
  predicate IsImageFile(f: string)
    requires IsSegment(f)
  {
    Ext(f) in AllowList
  }

  /** An entry is an image file iff it splits into a non-empty head and a tail whose
      lower-cased form is one of the allowed extensions. */
  lemma ImageFileIff(f: string)
    requires IsSegment(f)
    ensures IsImageFile(f) <==> exists k :: 1 <= k < |f| && Lower(f[k..]) in AllowList
  {
    if IsImageFile(f) {
      ImageFileHasAllowedTail(f);
    }
    if k :| 1 <= k < |f| && Lower(f[k..]) in AllowList {
      AllowedTailIsImageFile(f, k);
    }
  }

  /** An image file's extension is such a tail. */
  lemma ImageFileHasAllowedTail(f: string)
    requires IsSegment(f) && IsImageFile(f)
    ensures 1 <= |f| - |Extname(f)| < |f| && Lower(f[|f| - |Extname(f)|..]) in AllowList
  {
    var k := |f| - |Extname(f)|;
    assert f[k..] == Extname(f);
  }

  /** Every allowed extension is a dot followed by letters. */
  lemma AllowListShape(e: string)
    requires e in AllowList
    ensures |e| >= 4 && e[0] == '.'
    ensures forall j :: 0 < j < |e| ==> 'a' <= e[j] <= 'z'
  {
  }

  /** Such a tail is necessarily the extension. */
  lemma AllowedTailIsImageFile(f: string, k: nat)
    requires IsSegment(f) && 1 <= k < |f| && Lower(f[k..]) in AllowList
    ensures Extname(f) == f[k..] && IsImageFile(f)
  {
    var e := Lower(f[k..]);
    AllowListShape(e);
    assert e[0] == LowerChar(f[k]);
    assert f[k] == '.';
    forall j | k < j < |f| ensures f[j] != '.' {
      assert e[j - k] == LowerChar(f[j]);
    }
    LastDotUnique(f, k);
    assert |f| >= 5;
    assert f != "..";
  }

  /** A non-empty stem followed by a dot and dot-free text: the suffix is the extension. */
  lemma DotSuffix(stem: string, e: string)
    requires IsSegment(stem) && |stem| >= 1
    requires |e| >= 2 && e[0] == '.' && forall j :: 0 < j < |e| ==> e[j] != '.' && e[j] != '/'
    ensures IsSegment(stem + e) && Extname(stem + e) == e && Ext(stem + e) == Lower(e)
  {
    var f := stem + e;
    var d := |stem|;
    forall i | 0 <= i < |f| ensures f[i] != '/' {
      if i >= d {
        assert f[i] == e[i - d];
      }
    }
    assert f[d] == '.';
    forall j | d < j < |f| ensures f[j] != '.' {
      assert f[j] == e[j - d];
    }
    LastDotUnique(f, d);
    assert f[d..] == e;
  }

  /** A non-empty stem followed by a dot and lower-case letters: the suffix is the
      extension, already lower case, and stripping it gives the stem back. */
  lemma LowerSuffix(stem: string, e: string)
    requires IsSegment(stem) && |stem| >= 1
    requires |e| >= 2 && e[0] == '.' && forall j :: 0 < j < |e| ==> 'a' <= e[j] <= 'z'
    ensures IsSegment(stem + e) && Extname(stem + e) == e && Ext(stem + e) == e
    ensures Stem(stem + e) == stem
  {
    DotSuffix(stem, e);
    assert forall j :: 0 <= j < |e| ==> !IsUpperAscii(e[j]);
    LowerFixedPoints(e);
    SplitUnique(Stem(stem + e), stem, e);
  }

  /** A non-empty stem followed by an allowed extension is an image file with that stem. */
  lemma AllowedSuffixIsImage(stem: string, e: string)
    requires IsSegment(stem) && |stem| >= 1 && e in AllowList
    ensures IsSegment(stem + e) && IsImageFile(stem + e) && Stem(stem + e) == stem
  {
    AllowListShape(e);
    LowerSuffix(stem, e);
  }

  /** Among image files whose extension is already lower case, the derived names
      determine the entry. */
  lemma DerivedNamesInjective(f: string, g: string)
    requires IsSegment(f) && IsSegment(g) && IsImageFile(f) && IsImageFile(g)
    requires IsLower(Extname(f)) && IsLower(Extname(g))
    ensures OptimizedName(f) == OptimizedName(g) ==> f == g
    ensures ThumbnailName(f) == ThumbnailName(g) ==> f == g
  {
    Markers();
    DerivedNameInjective(f, g, "-optimized");
    DerivedNameInjective(f, g, "-thumb");
  }

  /** One marker at a time: equal derived names give equal entries. */
  lemma DerivedNameInjective(f: string, g: string, marker: string)
    requires IsSegment(f) && IsSegment(g) && IsMarker(marker)
    requires Ext(f) != "" && Ext(g) != ""
    requires IsLower(Extname(f)) && IsLower(Extname(g))
    ensures DerivedName(f, marker) == DerivedName(g, marker) ==> f == g
  {
    if DerivedName(f, marker) == DerivedName(g, marker) {
      SameDerivedNameSameExt(f, g, marker);
      var e := Ext(f);
      DerivedNameParts(f, marker);
      DerivedNameParts(g, marker);
      var sf, sg := Stem(f), Stem(g);
      SplitUnique(sf, sg, marker + e);
      assert f == sf + e;
    }
  }

  /** Equal derived names of entries with extensions carry the same extension. */
  lemma SameDerivedNameSameExt(f: string, g: string, marker: string)
    requires IsSegment(f) && IsSegment(g) && IsMarker(marker)
    requires Ext(f) != "" && Ext(g) != ""
    requires DerivedName(f, marker) == DerivedName(g, marker)
    ensures Ext(f) == Ext(g)
  {
    DerivedNameKeepsExt(f, marker);
    DerivedNameKeepsExt(g, marker);
  }

  /** Cancelling a common suffix. */
  lemma SplitUnique(a: string, b: string, c: string)
    requires a + c == b + c
    ensures a == b
  {
    assert a == (a + c)[..|a|];
  }
}
