/**
  The batch run over one listing of the uploads directory: the allow-list
  filter, then one optimizer call per image in listing order, counting the
  images whose two writes both succeed.
 */
module BatchRun {
  import opened NodePath
  import opened Seqs
  import opened ImageOptimizer

  /** Every element of `files` is a directory-entry name. */
  predicate AllSegments(files: seq<string>) {
    forall i :: 0 <= i < |files| ==> IsSegment(files[i])
  }

  /** The filter's test as a total predicate on listing entries. */
  predicate IsImageEntry(f: string) {
    IsSegment(f) && IsImageFile(f)
  }

  /** `files.filter(...)` with the allow-list test. */
  function FilterImages(files: seq<string>): (r: seq<string>)
    requires AllSegments(files)
    ensures |r| <= |files| && AllSegments(r)
    ensures forall i :: 0 <= i < |r| ==> r[i] in files && IsImageFile(r[i])
    ensures forall i :: 0 <= i < |files| && IsImageFile(files[i]) ==> files[i] in r
  {
    var r := Filter(files, IsImageEntry);
    assert forall i :: 0 <= i < |r| ==> IsImageEntry(r[i]);
    r
  }

  /** The filtered list keeps the listing's order and every image entry's multiplicity,
      and drops exactly the non-image entries. */
  lemma FilterImagesKeepsOrder(files: seq<string>)
    requires AllSegments(files)
    ensures IsSubsequence(FilterImages(files), files)
    ensures forall x :: IsSegment(x) ==>
              multiset(FilterImages(files))[x] == (if IsImageFile(x) then multiset(files)[x] else 0)
  {
    FilterKeepsOrder(files, IsImageEntry);
  }

  /** Both variant writes of `f` succeed. */
  predicate BothWritten(f: string, write: (string, Variant) -> bool) {
    write(f, OptimizedVariant) && write(f, Thumbnail)
  }

  /** The positions of `files` where both variant writes succeed. */
  function BothWrittenAt(files: seq<string>, write: (string, Variant) -> bool): set<nat> {
    set i: nat | i < |files| && BothWritten(files[i], write)
  }

  /** Number of entries of `files` whose two variant writes both succeed. */
  function CountSucceeded(files: seq<string>, write: (string, Variant) -> bool): (n: nat)
    ensures n <= |files|
  {
    if |files| == 0 then 0
    else CountSucceeded(files[..|files| - 1], write) + (if BothWritten(files[|files| - 1], write) then 1 else 0)
  }

  /** The success count is the number of positions where both variant writes succeed. */
  lemma {:induction false} CountSucceededIsCardinality(files: seq<string>, write: (string, Variant) -> bool)
    ensures CountSucceeded(files, write) == |BothWrittenAt(files, write)|
  {
    if |files| > 0 {
      var n := |files| - 1;
      var init := files[..n];
      CountSucceededIsCardinality(init, write);
      var s := BothWrittenAt(files, write);
      var s0 := BothWrittenAt(init, write);
      assert n !in s0;
      forall i: nat ensures i in s <==> i in s0 || (i == n && BothWritten(files[n], write)) {
        if i < n {
          assert init[i] == files[i];
        }
      }
      if BothWritten(files[n], write) {
        assert s == s0 + {n};
      } else {
        assert s == s0;
      }
    }
  }

  /** Every write for every entry of `files` succeeds. */
  predicate AllWritten(files: seq<string>, write: (string, Variant) -> bool) {
    forall i :: 0 <= i < |files| ==> BothWritten(files[i], write)
  }

  /** Every image is reported processed exactly when every write succeeds. */
  lemma {:induction false} CountSucceededAll(files: seq<string>, write: (string, Variant) -> bool)
    ensures CountSucceeded(files, write) == |files| <==> AllWritten(files, write)
  {
    if |files| > 0 {
      var n := |files| - 1;
      CountSucceededAll(files[..n], write);
      AllWrittenSnoc(files, write);
    }
  }

  /** `AllWritten` of a non-empty list splits into its front and its last entry. */
  lemma AllWrittenSnoc(files: seq<string>, write: (string, Variant) -> bool)
    requires |files| > 0
    ensures AllWritten(files, write)
            <==> AllWritten(files[..|files| - 1], write) && BothWritten(files[|files| - 1], write)
  {
    var init := files[..|files| - 1];
    assert forall i :: 0 <= i < |init| ==> init[i] == files[i];
  }

  /** The writes attempted while processing the first `n` entries of `files` in order. */
  function AttemptedWrites(files: seq<string>, n: nat, write: (string, Variant) -> bool): (ws: seq<Target>)
    requires AllSegments(files) && n <= |files|
    ensures forall t :: t in ws ==> t.dir != Uploads
  {
    if n == 0 then []
    else AttemptedWrites(files, n - 1, write) + OptimizeImage(files[n - 1], write).attempted
  }

  /** One more entry processed: the count and the write log grow by that entry's share. */
  lemma ProcessStep(files: seq<string>, i: nat, write: (string, Variant) -> bool, count: nat, o: ImageOutcome)
    requires AllSegments(files) && i < |files|
    requires count == CountSucceeded(files[..i], write)
    requires o == OptimizeImage(files[i], write)
    ensures (if o.success then count + 1 else count) == CountSucceeded(files[..i + 1], write)
  {
    var done := files[..i + 1];
    assert done[..i] == files[..i] && done[i] == files[i];
  }

  /** The batch run over one directory listing: filter, then optimize each image
      in listing order, counting successes. */
  method ProcessAllImages(files: seq<string>, write: (string, Variant) -> bool)
    returns (imageFiles: seq<string>, successCount: nat, writes: seq<Target>)
    requires AllSegments(files)
    ensures imageFiles == FilterImages(files)
    ensures successCount == |BothWrittenAt(imageFiles, write)| && successCount <= |imageFiles|
    ensures writes == AttemptedWrites(imageFiles, |imageFiles|, write)
    ensures forall t, g :: t in writes && IsSegment(g) ==> PathOf(t) != PathOf(Target(Uploads, g))
  {
    imageFiles := FilterImages(files);
    successCount, writes := OptimizeAll(imageFiles, write);
    CountSucceededIsCardinality(imageFiles, write);
    LogAvoidsOriginals(writes);
  }

  /** The loop of the batch run: one optimizer call per image, in order. */
  method OptimizeAll(imageFiles: seq<string>, write: (string, Variant) -> bool)
    returns (successCount: nat, writes: seq<Target>)
    requires AllSegments(imageFiles)
    ensures successCount == CountSucceeded(imageFiles, write)
    ensures writes == AttemptedWrites(imageFiles, |imageFiles|, write)
  {
    successCount := 0;
    writes := [];
    var i := 0;
    while i < |imageFiles|
      invariant 0 <= i <= |imageFiles|
      invariant successCount == CountSucceeded(imageFiles[..i], write)
      invariant writes == AttemptedWrites(imageFiles, i, write)
    {
      var outcome := OptimizeImage(imageFiles[i], write);
      ProcessStep(imageFiles, i, write, successCount, outcome);
      if outcome.success {
        successCount := successCount + 1;
      }
      writes := writes + outcome.attempted;
      i := i + 1;
    }
    assert imageFiles[..i] == imageFiles;
  }

  /** A write log with no entry in the uploads directory proper leaves every original alone. */
  lemma LogAvoidsOriginals(ws: seq<Target>)
    requires forall t :: t in ws ==> t.dir != Uploads
    ensures forall t, g :: t in ws && IsSegment(g) ==> PathOf(t) != PathOf(Target(Uploads, g))
  {
    forall t, g | t in ws && IsSegment(g)
      ensures PathOf(t) != PathOf(Target(Uploads, g))
    {
      DerivedPathNotOriginal(t, g);
    }
  }
}
