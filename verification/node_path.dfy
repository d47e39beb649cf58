/**
  The fragment of Node's POSIX `path` module and of `String.prototype.toLowerCase`
  that the upload scripts use, on a single path segment (a name as a directory
  listing yields it: no '/').

  Each path function is given twice: a declarative function that the rest of the
  model uses, and a method that follows Node's right-to-left scanning loop, proved
  to compute the same string.
 */
module NodePath {
  import opened Wrappers

  /** A single path segment, as returned by a directory listing. */
  predicate IsSegment(s: string) {
    forall i :: 0 <= i < |s| ==> s[i] != '/'
  }

  predicate IsUpperAscii(c: char) {
    'A' <= c <= 'Z'
  }

  /** Lower-casing of one character (ASCII letters only). */
  function LowerChar(c: char): char {
    if IsUpperAscii(c) then (c as int + 32) as char else c
  }

  /** `s.toLowerCase()`, restricted to ASCII letters. */
  function Lower(s: string): (r: string)
    ensures |r| == |s|
    ensures forall i :: 0 <= i < |s| ==> r[i] == LowerChar(s[i])
  {
    seq(|s|, i requires 0 <= i < |s| => LowerChar(s[i]))
  }

  /** No character of `s` is an upper-case letter. */
  predicate IsLower(s: string) {
    forall i :: 0 <= i < |s| ==> !IsUpperAscii(s[i])
  }

  /** Lower-casing is the identity exactly on strings without upper-case letters,
      and its results never have any. */
  lemma LowerFixedPoints(s: string)
    ensures Lower(s) == s <==> IsLower(s)
    ensures IsLower(Lower(s))
  {
    if Lower(s) == s {
      forall i | 0 <= i < |s| ensures !IsUpperAscii(s[i]) {
        assert Lower(s)[i] == LowerChar(s[i]);
      }
    }
  }

  /** `s.endsWith(suffix)`: the comparison is case-sensitive. */
  predicate EndsWith(s: string, suffix: string) {
    |suffix| <= |s| && s[|s| - |suffix|..] == suffix
  }

  /** Index of the last '.' of `s`, if any. */
  function LastDot(s: string): (r: Option<nat>)
    ensures r.None? <==> (forall j :: 0 <= j < |s| ==> s[j] != '.')
    ensures r.Some? ==> r.value < |s| && s[r.value] == '.'
    ensures r.Some? ==> forall j :: r.value < j < |s| ==> s[j] != '.'
  {
    if |s| == 0 then None
    else if s[|s| - 1] == '.' then Some(|s| - 1)
    else LastDot(s[..|s| - 1])
  }

  /** A dot with no dot after it is the last dot. */
  lemma LastDotUnique(s: string, d: nat)
    requires d < |s| && s[d] == '.'
    requires forall j :: d < j < |s| ==> s[j] != '.'
    ensures LastDot(s) == Some(d)
  {
  }

  /** `path.extname(s)` for a segment: the text from the last '.', or "" when there
      is no dot, when the only candidate dot starts the name, or for "..". */
  function Extname(s: string): (e: string)
    requires IsSegment(s)
    ensures e == "" || (e[0] == '.' && |e| < |s| && EndsWith(s, e))
    ensures forall j :: 0 < j < |e| ==> e[j] != '.'
  {
    match LastDot(s)
    case None => ""
    case Some(d) => if d == 0 || s == ".." then "" else s[d..]
  }

  /** Node's extname loop (posix), with the '/' handling that a segment never reaches left out. */
  method ExtnameScan(s: string) returns (e: string)
    requires IsSegment(s)
    ensures e == Extname(s)
  {
    var startDot := -1;
    var end := -1;
    var preDotState := 0;
    var i := |s|;
    while i > 0
      invariant 0 <= i <= |s|
      invariant end == (if i < |s| then |s| else -1)
      invariant -1 <= startDot < |s|
      invariant startDot == -1 ==> forall j :: i <= j < |s| ==> s[j] != '.'
      invariant startDot != -1 ==> i <= startDot && s[startDot] == '.'
      invariant startDot != -1 ==> forall j :: startDot < j < |s| ==> s[j] != '.'
      invariant preDotState == (if startDot == -1 || i == startDot then 0 else if s[i] == '.' then 1 else -1)
    {
      i := i - 1;
      var c := s[i];
      if end == -1 {
        end := i + 1;
      }
      if c == '.' {
        if startDot == -1 {
          startDot := i;
        } else if preDotState != 1 {
          preDotState := 1;
        }
      } else if startDot != -1 {
        preDotState := -1;
      }
    }
    if startDot != -1 {
      LastDotUnique(s, startDot);
    }
    if startDot == -1 || end == -1 || preDotState == 0
       || (preDotState == 1 && startDot == end - 1 && startDot == 1) {
      e := "";
    } else {
      e := s[startDot..end];
    }
  }

  /** `path.basename(p, suffix)` for a segment: drops `suffix` exactly when `p`
      ends with it, compared case-sensitively. */
  function Basename(p: string, suffix: string): (b: string)
    requires IsSegment(p)
    ensures EndsWith(p, suffix) ==> b + suffix == p
    ensures !EndsWith(p, suffix) ==> b == p
  {
    if EndsWith(p, suffix) then p[..|p| - |suffix|] else p
  }

  /** `p` ends with `suffix` exactly when they agree at every position of `suffix`. */
  lemma EndsWithPointwise(p: string, suffix: string)
    requires |suffix| <= |p|
    ensures EndsWith(p, suffix) <==>
            forall k :: |p| - |suffix| <= k < |p| ==> p[k] == suffix[k - (|p| - |suffix|)]
  {
    var off := |p| - |suffix|;
    if forall k :: off <= k < |p| ==> p[k] == suffix[k - off] {
      assert forall k :: 0 <= k < |suffix| ==> p[off..][k] == p[off + k];
    }
  }

  /** Node's basename loop (posix) with a suffix argument, with the '/' handling
      that a segment never reaches left out. */
  method BasenameScan(p: string, suffix: string) returns (b: string)
    requires IsSegment(p)
    ensures b == Basename(p, suffix)
  {
    if |suffix| > 0 && |suffix| <= |p| {
      if suffix == p {
        return "";
      }
      ghost var off := |p| - |suffix|;
      EndsWithPointwise(p, suffix);
      var extIdx := |suffix| - 1;
      var firstNonSlashEnd := -1;
      var end := -1;
      var i := |p|;
      while i > 0
        invariant 0 <= i <= |p|
        invariant firstNonSlashEnd == (if i < |p| then |p| else -1)
        invariant -1 <= extIdx < |suffix|
        invariant extIdx >= 0 ==> extIdx == i - off - 1 && end == -1
        invariant extIdx >= 0 ==> forall k :: i <= k < |p| ==> p[k] == suffix[k - off]
        invariant extIdx == -1 ==> end == (if EndsWith(p, suffix) then off else |p|)
      {
        i := i - 1;
        if firstNonSlashEnd == -1 {
          firstNonSlashEnd := i + 1;
        }
        if extIdx >= 0 {
          if p[i] == suffix[extIdx] {
            extIdx := extIdx - 1;
            if extIdx == -1 {
              end := i;
            }
          } else {
            extIdx := -1;
            end := firstNonSlashEnd;
          }
        }
      }
      if end == 0 {
        end := firstNonSlashEnd;
      } else if end == -1 {
        end := |p|;
      }
      b := p[..end];
    } else {
      b := p;
    }
  }
}
