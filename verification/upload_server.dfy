/**
  The request handlers of the upload server: the storage name given to an uploaded
  file, the upload response, and the image listing.

  The clock reading, the uploaded file and the directory listing are parameters;
  the HTTP framework, the upload middleware and the file system are not modelled.
 */
module UploadServer {
  import opened Wrappers

  predicate IsDigit(c: char) {
    '0' <= c <= '9'
  }

  predicate AllDigits(s: string) {
    forall i :: 0 <= i < |s| ==> IsDigit(s[i])
  }

  function DigitChar(d: nat): (c: char)
    requires d < 10
    ensures IsDigit(c) && c as int - '0' as int == d
  {
    ('0' as int + d) as char
  }

  /** Decimal digits of `n`, most significant first, with no leading zero. */
  function NatToDecimal(n: nat): (s: string)
    ensures |s| >= 1 && AllDigits(s)
    ensures s[0] == '0' ==> n == 0
  {
    if n < 10 then [DigitChar(n)] else NatToDecimal(n / 10) + [DigitChar(n % 10)]
  }

  /** The number a string of decimal digits denotes. */
  function DecimalValue(s: string): nat
    requires AllDigits(s)
  {
    if |s| == 0 then 0
    else DecimalValue(s[..|s| - 1]) * 10 + (s[|s| - 1] as int - '0' as int)
  }

  /** Reading the digits back gives the number. */
  lemma {:induction false} DecimalRoundTrip(n: nat)
    ensures DecimalValue(NatToDecimal(n)) == n
  {
    if n >= 10 {
      DecimalRoundTrip(n / 10);
      var s := NatToDecimal(n);
      assert s[..|s| - 1] == NatToDecimal(n / 10);
    }
  }

  /** The largest magnitude of an ECMAScript time value, in milliseconds. */
  const MaxTimeValue: int := 8_640_000_000_000_000

  /** A reading of the millisecond clock. */
  predicate IsTimeValue(t: int) {
    -MaxTimeValue <= t <= MaxTimeValue
  }

  /** How a clock reading is turned into text when concatenated with a string:
      an optional minus sign, then the decimal digits. */
  function TimestampText(t: int): (s: string)
    requires IsTimeValue(t)
    ensures |s| >= 1
    ensures t >= 0 <==> AllDigits(s)
  {
    if t < 0 then
      var s := "-" + NatToDecimal(-t);
      assert !IsDigit(s[0]);
      s
    else NatToDecimal(t)
  }

  /** Different clock readings are printed differently. */
  lemma TimestampTextInjective(t1: int, t2: int)
    requires IsTimeValue(t1) && IsTimeValue(t2)
    ensures TimestampText(t1) == TimestampText(t2) <==> t1 == t2
  {
    if TimestampText(t1) == TimestampText(t2) {
      assert t1 >= 0 <==> t2 >= 0;
      if t1 >= 0 {
        assert NatToDecimal(t1) == NatToDecimal(t2);
        DecimalRoundTrip(t1);
        DecimalRoundTrip(t2);
      } else {
        NegativeTimestamp(t1);
        NegativeTimestamp(t2);
        assert NatToDecimal(-t1) == NatToDecimal(-t2);
        DecimalRoundTrip(-t1);
        DecimalRoundTrip(-t2);
      }
    }
  }

  /** A reading before the epoch prints as '-' followed by the digits of its magnitude. */
  lemma NegativeTimestamp(t: int)
    requires IsTimeValue(t) && t < 0
    ensures TimestampText(t)[1..] == NatToDecimal(-t)
  {
    assert ("-" + NatToDecimal(-t))[1..] == NatToDecimal(-t);
  }

  /** The name under which an upload is stored: the clock reading, '-', then the
      client's original file name. */
  function StoredName(now: int, originalName: string): string
    requires IsTimeValue(now)
  {
    TimestampText(now) + "-" + originalName
  }

  /** Index of the first `c` in `s`, if any. */
  function FirstIndexOf(s: string, c: char): (r: Option<nat>)
    ensures r.None? <==> forall i :: 0 <= i < |s| ==> s[i] != c
    ensures r.Some? ==> r.value < |s| && s[r.value] == c
    ensures r.Some? ==> forall i :: 0 <= i < r.value ==> s[i] != c
  {
    if |s| == 0 then None
    else if s[0] == c then Some(0)
    else match FirstIndexOf(s[1..], c)
      case None => None
      case Some(k) => Some(k + 1)
  }

  /** Reads a stored name back: the digits before the first '-' and the text after it. */
  function ParseStoredName(name: string): Option<(nat, string)> {
    match FirstIndexOf(name, '-')
    case None => None
    case Some(k) =>
      if k > 0 && AllDigits(name[..k]) then Some((DecimalValue(name[..k]), name[k + 1..])) else None
  }

  /** For a clock reading at or after the epoch, the stored name starts with the
      reading's digits and '-', ends with the original name, and both can be read back. */
  lemma StoredNameRoundTrip(now: int, originalName: string)
    requires IsTimeValue(now) && now >= 0
    ensures ParseStoredName(StoredName(now, originalName)) == Some((now, originalName))
  {
    var digits := TimestampText(now);
    var name := StoredName(now, originalName);
    assert name[..|digits|] == digits;
    assert name[|digits|] == '-';
    assert forall i :: 0 <= i < |digits| ==> name[i] == digits[i];
    assert FirstIndexOf(name, '-') == Some(|digits|);
    assert name[|digits| + 1..] == originalName;
    DecimalRoundTrip(now);
  }

  /** Two uploads of the same file are stored under different names exactly when
      the clock readings differ. */
  lemma StoredNamesDiffer(t1: int, t2: int, originalName: string)
    requires IsTimeValue(t1) && IsTimeValue(t2)
    ensures StoredName(t1, originalName) != StoredName(t2, originalName) <==> t1 != t2
  {
    var tail := "-" + originalName;
    assert StoredName(t1, originalName) == TimestampText(t1) + tail;
    assert StoredName(t2, originalName) == TimestampText(t2) + tail;
    if StoredName(t1, originalName) == StoredName(t2, originalName) {
      var a := TimestampText(t1) + tail;
      assert TimestampText(t1) == a[..|a| - |tail|];
      assert TimestampText(t2) == a[..|a| - |tail|];
    }
    TimestampTextInjective(t1, t2);
  }

  /** One element of the listing. */
  datatype Entry = Entry(filename: string, url: string)

  /** JSON bodies the handlers send. */
  datatype Body =
    | ErrorBody(error: string)
    | UploadBody(filename: string, url: string)
    | ListingBody(entries: seq<Entry>)

  datatype Response = Response(status: nat, body: Body)

  /** The URL prefix under which the uploads directory is served statically. */
  const UploadsMount: string := "/uploads/"

  /** The URL advertised for a stored file. */
  function UrlFor(filename: string): string {
    UploadsMount + filename
  }

  /** The file of the uploads directory that the static mount serves for a URL path. */
  function ServedFile(url: string): Option<string> {
    if |url| >= |UploadsMount| && url[..|UploadsMount|] == UploadsMount then Some(url[|UploadsMount|..])
    else None
  }

  /** The file the upload middleware hands to the handler, if the request carried one. */
  datatype UploadedFile = UploadedFile(originalName: string)

  /** The upload handler: 400 without a file; otherwise the stored name and its URL. */
  function Upload(file: Option<UploadedFile>, now: int): (r: Response)
    requires IsTimeValue(now)
    ensures r.status == 400 <==> file.None?
    ensures file.None? ==> r.body == ErrorBody("No file uploaded")
    ensures file.Some? ==> r.status == 200 && r.body.UploadBody?
    ensures file.Some? ==> r.body.filename == StoredName(now, file.value.originalName)
    ensures file.Some? ==> ServedFile(r.body.url) == Some(r.body.filename)
  {
    match file
    case None => Response(400, ErrorBody("No file uploaded"))
    case Some(f) =>
      var name := StoredName(now, f.originalName);
      UrlRoundTrip(name);
      Response(200, UploadBody(name, UrlFor(name)))
  }

  /** The static mount serves the file a URL was made for. */
  lemma UrlRoundTrip(filename: string)
    ensures ServedFile(UrlFor(filename)) == Some(filename)
  {
    assert UrlFor(filename)[..|UploadsMount|] == UploadsMount;
  }

  /** One entry per directory entry, in directory order. */
  function ListEntries(files: seq<string>): (es: seq<Entry>)
    ensures |es| == |files|
    ensures forall i :: 0 <= i < |files| ==> es[i].filename == files[i]
    ensures forall i :: 0 <= i < |files| ==> ServedFile(es[i].url) == Some(files[i])
  {
    if |files| == 0 then []
    else
      UrlRoundTrip(files[0]);
      [Entry(files[0], UrlFor(files[0]))] + ListEntries(files[1..])
  }

  /** The listing handler: 500 if the directory cannot be read, otherwise every entry
      with its URL, nothing filtered and nothing reordered. */
  function ListImages(readdir: Option<seq<string>>): (r: Response)
    ensures r.status == 500 <==> readdir.None?
    ensures readdir.None? ==> r.body == ErrorBody("Failed to list images")
    ensures readdir.Some? ==> r.status == 200 && r.body.ListingBody?
    ensures readdir.Some? ==> |r.body.entries| == |readdir.value|
    ensures readdir.Some? ==> forall i :: 0 <= i < |readdir.value| ==>
              r.body.entries[i].filename == readdir.value[i]
              && r.body.entries[i].url == UrlFor(readdir.value[i])
  {
    match readdir
    case None => Response(500, ErrorBody("Failed to list images"))
    case Some(files) =>
      var es := ListEntries(files);
      forall i | 0 <= i < |files| ensures es[i].url == UrlFor(files[i]) {
        UrlInjective(es[i].url, files[i]);
      }
      Response(200, ListingBody(es))
  }

  /** A URL the static mount resolves to a file is that file's URL. */
  lemma UrlInjective(url: string, filename: string)
    requires ServedFile(url) == Some(filename)
    ensures url == UrlFor(filename)
  {
    assert url == url[..|UploadsMount|] + url[|UploadsMount|..];
  }

  /** Once an upload is stored, the listing shows it under the URL the upload response gave. */
  lemma ListingAgreesWithUpload(file: UploadedFile, now: int, files: seq<string>, i: nat)
    requires IsTimeValue(now)
    requires i < |files| && files[i] == StoredName(now, file.originalName)
    ensures ListImages(Some(files)).body.entries[i]
            == Entry(Upload(Some(file), now).body.filename, Upload(Some(file), now).body.url)
  {
    var up := Upload(Some(file), now);
    UrlInjective(up.body.url, up.body.filename);
  }
}
