# Upload naming in a photography-portfolio backend

This project models, in Dafny, the file-name arithmetic of a small gallery backend:

- the batch script `process-existing-images.js`, which scans the uploads
  directory, keeps the entries whose lower-cased extension is on a fixed
  allow-list, and writes for each one an optimized copy into
  `uploads/optimized/` and a thumbnail into `uploads/thumbnails/`, counting the
  images for which both writes succeed;
- the upload server `server.js`: the storage name the upload middleware gives a
  file (clock reading, `-`, original name), the upload response with its
  `400 No file uploaded` branch, and the listing that maps every directory entry
  to `{filename, url}`.

Modules:

- `NodePath` (`node_path.dfy`): Node's `path.extname` and `path.basename(name, ext)`
  on one path segment, and ASCII `toLowerCase`. Each path function has a
  declarative definition and a method that follows Node's right-to-left scanning
  loop, proved to agree with it.
- `ImageOptimizer` (`image_optimizer.dfy`): extension, stem, derived names,
  the allow-list test, and one-image optimization with an abstract write outcome.
- `NameExamples` (`name_examples.dfy`): concrete names through the filter and
  the naming rule, including the upper-case extension cases.
- `BatchRun` (`batch_run.dfy`): the filter over a listing, the success count and
  the whole batch run.
- `Seqs` (`seqs.dfy`): an order-preserving filter on sequences.
- `UploadServer` (`upload_server.dfy`): timestamp text, stored name, upload and
  listing handlers, and the static mount that serves `/uploads/<name>`.
- `Wrappers` (`wrappers.dfy`): `Option`.

Image resizing and encoding are an opaque step: a function
`write(entry, variant)` says whether writing that variant of that entry
succeeds. The clock reading, the uploaded file and the directory listings are
parameters.

Points of the code's behaviour that the model keeps exactly:

- The listing handler lists every entry of the uploads directory in directory
  order, including the `optimized` and `thumbnails` sub-directories when they
  exist.
- The upload handler stores the file under its timestamped name and does not
  derive variants. Only the batch script derives them.
- A derived name keeps the stem as `path.basename` leaves it and appends the
  lower-cased extension. The extension is stripped case-sensitively, so
  `a.JPG` yields `a.JPG-optimized.jpg`.
- The two variant writes are sequential. The thumbnail is attempted only after
  the optimized copy was written, and the optimizer reports a boolean.

## Model

| member | source | states |
|---|---|---|
| NodePath.ExtnameScan | process-existing-images.js:19 | Node's extname loop on a segment returns "" when there is no dot, when the last dot is the first character, or for ".."; otherwise it returns the text from the last dot, as `Extname` defines |
| NodePath.BasenameScan | process-existing-images.js:20 | Node's basename loop with a suffix drops the suffix exactly when the name ends with it, compared case-sensitively, as `Basename` defines |
| NodePath.LowerFixedPoints | process-existing-images.js:19 | lower-casing leaves a string unchanged exactly when it has no upper-case letter, and its result never has one |
| ImageOptimizer.Ext | process-existing-images.js:19 | the extension used for derived names has the length of the real extension, is lower case, and is "" or a dot followed by dot-free text |
| ImageOptimizer.Stem | process-existing-images.js:20 | the stem plus the lower-cased extension is the name when the extension is already lower case; otherwise the stem is the whole name |
| ImageOptimizer.VariantNames | process-existing-images.js:19-37 | the optimized and thumbnail names insert "-optimized"/"-thumb" before a lower-case extension, or append it plus the lower-cased extension otherwise; both end with the lower-cased extension |
| ImageOptimizer.DerivedNamePlacement | process-existing-images.js:20-23 | the same placement rule for any marker |
| NameExamples.UpperCaseExtensionExample | process-existing-images.js:19-36 | "a.JPG" yields "a.JPG-optimized.jpg" and "a.JPG-thumb.jpg" |
| ImageOptimizer.DerivedNamesDistinct | process-existing-images.js:23-36 | the optimized name, the thumbnail name and the entry name are pairwise different, and a non-empty lower-cased extension is the extension of both derived names |
| ImageOptimizer.DerivedNamesInjective | process-existing-images.js:19-36 | among image files whose extension is already lower case, different entries get different optimized and thumbnail names |
| NameExamples.UpperCaseExtensionCollision | process-existing-images.js:19-36 | the image files "a.JPG" and "a.JPG.jpg" get the same optimized and thumbnail names, so one run overwrites the other's variants |
| ImageOptimizer.OptimizeImage | process-existing-images.js:17-53 | success iff both variant writes succeed; the optimized copy is written first into the optimized directory; the thumbnail is attempted, into the thumbnails directory, only if that write succeeded |
| ImageOptimizer.WritesAvoidOriginals | process-existing-images.js:24-37 | no write of the optimizer targets an original in the uploads directory, and the two variant paths differ |
| ImageOptimizer.DerivedPathNotOriginal | process-existing-images.js:5-7 | a path in either variant directory is never the path of a plain name in the uploads directory |
| ImageOptimizer.VariantPathsDiffer | process-existing-images.js:6-7 | paths in the optimized and thumbnails directories never coincide |
| ImageOptimizer.ImageFileIff | process-existing-images.js:62-65 | an entry is kept iff it splits into a non-empty head and a tail whose lower-cased form is one of .jpg .jpeg .png .gif .webp .bmp .tiff |
| ImageOptimizer.AllowedSuffixIsImage | process-existing-images.js:19-20 | a non-empty plain name followed by an allowed extension is an image file, and stripping the extension gives the name back |
| NameExamples.UpperCaseAccepted | process-existing-images.js:63-64 | "a.JPG" is kept, with extension ".jpg" |
| NameExamples.TifRejected | process-existing-images.js:64 | ".tiff" is accepted and ".tif" is not |
| NameExamples.NoExtensionRejected | process-existing-images.js:63-64 | a name without extension, ".jpg" (dot only at the start) and the sub-directories "optimized" and "thumbnails" are skipped |
| BatchRun.FilterImages | process-existing-images.js:62-65 | the kept entries are listing entries that pass the test, and every listing entry that passes is kept |
| BatchRun.FilterImagesKeepsOrder | process-existing-images.js:62-65 | the kept list is an order-preserving subsequence of the listing that keeps each image entry as often as it occurs and drops every other entry |
| BatchRun.CountSucceeded | process-existing-images.js:69-74 | the success count never exceeds the number of images |
| BatchRun.CountSucceededIsCardinality | process-existing-images.js:69-74 | the success count is the number of positions whose two variant writes both succeed |
| BatchRun.CountSucceededAll | process-existing-images.js:69-76 | every image is counted iff every write of every image succeeds |
| BatchRun.OptimizeAll | process-existing-images.js:69-74 | the loop calls the optimizer once per image, in order; its count is the number of images whose two writes both succeeded, and its write log is every image's attempted writes in listing order |
| BatchRun.ProcessAllImages | process-existing-images.js:56-76 | the batch run processes exactly the filtered list, in listing order; it counts the images with both writes successful, and never writes over an original |
| UploadServer.NatToDecimal | server.js:22 | a non-negative reading prints as a non-empty string of decimal digits that starts with '0' only for zero |
| UploadServer.DecimalRoundTrip | server.js:22 | reading the printed digits of a number gives the number back |
| UploadServer.TimestampTextInjective | server.js:22 | two clock readings print the same text iff they are equal |
| UploadServer.StoredNameRoundTrip | server.js:22 | for a reading at or after the epoch, the stored name is the reading's digits, '-', then the original name, and both parts can be read back |
| UploadServer.StoredNamesDiffer | server.js:22 | two uploads of the same original name get different stored names exactly when their clock readings differ |
| UploadServer.Upload | server.js:31-34 | status 400 with error "No file uploaded" iff no file came; otherwise status 200 with the stored name and a URL that the static mount resolves to that stored file |
| UploadServer.UrlRoundTrip | server.js:28-33 | the static mount serves the stored file for the URL built from its name |
| UploadServer.ListEntries | server.js:40-43 | one entry per directory entry, same length and order, each url "/uploads/" + filename, which the modelled static mount maps back to that filename |
| UploadServer.ListImages | server.js:37-46 | status 500 with "Failed to list images" iff the directory cannot be read; otherwise status 200 and entries equal to the directory entries in order, each with url "/uploads/" + filename |
| UploadServer.ListingAgreesWithUpload | server.js:31-43 | a stored upload appears in the listing with the same filename and URL as in the upload response |

## Left out

- Path arguments containing '/': `Extname` and `Basename` require a single segment, which is what directory listings yield. Node's trailing-slash and directory handling is not modelled.
- `toLowerCase` beyond ASCII: only 'A'..'Z' are lowered. For the allow-list test this is exact, but a non-ASCII upper-case letter in an extension would lower differently in derived names.
- Resizing, JPEG quality and progressive encoding by the image library (process-existing-images.js:27-33, 40-46): these are foreign pixel code. Only the success or failure of each write is modelled.
- Logging, directory creation (process-existing-images.js:9-14, server.js:11-14), the script's top-level call (line 84), and the catch around reading the directory (lines 79-81). The listing is an input.
- `path.join` normalisation and the script's own directory: `PathOf` concatenates a relative directory prefix with a plain name. This equals `path.join` for names that are non-empty and not "." or "..", and directory listings never yield those.
- Express, multer, cors and `app.listen` plumbing (server.js:1-8, 25-28, 48-50). The clock reading is a parameter bounded by the ECMAScript time-value range.
- UploadServer.ServedFile: the static mount is modelled as stripping "/uploads/" from the URL path. Percent-decoding and query or fragment parts are not modelled, so names containing '%', '?' or '#' are served as if the URL were used verbatim. Dotfiles and sub-directories (such as `optimized` and `thumbnails`) appear in the listing, but the static mount does not serve them as files; the model does not distinguish them.
- UploadServer.StoredNameRoundTrip: stated only for clock readings at or after the epoch. A negative reading prints a leading '-', and then the text before the first '-' is empty.
- The React frontend (`frontend/src/App.jsx`): presentation and fetch calls, with no stateable logic.
