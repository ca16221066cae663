# File validator of the browser file converter, modelled in Dafny

The converter accepts an image, a video or a PDF and offers the formats it
may be converted to. The only decision logic in it is the file validator
(`public/scripts/utils/fileValidator.js`). Given a file's declared MIME
type, its name and its size in bytes, `validateFile` works in four steps:

1. **Size gate.** The declared MIME type picks a limit: `image/*` 10 MiB,
   `video/*` 50 MiB, exactly `application/pdf` 20 MiB. A file strictly over
   its limit is refused with a message that gives the limit in whole MB.
2. **Exact MIME lookup.** JPEG, PNG, WebP, MP4 and PDF are recognised by
   their MIME type. GIF has no entry here.
3. **Extension fallback.** Otherwise the extension is the lower-cased text
   after the last `.` of the name (the whole name when it has no dot). The
   format table is scanned in its declaration order (jpg, png, webp, gif,
   mp4, pdf) and the first format that lists the extension is taken.
4. **Result.** The result is a record: validity, the format tag (or `null`),
   the list of conversion targets, and a message.

`getAvailableFormats` and `isValidConversion` are derived from that record.
`formatFileSize` renders a byte count as `B`, `KB` or `MB`.

The project has four files:

- `wrappers.dfy` holds `Option`, which stands for the source's `null`.
- `js_string.dfy` (module `JsString`) writes out the JavaScript built-ins
  the validator uses: `startsWith`, `split('.').pop()`, `toLowerCase`, the
  decimal rendering of an integer, and `toFixed(1)`.
- `file_validator.dfy` (module `FileValidator`) holds the format table, the
  size limits and `Validate`. `Validate` is a declarative specification: a
  category-keyed gate, an exact-MIME scan and a first-match extension scan.
  The same file holds `ValidateFile`. This method follows the source
  statement by statement: it starts from an accepting record, returns early
  at each of the three size checks, runs the five-way MIME `if` chain, then
  scans the table for the extension and applies the `switch` that sets the
  targets. The scan is the method `ScanExtensions`, a loop that stops at
  the first format listing the extension, as the source's `break` does. It is proved to return exactly `Validate(file)`. This
  also proves that the source's two hand-written copies of the conversion
  lists (the `if` chain and the `switch`) agree with one table, `Targets`.
- `file_validator_properties.dfy` (module `FileValidatorProperties`) proves
  the validator's properties about `Validate`.

The format tag and the target lists use a `Format` enumeration. `Key`
gives the string the source stores (`'jpg'`, `'png'`, …). So the tag
`'jpg'` of a JPEG is `Key(Jpg)`. The `case 'jpeg'` label of the source's
`switch` can never be reached, because the table's keys never include
`'jpeg'`. In `isValidConversion` the target is still a string, compared
against the keys of the offered formats.

The too-large message prints the limit as the integer `10`, `50` or `20`
followed by `MB.`: `MAX_FILE_SIZES.x / (1024 * 1024)` is an exact integer
quotient.

## Model

| member | source | states |
|---|---|---|
| `FileValidator.ValidateFile` | public/scripts/utils/fileValidator.js:31-115 | the step-by-step validator (three early-returning size checks, the MIME if-chain, the table scan and its `switch`, the final unsupported check) returns exactly the declarative `Validate(file)` |
| `FileValidator.ScanExtensions` | public/scripts/utils/fileValidator.js:78-80 | the `for…of` loop with its `break` stops at the first format in table order whose extensions include the one sought, or runs off the end when none does; its invariant is that no format before the current one lists the extension |
| `FileValidator.Targets` | public/scripts/utils/fileValidator.js:83-102 | no format is ever offered as a conversion target of itself |
| `FileValidator.Validate` | public/scripts/utils/fileValidator.js:31-115 | a result is valid exactly when a format is assigned; a refused result has no format and no targets; an accepted one carries "File is valid" and exactly the conversion targets of its format |
| `FileValidator.FirstMimeIndex` | public/scripts/utils/fileValidator.js:59-73 | the position found is the first in the table whose MIME type equals the declared one, or the table's length when none does |
| `FileValidator.FirstExtensionIndex` | public/scripts/utils/fileValidator.js:78-80 | the position found is the first in the table that lists the extension, with no earlier format listing it, or the table's length when none does (the `for…of` with `break`) |
| `FileValidator.MimeFormatCases` | public/scripts/utils/fileValidator.js:59-73 | the exact-MIME lookup recognises exactly `image/jpeg`, `image/png`, `image/webp`, `video/mp4` and `application/pdf`, each as its format; everything else, `image/gif` included, is unrecognised |
| `FileValidator.SizeClassOf` | public/scripts/utils/fileValidator.js:40-56 | the three gate categories are told apart exactly by the `image/` prefix, the `video/` prefix and equality with `application/pdf`; each holds exactly when its test does, so the tests never overlap |
| `FileValidator.TooLargeMessage` | public/scripts/utils/fileValidator.js:42-54 | the message is the category's words, then decimal digits, then `MB.`; the digits read back as a number of MiB equal to the category's limit and carry no leading zero, as `String` prints them |
| `FileValidator.LimitMessage` | public/scripts/utils/fileValidator.js:42-54 | the template `${words}${limit}MB.` keeps its words and its `MB.` ending, and the digits in between read back as `limit` with no leading zero, as `String(limit)` prints them |
| `FileValidator.Keys` | public/scripts/utils/fileValidator.js:135 | the `key` of each offered format, in order: a key is among them exactly when its format is |
| `FileValidator.IsValidConversion` | public/scripts/utils/fileValidator.js:133-136 | isValidConversion holds exactly when the target is the key of one of getAvailableFormats' formats, and only for a valid file |
| `FileValidator.GetAvailableFormats` | public/scripts/utils/fileValidator.js:122-125 | getAvailableFormats equals the result's `canConvertTo` list; the `valid` guard is redundant because a refused result already has an empty list; a non-empty list implies a valid file |
| `FileValidator.SizeUnitOf` | public/scripts/utils/fileValidator.js:144-150 | the chosen unit is the largest of B, KB, MB whose size does not exceed the byte count, and no byte count reaches 1024 of a unit below MB |
| `FileValidator.FormatFileSize` | public/scripts/utils/fileValidator.js:143-151 | the rendered text always ends with the label of the chosen unit (" B", " KB" or " MB") and has something before it |
| `JsString.LastPiece` | public/scripts/utils/fileValidator.js:76 | `split('.').pop()` gives a suffix of the name that contains no dot; it is the whole name exactly when the name has no dot, and otherwise it is preceded by a dot |
| `JsString.ToLowerCase` | public/scripts/utils/fileValidator.js:76 | lowering keeps the length and maps every position through the ASCII letter lowering |
| `JsString.NatToString` | public/scripts/utils/fileValidator.js:145 | `String(n)` of a byte count is a non-empty run of decimal digits whose first digit is `0` only for the number 0, which is printed as exactly `"0"` |
| `JsString.NatToStringRoundTrip` | public/scripts/utils/fileValidator.js:145 | the decimal text written for a byte count reads back as the same number |
| `JsString.NearestTenths` | public/scripts/utils/fileValidator.js:147-149 | the tenths `toFixed(1)` prints are the integer nearest to ten times the exact quotient, the larger one on a tie |
| `JsString.ToFixed1` | public/scripts/utils/fileValidator.js:147-149 | `toFixed(1)` prints decimal digits, a point and one digit, and together they read back as the nearest tenths of the quotient; the whole part has no leading zero (it starts with `0` only when it is the single digit `0`) |
| `FileValidatorProperties.SizeGateExact` | public/scripts/utils/fileValidator.js:40-56 | for a MIME type in a limited category, the file is refused with that category's too-large message exactly when its size is strictly greater than the limit |
| `FileValidatorProperties.SizeGatePrecedence` | public/scripts/utils/fileValidator.js:39-56 | an oversized file is refused with its category's message before any identification, and its name makes no difference |
| `FileValidatorProperties.SizeIrrelevantWithinLimit` | public/scripts/utils/fileValidator.js:58-111 | once a file is within its limit, its size plays no further part in the result |
| `FileValidatorProperties.UngatedMimeIgnoresSize` | public/scripts/utils/fileValidator.js:40-56 | a declared MIME type that is not `image/*`, `video/*` or exactly `application/pdf` is never size-gated, whatever the size |
| `FileValidatorProperties.ExactMimeClass` | public/scripts/utils/fileValidator.js:40-73 | each of the five exact MIME types is gated in its category (`image/*` by prefix, `video/mp4` as video, `application/pdf` by exact type) and is looked up as its own format |
| `FileValidatorProperties.UnlistedImageMime` | public/scripts/utils/fileValidator.js:40-73 | `image/gif` and `image/bmp` are gated as images but have no exact MIME entry |
| `FileValidatorProperties.UngatedUnlistedMime` | public/scripts/utils/fileValidator.js:40-73 | `application/octet-stream` and `text/plain` are neither gated nor recognised by MIME type |
| `FileValidatorProperties.TooLargeMessages` | public/scripts/utils/fileValidator.js:40-56 | the three too-large messages give the limits as `10`, `50` and `20` followed by `MB.` |
| `FileValidatorProperties.TooLargeMessageDiffers` | public/scripts/utils/fileValidator.js:42-54 | no too-large message is the unsupported-type message or "File is valid", so the three outcomes can be told apart by message |
| `FileValidatorProperties.ImageGateBoundary` | public/scripts/utils/fileValidator.js:40-44 | a file declared `image/jpeg` is refused with the image too-large message exactly when it is over 10 MiB, and is otherwise accepted as a JPEG |
| `FileValidatorProperties.GateBeforeIdentification` | public/scripts/utils/fileValidator.js:40-44 | an oversized `image/gif` or `image/bmp` is refused as too large, although neither MIME type is recognised |
| `FileValidatorProperties.UngatedOversizedPng` | public/scripts/utils/fileValidator.js:74-104 | an `application/octet-stream` file named `x.png` bypasses the gate whatever its size and is accepted as a PNG |
| `FileValidatorProperties.ExactMimeMatch` | public/scripts/utils/fileValidator.js:59-73 | a file within its limit whose MIME type is that of JPEG, PNG, WebP, MP4 or PDF is accepted as that format, whatever its name |
| `FileValidatorProperties.ExactMimeTable` | public/scripts/utils/fileValidator.js:59-73 | a file within its category's limit (so up to 50 MiB for `video/mp4` and 20 MiB for `application/pdf`) with one of the five exact MIME types gets jpg→[png, webp], png→[jpg, webp], webp→[jpg, png], mp4→[gif] or pdf→[jpg], whatever the name |
| `FileValidatorProperties.ConversionTableShape` | public/scripts/utils/fileValidator.js:83-102 | no format converts to itself; every two distinct still-image formats convert both ways; MP4 and PDF each have one target that does not convert back; GIF has none |
| `FileValidatorProperties.ExtensionFallback` | public/scripts/utils/fileValidator.js:74-80 | without an exact MIME match, a file within its limit is identified by the first-match scan of its extension alone |
| `FileValidatorProperties.ExtensionFormatIff` | public/scripts/utils/fileValidator.js:8-15 | the scan yields a format exactly when that format lists the extension; so the scan order never changes the answer |
| `FileValidatorProperties.ExtensionsDisjoint` | public/scripts/utils/fileValidator.js:8-15 | no extension is listed by two formats |
| `FileValidatorProperties.ExtensionFormatNone` | public/scripts/utils/fileValidator.js:78-80 | the scan yields nothing exactly when no format lists the extension |
| `FileValidatorProperties.ExtensionOfJoined` | public/scripts/utils/fileValidator.js:76 | the extension of a stem, a dot and a dot-free suffix is that suffix, lower-cased |
| `FileValidatorProperties.ExtensionOfMeaning` | public/scripts/utils/fileValidator.js:76 | the extension (`split('.').pop().toLowerCase()`) holds no dot and is the lowered tail of the name; it is the whole name lowered exactly when the name has no dot, and otherwise a dot stands just before that tail |
| `FileValidatorProperties.ClassifiedByExtension` | public/scripts/utils/fileValidator.js:74-104 | a file within its limit, with no exact MIME match and with an extension that a format lists, is accepted as that format with that format's targets |
| `FileValidatorProperties.ExtensionIgnoresCase` | public/scripts/utils/fileValidator.js:76 | lower-casing a name first leaves its extension unchanged, so the fallback ignores case |
| `FileValidatorProperties.UpperCaseExtension` | public/scripts/utils/fileValidator.js:76 | the extension of `PHOTO.JPEG` is `jpeg` |
| `FileValidatorProperties.UpperCaseJpegExample` | public/scripts/utils/fileValidator.js:76-87 | an `application/octet-stream` file named `PHOTO.JPEG` is accepted as jpg with [png, webp], whatever its size |
| `FileValidatorProperties.WebpFallbackExample` | public/scripts/utils/fileValidator.js:76-93 | an `application/octet-stream` file named `clip.webp` is accepted as webp with [jpg, png], whatever its size |
| `FileValidatorProperties.GifMimeWithPngName` | public/scripts/utils/fileValidator.js:59-90 | a file of at most 10 MiB declared `image/gif` but named `photo.png` is accepted as a PNG, because GIF has no exact MIME entry and the name decides |
| `FileValidatorProperties.GifOnlyByExtension` | public/scripts/utils/fileValidator.js:59-102 | a result tagged gif always comes from an unrecognised MIME type and the extension `gif`; it is valid and offers no conversion |
| `FileValidatorProperties.GifExample` | public/scripts/utils/fileValidator.js:12 | an `image/gif` file of at most 10 MiB named `a.gif` is valid, tagged gif, with an empty target list |
| `FileValidatorProperties.ValidIff` | public/scripts/utils/fileValidator.js:31-115 | a file is accepted exactly when it passes the gate and is identified; then the result is that format with its targets |
| `FileValidatorProperties.UnsupportedIff` | public/scripts/utils/fileValidator.js:108-111 | the unsupported-type rejection is given exactly when the file passes the gate, its MIME type is unrecognised and no format lists its extension |
| `FileValidatorProperties.UnknownExtension` | public/scripts/utils/fileValidator.js:78-80 | an extension starting with none of j, p, w, g, m identifies no format |
| `FileValidatorProperties.UnsupportedExample` | public/scripts/utils/fileValidator.js:108-111 | a `text/plain` file named `notes.txt` is refused as unsupported, whatever its size |
| `FileValidatorProperties.AvailableFormatsMeaning` | public/scripts/utils/fileValidator.js:122-125 | getAvailableFormats is the identified format's targets when the file passes the gate and is identified, and empty otherwise |
| `FileValidatorProperties.IsValidConversionIff` | public/scripts/utils/fileValidator.js:133-136 | isValidConversion holds exactly when some available format has the target as its key; it never holds for the file's own format |
| `FileValidatorProperties.ConversionExample` | public/scripts/utils/fileValidator.js:133-136 | an `image/jpeg` file of at most 10 MiB, whatever its name, may be converted to `png` but not to `mp4` |
| `FileValidatorProperties.SizeUnitMonotone` | public/scripts/utils/fileValidator.js:144-150 | a larger byte count never gets a smaller unit |
| `FileValidatorProperties.FormatFileSizeBytes` | public/scripts/utils/fileValidator.js:144-145 | below 1024 the text is exactly `String(bytes)` followed by " B": decimal digits that read back as the byte count, with no leading zero (`0 B` is the only text starting with `0`) |
| `FileValidatorProperties.FormatFileSizeRounded` | public/scripts/utils/fileValidator.js:146-150 | from 1024 up the text is a whole part, a point, one digit and the unit label, and the tenths shown are the nearest to the exact size in that unit |
| `FileValidatorProperties.FormatFileSizeBytesExample` | public/scripts/utils/fileValidator.js:145 | 500 bytes render as "500 B" |
| `FileValidatorProperties.FormatFileSizeFractionExamples` | public/scripts/utils/fileValidator.js:147-149 | 1536 bytes render as "1.5 KB" and 1572864 bytes as "1.5 MB" |
| `FileValidatorProperties.FormatFileSizeKilobyteTop` | public/scripts/utils/fileValidator.js:146-147 | 1048575 bytes stay in the KB branch and round up to "1024.0 KB" |

## Left out

- `src/main.js` is not part of this model. It holds the DOM lookups, the drag-and-drop and click handlers, the previews, the progress bar, the download and the event dispatch. It re-tests the declared MIME type when it picks a converter, so a file accepted only through its extension can still be refused there. That behaviour is outside the validator.
- `src/converters/PDFConverter.js`, `src/converters/VideoConverter.js` and `public/scripts/converters/ImageConverter.js` are not part of this model. They call PDF.js, FFmpeg.wasm and the canvas encoder, which are foreign libraries with asynchronous I/O.
- `JsString.ToLowerCase` lowers the ASCII letters `A`–`Z` only, while JavaScript's `toLowerCase` applies full Unicode case mapping. This cannot change which format an extension matches. Every extension in the table is ASCII, and the only non-ASCII characters that lower to a plain ASCII letter are the Kelvin sign (to `k`, which no extension contains) and the dotted capital I, which lowers to two characters.
- `FileValidator.FormatFileSize` takes a natural number. It does not model negative or fractional byte counts. It does not model counts of 2^53 and above, where JavaScript numbers are no longer exact. It does not model the exponential notation JavaScript uses at 10^21 and above. Below 2^53 the quotients `bytes / 1024` and `bytes / 1048576` are exact in a double, so `toFixed(1)` rounds the exact value, and the model computes that value with integers.
- `File.size` is modelled as a natural number, and `file.type` and `file.name` as plain strings. Browsers supply the three values. They are never `undefined` here.
- There is no lemma for idempotence. `Validate` is a function, so repeated calls on equal inputs return equal results by construction.
