/**
 * The file validator of the converter: given a file's declared MIME type,
 * its name and its size in bytes, decide whether it is accepted, which
 * format it is and which formats it may be converted to.
 *
 * `Validate` is the declarative specification (a size gate keyed on the
 * declared MIME category, then an exact MIME lookup, then a first-match scan
 * of the extension table). `ValidateFile` is the validator as the source
 * writes it, building its result record step by step, and is proved equal
 * to `Validate`.
 */
module FileValidator {
  import opened Wrappers
  import opened JsString

  // ---------------------------------------------------------------------
  // The format table (SUPPORTED_FORMATS)
  // ---------------------------------------------------------------------

  /** The keys of the supported-format table. */
  datatype Format = Jpg | Png | Webp | Gif | Mp4 | Pdf

  /** The tag a result carries for a format, and the name a target is asked by. */
  function Key(f: Format): string {
    match f
    case Jpg => "jpg"
    case Png => "png"
    case Webp => "webp"
    case Gif => "gif"
    case Mp4 => "mp4"
    case Pdf => "pdf"
  }

  function Mime(f: Format): string {
    match f
    case Jpg => "image/jpeg"
    case Png => "image/png"
    case Webp => "image/webp"
    case Gif => "image/gif"
    case Mp4 => "video/mp4"
    case Pdf => "application/pdf"
  }

  function Extensions(f: Format): seq<string> {
    match f
    case Jpg => ["jpg", "jpeg"]
    case Png => ["png"]
    case Webp => ["webp"]
    case Gif => ["gif"]
    case Mp4 => ["mp4"]
    case Pdf => ["pdf"]
  }

  /** The table in declaration order, the order the extension scan visits it. */
  const SupportedFormats: seq<Format> := [Jpg, Png, Webp, Gif, Mp4, Pdf]

  /** The formats the validator recognises by exact MIME type, in the order it tests them. */
  const ExactMimeFormats: seq<Format> := [Jpg, Png, Webp, Mp4, Pdf]

  /** The conversions offered for each format; a GIF is offered none. */
  function Targets(f: Format): (r: seq<Format>)
    ensures f !in r
  {
    match f
    case Jpg => [Png, Webp]
    case Png => [Jpg, Webp]
    case Webp => [Jpg, Png]
    case Gif => []
    case Mp4 => [Gif]
    case Pdf => [Jpg]
  }

  // ---------------------------------------------------------------------
  // Size limits (MAX_FILE_SIZES)
  // ---------------------------------------------------------------------

  const MiB: nat := 1024 * 1024

  /** The declared-MIME categories that carry a size limit. */
  datatype SizeClass = ImageFile | VideoFile | PdfFile

  function MaxFileSize(c: SizeClass): nat {
    match c
    case ImageFile => 10 * MiB
    case VideoFile => 50 * MiB
    case PdfFile => 20 * MiB
  }

  /**
   * The size-limited category of a declared MIME type, if it has one. The
   * three tests never overlap, so their order does not matter.
   */
  function SizeClassOf(mimeType: string): (c: Option<SizeClass>)
    ensures c == Some(ImageFile) <==> StartsWith(mimeType, "image/")
    ensures c == Some(VideoFile) <==> StartsWith(mimeType, "video/")
    ensures c == Some(PdfFile) <==> mimeType == "application/pdf"
  {
    if StartsWith(mimeType, "image/") then Some(ImageFile)
    else if StartsWith(mimeType, "video/") then Some(VideoFile)
    else if mimeType == "application/pdf" then Some(PdfFile)
    else None
  }

  /** Every limit is a whole number of MiB. */
  lemma WholeMiB(c: SizeClass)
    ensures MaxFileSize(c) / MiB * MiB == MaxFileSize(c)
  {
    match c
    case ImageFile => assert MaxFileSize(c) / MiB == 10;
    case VideoFile => assert MaxFileSize(c) / MiB == 50;
    case PdfFile => assert MaxFileSize(c) / MiB == 20;
  }

  /** The words of the too-large message that come before the limit. */
  function TooLargePrefix(c: SizeClass): string {
    match c
    case ImageFile => "Image file is too large. Maximum size is "
    case VideoFile => "Video file is too large. Maximum size is "
    case PdfFile => "PDF file is too large. Maximum size is "
  }

  /** The words of a too-large message, then `limit` in decimal, then "MB.". */
  function LimitMessage(words: string, limit: nat): (m: string)
    ensures |words| + 3 < |m|
    ensures m[..|words|] == words && m[|m| - 3..] == "MB."
    ensures forall i :: |words| <= i < |m| - 3 ==> '0' <= m[i] <= '9'
    ensures DigitsValue(m[|words|..|m| - 3]) == limit
    ensures m[|words|] == '0' ==> |m| == |words| + 4
  {
    var digits := NatToString(limit);
    var m := words + digits + "MB.";
    NatToStringRoundTrip(limit);
    assert |m| == |words| + |digits| + 3;
    assert m[..|words|] == words;
    assert m[|words|..|m| - 3] == digits;
    assert m[|m| - 3..] == "MB.";
    m
  }

  /**
   * The rejection message for a file over its category's limit: the
   * category's words, the limit in whole MiB in decimal, then "MB.".
   */
  function TooLargeMessage(c: SizeClass): (m: string)
    ensures |TooLargePrefix(c)| + 3 < |m|
    ensures m[..|TooLargePrefix(c)|] == TooLargePrefix(c) && m[|m| - 3..] == "MB."
    ensures forall i :: |TooLargePrefix(c)| <= i < |m| - 3 ==> '0' <= m[i] <= '9'
    ensures DigitsValue(m[|TooLargePrefix(c)|..|m| - 3]) * MiB == MaxFileSize(c)
    ensures m[|TooLargePrefix(c)|] == '0' ==> |m| == |TooLargePrefix(c)| + 4
  {
    WholeMiB(c);
    LimitMessage(TooLargePrefix(c), MaxFileSize(c) / MiB)
  }

  const UnsupportedMessage: string :=
    "File type is not supported. Please upload JPG, PNG, WebP, MP4, or PDF files."

  const ValidMessage: string := "File is valid"

  // ---------------------------------------------------------------------
  // Inputs and results
  // ---------------------------------------------------------------------

  /** The three properties of a browser `File` the validator reads. */
  datatype File = File(mimeType: string, name: string, size: nat)

  /** The validator's result record; `format == None` stands for a `null` type. */
  datatype ValidationResult = ValidationResult(
    valid: bool,
    message: string,
    format: Option<Format>,
    canConvertTo: seq<Format>)

  function Rejected(message: string): ValidationResult {
    ValidationResult(false, message, None, [])
  }

  function Accepted(f: Format): ValidationResult {
    ValidationResult(true, ValidMessage, Some(f), Targets(f))
  }

  // ---------------------------------------------------------------------
  // Identification
  // ---------------------------------------------------------------------

  /** The position of the first format in `table` whose MIME type is `mimeType`, or `|table|`. */
  function FirstMimeIndex(table: seq<Format>, mimeType: string): (k: nat)
    ensures k <= |table|
    ensures forall j :: 0 <= j < k ==> Mime(table[j]) != mimeType
    ensures k < |table| ==> Mime(table[k]) == mimeType
  {
    if table == [] then 0
    else if Mime(table[0]) == mimeType then 0
    else 1 + FirstMimeIndex(table[1..], mimeType)
  }

  /** The position of the first format in `table` that lists `ext` among its extensions, or `|table|`. */
  function FirstExtensionIndex(table: seq<Format>, ext: string): (k: nat)
    ensures k <= |table|
    ensures forall j :: 0 <= j < k ==> ext !in Extensions(table[j])
    ensures k < |table| ==> ext in Extensions(table[k])
  {
    if table == [] then 0
    else if ext in Extensions(table[0]) then 0
    else 1 + FirstExtensionIndex(table[1..], ext)
  }

  /** The format whose MIME type is exactly `mimeType`, among those looked up that way. */
  function MimeFormat(mimeType: string): Option<Format> {
    var k := FirstMimeIndex(ExactMimeFormats, mimeType);
    if k < |ExactMimeFormats| then Some(ExactMimeFormats[k]) else None
  }

  /** The first format, in table order, that lists `ext`. */
  function ExtensionFormat(ext: string): Option<Format> {
    var k := FirstExtensionIndex(SupportedFormats, ext);
    if k < |SupportedFormats| then Some(SupportedFormats[k]) else None
  }

  /** The lower-cased text after the last `.` of a file name (the whole name when it has none). */
  function ExtensionOf(name: string): string {
    ToLowerCase(LastPiece(name, '.'))
  }

  /** Exact MIME match first, the extension only when that fails. */
  function Identify(mimeType: string, name: string): Option<Format> {
    match MimeFormat(mimeType)
    case Some(f) => Some(f)
    case None => ExtensionFormat(ExtensionOf(name))
  }

  /** The exact-MIME lookup resolves to the validator's if-chain: five MIME types, GIF's not among them. */
  lemma MimeFormatCases(mimeType: string)
    ensures MimeFormat(mimeType) ==
      if mimeType == "image/jpeg" then Some(Jpg)
      else if mimeType == "image/png" then Some(Png)
      else if mimeType == "image/webp" then Some(Webp)
      else if mimeType == "video/mp4" then Some(Mp4)
      else if mimeType == "application/pdf" then Some(Pdf)
      else None
  {
    var t := ExactMimeFormats;
    assert t[1..] == [Png, Webp, Mp4, Pdf];
    assert t[2..] == t[1..][1..] == [Webp, Mp4, Pdf];
    assert t[3..] == t[2..][1..] == [Mp4, Pdf];
    assert t[4..] == t[3..][1..] == [Pdf];
    assert t[5..] == t[4..][1..] == [];
    var k5 := FirstMimeIndex(t[5..], mimeType);
    var k4 := FirstMimeIndex(t[4..], mimeType);
    var k3 := FirstMimeIndex(t[3..], mimeType);
    var k2 := FirstMimeIndex(t[2..], mimeType);
    var k1 := FirstMimeIndex(t[1..], mimeType);
    var k0 := FirstMimeIndex(t, mimeType);
    assert k5 == 0;
    assert k4 == if mimeType == "application/pdf" then 0 else 1;
    assert k3 == if mimeType == "video/mp4" then 0 else 1 + k4;
    assert k2 == if mimeType == "image/webp" then 0 else 1 + k3;
    assert k1 == if mimeType == "image/png" then 0 else 1 + k2;
    assert k0 == if mimeType == "image/jpeg" then 0 else 1 + k1;
  }

  /** Distinct formats have distinct keys. */
  lemma KeyInjective(f: Format, g: Format)
    requires Key(f) == Key(g)
    ensures f == g
  {
  }

  /** The size gate passes: the declared MIME type carries no limit, or the file is within it. */
  predicate WithinSizeLimit(file: File) {
    match SizeClassOf(file.mimeType)
    case None => true
    case Some(c) => file.size <= MaxFileSize(c)
  }

  /** The validator's decision, stated declaratively. */
  function Validate(file: File): (r: ValidationResult)
    ensures r.valid <==> r.format.Some?
    ensures !r.valid ==> r.format == None && r.canConvertTo == []
    ensures r.valid ==> r.message == ValidMessage && r.canConvertTo == Targets(r.format.value)
  {
    if !WithinSizeLimit(file) then Rejected(TooLargeMessage(SizeClassOf(file.mimeType).value))
    else
      match Identify(file.mimeType, file.name)
      case None => Rejected(UnsupportedMessage)
      case Some(f) => Accepted(f)
  }

  // ---------------------------------------------------------------------
  // The validator as written
  // ---------------------------------------------------------------------

  /** A file over its category's limit is refused with that category's message. */
  lemma OversizedRejected(file: File, c: SizeClass)
    requires SizeClassOf(file.mimeType) == Some(c) && file.size > MaxFileSize(c)
    ensures Validate(file) == Rejected(TooLargeMessage(c))
  {
  }

  /** A file within its limit is accepted as the format it is identified as, or refused as unsupported. */
  lemma WithinLimitClassified(file: File)
    requires WithinSizeLimit(file)
    ensures Identify(file.mimeType, file.name).Some? ==> Validate(file) == Accepted(Identify(file.mimeType, file.name).value)
    ensures Identify(file.mimeType, file.name).None? ==> Validate(file) == Rejected(UnsupportedMessage)
  {
  }

  /**
   * The scan over the format table in validateFile: visit the formats in
   * order and stop at the first one whose extensions include `extension`.
   */
  method ScanExtensions(table: seq<Format>, extension: string) returns (i: nat)
    ensures i == FirstExtensionIndex(table, extension)
  {
    i := 0;
    while i < |table| && extension !in Extensions(table[i])
      invariant i <= FirstExtensionIndex(table, extension)
    {
      i := i + 1;
    }
  }

  /**
   * validateFile: start from an accepting record, return early when a size
   * limit is exceeded, test the exact MIME types one by one, and otherwise
   * scan the format table for the file's extension, stopping at the first hit.
   */
  method ValidateFile(file: File) returns (result: ValidationResult)
    ensures result == Validate(file)
  {
    result := ValidationResult(true, "File is valid", None, []);

    if StartsWith(file.mimeType, "image/") && file.size > MaxFileSize(ImageFile) {
      result := result.(valid := false,
        message := "Image file is too large. Maximum size is " + NatToString(MaxFileSize(ImageFile) / (1024 * 1024)) + "MB.");
      OversizedRejected(file, ImageFile);
      return;
    }

    if StartsWith(file.mimeType, "video/") && file.size > MaxFileSize(VideoFile) {
      result := result.(valid := false,
        message := "Video file is too large. Maximum size is " + NatToString(MaxFileSize(VideoFile) / (1024 * 1024)) + "MB.");
      OversizedRejected(file, VideoFile);
      return;
    }

    if file.mimeType == "application/pdf" && file.size > MaxFileSize(PdfFile) {
      result := result.(valid := false,
        message := "PDF file is too large. Maximum size is " + NatToString(MaxFileSize(PdfFile) / (1024 * 1024)) + "MB.");
      OversizedRejected(file, PdfFile);
      return;
    }

    assert WithinSizeLimit(file);
    WithinLimitClassified(file);
    MimeFormatCases(file.mimeType);
    if file.mimeType == Mime(Jpg) {
      result := result.(format := Some(Jpg), canConvertTo := [Png, Webp]);
    } else if file.mimeType == Mime(Png) {
      result := result.(format := Some(Png), canConvertTo := [Jpg, Webp]);
    } else if file.mimeType == Mime(Webp) {
      result := result.(format := Some(Webp), canConvertTo := [Jpg, Png]);
    } else if file.mimeType == Mime(Mp4) {
      result := result.(format := Some(Mp4), canConvertTo := [Gif]);
    } else if file.mimeType == Mime(Pdf) {
      result := result.(format := Some(Pdf), canConvertTo := [Jpg]);
    } else {
      var extension := ToLowerCase(LastPiece(file.name, '.'));
      assert Identify(file.mimeType, file.name) == ExtensionFormat(extension);
      var i := ScanExtensions(SupportedFormats, extension);
      if i < |SupportedFormats| {
        var format := SupportedFormats[i];
        result := result.(format := Some(format));
        match format {
          case Jpg => result := result.(canConvertTo := [Png, Webp]);
          case Png => result := result.(canConvertTo := [Jpg, Webp]);
          case Webp => result := result.(canConvertTo := [Jpg, Png]);
          case Mp4 => result := result.(canConvertTo := [Gif]);
          case Pdf => result := result.(canConvertTo := [Jpg]);
          case Gif =>
        }
        assert result == Accepted(format);
      } else {
        result := result.(valid := false, message := UnsupportedMessage);
      }
    }
  }

  // ---------------------------------------------------------------------
  // Derived helpers
  // ---------------------------------------------------------------------

  /** getAvailableFormats: the offered conversions of an accepted file, none otherwise. */
  function GetAvailableFormats(file: File): (r: seq<Format>)
    ensures r == Validate(file).canConvertTo
    ensures r != [] ==> Validate(file).valid
  {
    var v := Validate(file);
    if v.valid then v.canConvertTo else []
  }

  /** The keys of a list of formats, as the source's target lists hold them. */
  function Keys(fs: seq<Format>): (ks: seq<string>)
    ensures |ks| == |fs|
    ensures forall i :: 0 <= i < |fs| ==> ks[i] == Key(fs[i])
    ensures forall f :: f in fs <==> Key(f) in ks
  {
    seq(|fs|, i requires 0 <= i < |fs| => Key(fs[i]))
  }

  /** isValidConversion: the file is accepted and `target` names one of its offered conversions. */
  function IsValidConversion(file: File, target: string): (b: bool)
    ensures b ==> Validate(file).valid
    ensures b <==> target in Keys(GetAvailableFormats(file))
  {
    var v := Validate(file);
    v.valid && target in Keys(v.canConvertTo)
  }

  // ---------------------------------------------------------------------
  // formatFileSize
  // ---------------------------------------------------------------------

  datatype SizeUnit = Bytes | Kilobytes | Megabytes

  function UnitLabel(u: SizeUnit): string {
    match u
    case Bytes => " B"
    case Kilobytes => " KB"
    case Megabytes => " MB"
  }

  /** How many bytes one of the unit stands for. */
  function UnitSize(u: SizeUnit): nat {
    match u
    case Bytes => 1
    case Kilobytes => 1024
    case Megabytes => MiB
  }

  /** The unit formatFileSize chooses: the largest whose size does not exceed the byte count (bytes when none). */
  function SizeUnitOf(bytes: nat): (u: SizeUnit)
    ensures UnitSize(u) <= bytes || u == Bytes
    ensures u != Megabytes ==> bytes < 1024 * UnitSize(u)
  {
    if bytes < 1024 then Bytes
    else if bytes < 1024 * 1024 then Kilobytes
    else Megabytes
  }

  /**
   * formatFileSize: the integer and " B" below 1 KiB; otherwise the size in
   * the chosen unit with one decimal, as `toFixed(1)` renders the exact quotient.
   */
  function FormatFileSize(bytes: nat): (s: string)
    ensures |UnitLabel(SizeUnitOf(bytes))| < |s|
    ensures s[|s| - |UnitLabel(SizeUnitOf(bytes))|..] == UnitLabel(SizeUnitOf(bytes))
  {
    var u := SizeUnitOf(bytes);
    if u == Bytes then NatToString(bytes) + UnitLabel(u)
    else ToFixed1(bytes, UnitSize(u)) + UnitLabel(u)
  }
}
