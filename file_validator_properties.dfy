/**
 * What the file validator promises, proved about its specification
 * `FileValidator.Validate` (which `FileValidator.ValidateFile` is proved to
 * compute): the size gate and its precedence, the exact MIME table, the
 * first-match extension fallback, the GIF asymmetry, the shape of accepted
 * and rejected results, the derived helpers, and formatFileSize.
 */
module FileValidatorProperties {
  import opened Wrappers
  import opened JsString
  import opened FileValidator

  // ---------------------------------------------------------------------
  // Size gate
  // ---------------------------------------------------------------------

  /**
   * For a MIME type in a limited category, the file is rejected as too large
   * exactly when its size is strictly over that category's limit, whatever
   * its name.
   */
  lemma SizeGateExact(file: File, c: SizeClass)
    requires SizeClassOf(file.mimeType) == Some(c)
    ensures Validate(file) == Rejected(TooLargeMessage(c)) <==> file.size > MaxFileSize(c)
  {
    TooLargeMessageDiffers(c);
  }

  /** No too-large message reads like the unsupported-type or the acceptance message. */
  lemma TooLargeMessageDiffers(c: SizeClass)
    ensures TooLargeMessage(c) != UnsupportedMessage && TooLargeMessage(c) != ValidMessage
  {
    var n := MaxFileSize(c) / MiB;
    assert n < 100;
    assert |NatToString(n)| <= 2;
  }

  /**
   * The gate comes first and looks at the declared MIME type and size only:
   * an oversized file is refused with its category's message, no format and
   * no conversions, whatever its name.
   */
  lemma SizeGatePrecedence(file: File, otherName: string)
    requires !WithinSizeLimit(file)
    ensures SizeClassOf(file.mimeType).Some?
    ensures Validate(file) == Rejected(TooLargeMessage(SizeClassOf(file.mimeType).value))
    ensures Validate(file.(name := otherName)) == Validate(file)
  {
  }

  /** Below the gate nothing depends on the size: a file within its limit is classified as if it were empty. */
  lemma SizeIrrelevantWithinLimit(file: File)
    requires WithinSizeLimit(file)
    ensures Validate(file) == Validate(file.(size := 0))
  {
  }

  /** A MIME type outside the limited categories is never size-gated, however large the file. */
  lemma UngatedMimeIgnoresSize(file: File, size: nat)
    requires SizeClassOf(file.mimeType) == None
    ensures Validate(file.(size := size)) == Validate(file)
  {
  }

  /**
   * Each of the five exact MIME types falls in its size category by prefix
   * (PDF by exact type) and is looked up as its own format.
   */
  lemma ExactMimeClass(f: Format)
    requires f != Gif
    ensures SizeClassOf(Mime(f)) == Some(if f == Mp4 then VideoFile else if f == Pdf then PdfFile else ImageFile)
    ensures MimeFormat(Mime(f)) == Some(f)
  {
    var mime := Mime(f);
    MimeFormatCases(mime);
    match f
    case Jpg => assert StartsWith(mime, "image/");
    case Png => assert StartsWith(mime, "image/");
    case Webp => assert StartsWith(mime, "image/");
    case Mp4 =>
      NotStartsWith(mime, "image/", 0);
      assert StartsWith(mime, "video/");
    case Pdf =>
      NotStartsWith(mime, "image/", 0);
      NotStartsWith(mime, "video/", 0);
  }

  /** `image/gif` and `image/bmp` are gated as images but have no exact MIME entry. */
  lemma UnlistedImageMime(mime: string)
    requires mime == "image/gif" || mime == "image/bmp"
    ensures SizeClassOf(mime) == Some(ImageFile) && MimeFormat(mime) == None
  {
    MimeFormatCases(mime);
    assert StartsWith(mime, "image/");
  }

  /** `application/octet-stream` and `text/plain` are neither gated nor recognised. */
  lemma UngatedUnlistedMime(mime: string)
    requires mime == "application/octet-stream" || mime == "text/plain"
    ensures SizeClassOf(mime) == None && MimeFormat(mime) == None
  {
    MimeFormatCases(mime);
    NotStartsWith(mime, "image/", 0);
    NotStartsWith(mime, "video/", 0);
  }

  /** The three messages, with the limits written in MiB: 10, 50 and 20. */
  lemma TooLargeMessages()
    ensures TooLargeMessage(ImageFile) == "Image file is too large. Maximum size is " + "10" + "MB."
    ensures TooLargeMessage(VideoFile) == "Video file is too large. Maximum size is " + "50" + "MB."
    ensures TooLargeMessage(PdfFile) == "PDF file is too large. Maximum size is " + "20" + "MB."
  {
    assert NatToString(10) == "10" && NatToString(50) == "50" && NatToString(20) == "20";
    assert MaxFileSize(ImageFile) / MiB == 10;
    assert TooLargeMessage(ImageFile) == LimitMessage(TooLargePrefix(ImageFile), 10);
    assert MaxFileSize(VideoFile) / MiB == 50;
    assert TooLargeMessage(VideoFile) == LimitMessage(TooLargePrefix(VideoFile), 50);
    assert MaxFileSize(PdfFile) / MiB == 20;
    assert TooLargeMessage(PdfFile) == LimitMessage(TooLargePrefix(PdfFile), 20);
  }

  /** A JPEG over 10 MiB is refused with the image message; one of at most 10 MiB passes the gate. */
  lemma ImageGateBoundary(file: File)
    requires file.mimeType == "image/jpeg"
    ensures file.size > 10 * MiB ==> Validate(file) == Rejected(TooLargeMessage(ImageFile))
    ensures file.size <= 10 * MiB ==> Validate(file) == Accepted(Jpg)
  {
    ExactMimeClass(Jpg);
    if file.size <= 10 * MiB {
      ExactMimeMatch(file, Jpg);
    }
  }

  /**
   * The gate runs before identification: an oversized `image/gif` or
   * `image/bmp` is refused as too large, though neither has an exact MIME entry.
   */
  lemma GateBeforeIdentification(file: File)
    requires file.mimeType == "image/gif" || file.mimeType == "image/bmp"
    requires file.size > 10 * MiB
    ensures Validate(file) == Rejected(TooLargeMessage(ImageFile))
  {
    UnlistedImageMime(file.mimeType);
  }

  /** A file declared `application/octet-stream` and named `x.png` is not gated, however large: it is a PNG. */
  lemma UngatedOversizedPng(file: File)
    requires file.mimeType == "application/octet-stream" && file.name == "x.png"
    ensures Validate(file) == Accepted(Png)
  {
    UngatedUnlistedMime(file.mimeType);
    LastPieceAfter(file.name, '.', 1);
    assert file.name[2..] == "png";
    assert ExtensionOf(file.name) == "png";
    ClassifiedByExtension(file, Png);
  }

  // ---------------------------------------------------------------------
  // Exact MIME match
  // ---------------------------------------------------------------------

  /** A file that passes the gate and declares one of the five exact MIME types is that format, whatever its name. */
  lemma ExactMimeMatch(file: File, f: Format)
    requires WithinSizeLimit(file)
    requires f != Gif && file.mimeType == Mime(f)
    ensures Validate(file) == Accepted(f)
  {
    MimeFormatCases(file.mimeType);
  }

  /** The conversions each exact MIME type is offered, in order, whatever the file's name. */
  lemma ExactMimeTable(file: File)
    requires WithinSizeLimit(file)
    ensures file.mimeType == "image/jpeg" ==> Validate(file) == ValidationResult(true, "File is valid", Some(Jpg), [Png, Webp])
    ensures file.mimeType == "image/png" ==> Validate(file) == ValidationResult(true, "File is valid", Some(Png), [Jpg, Webp])
    ensures file.mimeType == "image/webp" ==> Validate(file) == ValidationResult(true, "File is valid", Some(Webp), [Jpg, Png])
    ensures file.mimeType == "video/mp4" ==> Validate(file) == ValidationResult(true, "File is valid", Some(Mp4), [Gif])
    ensures file.mimeType == "application/pdf" ==> Validate(file) == ValidationResult(true, "File is valid", Some(Pdf), [Jpg])
  {
    if file.mimeType == Mime(Jpg) {
      ExactMimeClass(Jpg);
      ExactMimeMatch(file, Jpg);
    } else if file.mimeType == Mime(Png) {
      ExactMimeClass(Png);
      ExactMimeMatch(file, Png);
    } else if file.mimeType == Mime(Webp) {
      ExactMimeClass(Webp);
      ExactMimeMatch(file, Webp);
    } else if file.mimeType == Mime(Mp4) {
      ExactMimeClass(Mp4);
      ExactMimeMatch(file, Mp4);
    } else if file.mimeType == Mime(Pdf) {
      ExactMimeClass(Pdf);
      ExactMimeMatch(file, Pdf);
    }
  }

  /**
   * The conversion table: never a format to itself, every two distinct still
   * images both ways, MP4 and PDF one way to a single target, GIF to nothing.
   */
  lemma ConversionTableShape(a: Format, b: Format)
    ensures a !in Targets(a)
    ensures a in {Jpg, Png, Webp} && b in {Jpg, Png, Webp} && a != b ==> b in Targets(a) && a in Targets(b)
    ensures |Targets(Mp4)| == 1 && |Targets(Pdf)| == 1 && Targets(Gif) == []
    ensures Mp4 !in Targets(Targets(Mp4)[0]) && Pdf !in Targets(Targets(Pdf)[0])
  {
  }

  // ---------------------------------------------------------------------
  // Extension fallback
  // ---------------------------------------------------------------------

  /** Without an exact MIME match, a file that passes the gate is identified by its extension alone. */
  lemma ExtensionFallback(file: File)
    requires WithinSizeLimit(file)
    requires MimeFormat(file.mimeType) == None
    ensures Validate(file).format == ExtensionFormat(ExtensionOf(file.name))
  {
  }

  /**
   * No two formats share an extension, so the first match of the scan is the
   * one format that lists the extension, in either direction.
   */
  lemma ExtensionFormatIff(ext: string, f: Format)
    ensures ExtensionFormat(ext) == Some(f) <==> ext in Extensions(f)
  {
    var t := SupportedFormats;
    var k := FirstExtensionIndex(t, ext);
    if ext in Extensions(f) {
      var i := match f case Jpg => 0 case Png => 1 case Webp => 2 case Gif => 3 case Mp4 => 4 case Pdf => 5;
      assert t[i] == f;
      assert k <= i;
      ExtensionsDisjoint(ext, t[k], f);
    }
  }

  /** No extension is listed by two formats. */
  lemma ExtensionsDisjoint(ext: string, f: Format, g: Format)
    requires ext in Extensions(f) && ext in Extensions(g)
    ensures f == g
  {
  }

  /** Nothing is identified from an extension no format lists. */
  lemma ExtensionFormatNone(ext: string)
    ensures ExtensionFormat(ext) == None <==> forall f: Format :: ext !in Extensions(f)
  {
    if ExtensionFormat(ext).Some? {
      ExtensionFormatIff(ext, ExtensionFormat(ext).value);
    } else {
      forall f: Format ensures ext !in Extensions(f) {
        ExtensionFormatIff(ext, f);
      }
    }
  }

  /** A name made of a stem, a dot and a dot-free suffix has that suffix, lowered, as its extension. */
  lemma ExtensionOfJoined(stem: string, ext: string)
    requires '.' !in ext
    ensures ExtensionOf(stem + "." + ext) == ToLowerCase(ext)
    ensures (forall i :: 0 <= i < |ext| ==> !IsAsciiUpper(ext[i])) ==> ExtensionOf(stem + "." + ext) == ext
  {
    var name := stem + "." + ext;
    assert name[|stem|] == '.';
    assert name[|stem| + 1..] == ext;
    LastPieceAfter(name, '.', |stem|);
  }

  /**
   * The extension is the lower-cased text after the last dot: it holds no
   * dot, it is the whole name lowered exactly when the name has no dot, and
   * otherwise a dot stands just before the text it was lowered from.
   */
  lemma ExtensionOfMeaning(name: string)
    ensures var e := ExtensionOf(name);
      |e| <= |name| && '.' !in e && e == ToLowerCase(name[|name| - |e|..])
    ensures |ExtensionOf(name)| == |name| <==> '.' !in name
    ensures |ExtensionOf(name)| < |name| ==> name[|name| - |ExtensionOf(name)| - 1] == '.'
  {
    var piece := LastPiece(name, '.');
    assert piece == name[|name| - |ExtensionOf(name)|..];
  }

  /** A file that passes the gate with no exact MIME match is the format its extension belongs to. */
  lemma ClassifiedByExtension(file: File, f: Format)
    requires WithinSizeLimit(file)
    requires MimeFormat(file.mimeType) == None
    requires ExtensionOf(file.name) in Extensions(f)
    ensures Validate(file) == Accepted(f)
  {
    ExtensionFormatIff(ExtensionOf(file.name), f);
  }

  /** Upper-case names are identified like lower-case ones: lowering the name first changes nothing. */
  lemma {:induction false} ExtensionIgnoresCase(name: string)
    ensures ExtensionOf(ToLowerCase(name)) == ExtensionOf(name)
  {
    var low := ToLowerCase(name);
    var k := LastPieceStart(name, '.');
    var kl := LastPieceStart(low, '.');
    assert forall i :: 0 <= i < |name| ==> (low[i] == '.' <==> name[i] == '.');
    assert k == kl;
    assert ToLowerCase(low[kl..]) == ToLowerCase(name[k..]);
  }

  /** `PHOTO.JPEG` has the extension `jpeg`. */
  lemma UpperCaseExtension(name: string)
    requires name == "PHOTO.JPEG"
    ensures ExtensionOf(name) == "jpeg"
  {
    LastPieceAfter(name, '.', 5);
    assert name[6..] == "JPEG";
    var l := ToLowerCase("JPEG");
    assert l[0] == 'j' && l[1] == 'p' && l[2] == 'e' && l[3] == 'g';
  }

  /** An unknown MIME type with the name `PHOTO.JPEG` is a JPEG: the extension is lowered before the scan. */
  lemma UpperCaseJpegExample(file: File)
    requires file.mimeType == "application/octet-stream" && file.name == "PHOTO.JPEG"
    ensures Validate(file) == ValidationResult(true, "File is valid", Some(Jpg), [Png, Webp])
  {
    UngatedUnlistedMime(file.mimeType);
    UpperCaseExtension(file.name);
    ClassifiedByExtension(file, Jpg);
  }

  /** An unknown MIME type with the name `clip.webp` is a WebP. */
  lemma WebpFallbackExample(file: File)
    requires file.mimeType == "application/octet-stream" && file.name == "clip.webp"
    ensures Validate(file) == ValidationResult(true, "File is valid", Some(Webp), [Jpg, Png])
  {
    UngatedUnlistedMime(file.mimeType);
    LastPieceAfter(file.name, '.', 4);
    assert file.name[5..] == "webp";
    assert ExtensionOf(file.name) == "webp";
    ClassifiedByExtension(file, Webp);
  }

  /** A file declared `image/gif` but named `photo.png` follows its name, since GIF has no exact MIME entry. */
  lemma GifMimeWithPngName(file: File)
    requires file.mimeType == "image/gif" && file.name == "photo.png" && file.size <= 10 * MiB
    ensures Validate(file) == Accepted(Png)
  {
    UnlistedImageMime(file.mimeType);
    LastPieceAfter(file.name, '.', 5);
    assert file.name[6..] == "png";
    assert ExtensionOf(file.name) == "png";
    ClassifiedByExtension(file, Png);
  }

  // ---------------------------------------------------------------------
  // The GIF asymmetry
  // ---------------------------------------------------------------------

  /**
   * GIF has no exact MIME entry: a result tagged GIF came from a `.gif`
   * extension, and it is accepted with no conversion offered.
   */
  lemma GifOnlyByExtension(file: File)
    requires Validate(file).format == Some(Gif)
    ensures MimeFormat(file.mimeType) == None
    ensures ExtensionOf(file.name) == "gif"
    ensures Validate(file).valid && Validate(file).canConvertTo == []
  {
    MimeFormatCases(file.mimeType);
    ExtensionFormatIff(ExtensionOf(file.name), Gif);
  }

  /** `image/gif` with a `.gif` name: valid, tagged GIF, nothing to convert to. */
  lemma GifExample(file: File)
    requires file.mimeType == "image/gif" && file.name == "a.gif" && file.size <= 10 * MiB
    ensures Validate(file) == ValidationResult(true, "File is valid", Some(Gif), [])
  {
    UnlistedImageMime(file.mimeType);
    LastPieceAfter(file.name, '.', 1);
    assert file.name[2..] == "gif";
    assert ExtensionOf(file.name) == "gif";
    ClassifiedByExtension(file, Gif);
  }

  // ---------------------------------------------------------------------
  // Accepted and rejected results
  // ---------------------------------------------------------------------

  /** A file is accepted exactly when it passes the gate and is identified, and then it carries that format's conversions. */
  lemma ValidIff(file: File)
    ensures Validate(file).valid <==> WithinSizeLimit(file) && Identify(file.mimeType, file.name).Some?
    ensures Validate(file).valid ==> Validate(file) == Accepted(Identify(file.mimeType, file.name).value)
  {
  }

  /**
   * The unsupported-type rejection is given exactly when the file passes the
   * gate and neither its MIME type nor its extension is known.
   */
  lemma UnsupportedIff(file: File)
    ensures Validate(file) == Rejected(UnsupportedMessage)
      <==> WithinSizeLimit(file) && MimeFormat(file.mimeType) == None
           && forall f: Format :: ExtensionOf(file.name) !in Extensions(f)
  {
    ExtensionFormatNone(ExtensionOf(file.name));
    if !WithinSizeLimit(file) {
      TooLargeMessageDiffers(SizeClassOf(file.mimeType).value);
    }
  }

  /** An extension that starts with none of the letters the table's extensions start with identifies nothing. */
  lemma UnknownExtension(ext: string)
    requires |ext| > 0 && ext[0] !in {'j', 'p', 'w', 'g', 'm'}
    ensures ExtensionFormat(ext) == None
  {
    forall f: Format ensures ext !in Extensions(f) {
      forall e | e in Extensions(f) ensures e[0] in {'j', 'p', 'w', 'g', 'm'} { }
    }
    ExtensionFormatNone(ext);
  }

  /** A plain-text file is refused as unsupported. */
  lemma UnsupportedExample(file: File)
    requires file.mimeType == "text/plain" && file.name == "notes.txt"
    ensures Validate(file) == Rejected(UnsupportedMessage)
  {
    UngatedUnlistedMime(file.mimeType);
    LastPieceAfter(file.name, '.', 5);
    assert file.name[6..] == "txt";
    assert ExtensionOf(file.name) == "txt";
    UnknownExtension("txt");
  }

  // ---------------------------------------------------------------------
  // getAvailableFormats and isValidConversion
  // ---------------------------------------------------------------------

  /** getAvailableFormats is the identified format's conversions, or nothing for a rejected file. */
  lemma AvailableFormatsMeaning(file: File)
    ensures GetAvailableFormats(file) ==
      if WithinSizeLimit(file) && Identify(file.mimeType, file.name).Some?
      then Targets(Identify(file.mimeType, file.name).value) else []
  {
  }

  /**
   * isValidConversion holds exactly when the target names one of the
   * available formats; it never holds for a conversion to the file's own format.
   */
  lemma IsValidConversionIff(file: File, target: string)
    ensures IsValidConversion(file, target) <==> exists f :: f in GetAvailableFormats(file) && Key(f) == target
    ensures IsValidConversion(file, target) ==> Validate(file).valid && target != Key(Validate(file).format.value)
  {
    var v := Validate(file);
    if v.valid {
      assert v.canConvertTo == Targets(v.format.value);
    }
  }

  /** A JPEG may become a PNG, never an MP4. */
  lemma ConversionExample(file: File)
    requires file.mimeType == "image/jpeg" && file.size <= 10 * MiB
    ensures IsValidConversion(file, "png")
    ensures !IsValidConversion(file, "mp4")
  {
    ExactMimeClass(Jpg);
    ExactMimeMatch(file, Jpg);
    assert Keys([Png, Webp]) == ["png", "webp"];
  }

  // ---------------------------------------------------------------------
  // formatFileSize
  // ---------------------------------------------------------------------

  function UnitRank(u: SizeUnit): nat {
    match u
    case Bytes => 0
    case Kilobytes => 1
    case Megabytes => 2
  }

  /** A larger byte count never gets a smaller unit. */
  lemma SizeUnitMonotone(a: nat, b: nat)
    requires a <= b
    ensures UnitRank(SizeUnitOf(a)) <= UnitRank(SizeUnitOf(b))
  {
  }

  /** Below 1 KiB the text is the exact byte count, in decimal, followed by " B". */
  lemma FormatFileSizeBytes(bytes: nat)
    requires bytes < 1024
    ensures var s := FormatFileSize(bytes);
      |s| > 2 && s[|s| - 2..] == " B" &&
      (forall i :: 0 <= i < |s| - 2 ==> '0' <= s[i] <= '9') &&
      DigitsValue(s[..|s| - 2]) == bytes &&
      (s[0] == '0' ==> s == "0 B") &&
      s == NatToString(bytes) + " B"
  {
    var s := FormatFileSize(bytes);
    assert s[..|s| - 2] == NatToString(bytes);
    NatToStringRoundTrip(bytes);
  }

  /**
   * From 1 KiB up the text is a whole part, a point and one digit, then the
   * unit; the tenths it shows are the nearest to the exact size in that
   * unit, rounding a tie up.
   */
  lemma FormatFileSizeRounded(bytes: nat)
    requires bytes >= 1024
    ensures var u := SizeUnitOf(bytes);
      var t := NearestTenths(bytes, UnitSize(u));
      FormatFileSize(bytes) == NatToString(t / 10) + ['.', DigitChar(t % 10)] + UnitLabel(u) &&
      UnitSize(u) * (2 * t) <= 20 * bytes + UnitSize(u) < UnitSize(u) * (2 * t + 2)
  {
  }

  /** Sizes below 1 KiB, in whole bytes. */
  lemma FormatFileSizeBytesExample()
    ensures FormatFileSize(500) == "500 B"
  {
    DecimalExamples();
  }

  /** Decimal renderings the examples below rely on. */
  lemma DecimalExamples()
    ensures NatToString(500) == "500"
    ensures NatToString(1024) == "1024"
  {
    assert NatToString(5) == "5";
    assert NatToString(50) == "50";
    assert NatToString(1) == "1";
    assert NatToString(10) == "10";
    assert NatToString(102) == "102";
  }

  /** 1536 bytes is one and a half KiB, 1572864 bytes one and a half MiB. */
  lemma FormatFileSizeFractionExamples()
    ensures FormatFileSize(1536) == "1.5 KB"
    ensures FormatFileSize(1572864) == "1.5 MB"
  {
    assert NearestTenths(1536, 1024) == 15;
    assert NearestTenths(1572864, 1048576) == 15;
    assert NatToString(1) == "1";
  }

  /** The top of the KB range rounds to 1024.0 KB rather than moving to MB. */
  lemma FormatFileSizeKilobyteTop()
    ensures FormatFileSize(1048575) == "1024.0 KB"
  {
    assert SizeUnitOf(1048575) == Kilobytes;
    assert NearestTenths(1048575, 1024) == 10240;
    DecimalExamples();
  }
}
