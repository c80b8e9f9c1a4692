/** EXIF metadata for a photograph (src/utils/exifUtils.ts): how the raw
    tag values the EXIF reader returns are shaped into optional display
    strings, when the lookup yields no record at all, and when a
    caller-supplied fallback is used instead. Image loading and the EXIF
    reader are outside the model: their outcome is an input. */
module Exif {
  import opened Wrappers
  import opened JsStrings
  import opened JsNumbers

  /** The display record. Every field is optional and absence means
      "unknown". `captureDate` holds the ISO-style string the date is
      built from. */
  datatype ExifData = ExifData(
    camera: Option<string>,
    shutterSpeed: Option<string>,
    aperture: Option<string>,
    iso: Option<string>,
    focalLength: Option<string>,
    captureDate: Option<string>)

  /** The record with every field absent. */
  const NoExif := ExifData(None, None, None, None, None, None)

  /** A value the EXIF reader returns for a tag: a string, or a number.
      Rational tags come back as boxed `Number` objects, which are truthy
      even when their value is zero; plain numbers are not boxed. */
  datatype TagValue = Text(text: string) | Number(value: Decimal, boxed: bool)

  /** The tags found in an image, by tag name. A name that is not a key
      reads as `undefined`. */
  type Tags = map<string, TagValue>

  function Tag(tags: Tags, name: string): Option<TagValue> {
    if name in tags then Some(tags[name]) else None
  }

  /** The tags the shaping reads. */
  const TagNames: set<string> :=
    {"Make", "Model", "ExposureTime", "FNumber", "ISOSpeedRatings", "FocalLength", "DateTimeOriginal"}

  /** JavaScript truthiness of a tag read: `undefined`, `""` and a plain
      zero are falsy, everything else is truthy. */
  predicate Truthy(v: Option<TagValue>) {
    match v
    case None => false
    case Some(Text(s)) => s != ""
    case Some(Number(d, boxed)) => boxed || d.units != 0
  }

  /** `${v}` and `v.toString()` */
  function Show(v: TagValue): string {
    match v
    case Text(s) => s
    case Number(d, _) => JsNumberString(d)
  }

  /** A non-empty string where a number is expected: JavaScript would
      convert it with its string-to-number rules, which are not modelled. */
  predicate CoercedText(v: Option<TagValue>) {
    v.Some? && v.value.Text? && v.value.text != ""
  }

  /** The outcome of evaluating a field that may throw a TypeError. */
  datatype Eval<T> = Value(value: T) | Throws

  // ---- Field shaping ----

  /** `make && model ? `${make} ${model}` : undefined` */
  function Camera(make: Option<TagValue>, model: Option<TagValue>): (r: Option<string>)
    ensures r.Some? <==> Truthy(make) && Truthy(model)
    ensures r.Some? ==> r.value == Show(make.value) + " " + Show(model.value)
  {
    if Truthy(make) && Truthy(model) then Some(Show(make.value) + " " + Show(model.value))
    else None
  }

  /** The shutter speed shown for a truthy exposure time `x`: "1/N" with
      N = Math.round(1/x) when `x < 1` (a zero exposure divides to
      Infinity), otherwise `x` itself. */
  function ShutterText(d: Decimal): string {
    if LessThanOne(d) then
      "1/" + (if d.units == 0 then "Infinity" else IntToString(ReciprocalRound(d)))
    else
      JsNumberString(d)
  }

  function ShutterSpeed(exposure: Option<TagValue>): (r: Option<string>)
    requires !CoercedText(exposure)
    ensures r.Some? <==> Truthy(exposure)
    ensures r.Some? ==> exposure.value.Number? && r.value == ShutterText(exposure.value.value)
  {
    if Truthy(exposure) then Some(ShutterText(exposure.value.value)) else None
  }

  /** `fNumber.toFixed(1)` when truthy; a string has no `toFixed`, so a
      truthy textual FNumber throws. */
  function Aperture(fNumber: Option<TagValue>): (r: Eval<Option<string>>)
    ensures r.Throws? <==> CoercedText(fNumber)
    ensures r.Value? ==> (r.value.Some? <==> Truthy(fNumber))
    ensures r.Value? && r.value.Some? ==> r.value.value == ToFixed1(fNumber.value.value)
  {
    if !Truthy(fNumber) then Value(None)
    else match fNumber.value
      case Text(_) => Throws
      case Number(d, _) => Value(Some(ToFixed1(d)))
  }

  /** `iso ? iso.toString() : undefined` */
  function Iso(iso: Option<TagValue>): (r: Option<string>)
    ensures r.Some? <==> Truthy(iso)
    ensures r.Some? ==> r.value == Show(iso.value)
  {
    if Truthy(iso) then Some(Show(iso.value)) else None
  }

  /** The camera text splits at its first space into the make and then the
      model's own parts, so a space-free make is recovered from it. */
  lemma CameraSplitsAtMake(make: string, model: string)
    requires make != "" && model != "" && ' ' !in make
    ensures Camera(Some(Text(make)), Some(Text(model))).Some?
    ensures Split(Camera(Some(Text(make)), Some(Text(model))).value, ' ') == [make] + Split(model, ' ')
  {
    var tail := " " + model;
    assert make + " " + model == make + tail;
    SplitPrefix(make, tail, ' ');
    assert tail[1..] == model;
    assert Split(tail, ' ') == [""] + Split(model, ' ');
    assert make + "" == make;
  }

  /** A numeric ISO reads back as the tag's value, without trailing zeros. */
  lemma IsoReadsBack(d: Decimal, boxed: bool)
    requires boxed || d.units != 0
    ensures Iso(Some(Number(d, boxed))).Some?
    ensures ParseDecimal(Iso(Some(Number(d, boxed))).value) == Some(Normalize(d))
  {
    JsNumberStringRoundTrip(d);
  }

  /** `Math.round(focalLength).toString()` when truthy. */
  function FocalLength(focal: Option<TagValue>): (r: Option<string>)
    requires !CoercedText(focal)
    ensures r.Some? <==> Truthy(focal)
    ensures r.Some? ==> r.value == IntToString(MathRound(focal.value.value))
  {
    if Truthy(focal) then Some(IntToString(MathRound(focal.value.value))) else None
  }

  /** A numeric focal length reads back as the whole number nearest the
      tag's value, with halves going up. */
  lemma FocalLengthReadsBack(d: Decimal, boxed: bool)
    requires boxed || d.units != 0
    ensures FocalLength(Some(Number(d, boxed))).Some?
    ensures ParseDecimal(FocalLength(Some(Number(d, boxed))).value) == Some(Decimal(MathRound(d), 0))
  {
    IntToStringRoundTrip(MathRound(d));
  }

  /** The date string built from an EXIF "YYYY:MM:DD HH:MM:SS" value:
      split on spaces; with exactly two parts, the colons of the date part
      become dashes and the two parts are joined by "T"; any other number
      of parts leaves the date absent. */
  function DateString(s: string): (r: Option<string>)
    ensures r.Some? <==> Count(s, ' ') == 1
  {
    var parts := Split(s, ' ');
    if |parts| == 2 then Some(ReplaceAll(parts[0], ':', '-') + "T" + parts[1]) else None
  }

  /** A truthy DateTimeOriginal goes through `DateString`; a number has
      no `split`, so a truthy numeric value throws. */
  function CaptureDate(dateTime: Option<TagValue>): (r: Eval<Option<string>>)
    ensures r.Throws? <==> Truthy(dateTime) && dateTime.value.Number?
    ensures !Truthy(dateTime) ==> r == Value(None)
    ensures Truthy(dateTime) && dateTime.value.Text? ==> r == Value(DateString(dateTime.value.text))
  {
    if !Truthy(dateTime) then Value(None)
    else match dateTime.value
      case Number(_, _) => Throws
      case Text(s) => Value(DateString(s))
  }

  /** The tags whose values the model can evaluate: no non-empty text
      where JavaScript would convert it to a number. */
  predicate InModel(tags: Tags) {
    !CoercedText(Tag(tags, "ExposureTime")) && !CoercedText(Tag(tags, "FocalLength"))
  }

  /** A field evaluation threw while the tags were being read. */
  predicate TagsThrow(tags: Tags) {
    Aperture(Tag(tags, "FNumber")).Throws? || CaptureDate(Tag(tags, "DateTimeOriginal")).Throws?
  }

  /** The body of the EXIF reader's callback: shape every field, or yield
      `null` when one of them throws. */
  function ReadTags(tags: Tags): (r: Option<ExifData>)
    requires InModel(tags)
    ensures r.None? <==> TagsThrow(tags)
    ensures r.Some? ==>
      && r.value.camera == Camera(Tag(tags, "Make"), Tag(tags, "Model"))
      && r.value.shutterSpeed == ShutterSpeed(Tag(tags, "ExposureTime"))
      && Aperture(Tag(tags, "FNumber")) == Value(r.value.aperture)
      && r.value.iso == Iso(Tag(tags, "ISOSpeedRatings"))
      && r.value.focalLength == FocalLength(Tag(tags, "FocalLength"))
      && CaptureDate(Tag(tags, "DateTimeOriginal")) == Value(r.value.captureDate)
  {
    var aperture := Aperture(Tag(tags, "FNumber"));
    var date := CaptureDate(Tag(tags, "DateTimeOriginal"));
    if aperture.Throws? || date.Throws? then None
    else Some(ExifData(
      Camera(Tag(tags, "Make"), Tag(tags, "Model")),
      ShutterSpeed(Tag(tags, "ExposureTime")),
      aperture.value,
      Iso(Tag(tags, "ISOSpeedRatings")),
      FocalLength(Tag(tags, "FocalLength")),
      date.value))
  }

  /** How loading the image and running the EXIF reader went. */
  datatype ImageLoad =
    | LoadFailed          // the image's error event fired
    | ReaderFailed        // `EXIF.getData` threw
    | Loaded(tags: Tags)  // the reader's callback ran with these tags

  /** `getExifData(url)` once it settles through the image events or the
      reader: the shaped record, or `null` on any of these failures. */
  function GetExifData(load: ImageLoad): (r: Option<ExifData>)
    requires load.Loaded? ==> InModel(load.tags)
    ensures !load.Loaded? ==> r.None?
    ensures load.Loaded? ==> (r.None? <==> TagsThrow(load.tags))
    ensures load.Loaded? ==> r == ReadTags(load.tags)
  {
    match load
    case LoadFailed => None
    case ReaderFailed => None
    case Loaded(tags) => ReadTags(tags)
  }

  // ---- Fallback policy ----

  /** Hosts and paths for which extraction is not attempted: anything on
      unsplash.com, and site-relative paths. */
  predicate SkipsExtraction(url: string) {
    Contains(url, "unsplash.com") || StartsWith(url, "/")
  }

  /** How the attempted extraction ended, when it was attempted. `Threw`
      is a rejected `getExifData`: a synchronous throw inside its promise
      executor (say, `new Image()` where there is no `Image`) escapes the
      outer `try` and becomes a rejection, which the fallback's `catch`
      handles. */
  datatype Extraction = Resolved(result: Option<ExifData>) | Threw

  /** `getExifDataWithFallback(url, fallback)`: for skipped URLs the
      fallback; otherwise the extracted record when there is one (even an
      empty one), and the fallback when extraction yielded `null` or threw.
      A missing fallback is `null`. */
  function ExifWithFallback(url: string, fallback: Option<ExifData>, extraction: Extraction): (r: Option<ExifData>)
    ensures SkipsExtraction(url) ==> r == fallback
    ensures !SkipsExtraction(url) ==>
      r == (if extraction.Resolved? && extraction.result.Some? then extraction.result else fallback)
  {
    if SkipsExtraction(url) then fallback
    else match extraction
      case Resolved(Some(data)) => Some(data)
      case Resolved(None) => fallback
      case Threw => fallback
  }

  // ---- Properties ----

  /** An exposure below one second shows as "1/N", where N is a positive
      integer nearest to the reciprocal `10^scale / units`. */
  lemma ShutterFraction(d: Decimal)
    requires 0 < d.units && LessThanOne(d)
    ensures var t := ShutterText(d);
            && |t| > 2 && t[..2] == "1/" && IsDigits(t[2..])
            && var n := ParseNat(t[2..]);
               n >= 1 && 2 * d.units * n <= 2 * Pow10(d.scale) + d.units < 2 * d.units * n + 2 * d.units
  {
    var n := ReciprocalRound(d);
    ReciprocalOfFractionPositive(d);
    var t := ShutterText(d);
    assert t == "1/" + NatToString(n);
    assert t[2..] == NatToString(n);
    NatToStringRoundTrip(n);
  }

  /** An exposure of one second or more shows as the number itself. */
  lemma ShutterLiteral(d: Decimal)
    requires !LessThanOne(d)
    ensures ParseDecimal(ShutterText(d)) == Some(Normalize(d))
  {
    JsNumberStringRoundTrip(d);
  }

  /** An exposure of 0.004 s shows as "1/250"; one of 2 s as "2". */
  lemma ShutterExamples()
    ensures ShutterText(Decimal(4, 3)) == "1/250"
    ensures ShutterText(Decimal(2, 0)) == "2"
  {
    assert Pow10(3) == 1000;
    assert ReciprocalRound(Decimal(4, 3)) == 250;
    assert NatToString(250) == "250" by {
      assert NatToString(2) == "2";
      assert NatToString(25) == "25";
    }
    IntegerRendering(2);
  }

  /** An FNumber of 2.8 shows as "2.8". */
  lemma ApertureExample()
    ensures Aperture(Some(Number(Decimal(28, 1), true))) == Value(Some("2.8"))
  {
    assert Pow10(1) == 10;
    assert Tenths(Decimal(28, 1)) == 28;
    assert Quot(28, 10) == 2 && Rem(28, 10) == 8;
    assert NatToString(2) == "2" && PadDigits(8, 1) == "8";
    assert Positional(28, 1) == "2" + "." + "8" == "2.8";
    assert ToFixed1(Decimal(28, 1)) == "" + "2.8" == "2.8";
  }

  /** A plain zero ISO value is dropped; a non-zero one is shown as is. */
  lemma IsoZeroDropped(scale: nat)
    ensures Iso(Some(Number(Decimal(0, scale), false))) == None
    ensures Iso(Some(Number(Decimal(400, 0), false))) == Some("400")
  {
    assert NatToString(400) == "400" by {
      assert NatToString(4) == "4";
      assert NatToString(40) == "40";
    }
    IntegerRendering(400);
    assert Show(Number(Decimal(400, 0), false)) == "400";
  }

  /** A value of the form "<date> <time>" with no other space becomes
      "<date with dashes>T<time>": no colon is left in the date part and
      the time part is kept verbatim. */
  lemma {:induction false} DateFromParts(date: string, time: string)
    requires ' ' !in date && ' ' !in time
    ensures DateString(date + " " + time) == Some(ReplaceAll(date, ':', '-') + "T" + time)
    ensures ':' !in ReplaceAll(date, ':', '-')
  {
    SplitJoin([date, time], ' ');
    assert Join([date, time], ' ') == date + " " + time;
  }

  /** Every date value that yields a string has this shape. */
  lemma DateStringShape(s: string)
    requires DateString(s).Some?
    ensures exists date, time :: ' ' !in date && ' ' !in time && s == date + " " + time
  {
    var parts := Split(s, ' ');
    assert s == Join(parts, ' ') == parts[0] + " " + parts[1];
  }

  /** With every tag absent the reader still yields a record, with every
      field absent. */
  lemma NoTagsNoFields(tags: Tags)
    requires forall name :: name in tags ==> name !in TagNames
    ensures GetExifData(Loaded(tags)) == Some(NoExif)
  {
  }

  /** Two truthy tags join into the camera name ("Canon" and "EOS 5D"
      give "Canon EOS 5D"); a missing model leaves it absent. */
  lemma CameraExamples()
    ensures Camera(Some(Text("Canon")), Some(Text("EOS 5D"))) == Some("Canon EOS 5D")
    ensures Camera(Some(Text("Canon")), None) == None
  {
    assert "Canon" + " " + "EOS 5D" == "Canon EOS 5D";
  }

  /** Extraction is skipped exactly for URLs that contain "unsplash.com"
      anywhere (host, path or query) and for URLs whose first character is
      a slash, which includes protocol-relative "//host/..." URLs. */
  lemma SkipsExactly(url: string)
    ensures SkipsExtraction(url) <==>
      (exists a, b :: url == a + "unsplash.com" + b) || (|url| > 0 && url[0] == '/')
  {
    ContainsIffDecomposes(url, "unsplash.com");
    assert StartsWith(url, "/") <==> |url| > 0 && url[0] == '/' by {
      if |url| > 0 { assert url[..1] == [url[0]]; }
    }
  }

  /** For a skipped URL the outcome of extraction cannot matter: it is
      never attempted. */
  lemma SkippedIgnoresExtraction(url: string, fallback: Option<ExifData>, e1: Extraction, e2: Extraction)
    requires SkipsExtraction(url)
    ensures ExifWithFallback(url, fallback, e1) == ExifWithFallback(url, fallback, e2) == fallback
  {
  }

  /** For other URLs a record read from the image wins over any fallback,
      even one whose fields are all absent. */
  lemma ExtractedWins(url: string, fallback: Option<ExifData>, tags: Tags)
    requires !SkipsExtraction(url) && InModel(tags) && !TagsThrow(tags)
    ensures ExifWithFallback(url, fallback, Resolved(GetExifData(Loaded(tags)))) == ReadTags(tags)
    ensures ReadTags(tags).Some?
  {
  }

  /** For other URLs every failure of extraction falls back. */
  lemma FailureFallsBack(url: string, fallback: Option<ExifData>, load: ImageLoad)
    requires !SkipsExtraction(url)
    requires load.Loaded? ==> InModel(load.tags) && TagsThrow(load.tags)
    ensures ExifWithFallback(url, fallback, Resolved(GetExifData(load))) == fallback
    ensures ExifWithFallback(url, fallback, Threw) == fallback
  {
  }
}
