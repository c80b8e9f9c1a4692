# Photography portfolio utilities — a Dafny model

The portfolio site is almost entirely view code. Two small utility modules hold its logic, and this project models both:

- **Gallery configuration** (`src/utils/config.ts`). The site works out the base path it is served under: on GitHub Pages this is `/<repository>`, and elsewhere it is empty. It fetches the `galleries.yaml` manifest, treats missing fields as empty lists, and prepends the base path to every image URL that does not start with `http`. It then re-keys the ordered gallery list by id, with the last gallery for an id winning. A non-ok response, any thrown error, or a document that parses to `null` gives the empty configuration `{galleries: {}, featured: []}`.
- **EXIF metadata** (`src/utils/exifUtils.ts`). It turns the raw tag values the EXIF reader returns into optional display strings:
  - the camera name, `make model`;
  - the shutter speed, `1/N` below one second;
  - the aperture, to one decimal;
  - the ISO;
  - the focal length, rounded;
  - the capture-date string.

  The JavaScript truthiness rules decide which fields are present. Every failure yields `null`. The fallback policy chooses among the extracted record, the caller's fallback and `null`.

Files:

- `Wrappers.dfy`: `Option`.
- `JsStrings.dfy`: the JavaScript string operations used: `startsWith`, `includes`, `split` on one character (with `join` as its inverse), and a global one-character `replace`.
- `JsNumbers.dfy`: a decimal stand-in for JavaScript numbers. `Decimal(units, scale)` is the number `units / 10^scale`. On it sit `Math.round`, `toFixed(1)` and number-to-string conversion, with a parser for the printed form that proves the printing loses nothing.
- `Exif.dfy`: the tag shaping, `getExifData` and `getExifDataWithFallback`.
- `Config.dfy`: `getBasePath`, the URL prefixing, the re-keying and `loadConfig`.

Browser and library calls become inputs:

- The hostname and pathname are parameters.
- The fetch-and-parse outcome is the datatype `FetchOutcome = NotOk | Parsed(Option<RawConfig>) | Threw`.
- The image load and the EXIF reader are `ImageLoad = LoadFailed | ReaderFailed | Loaded(tags)`, where `tags` maps each tag name to its value.
- The extraction seen by the fallback policy is `Extraction = Resolved(Option<ExifData>) | Threw`.

Both functions return a value for every input, so neither can reject.

A few consequences of the code are easy to miss, and the model keeps them:

- The ISO is shown only when the tag is truthy (src/utils/exifUtils.ts:73), so a plain ISO of `0` is dropped.
- A field is omitted when its tag is absent, and also when the tag holds a falsy value (`0`, `""`). The date is also omitted unless the value splits into exactly two space-separated parts.
- Every failure to load the manifest returns an empty featured list (src/utils/config.ts:81-84, 102-105). There is no built-in default list.

## Model

| member | source | states |
|---|---|---|
| JsStrings.Contains | src/utils/config.ts:35 | `includes` holds exactly when the needle occurs at some index of the string |
| JsStrings.ContainsIffDecomposes | src/utils/exifUtils.ts:105 | `includes` holds exactly when the string is prefix + needle + suffix |
| JsStrings.Split | src/utils/config.ts:37 | `split` on one character yields one more part than there are separators; no part contains the separator; joining the parts restores the string |
| JsStrings.ReplaceAll | src/utils/exifUtils.ts:64 | `replace(/:/g, '-')` keeps the length, turns every colon into a dash and leaves every other character in place |
| JsStrings.SplitJoin | src/utils/exifUtils.ts:62 | splitting undoes joining separator-free parts, so split and join are inverse |
| JsNumbers.RoundRatio | src/utils/exifUtils.ts:54 | `Math.round(p/q)` is the integer r with r - 1/2 <= p/q < r + 1/2 (halves round up); non-negative for non-negative p |
| JsNumbers.ReciprocalRound | src/utils/exifUtils.ts:34 | `Math.round(1/x)` is the integer nearest to 10^scale / units, halves rounding up |
| JsNumbers.ReciprocalOfFractionPositive | src/utils/exifUtils.ts:33-34 | for 0 < x < 1 the rounded reciprocal is at least 1 |
| JsNumbers.NatToStringRoundTrip | src/utils/exifUtils.ts:34 | parsing the printed digits of n gives back n |
| JsNumbers.IntToString | src/utils/exifUtils.ts:54 | an integer prints as a non-empty string that starts with '-' exactly when the integer is negative |
| JsNumbers.IntToStringRoundTrip | src/utils/exifUtils.ts:34 | a printed integer of either sign reads back as that integer |
| JsNumbers.JsNumberString | src/utils/exifUtils.ts:36 | `${x}` of a number is non-empty and starts with '-' exactly when the number is negative; its round trip is JsNumbers.JsNumberStringRoundTrip |
| JsNumbers.JsNumberStringRoundTrip | src/utils/exifUtils.ts:36 | the printed form of a number reads back as the same number without trailing zeros, so printing loses nothing |
| JsNumbers.JsNumberStringScaleFree | src/utils/exifUtils.ts:36 | equal numbers print the same whatever their number of trailing zeros |
| JsNumbers.IntegerRendering | src/utils/exifUtils.ts:54 | an integer-valued number prints as its integer digits |
| JsNumbers.Tenths | src/utils/exifUtils.ts:44 | the magnitude rounded to the nearest tenth, ties going to the larger |
| JsNumbers.ToFixed1RoundTrip | src/utils/exifUtils.ts:44 | `toFixed(1)` prints the sign and the nearest tenth, with exactly one decimal |
| JsNumbers.ToFixed1Exact | src/utils/exifUtils.ts:44 | a number with one decimal keeps its value under `toFixed(1)` |
| Exif.Camera | src/utils/exifUtils.ts:24-26 | the camera is present exactly when both Make and Model are truthy, and is then "make model" |
| Exif.CameraSplitsAtMake | src/utils/exifUtils.ts:24-26 | for textual tags with a space-free make, splitting the camera text at spaces gives the make followed by the model's own parts, so the make is recovered |
| Exif.CameraExamples | src/utils/__tests__/exifUtils.test.ts:28-38 | "Canon" and "EOS 5D" give "Canon EOS 5D"; a missing model gives no camera |
| Exif.ShutterSpeed | src/utils/exifUtils.ts:29-38 | shutter speed is present exactly when ExposureTime is truthy, and is then formatted from its numeric value |
| Exif.ShutterFraction | src/utils/exifUtils.ts:33-34 | below one second the shutter is "1/N", where N is a positive integer nearest to 1/x |
| Exif.ShutterLiteral | src/utils/exifUtils.ts:35-37 | at one second or more the shutter reads back as the exposure value itself |
| Exif.ShutterExamples | src/utils/__tests__/exifUtils.test.ts:40-51 | 0.004 s gives "1/250" and 2 s gives "2" |
| Exif.Aperture | src/utils/exifUtils.ts:40-45 | a truthy textual FNumber throws; otherwise the aperture is present exactly when FNumber is truthy, and is then its `toFixed(1)` form |
| Exif.ApertureExample | src/utils/exifUtils.ts:44 | an FNumber of 2.8 gives "2.8" |
| Exif.Iso | src/utils/exifUtils.ts:48 | the ISO is present exactly when the tag is truthy, and is then the tag's string form |
| Exif.IsoReadsBack | src/utils/exifUtils.ts:73 | a numeric ISO's string reads back as the tag's value without trailing zeros |
| Exif.IsoZeroDropped | src/utils/exifUtils.ts:73 | a plain ISO of 0 gives no ISO; 400 gives "400" |
| Exif.FocalLength | src/utils/exifUtils.ts:50-55 | the focal length is present exactly when the tag is truthy, and is then the rounded value as an integer string |
| Exif.FocalLengthReadsBack | src/utils/exifUtils.ts:50-55 | a numeric focal length's string reads back as the whole number nearest the value, halves going up |
| Exif.DateString | src/utils/exifUtils.ts:60-66 | a date string is produced exactly when the value contains exactly one space, which is when it splits into two parts |
| Exif.DateFromParts | src/utils/exifUtils.ts:62-65 | "date time" with no other space becomes the date with every ':' made '-', then "T", then the time; no colon is left in the date part |
| Exif.DateStringShape | src/utils/exifUtils.ts:62-63 | every value that produces a date string is two space-free parts joined by one space |
| Exif.CaptureDate | src/utils/exifUtils.ts:57-67 | a falsy DateTimeOriginal gives no date; a truthy number throws; truthy text goes through the date string |
| Exif.ReadTags | src/utils/exifUtils.ts:22-80 | the reader callback yields null exactly when a field evaluation throws, and otherwise a record whose every field is shaped from its own tag |
| Exif.NoTagsNoFields | src/utils/__tests__/exifUtils.test.ts:53-67 | with none of the seven tags present the result is a non-null record with every field absent |
| Exif.GetExifData | src/utils/exifUtils.ts:13-99 | image-load failure and reader failure give null; loaded tags give null exactly when a field throws |
| Exif.SkipsExactly | src/utils/exifUtils.ts:105 | extraction is skipped exactly for URLs that contain "unsplash.com" or start with '/' (protocol-relative URLs included) |
| Exif.ExifWithFallback | src/utils/exifUtils.ts:102-116 | for skipped URLs the result is the fallback or null; otherwise it is a non-null extracted record if there is one, and the fallback or null if not |
| Exif.SkippedIgnoresExtraction | src/utils/exifUtils.ts:105-108 | for a skipped URL the outcome of extraction cannot affect the result, because it is never attempted |
| Exif.ExtractedWins | src/utils/exifUtils.ts:110-111 | for other URLs a successfully read record wins over any fallback |
| Exif.FailureFallsBack | src/utils/exifUtils.ts:110-115 | for other URLs a load failure, a reader failure, a throwing field or a thrown extraction gives the fallback |
| Config.BasePath | src/utils/config.ts:33-40 | off GitHub Pages the base path is empty; otherwise it is empty or a slash followed by a non-empty slash-free segment, and a slash-led pathname starts with it |
| Config.BaseIsPathPrefix | src/utils/config.ts:37-39 | a pathname starting with '/' starts with "/" + its first segment |
| Config.BasePathOfSegment | src/utils/config.ts:37-39 | on GitHub Pages the pathname "/seg/rest" gives "/seg", and "//rest" or "/" gives "" |
| Config.PrefixImage | src/utils/config.ts:65-67 | a URL starting with "http" is never rewritten; any other URL gets the base path prepended; alt text and exif are kept |
| Config.PrefixImages | src/utils/config.ts:72-76 | the featured list keeps its length and order, and each image is rewritten on its own |
| Config.PrefixGallery | src/utils/config.ts:64-68 | a gallery keeps its id and title, and its images are rewritten in order |
| Config.PrefixGalleries | src/utils/config.ts:63-69 | the gallery list keeps its length and order, and each gallery is rewritten on its own |
| Config.PrefixChangesOnlyUrls | src/utils/config.ts:63-76 | prefixing changes URLs only, and each new URL is the old one with or without the base path in front |
| Config.PrefixKeepsGalleries | src/utils/config.ts:63-69 | every gallery keeps its id, title, image count, image order, alt texts and exif |
| Config.EmptyBaseChangesNothing | src/utils/config.ts:61 | with an empty base path no image and no gallery changes |
| Config.LastIndexOf | src/utils/config.ts:89-91 | the position of the last gallery with an id, or -1 when there is none |
| Config.ById | src/utils/config.ts:88-91 | the keys are exactly the ids in the list, and each id maps to the last gallery with that id |
| Config.ByIdDistinct | src/utils/config.ts:88-91 | with distinct ids there is exactly one entry per gallery, holding that gallery |
| Config.ByIdAfterPrefix | src/utils/config.ts:61-91 | re-keying the rewritten list equals rewriting the re-keyed galleries |
| Config.LoadConfig | src/utils/config.ts:42-107 | non-ok, thrown and null-document outcomes give exactly the empty config; otherwise the keys are the manifest's ids, each entry is the rewritten last gallery with its id, and featured is the rewritten list, with missing fields read as empty |
| Config.EmptyManifest | src/utils/config.ts:55-56 | a document with neither field loads as the empty config |
| Config.LoadedGalleryFound | src/utils/config.ts:88-98 | a gallery that is last with its id is found under it with its title and its images in order, only the URLs rewritten |
| Config.LoadedOneEntryPerGallery | src/utils/config.ts:88-91 | with distinct ids the loaded config has one entry per manifest gallery |

## Left out

- The fetch of `<base path>/config/galleries.yaml`, `response.text()` and the YAML parser are foreign I/O and library calls. Their outcome is the input `FetchOutcome`.
- `window.location` is browser state. The hostname and pathname are parameters.
- Image loading, `crossOrigin`, the `onload`/`onerror` callbacks and the exif-js `getData`/`getTag` calls are browser and library code. They are the input `ImageLoad`, with the tags as a map from name to value.
- `getExifData` settles only through the reader's callback, its catch blocks or the error event (src/utils/exifUtils.ts:69, 79, 84, 90). It never settles if neither image event fires, or if `EXIF.getData` returns without calling its callback, as the mock in src/utils/__tests__/exifUtils.test.ts:71-73 does. `getExifDataWithFallback` then never returns the fallback either (src/utils/exifUtils.ts:110). The model has no time, so it does not model a promise that stays pending.
- `console.log` and `console.error` calls are logging only. The one exception is src/utils/config.ts:58, whose argument `yamlGalleries.map(g => g.title)` is evaluated before the call and can throw; the manifest line below covers it.
- Exif.ShutterSpeed: requires that a truthy ExposureTime is not text. JavaScript would convert such text to a number with its string-to-number rules, which are not modelled.
- Exif.FocalLength: requires that a truthy FocalLength is not text, for the same reason.
- Exif.ReadTags: inherits the two requirements above for ExposureTime and FocalLength.
- Exif.GetExifData: inherits the two requirements above when the tags were loaded.
- JsNumbers.JsNumberString: covers positional notation only. JavaScript switches to exponent notation at or above 1e21 and below 1e-6, and that is not modelled. NaN, Infinity and negative zero are not representable as tag values. A zero exposure's `Infinity` appears only as the literal text "1/Infinity".
- Tag values other than strings and numbers are not modelled. exif-js returns an array for a tag holding several values, such as a two-entry ISOSpeedRatings. `iso.toString()` would then give "100,100", and `toFixed` on an array FNumber would throw.
- JsNumbers.ToFixed1: rounds the decimal value, with ties going to the larger magnitude. JavaScript rounds the binary double, so a decimal tie such as 1.45 can round the other way: its double lies just below the tie, so JavaScript gives "1.4" where the model gives "1.5".
- A number is modelled by its shortest decimal form. Floating-point error in `1/x` is not modelled: `Math.round` is applied to the exact quotient.
- The capture date is modelled as the string passed to `new Date`. The `Date` object, including an invalid date (which is still present and truthy), is not modelled.
- Manifest entries that lack `images` or `url`, or that hold values of the wrong type, are not modelled: the model's galleries and images always have these fields. When the base path is non-empty, such an entry makes the prefix loop throw and the whole load falls back to the empty configuration. When the base path is empty the loop is skipped (src/utils/config.ts:61), so a gallery lacking `images` loads and is keyed with `images` undefined.
- A `galleries` field holding a truthy non-list value, or a list with a `null` entry, is not modelled. Either makes `yamlGalleries.map(g => g.title)` throw at src/utils/config.ts:58, so the load gives the empty configuration whatever the base path. A truthy non-list `featured` value is not modelled either.
- Prefixing rewrites the parsed objects in place. An image object shared between two places through a YAML alias is therefore prefixed once per occurrence. The model treats every occurrence as a separate value.
- Ids are modelled as strings and the result as a map. A JavaScript object would coerce non-string ids to strings, and an id of `__proto__` would set the object's prototype instead of adding a key.
- The page components (`src/pages/*.tsx`, `src/App.tsx`, `src/components/Layout.tsx`) are view composition and routing with no algorithmic content.
