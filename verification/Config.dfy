/** The gallery configuration (src/utils/config.ts): the base path the
    site is served under, the rewriting of relative image URLs against it,
    the re-keying of the gallery list by id, and the empty configuration
    every failure collapses into. The browser location, the fetch and the
    YAML parser are outside the model: the hostname and pathname are
    parameters and the fetch-and-parse outcome is an input. */
module Config {
  import opened Wrappers
  import opened JsStrings
  import Exif

  datatype Image = Image(url: string, alt: string, exif: Option<Exif.ExifData>)

  /** A gallery; `images` is in presentation order. */
  datatype Gallery = Gallery(id: string, title: string, images: seq<Image>)

  datatype GalleryConfig = GalleryConfig(galleries: map<string, Gallery>, featured: seq<Image>)

  /** What every failure yields: no galleries, no featured images. */
  const EmptyConfig := GalleryConfig(map[], [])

  /** The parsed manifest. A top-level field that is missing (or null, or
      otherwise falsy) is `None`. */
  datatype RawConfig = RawConfig(galleries: Option<seq<Gallery>>, featured: Option<seq<Image>>)

  /** How fetching and parsing the manifest went. */
  datatype FetchOutcome =
    | NotOk                                // the response status was not ok
    | Parsed(document: Option<RawConfig>)  // the body parsed; `None` when it parsed to null
    | Threw                                // fetch, reading the body or parsing threw

  // ---- Base path ----

  /** The site is served from GitHub Pages. */
  predicate OnGitHubPages(hostname: string) {
    Contains(hostname, "github.io")
  }

  /** `getBasePath()`: on GitHub Pages, "/" followed by the first segment
      of the pathname (the repository name) when that segment is
      non-empty; otherwise, and everywhere else, "". */
  function BasePath(hostname: string, pathname: string): (r: string)
    ensures !OnGitHubPages(hostname) ==> r == ""
    ensures r != "" ==> |r| > 1 && r[0] == '/' && '/' !in r[1..]
    ensures r != "" && |pathname| > 0 && pathname[0] == '/' ==> StartsWith(pathname, r)
  {
    if !OnGitHubPages(hostname) then ""
    else
      var parts := Split(pathname, '/');
      if |parts| > 1 && parts[1] != "" then
        BaseIsPathPrefix(pathname, parts);
        "/" + parts[1]
      else ""
  }

  /** A pathname that starts with a slash starts with its first segment. */
  lemma BaseIsPathPrefix(pathname: string, parts: seq<string>)
    requires parts == Split(pathname, '/') && |parts| > 1
    ensures |pathname| > 0 && pathname[0] == '/' ==> StartsWith(pathname, "/" + parts[1])
  {
    if |pathname| > 0 && pathname[0] == '/' {
      var rest := Split(pathname[1..], '/');
      assert parts == [""] + rest;
      JoinStartsWithFirst(rest, '/');
      var seg := rest[0];
      assert pathname[1..][..|seg|] == seg;
      assert pathname[..1 + |seg|] == "/" + seg;
    }
  }

  lemma JoinStartsWithFirst(parts: seq<string>, sep: char)
    requires |parts| > 0
    ensures StartsWith(Join(parts, sep), parts[0])
  {
    if |parts| > 1 {
      var j := Join(parts, sep);
      assert j == parts[0] + ([sep] + Join(parts[1..], sep));
      assert j[..|parts[0]|] == parts[0];
    }
  }

  /** The base path read off a concrete pathname "/<segment><rest>", where
      the segment has no slash and the rest is empty or a further path. */
  lemma {:induction false} BasePathOfSegment(hostname: string, segment: string, rest: string)
    requires OnGitHubPages(hostname)
    requires '/' !in segment
    requires rest == "" || rest[0] == '/'
    ensures BasePath(hostname, "/" + segment + rest) == (if segment == "" then "" else "/" + segment)
  {
    var pathname := "/" + segment + rest;
    assert pathname[0] == '/' && pathname[1..] == segment + rest;
    SplitPrefix(segment, rest, '/');
    var tail := Split(rest, '/');
    assert tail[0] == "" by {
      if rest != "" {
        assert rest == [] + ['/'] + rest[1..];
      }
    }
    assert Split(pathname[1..], '/')[0] == segment + "";
    assert segment + "" == segment;
  }

  // ---- URL prefixing ----

  /** A URL that is left alone: anything starting with "http". */
  predicate IsAbsolute(url: string) {
    StartsWith(url, "http")
  }

  /** Rewrites one image's URL against the base path: an absolute URL is
      kept, any other URL gets the base path prepended; nothing else about
      the image changes. */
  function PrefixImage(base: string, img: Image): (r: Image)
    ensures r.alt == img.alt && r.exif == img.exif
    ensures IsAbsolute(img.url) ==> r.url == img.url
    ensures !IsAbsolute(img.url) ==> r.url == base + img.url
  {
    if IsAbsolute(img.url) then img else img.(url := base + img.url)
  }

  /** The featured-image loop. */
  function PrefixImages(base: string, imgs: seq<Image>): (r: seq<Image>)
    ensures |r| == |imgs|
    ensures forall i :: 0 <= i < |imgs| ==> r[i] == PrefixImage(base, imgs[i])
  {
    seq(|imgs|, i requires 0 <= i < |imgs| => PrefixImage(base, imgs[i]))
  }

  /** The inner loop over one gallery's images. */
  function PrefixGallery(base: string, g: Gallery): (r: Gallery)
    ensures r.id == g.id && r.title == g.title
    ensures r.images == PrefixImages(base, g.images)
  {
    g.(images := PrefixImages(base, g.images))
  }

  /** The outer loop over the gallery list. */
  function PrefixGalleries(base: string, gs: seq<Gallery>): (r: seq<Gallery>)
    ensures |r| == |gs|
    ensures forall i :: 0 <= i < |gs| ==> r[i] == PrefixGallery(base, gs[i])
  {
    seq(|gs|, i requires 0 <= i < |gs| => PrefixGallery(base, gs[i]))
  }

  /** Two image lists that differ at most in their URLs. */
  predicate SameExceptUrls(a: seq<Image>, b: seq<Image>) {
    |a| == |b| && forall i :: 0 <= i < |a| ==> a[i].(url := "") == b[i].(url := "")
  }

  /** Prefixing changes URLs only: the number and order of images and
      each image's alt text and metadata are kept, and every new URL is
      the old one, possibly behind the base path. */
  lemma PrefixChangesOnlyUrls(base: string, imgs: seq<Image>)
    ensures SameExceptUrls(PrefixImages(base, imgs), imgs)
    ensures forall i :: 0 <= i < |imgs| ==>
      PrefixImages(base, imgs)[i].url in {imgs[i].url, base + imgs[i].url}
  {
  }

  /** Gallery prefixing keeps every gallery's id, title and image shape,
      in order. */
  lemma PrefixKeepsGalleries(base: string, gs: seq<Gallery>)
    ensures forall i :: 0 <= i < |gs| ==>
      var r := PrefixGalleries(base, gs)[i];
      r.id == gs[i].id && r.title == gs[i].title && SameExceptUrls(r.images, gs[i].images)
  {
    forall i | 0 <= i < |gs| {
      PrefixChangesOnlyUrls(base, gs[i].images);
    }
  }

  /** With an empty base path nothing changes. */
  lemma EmptyBaseChangesNothing(imgs: seq<Image>, gs: seq<Gallery>)
    ensures PrefixImages("", imgs) == imgs
    ensures PrefixGalleries("", gs) == gs
  {
    assert forall img: Image :: img.(url := "" + img.url) == img;
    var r := PrefixGalleries("", gs);
    forall i | 0 <= i < |gs| ensures r[i] == gs[i] {
      assert PrefixImages("", gs[i].images) == gs[i].images;
    }
  }

  // ---- Re-keying ----

  /** The ids of a gallery list. */
  function Ids(gs: seq<Gallery>): set<string> {
    set i | 0 <= i < |gs| :: gs[i].id
  }

  /** The position of the last gallery with the given id, or -1. */
  function LastIndexOf(gs: seq<Gallery>, id: string): (i: int)
    ensures -1 <= i < |gs|
    ensures i >= 0 ==> gs[i].id == id && forall j :: i < j < |gs| ==> gs[j].id != id
    ensures i == -1 ==> forall j :: 0 <= j < |gs| ==> gs[j].id != id
  {
    if |gs| == 0 then -1
    else if gs[|gs| - 1].id == id then |gs| - 1
    else LastIndexOf(gs[..|gs| - 1], id)
  }

  /** The loop that stores each gallery under its id, in list order: the
      keys are exactly the ids of the list, and a later gallery with an id
      overwrites an earlier one. */
  function ById(gs: seq<Gallery>): (m: map<string, Gallery>)
    ensures m.Keys == Ids(gs)
    ensures forall id :: id in m ==> m[id] == gs[LastIndexOf(gs, id)]
  {
    if |gs| == 0 then map[]
    else
      var init := gs[..|gs| - 1];
      var last := gs[|gs| - 1];
      var m := ById(init)[last.id := last];
      assert Ids(gs) == Ids(init) + {last.id} by {
        forall id | id in Ids(gs) ensures id in Ids(init) + {last.id} {
          var i :| 0 <= i < |gs| && gs[i].id == id;
          if i < |gs| - 1 { assert init[i].id == id; }
        }
      }
      forall id | id in m ensures m[id] == gs[LastIndexOf(gs, id)] {
        if id != last.id {
          assert id in Ids(init);
          var j := LastIndexOf(init, id);
          assert j >= 0;
          assert LastIndexOf(gs, id) == j;
        }
      }
      m
  }

  /** With distinct ids there is one entry per gallery, each the gallery
      itself. */
  lemma {:induction false} ByIdDistinct(gs: seq<Gallery>)
    requires forall i, j :: 0 <= i < j < |gs| ==> gs[i].id != gs[j].id
    ensures |ById(gs)| == |gs|
    ensures forall i :: 0 <= i < |gs| ==> gs[i].id in ById(gs) && ById(gs)[gs[i].id] == gs[i]
  {
    if |gs| > 0 {
      var init := gs[..|gs| - 1];
      ByIdDistinct(init);
      assert gs[|gs| - 1].id !in ById(init);
      assert ById(gs) == ById(init)[gs[|gs| - 1].id := gs[|gs| - 1]];
    }
    forall i | 0 <= i < |gs| ensures ById(gs)[gs[i].id] == gs[i] {
      assert gs[i].id in Ids(gs);
      assert LastIndexOf(gs, gs[i].id) == i;
    }
  }

  /** Prefixing and re-keying commute: re-keying the rewritten list gives
      the rewritten galleries of the re-keyed list. */
  lemma ByIdAfterPrefix(base: string, gs: seq<Gallery>)
    ensures ById(PrefixGalleries(base, gs)) ==
            map id | id in ById(gs) :: PrefixGallery(base, ById(gs)[id])
  {
    var ps := PrefixGalleries(base, gs);
    assert Ids(ps) == Ids(gs) by {
      assert forall i :: 0 <= i < |gs| ==> ps[i].id == gs[i].id;
      forall id | id in Ids(gs) ensures id in Ids(ps) {
        var i :| 0 <= i < |gs| && gs[i].id == id;
        assert ps[i].id == id;
      }
    }
    forall id | id in Ids(gs) ensures LastIndexOf(ps, id) == LastIndexOf(gs, id) {
      SameIdsSameLast(ps, gs, id);
    }
  }

  lemma {:induction false} SameIdsSameLast(a: seq<Gallery>, b: seq<Gallery>, id: string)
    requires |a| == |b| && forall i :: 0 <= i < |a| ==> a[i].id == b[i].id
    ensures LastIndexOf(a, id) == LastIndexOf(b, id)
  {
    if |a| > 0 {
      SameIdsSameLast(a[..|a| - 1], b[..|b| - 1], id);
    }
  }

  // ---- Loading ----

  /** `loadConfig()`. Every failure — a non-ok response, an exception, or a
      document that parsed to null — yields the empty configuration, so it
      never rejects. Otherwise missing fields count as empty lists, image
      URLs are rewritten against the base path (only when it is
      non-empty), and the galleries are keyed by id, the last one winning. */
  function LoadConfig(hostname: string, pathname: string, outcome: FetchOutcome): (c: GalleryConfig)
    ensures !(outcome.Parsed? && outcome.document.Some?) ==> c == EmptyConfig
    ensures outcome.Parsed? && outcome.document.Some? ==>
      var doc := outcome.document.value;
      var base := BasePath(hostname, pathname);
      var gs := doc.galleries.GetOr([]);
      && c.galleries.Keys == Ids(gs)
      && (forall id :: id in c.galleries ==> c.galleries[id] == PrefixGallery(base, gs[LastIndexOf(gs, id)]))
      && c.featured == PrefixImages(base, doc.featured.GetOr([]))
  {
    match outcome
    case NotOk => EmptyConfig
    case Threw => EmptyConfig
    case Parsed(None) => EmptyConfig  // reading a field of null throws
    case Parsed(Some(doc)) =>
      var base := BasePath(hostname, pathname);
      var gs := doc.galleries.GetOr([]);
      var featured := doc.featured.GetOr([]);
      EmptyBaseChangesNothing(featured, gs);
      ByIdAfterPrefix(base, gs);
      if base != "" then GalleryConfig(ById(PrefixGalleries(base, gs)), PrefixImages(base, featured))
      else GalleryConfig(ById(gs), featured)
  }

  /** A manifest with neither field loads as the empty configuration, the
      same value a failure gives. */
  lemma EmptyManifest(hostname: string, pathname: string)
    ensures LoadConfig(hostname, pathname, Parsed(Some(RawConfig(None, None)))) == EmptyConfig
  {
    assert Ids([]) == {};
  }

  /** A gallery that is the last with its id is found under that id with
      its title and its images in order, only their URLs rewritten (a
      gallery "3" titled "Abstract" is found as "3" with that title). */
  lemma LoadedGalleryFound(hostname: string, pathname: string, doc: RawConfig, i: nat)
    requires doc.galleries.Some? && i < |doc.galleries.value|
    requires forall j :: i < j < |doc.galleries.value| ==> doc.galleries.value[j].id != doc.galleries.value[i].id
    ensures var c := LoadConfig(hostname, pathname, Parsed(Some(doc)));
            var g := doc.galleries.value[i];
            && g.id in c.galleries
            && c.galleries[g.id].title == g.title
            && SameExceptUrls(c.galleries[g.id].images, g.images)
  {
    var gs := doc.galleries.value;
    assert gs[i].id in Ids(gs);
    assert LastIndexOf(gs, gs[i].id) == i;
    PrefixChangesOnlyUrls(BasePath(hostname, pathname), gs[i].images);
  }

  /** With distinct ids the loaded configuration has exactly one entry per
      gallery of the manifest. */
  lemma LoadedOneEntryPerGallery(hostname: string, pathname: string, doc: RawConfig)
    requires doc.galleries.Some?
    requires var gs := doc.galleries.value;
             forall i, j :: 0 <= i < j < |gs| ==> gs[i].id != gs[j].id
    ensures |LoadConfig(hostname, pathname, Parsed(Some(doc))).galleries| == |doc.galleries.value|
  {
    ByIdDistinct(doc.galleries.value);
  }
}
