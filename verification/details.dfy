/**
  What a card's buttons load from the listing's own page: the cached
  `__NEXT_DATA__` object (`getPropertyNextData`), the details panel
  `toggleDetails` creates once and then shows or hides, and the photos
  `showPhotos` hands to the carousel.
*/
module Details {
  import opened Wrappers
  import opened JsStrings
  import opened Cards
  import opened Carousel

  /** One entry of `listing.media.images`: its `size1200x1200` and
      `size360x240` URLs, `None` where the entry has no such field. */
  datatype Image = Image(full: Option<string>, thumb: Option<string>)

  /** `props.pageProps.listing`: its `description`, its `features` and its
      `media.images`, each `None` where the path does not exist. */
  datatype Listing = Listing(
    description: Option<string>,
    features: Option<seq<string>>,
    images: Option<seq<Image>>)

  /** The parsed `__NEXT_DATA__` object; `listing` is `None` when any step
      of the path `props.pageProps.listing` is missing. */
  datatype NextData = NextData(listing: Option<Listing>)

  /** What fetching the listing page gives: the message of the error that
      `fetch`, `response.text()` or `JSON.parse` throws, or the page's
      `#__NEXT_DATA__` script, parsed, `None` when the page has none. */
  datatype PageFetch = Failed(message: string) | Loaded(script: Option<NextData>)

  const NextDataMissing := "Next.js data not found"
  const DescriptionMissing := "Property description not found"
  const NoPhotos := "No photos available"

  /** The data one fetch yields, or the message of the error it throws. */
  function FetchNextData(fetch: PageFetch): Result<NextData, string> {
    match fetch
    case Failed(message) => Err(message)
    case Loaded(script) =>
      if script.None? then Err(NextDataMissing) else Ok(script.value)
  }

  /** `getPropertyNextData` given what the card has cached: the cached
      object when there is one, whatever the page would give; otherwise
      what the fetch yields. */
  function Lookup(cache: Option<NextData>, fetch: PageFetch): Result<NextData, string> {
    if cache.Some? then Ok(cache.value) else FetchNextData(fetch)
  }

  /** `description.replace(/\n/g, "<br>")`. */
  function BreakLines(s: string): (r: string)
    ensures '\n' !in r
    ensures '\n' !in s ==> r == s
  {
    if s == [] then []
    else (if s[0] == '\n' then "<br>" else [s[0]]) + BreakLines(s[1..])
  }

  /** Replacing every line break is splitting at the line breaks and joining
      the lines with `<br>`. */
  lemma {:induction false} BreakLinesJoin(s: string)
    ensures BreakLines(s) == Join(Split(s, '\n'), "<br>")
  {
    if s != [] {
      var rest := Split(s[1..], '\n');
      BreakLinesJoin(s[1..]);
      if s[0] == '\n' {
        assert BreakLines(s) == "<br>" + BreakLines(s[1..]);
        assert Split(s, '\n') == [""] + rest;
        JoinEmptyFirst(rest, "<br>");
      } else {
        assert BreakLines(s) == [s[0]] + BreakLines(s[1..]);
        assert Split(s, '\n') == [[s[0]] + rest[0]] + rest[1..];
        JoinPrepend(s[0], rest[0], rest[1..], "<br>");
        assert [rest[0]] + rest[1..] == rest;
      }
    }
  }

  /** An empty first piece leaves just the separator in front of the join. */
  lemma JoinEmptyFirst(ys: seq<string>, sep: string)
    requires |ys| >= 1
    ensures Join([""] + ys, sep) == sep + Join(ys, sep)
  {
    assert ([""] + ys)[1..] == ys;
  }

  /** A character in front of the first piece comes out in front of the join. */
  lemma JoinPrepend(c: char, x: string, ys: seq<string>, sep: string)
    ensures Join([[c] + x] + ys, sep) == [c] + Join([x] + ys, sep)
  {
    if ys != [] {
      assert ([[c] + x] + ys)[1..] == ys;
      assert ([x] + ys)[1..] == ys;
    }
  }

  /** The cache after a lookup with result `r`, as `getPropertyNextData`
      leaves it. */
  function CacheAfter(r: Result<NextData, string>): Option<NextData> {
    if r.Ok? then Some(r.value) else None
  }

  /** The answers of successive `getPropertyNextData` calls on one card,
      starting from `cache`, where call `i` would fetch `fetches[i]`. */
  function LookupSeries(cache: Option<NextData>, fetches: seq<PageFetch>): (rs: seq<Result<NextData, string>>)
    ensures |rs| == |fetches|
    decreases |fetches|
  {
    if fetches == [] then []
    else
      var r := Lookup(cache, fetches[0]);
      [r] + LookupSeries(CacheAfter(r), fetches[1..])
  }

  /** Once a call succeeds, every later call answers the same data,
      whatever the page would give by then; a cached card never fetches. */
  lemma {:induction false} LookupSeriesSettles(cache: Option<NextData>, fetches: seq<PageFetch>, i: nat, j: nat)
    requires i <= j < |fetches|
    requires LookupSeries(cache, fetches)[i].Ok?
    ensures LookupSeries(cache, fetches)[j] == LookupSeries(cache, fetches)[i]
    decreases |fetches|
  {
    var rs := LookupSeries(cache, fetches);
    var rest := LookupSeries(CacheAfter(rs[0]), fetches[1..]);
    assert rs == [rs[0]] + rest;
    if i == 0 {
      if j > 0 {
        CachedSeries(rs[0].value, fetches[1..], j - 1);
      }
    } else {
      LookupSeriesSettles(CacheAfter(rs[0]), fetches[1..], i - 1, j - 1);
    }
  }

  /** With data cached, every call answers it. */
  lemma {:induction false} CachedSeries(data: NextData, fetches: seq<PageFetch>, j: nat)
    requires j < |fetches|
    ensures LookupSeries(Some(data), fetches)[j] == Ok(data)
  {
    if j > 0 {
      CachedSeries(data, fetches[1..], j - 1);
    }
  }

  /** A failed call caches nothing: the next call fetches afresh. */
  lemma {:induction false} FailureIsNotCached(cache: Option<NextData>, fetches: seq<PageFetch>, i: nat)
    requires i + 1 < |fetches|
    requires LookupSeries(cache, fetches)[i].Err?
    ensures LookupSeries(cache, fetches)[i + 1] == FetchNextData(fetches[i + 1])
    decreases |fetches|
  {
    var rs := LookupSeries(cache, fetches);
    var rest := LookupSeries(CacheAfter(rs[0]), fetches[1..]);
    assert rs == [rs[0]] + rest;
    if i > 0 {
      FailureIsNotCached(CacheAfter(rs[0]), fetches[1..], i - 1);
    }
  }

  /** What the details container ends up holding: the listing's description
      with its features, or the message of the error that stopped it. */
  datatype PanelContent = Described(descriptionHtml: string, features: seq<string>) | ErrorShown(message: string)

  /** The details container: its content and whether it carries `shown`. */
  datatype Panel = Panel(content: PanelContent, shown: bool)

  /** The content `toggleDetails` writes once the lookup has settled: a
      missing or empty description is an error like a failed fetch. */
  function PanelContentOf(r: Result<NextData, string>): (c: PanelContent)
    ensures r.Err? ==> c == ErrorShown(r.error)
    ensures c.Described? <==>
      r.Ok? && r.value.listing.Some? && r.value.listing.value.description.Some? &&
      r.value.listing.value.description.value != ""
    ensures c.Described? ==>
      '\n' !in c.descriptionHtml &&
      c.features == (if r.value.listing.value.features.Some? then r.value.listing.value.features.value else [])
    ensures r.Ok? && c.ErrorShown? ==> c.message == DescriptionMissing
  {
    match r
    case Err(message) => ErrorShown(message)
    case Ok(data) =>
      if data.listing.None? || data.listing.value.description.None? || data.listing.value.description.value == "" then
        ErrorShown(DescriptionMissing)
      else
        var listing := data.listing.value;
        Described(BreakLines(listing.description.value), if listing.features.Some? then listing.features.value else [])
  }

  /** An image both of whose URLs are truthy. */
  predicate HasBothSizes(img: Image) {
    img.full.Some? && img.full.value != "" && img.thumb.Some? && img.thumb.value != ""
  }

  /** The URL pairs `showPhotos` keeps: those of the images with both sizes, in order. */
  function PhotoUrls(images: seq<Image>): (photos: seq<Photo>)
    ensures |photos| <= |images|
    ensures forall p :: p in photos ==> p.full != "" && p.thumb != ""
    ensures forall p :: p in photos <==>
      exists i :: 0 <= i < |images| && HasBothSizes(images[i]) && p == Photo(images[i].full.value, images[i].thumb.value)
  {
    if images == [] then []
    else
      var rest := PhotoUrls(images[1..]);
      assert forall i :: 1 <= i < |images| ==> images[i] == images[1..][i - 1];
      if HasBothSizes(images[0]) then [Photo(images[0].full.value, images[0].thumb.value)] + rest else rest
  }

  /** One image gives its pair exactly when both sizes are truthy. */
  lemma PhotoUrlsOne(img: Image)
    ensures PhotoUrls([img]) == if HasBothSizes(img) then [Photo(img.full.value, img.thumb.value)] else []
  {
    assert [img][1..] == [];
  }

  /** The pairs of two runs of images are those of the first run followed
      by those of the second: the order of the images is kept, so photo `k`
      of the carousel is the `k`-th image with both sizes. */
  lemma {:induction false} PhotoUrlsAppend(a: seq<Image>, b: seq<Image>)
    ensures PhotoUrls(a + b) == PhotoUrls(a) + PhotoUrls(b)
  {
    if a == [] {
      assert a + b == b;
    } else {
      assert (a + b)[0] == a[0];
      assert (a + b)[1..] == a[1..] + b;
      PhotoUrlsAppend(a[1..], b);
    }
  }

  /** The photos of the looked-up listing, or the error `showPhotos` logs. */
  function PhotosOf(r: Result<NextData, string>): (p: Result<seq<Photo>, string>)
    ensures r.Err? ==> p == Err(r.error)
    ensures p.Ok? ==> |p.value| >= 1
    ensures r.Ok? && p.Err? ==> p.error == NoPhotos
  {
    match r
    case Err(message) => Err(message)
    case Ok(data) =>
      var images := if data.listing.Some? && data.listing.value.images.Some? then data.listing.value.images.value else [];
      var photos := PhotoUrls(images);
      if |photos| == 0 then Err(NoPhotos) else Ok(photos)
  }

  /** A card's object as its buttons' listeners see it: the card, the
      cached `nextData` and the details container once it exists. */
  class CardView {
    const card: Card
    var nextData: Option<NextData>
    var details: Option<Panel>

    constructor(card: Card)
      ensures this.card == card && nextData.None? && details.None?
    {
      this.card := card;
      nextData := None;
      details := None;
    }

    /** `getPropertyNextData`: answer from the cache, or fetch and cache
        the data only when the fetch succeeds. */
    method GetPropertyNextData(fetch: PageFetch) returns (r: Result<NextData, string>)
      modifies this`nextData
      ensures r == Lookup(old(nextData), fetch)
      ensures nextData == CacheAfter(r)
      ensures old(nextData).Some? ==> nextData == old(nextData)
    {
      if nextData.Some? {
        return Ok(nextData.value);
      }
      match fetch
      case Failed(message) =>
        r := Err(message);
      case Loaded(script) =>
        if script.None? {
          r := Err(NextDataMissing);
        } else {
          nextData := Some(script.value);
          r := Ok(script.value);
        }
    }

    /** `toggleDetails`: the first call creates the container, fills it and
        shows it; every later call only flips `shown`. Returns whether the
        container is now shown. */
    method ToggleDetails(fetch: PageFetch) returns (shown: bool)
      modifies this`nextData, this`details
      ensures details.Some? && shown == details.value.shown
      ensures old(details).None? ==>
        var r := Lookup(old(nextData), fetch);
        && details == Some(Panel(PanelContentOf(r), true))
        && nextData == CacheAfter(r)
      ensures old(details).Some? ==>
        && details.value.content == old(details).value.content
        && details.value.shown == !old(details).value.shown
        && nextData == old(nextData)
    {
      if details.None? {
        var r := GetPropertyNextData(fetch);
        var content := PanelContentOf(r);
        details := Some(Panel(content, false));
      }
      var panel := details.value;
      details := Some(panel.(shown := !panel.shown));
      shown := details.value.shown;
    }

    /** `showPhotos`: the carousel over the listing's photos, first photo
        on show, or the error it logs instead. */
    method ShowPhotos(fetch: PageFetch) returns (r: Result<Carousel, string>)
      modifies this`nextData
      ensures var lookup := Lookup(old(nextData), fetch);
        && nextData == CacheAfter(lookup)
        && (r.Err? <==> PhotosOf(lookup).Err?)
        && (r.Err? ==> r.error == PhotosOf(lookup).error)
        && (r.Ok? ==> r.value.photos == PhotosOf(lookup).value)
      ensures r.Ok? ==> fresh(r.value) && r.value.Valid() && r.value.current == 0
    {
      var lookup := GetPropertyNextData(fetch);
      var photos := PhotosOf(lookup);
      if photos.Err? {
        return Err(photos.error);
      }
      var carousel := new Carousel(photos.value);
      r := Ok(carousel);
    }
  }
}
