/**
  `findCards`: the listing cards of a results page, read from the elements
  whose `data-testid` starts with `result-`, and the storage key that
  identifies a card's metadata.
*/
module Cards {
  import opened Wrappers
  import opened JsStrings
  import opened Overlay

  /** One element of the results page, as far as the extension reads and
      writes it: its `data-testid`, the `href` of its first link, the text
      of its address, price and metadata spans (absent nodes are `None`, an
      absent metadata node gives no spans), whether it carries the
      `df-hidden` class, and the control wrappers appended to it. */
  datatype Element = Element(
    testId: string,
    link: Option<string>,
    addressText: Option<string>,
    priceText: Option<string>,
    metaSpans: seq<string>,
    hiddenClass: bool,
    wrappers: seq<Overlay>)

  /** The page: every element that carries a `data-testid`, in document order. */
  type Page = seq<Element>

  /** The bed, bath and floor-area counts and the property type read from the spans. */
  datatype SpanMetadata = SpanMetadata(beds: int, baths: int, size: int, kind: string)

  /** A located card; `node` is the index of its root element in the page. */
  datatype Card = Card(
    id: string,
    address: string,
    href: string,
    metadata: SpanMetadata,
    price: string,
    node: nat,
    transactionType: string)

  /** `getTransactionType`: `"sale"` exactly when the page URL holds `for-sale`. */
  function TransactionType(url: string): (r: string)
    ensures r == "sale" <==> Includes(url, "for-sale")
    ensures r == "rent" <==> !Includes(url, "for-sale")
  {
    if IndexOf(url, "for-sale") > -1 then "sale" else "rent"
  }

  /** Matched by the selector `[data-testid^="result-"]`. */
  predicate IsResult(e: Element) {
    |e.testId| >= 7 && e.testId[..7] == "result-"
  }

  /** `data-testid.split("-")[1]`: the text between the first and the second
      hyphen (or up to the end when there is no second one). */
  function CardId(testId: string): (id: string)
    requires |testId| >= 7 && testId[..7] == "result-"
    ensures '-' !in id
    ensures testId == "result-" + id || (|testId| > 7 + |id| && testId[..8 + |id|] == "result-" + id + "-")
  {
    SplitResultTestId(testId);
    Split(testId, '-')[1]
  }

  lemma SplitResultTestId(testId: string)
    requires |testId| >= 7 && testId[..7] == "result-"
    ensures |Split(testId, '-')| >= 2
    ensures var id := Split(testId, '-')[1];
      testId == "result-" + id || (|testId| > 7 + |id| && testId[..8 + |id|] == "result-" + id + "-")
  {
    var rest := testId[7..];
    assert testId == "result" + ['-'] + rest;
    SplitAtFirst("result", '-', rest);
    var pieces := Split(rest, '-');
    assert Split(testId, '-')[1] == pieces[0];
    if |pieces| > 1 {
      assert rest == pieces[0] + "-" + Join(pieces[1..], "-");
      assert testId[..8 + |pieces[0]|] == "result-" + pieces[0] + "-";
    } else {
      assert rest == pieces[0];
    }
  }

  /** The address: the address node's text, lower-cased and trimmed, or "". */
  function CardAddress(e: Element): (a: string)
    ensures IsTrimmed(a) && IsLowerCase(a)
  {
    if e.addressText.Some? then
      LowerCaseIdempotent(e.addressText.value);
      TrimKeepsLowerCase(ToLowerCase(e.addressText.value));
      Trim(ToLowerCase(e.addressText.value))
    else ""
  }

  /** What a metadata span's text is taken for. */
  datatype SpanKind = BedsSpan | BathsSpan | SizeSpan | TypeSpan

  /** A span mentioning "Bed" counts beds, else one mentioning "Bath" counts
      baths, else one mentioning "mÂ²" (the page's square metres as the
      extension sees them) gives the size; any other text is the type. */
  function Classify(text: string): SpanKind {
    if Includes(text, "Bed") then BedsSpan
    else if Includes(text, "Bath") then BathsSpan
    else if Includes(text, "m\U{C2}\U{B2}") then SizeSpan
    else TypeSpan
  }

  /** The index of the last span of kind `k`, if any. */
  function LastOfKind(spans: seq<string>, k: SpanKind): (r: Option<nat>)
    ensures r.Some? ==> r.value < |spans| && Classify(spans[r.value]) == k
    ensures r.Some? ==> forall j :: r.value < j < |spans| ==> Classify(spans[j]) != k
    ensures r.None? ==> forall j :: 0 <= j < |spans| ==> Classify(spans[j]) != k
  {
    if spans == [] then None
    else if Classify(spans[|spans| - 1]) == k then Some(|spans| - 1)
    else LastOfKind(spans[..|spans| - 1], k)
  }

  /** The number the last span of kind `k` starts with (`parseInt(text) || 0`), or 0. */
  function LastCount(spans: seq<string>, k: SpanKind): int {
    match LastOfKind(spans, k)
    case None => 0
    case Some(i) => ParseIntOrZero(spans[i])
  }

  /** What the spans say: every field comes from the last span of its kind,
      and a field no span speaks of keeps its default (0, or "" for the type). */
  function SpanMetadataOf(spans: seq<string>): SpanMetadata {
    SpanMetadata(
      LastCount(spans, BedsSpan),
      LastCount(spans, BathsSpan),
      LastCount(spans, SizeSpan),
      match LastOfKind(spans, TypeSpan) case None => "" case Some(i) => spans[i])
  }

  /** A later span overwrites the field an earlier span of its kind set,
      and leaves the other fields alone. */
  lemma LaterSpanWins(spans: seq<string>, text: string)
    ensures var m := SpanMetadataOf(spans);
      SpanMetadataOf(spans + [text]) ==
        match Classify(text)
        case BedsSpan => m.(beds := ParseIntOrZero(text))
        case BathsSpan => m.(baths := ParseIntOrZero(text))
        case SizeSpan => m.(size := ParseIntOrZero(text))
        case TypeSpan => m.(kind := text)
  {
    assert (spans + [text])[..|spans|] == spans;
  }

  /** `LaterSpanWins` for the prefix of the first `i + 1` spans. */
  lemma SpanStep(spans: seq<string>, i: nat)
    requires i < |spans|
    ensures var m := SpanMetadataOf(spans[..i]);
      SpanMetadataOf(spans[..i + 1]) ==
        match Classify(spans[i])
        case BedsSpan => m.(beds := ParseIntOrZero(spans[i]))
        case BathsSpan => m.(baths := ParseIntOrZero(spans[i]))
        case SizeSpan => m.(size := ParseIntOrZero(spans[i]))
        case TypeSpan => m.(kind := spans[i])
  {
    assert spans[..i + 1] == spans[..i] + [spans[i]];
    LaterSpanWins(spans[..i], spans[i]);
  }

  /** The `for…of` loop over the metadata spans. */
  method ParseSpans(spans: seq<string>) returns (m: SpanMetadata)
    ensures m == SpanMetadataOf(spans)
  {
    m := SpanMetadata(0, 0, 0, "");
    for i := 0 to |spans|
      invariant m == SpanMetadataOf(spans[..i])
    {
      var text := spans[i];
      SpanStep(spans, i);
      match Classify(text)
      case BedsSpan => m := m.(beds := ParseIntOrZero(text));
      case BathsSpan => m := m.(baths := ParseIntOrZero(text));
      case SizeSpan => m := m.(size := ParseIntOrZero(text));
      case TypeSpan => m := m.(kind := text);
    }
    assert spans[..|spans|] == spans;
  }

  /** The card `findCards` builds for result element `e` at index `node`. */
  function ExtractCard(e: Element, node: nat, url: string): Card
    requires IsResult(e)
  {
    Card(
      CardId(e.testId),
      CardAddress(e),
      if e.link.Some? then e.link.value else "",
      SpanMetadataOf(e.metaSpans),
      if e.priceText.Some? then Trim(e.priceText.value) else "",
      node,
      TransactionType(url))
  }

  /** The cards of a page: one per result element, in document order. */
  function CardsOf(page: Page, url: string): (cards: seq<Card>)
    ensures |cards| <= |page|
    ensures forall j :: 0 <= j < |cards| ==> cards[j].node < |page| && IsResult(page[cards[j].node])
    ensures forall j, k :: 0 <= j < k < |cards| ==> cards[j].node < cards[k].node
  {
    if page == [] then []
    else
      var n := |page| - 1;
      var init := CardsOf(page[..n], url);
      init + (if IsResult(page[n]) then [ExtractCard(page[n], n, url)] else [])
  }

  /** Each card is the one `findCards` builds from the element it names. */
  lemma {:induction false} CardsOfExtract(page: Page, url: string)
    ensures forall j :: 0 <= j < |CardsOf(page, url)| ==>
      var c := CardsOf(page, url)[j];
      c.node < |page| && IsResult(page[c.node]) && c == ExtractCard(page[c.node], c.node, url)
  {
    if page != [] {
      var n := |page| - 1;
      var init := CardsOf(page[..n], url);
      CardsOfExtract(page[..n], url);
      var cards := CardsOf(page, url);
      forall j | 0 <= j < |cards|
        ensures cards[j] == ExtractCard(page[cards[j].node], cards[j].node, url)
      {
        if j < |init| {
          assert cards[j] == init[j];
          assert page[..n][init[j].node] == page[init[j].node];
        }
      }
    }
  }

  /** Every result element is the root of some card. */
  lemma {:induction false} CardsOfCover(page: Page, url: string, i: nat)
    requires i < |page| && IsResult(page[i])
    ensures exists j :: 0 <= j < |CardsOf(page, url)| && CardsOf(page, url)[j].node == i
  {
    var n := |page| - 1;
    var cards := CardsOf(page, url);
    var init := CardsOf(page[..n], url);
    if i == n {
      assert cards[|cards| - 1].node == n;
    } else {
      assert page[..n][i] == page[i];
      CardsOfCover(page[..n], url, i);
      var j :| 0 <= j < |init| && init[j].node == i;
      assert cards[j] == init[j];
    }
  }

  /** Cards depend only on the fields `findCards` reads: changing what the
      extension writes (the hidden class, the wrappers) changes no card. */
  lemma {:induction false} CardsIgnoreDecoration(page: Page, page': Page, url: string)
    requires |page| == |page'|
    requires forall i :: 0 <= i < |page| ==>
      page'[i] == page[i].(hiddenClass := page'[i].hiddenClass, wrappers := page'[i].wrappers)
    ensures CardsOf(page', url) == CardsOf(page, url)
  {
    if page != [] {
      var n := |page| - 1;
      CardsIgnoreDecoration(page[..n], page'[..n], url);
      assert page'[n].metaSpans == page[n].metaSpans;
    }
  }

  /** `findCards`. */
  method FindCards(page: Page, url: string) returns (cards: seq<Card>)
    ensures cards == CardsOf(page, url)
  {
    cards := [];
    var transactionType := TransactionType(url);
    for i := 0 to |page|
      invariant cards == CardsOf(page[..i], url)
    {
      assert page[..i + 1][..i] == page[..i];
      var e := page[i];
      if IsResult(e) {
        var metadata := ParseSpans(e.metaSpans);
        var address := if e.addressText.Some? then Trim(ToLowerCase(e.addressText.value)) else "";
        var href := if e.link.Some? then e.link.value else "";
        var price := if e.priceText.Some? then Trim(e.priceText.value) else "";
        cards := cards + [Card(CardId(e.testId), address, href, metadata, price, i, transactionType)];
      }
    }
    assert page[..|page|] == page;
  }

  /** `getStorageKey`: `"property:"` followed by the card id. */
  function StorageKey(id: string): string {
    "property:" + id
  }

  /** Two cards share stored metadata exactly when they share an id. */
  lemma StorageKeyInjective(a: string, b: string)
    ensures StorageKey(a) == StorageKey(b) <==> a == b
  {
    if StorageKey(a) == StorageKey(b) {
      assert a == StorageKey(a)[9..];
    }
  }
}
