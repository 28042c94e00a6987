/**
  What `hideCards` and `initCards` make of a page, as functions on the page
  value: which result elements carry the `df-hidden` class, how many cards
  are hidden, and which elements carry a control wrapper.
*/
module Reconciliation {
  import opened Wrappers
  import opened JsStrings
  import opened Protocol
  import opened Overlay
  import opened Cards
  import opened MetadataStore

  /** Some term of the hide list, lower-cased, occurs in the address. */
  function AnyTermIn(address: string, terms: seq<string>): (r: bool)
    ensures r <==> exists i :: 0 <= i < |terms| && Includes(address, ToLowerCase(terms[i]))
  {
    if terms == [] then false
    else if Includes(address, ToLowerCase(terms[0])) then true
    else
      var rest := AnyTermIn(address, terms[1..]);
      assert forall i :: 1 <= i < |terms| ==> terms[i] == terms[1..][i - 1];
      rest
  }

  /** The hide decision of `hideCards`: the record says hidden, or the
      address is non-empty and contains a term of the hide list. */
  predicate ShouldHide(m: Metadata, address: string, hideList: seq<string>) {
    ManuallyHidden(m) || (address != "" && AnyTermIn(address, hideList))
  }

  /** A card is hidden under the metadata map and hide list. */
  predicate CardHidden(c: Card, props: map<string, Metadata>, hideList: seq<string>) {
    ShouldHide(MetadataOrDefault(props, StorageKey(c.id)), c.address, hideList)
  }

  /** The "Hide all <Area>" button a card's wrapper offers hides that card:
      the area goes into the hide list lower-cased, and the card's address,
      lower-case as `findCards` leaves it, contains it. */
  lemma HideAllHidesCard(m: Metadata, address: string, hideList: seq<string>)
    requires IsLowerCase(address)
    requires OverlayFor(m, address).area.Some?
    ensures ShouldHide(m, address, AddArea(hideList, OverlayFor(m, address).area.value))
  {
    var area := OverlayFor(m, address).area.value;
    PlaceInAddress(address);
    LowerCaseOfLower(address);
    LowerCaseOfLower(area);
    var terms := AddArea(hideList, area);
    var i :| 0 <= i < |terms| && terms[i] == ToLowerCase(area);
    assert Includes(address, ToLowerCase(terms[i]));
  }

  /** The storage key of a result element. */
  function KeyOf(e: Element): string
    requires IsResult(e)
  {
    StorageKey(CardId(e.testId))
  }

  /** A result element with its `df-hidden` class set by the hide decision;
      other elements are left alone. */
  function MarkHidden(e: Element, props: map<string, Metadata>, hideList: seq<string>): Element {
    if IsResult(e) then e.(hiddenClass := ShouldHide(MetadataOrDefault(props, KeyOf(e)), CardAddress(e), hideList))
    else e
  }

  /** The page after `hideCards`. */
  function ApplyVisibility(page: Page, props: map<string, Metadata>, hideList: seq<string>): (r: Page)
    ensures |r| == |page|
  {
    seq(|page|, i requires 0 <= i < |page| => MarkHidden(page[i], props, hideList))
  }

  /** The class is set on exactly the cards the hide decision selects, and
      nothing `findCards` reads is changed. */
  lemma VisibilityMarksCards(page: Page, props: map<string, Metadata>, hideList: seq<string>, url: string)
    ensures var r := ApplyVisibility(page, props, hideList);
      CardsOf(r, url) == CardsOf(page, url) &&
      forall c :: c in CardsOf(page, url) ==> r[c.node].hiddenClass == CardHidden(c, props, hideList)
    ensures var r := ApplyVisibility(page, props, hideList);
      forall i :: 0 <= i < |page| && !IsResult(page[i]) ==> r[i] == page[i]
  {
    CardsIgnoreDecoration(page, ApplyVisibility(page, props, hideList), url);
    CardsOfExtract(page, url);
  }

  /** Running `hideCards` again without a change of state changes nothing. */
  lemma VisibilityIdempotent(page: Page, props: map<string, Metadata>, hideList: seq<string>)
    ensures ApplyVisibility(ApplyVisibility(page, props, hideList), props, hideList) == ApplyVisibility(page, props, hideList)
  {
  }

  /** Default records inserted by `getMetadata` do not change any hide decision. */
  lemma VisibilityIgnoresDefaults(page: Page, props: map<string, Metadata>, keys: set<string>, hideList: seq<string>)
    ensures ApplyVisibility(page, WithDefaults(props, keys), hideList) == ApplyVisibility(page, props, hideList)
  {
    forall i | 0 <= i < |page| && IsResult(page[i]) {
      WithDefaultsKeepsLookups(props, keys, KeyOf(page[i]));
    }
  }

  /** The storage keys of the cards. */
  function CardKeys(cards: seq<Card>): set<string> {
    set j | 0 <= j < |cards| :: StorageKey(cards[j].id)
  }

  /** One more card of the list adds its key. */
  lemma CardKeysStep(cards: seq<Card>, i: nat)
    requires i < |cards|
    ensures CardKeys(cards[..i + 1]) == CardKeys(cards[..i]) + {StorageKey(cards[i].id)}
  {
    assert forall j :: 0 <= j < i ==> cards[..i + 1][j] == cards[..i][j];
    assert cards[..i + 1][i] == cards[i];
  }

  /** The hide decision for each card, in order. */
  function HiddenFlags(cards: seq<Card>, props: map<string, Metadata>, hideList: seq<string>): (flags: seq<bool>)
    ensures |flags| == |cards|
  {
    seq(|cards|, j requires 0 <= j < |cards| => CardHidden(cards[j], props, hideList))
  }

  /** The number of true flags, counted from the front as `hiddenCardsCount++` does. */
  function CountTrue(flags: seq<bool>): (n: nat)
    ensures n <= |flags|
  {
    if flags == [] then 0
    else
      var k := |flags| - 1;
      CountTrue(flags[..k]) + (if flags[k] then 1 else 0)
  }

  /** The count is the number of positions holding true. */
  lemma {:induction false} CountTrueIsCardinality(flags: seq<bool>)
    ensures CountTrue(flags) == |set j: nat | j < |flags| && flags[j]|
  {
    if flags != [] {
      var k := |flags| - 1;
      CountTrueIsCardinality(flags[..k]);
      var before := set j: nat | j < k && flags[..k][j];
      var after := set j: nat | j < |flags| && flags[j];
      if flags[k] {
        assert after == before + {k};
      } else {
        assert after == before;
      }
    }
  }

  /** `hiddenCardsCount` after `hideCards` over the cards. */
  function HiddenCount(cards: seq<Card>, props: map<string, Metadata>, hideList: seq<string>): nat {
    CountTrue(HiddenFlags(cards, props, hideList))
  }

  /** The count is the number of cards whose hide decision is true, and
      appending a card adds one exactly when that card is hidden. */
  lemma HiddenCountStep(cards: seq<Card>, i: nat, props: map<string, Metadata>, hideList: seq<string>)
    requires i < |cards|
    ensures HiddenCount(cards[..i + 1], props, hideList) ==
      HiddenCount(cards[..i], props, hideList) + (if CardHidden(cards[i], props, hideList) then 1 else 0)
  {
    var flags := HiddenFlags(cards[..i + 1], props, hideList);
    assert flags[..i] == HiddenFlags(cards[..i], props, hideList);
  }

  /** The count equals the number of hidden cards. */
  lemma HiddenCountIsCardinality(cards: seq<Card>, props: map<string, Metadata>, hideList: seq<string>)
    ensures HiddenCount(cards, props, hideList) == |set j: nat | j < |cards| && CardHidden(cards[j], props, hideList)|
  {
    var flags := HiddenFlags(cards, props, hideList);
    CountTrueIsCardinality(flags);
    assert (set j: nat | j < |flags| && flags[j]) == (set j: nat | j < |cards| && CardHidden(cards[j], props, hideList));
  }

  /** The element with its control wrapper (re)attached by `addCardControls`. */
  function AttachTo(e: Element, props: map<string, Metadata>, force: bool): Element
    requires IsResult(e)
  {
    e.(wrappers := Reattach(e.wrappers, force, OverlayFor(MetadataOrDefault(props, KeyOf(e)), CardAddress(e))))
  }

  /** The page after `initCards`: every result element is offered a wrapper without `force`. */
  function AttachAll(page: Page, props: map<string, Metadata>): (r: Page)
    ensures |r| == |page|
  {
    seq(|page|, i requires 0 <= i < |page| => if IsResult(page[i]) then AttachTo(page[i], props, false) else page[i])
  }

  /** The keys `initCards` creates records for: those of cards that had no wrapper yet. */
  function UndecoratedKeys(cards: seq<Card>, page: Page): set<string> {
    set j | 0 <= j < |cards| && cards[j].node < |page| && page[cards[j].node].wrappers == [] :: StorageKey(cards[j].id)
  }

  /** One more card of the list adds its key when its element had no wrapper. */
  lemma UndecoratedKeysStep(cards: seq<Card>, i: nat, page: Page)
    requires i < |cards| && cards[i].node < |page|
    ensures page[cards[i].node].wrappers == [] ==>
      UndecoratedKeys(cards[..i + 1], page) == UndecoratedKeys(cards[..i], page) + {StorageKey(cards[i].id)}
    ensures page[cards[i].node].wrappers != [] ==>
      UndecoratedKeys(cards[..i + 1], page) == UndecoratedKeys(cards[..i], page)
  {
    assert forall j :: 0 <= j < i ==> cards[..i + 1][j] == cards[..i][j];
    assert cards[..i + 1][i] == cards[i];
  }

  /** The keys created by `initCards` are among the keys of the cards. */
  lemma UndecoratedAmongCards(cards: seq<Card>, page: Page)
    ensures UndecoratedKeys(cards, page) <= CardKeys(cards)
  {
  }

  /** Default records inserted by `getMetadata` do not change the count. */
  lemma HiddenCountIgnoresDefaults(cards: seq<Card>, props: map<string, Metadata>, keys: set<string>, hideList: seq<string>)
    ensures HiddenCount(cards, WithDefaults(props, keys), hideList) == HiddenCount(cards, props, hideList)
  {
    forall j | 0 <= j < |cards| {
      WithDefaultsKeepsLookups(props, keys, StorageKey(cards[j].id));
    }
    assert HiddenFlags(cards, WithDefaults(props, keys), hideList) == HiddenFlags(cards, props, hideList);
  }

  /** After `initCards` every card has a wrapper, a card that had none shows
      the overlay built from its record, a card that already had one keeps
      it, cards with at most one wrapper have exactly one, and the cards
      themselves are unchanged. */
  lemma AttachAllControls(page: Page, props: map<string, Metadata>, url: string)
    ensures var r := AttachAll(page, props);
      CardsOf(r, url) == CardsOf(page, url) &&
      forall i :: 0 <= i < |page| && IsResult(page[i]) ==>
        r[i].wrappers != [] &&
        (|page[i].wrappers| <= 1 ==> |r[i].wrappers| == 1) &&
        (page[i].wrappers == [] ==> r[i].wrappers == [OverlayFor(MetadataOrDefault(props, KeyOf(page[i])), CardAddress(page[i]))]) &&
        (page[i].wrappers != [] ==> r[i].wrappers == page[i].wrappers)
    ensures var r := AttachAll(page, props);
      forall i :: 0 <= i < |page| && !IsResult(page[i]) ==> r[i] == page[i]
  {
    CardsIgnoreDecoration(page, AttachAll(page, props), url);
  }

  /** A second `initCards`, whatever the metadata by then, adds nothing. */
  lemma AttachAllIdempotent(page: Page, props: map<string, Metadata>, props': map<string, Metadata>)
    ensures AttachAll(AttachAll(page, props), props') == AttachAll(page, props)
  {
  }
}
