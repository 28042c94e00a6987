/**
  The content script's module-level state and the operations that update
  it: the metadata map, the global controls, the hidden count, the page it
  decorates and the storage area it writes to.
*/
module ContentScript {
  import opened Wrappers
  import opened JsStrings
  import opened Protocol
  import opened Overlay
  import opened Cards
  import opened MetadataStore
  import opened Reconciliation
  import opened Observer

  class Session {
    /** `propertyMetadata`, keyed by storage key. */
    var properties: map<string, Metadata>
    var hiddenCardsCount: nat
    /** `globalControls`. */
    var hiddenEnabled: bool
    var hideList: seq<string>
    /** Whether the body carries `df-hidden-disabled`. */
    var hiddenDisabledClass: bool
    var page: Page
    /** `chrome.storage.local`. */
    var storage: StorageArea
    /** `window.location.href`. */
    const location: string

    /** The state when the script is loaded. */
    constructor(page: Page, location: string, storage: StorageArea)
      ensures properties == map[] && hiddenCardsCount == 0
      ensures hiddenEnabled && hideList == [] && !hiddenDisabledClass
      ensures this.page == page && this.location == location && this.storage == storage
    {
      properties := map[];
      hiddenCardsCount := 0;
      hiddenEnabled := true;
      hideList := [];
      hiddenDisabledClass := false;
      this.page := page;
      this.location := location;
      this.storage := storage;
    }

    /** The global controls as one record. */
    function Controls(): GlobalControls
      reads this`hiddenEnabled, this`hideList
    {
      GlobalControls(hiddenEnabled, hideList)
    }

    /** `updateVisibilityState`: the body class is present exactly when hiding is disabled. */
    method UpdateVisibilityState()
      modifies this`hiddenDisabledClass
      ensures hiddenDisabledClass == !hiddenEnabled
      ensures unchanged(this`page, this`properties, this`hiddenCardsCount, this`hideList, this`storage)
    {
      hiddenDisabledClass := !hiddenEnabled;
    }

    /** `getMetadata`. */
    method GetMetadata(card: Card) returns (m: Metadata)
      modifies this`properties
      ensures properties == EnsureMetadata(old(properties), StorageKey(card.id))
      ensures m == MetadataOrDefault(old(properties), StorageKey(card.id))
      ensures properties[StorageKey(card.id)] == m
    {
      var key := StorageKey(card.id);
      if key !in properties {
        properties := properties[key := DefaultMetadata];
      }
      m := properties[key];
    }

    /** The `forEach` callback of `hideCards` for one card: fetches its
        record, decides, counts and sets the class. */
    method HideCard(card: Card) returns (hidden: bool)
      requires card.node < |page|
      modifies this`properties, this`page, this`hiddenCardsCount
      ensures properties == EnsureMetadata(old(properties), StorageKey(card.id))
      ensures hidden == ShouldHide(MetadataOrDefault(old(properties), StorageKey(card.id)), card.address, hideList)
      ensures hiddenCardsCount == old(hiddenCardsCount) + (if hidden then 1 else 0)
      ensures page == old(page)[card.node := old(page)[card.node].(hiddenClass := hidden)]
    {
      var m := GetMetadata(card);
      hidden := ManuallyHidden(m);
      if !hidden && card.address != "" {
        hidden := AnyTermIn(card.address, hideList);
      }
      if hidden {
        hiddenCardsCount := hiddenCardsCount + 1;
      }
      page := page[card.node := page[card.node].(hiddenClass := hidden)];
    }

    /** `hideCards`: marks every card by the hide decision, creates the
        missing records, and sets and returns the hidden count. */
    method HideCards() returns (count: nat)
      modifies this`properties, this`page, this`hiddenCardsCount
      ensures page == ApplyVisibility(old(page), old(properties), hideList)
      ensures properties == WithDefaults(old(properties), CardKeys(CardsOf(old(page), location)))
      ensures count == hiddenCardsCount == HiddenCount(CardsOf(old(page), location), old(properties), hideList)
      ensures unchanged(this`storage, this`hiddenEnabled)
    {
      var cards := FindCards(page, location);
      ghost var page0, props0 := page, properties;
      ghost var target := ApplyVisibility(page0, props0, hideList);
      hiddenCardsCount := 0;
      for i := 0 to |cards|
        invariant UpdatedAt(page, page0, target, Nodes(cards[..i]))
        invariant properties == WithDefaults(props0, CardKeys(cards[..i]))
        invariant hiddenCardsCount == HiddenCount(cards[..i], props0, hideList)
      {
        var card := cards[i];
        ghost var page1, props1, count1 := page, properties, hiddenCardsCount;
        var hidden := HideCard(card);
        HideStep(page0, props0, hideList, location, cards, i, page1, props1, count1, hidden, page, properties, hiddenCardsCount);
      }
      assert cards[..|cards|] == cards;
      MarkOnlyCards(page0, props0, hideList);
      UpdatedAll(page, page0, target, location);
      count := hiddenCardsCount;
    }

    /** `addCardControls`: without `force` a card that already has a
        wrapper is left alone; otherwise its record is fetched, the first
        existing wrapper is removed and a new one is appended. */
    method AttachControls(card: Card, force: bool)
      requires card.node < |page|
      modifies this`properties, this`page
      ensures ControlsAttached(old(page), old(properties), card, force, page, properties)
    {
      var e := page[card.node];
      var kept := e.wrappers;
      if kept != [] {
        if !force {
          return;
        }
        kept := kept[1..];
      }
      var m := GetMetadata(card);
      var latest := OverlayFor(m, card.address);
      page := page[card.node := e.(wrappers := kept + [latest])];
    }

    /** `initCards`: offers every card a wrapper without `force`; a page
        without cards is left untouched. */
    method InitCards()
      modifies this`properties, this`page
      ensures page == AttachAll(old(page), old(properties))
      ensures properties == WithDefaults(old(properties), UndecoratedKeys(CardsOf(old(page), location), old(page)))
      ensures CardsOf(old(page), location) == [] ==> page == old(page) && properties == old(properties)
      ensures unchanged(this`hideList, this`hiddenEnabled, this`storage)
    {
      var cards := FindCards(page, location);
      ghost var page0, props0 := page, properties;
      NodesCover(page0, location);
      if |cards| == 0 {
        NoCardsNoChange(page0, props0, location);
        return;
      }
      for i := 0 to |cards|
        invariant UpdatedAt(page, page0, AttachAll(page0, props0), Nodes(cards[..i]))
        invariant properties == WithDefaults(props0, UndecoratedKeys(cards[..i], page0))
      {
        ghost var page1, props1 := page, properties;
        NodesStep(cards, i);
        AttachControls(cards[i], false);
        InitStep(page1, props1, page, properties, page0, props0, cards, i, location);
      }
      assert cards[..|cards|] == cards;
      AttachOnlyCards(page0, props0);
      UpdatedAll(page, page0, AttachAll(page0, props0), location);
    }

    /** `toggleHideCard`: flips the card's hidden flag, re-runs `hideCards`,
        writes storage, updates the body class and re-attaches the card's
        controls with `force`. */
    method ToggleHideCard(card: Card)
      requires card.node < |page|
      modifies this`properties, this`page, this`hiddenCardsCount, this`storage, this`hiddenDisabledClass
      ensures ToggledState(old(page), old(properties), hideList, card, location, page, properties)
      ensures hiddenCardsCount == HiddenCount(CardsOf(old(page), location), ToggledRecords(old(properties), card), hideList)
      ensures storage == Persisted(old(storage), properties, Controls())
      ensures hiddenDisabledClass == !hiddenEnabled
      ensures var key := StorageKey(card.id);
        key in StoredProperties(storage) && StoredProperties(storage)[key] == properties[key]
    {
      ghost var page0, props0, storage0 := page, properties, storage;
      var key := StorageKey(card.id);
      var m := GetMetadata(card);
      properties := properties[key := Toggled(m)];
      ghost var toggled := properties;
      assert toggled == ToggledRecords(props0, card);
      var count := HideCards();
      ghost var page2, props2 := page, properties;
      assert page2 == ApplyVisibility(page0, toggled, hideList);
      assert props2 == WithDefaults(toggled, CardKeys(CardsOf(page0, location)));
      assert hiddenCardsCount == HiddenCount(CardsOf(page0, location), ToggledRecords(props0, card), hideList);
      PersistAndRedraw(card);
      ToggleState(page0, props0, hideList, card, location, toggled, page2, props2, page, properties);
      PersistRoundTrip(storage0, props2, Controls());
    }

    /** The tail of `toggleHideCard` after `hideCards`: write storage, set
        the body class, and re-attach the card's controls with `force`. */
    method PersistAndRedraw(card: Card)
      requires card.node < |page|
      modifies this`properties, this`page, this`storage, this`hiddenDisabledClass
      ensures storage == Persisted(old(storage), old(properties), Controls())
      ensures hiddenDisabledClass == !hiddenEnabled
      ensures ControlsAttached(old(page), old(properties), card, true, page, properties)
    {
      WriteStorage();
      UpdateVisibilityState();
      AttachControls(card, true);
    }

    /** `toggleNotes`: flips the `shown` class of the notes container of
        the card's latest wrapper. */
    method ToggleNotes(card: Card)
      requires card.node < |page| && page[card.node].wrappers != []
      modifies this`page
      ensures var e := old(page)[card.node];
        var last := e.wrappers[|e.wrappers| - 1];
        page == old(page)[card.node := e.(wrappers := e.wrappers[..|e.wrappers| - 1] + [last.(notesShown := !last.notesShown)])]
    {
      var e := page[card.node];
      var n := |e.wrappers| - 1;
      var last := e.wrappers[n];
      page := page[card.node := e.(wrappers := e.wrappers[..n] + [last.(notesShown := !last.notesShown)])];
    }

    /** `saveNotes`: stores the text in the card's record and writes storage;
        an emptied note keeps its record. */
    method SaveNotes(card: Card, text: string)
      modifies this`properties, this`storage
      ensures var key := StorageKey(card.id);
        properties == old(properties)[key := MetadataOrDefault(old(properties), key).(notes := Some(text))]
      ensures storage == Persisted(old(storage), properties, Controls())
      ensures var key := StorageKey(card.id);
        key in StoredProperties(storage) && StoredProperties(storage)[key].notes == Some(text)
    {
      var key := StorageKey(card.id);
      var m := GetMetadata(card);
      properties := properties[key := m.(notes := Some(text))];
      WriteStorage();
      PersistRoundTrip(old(storage), properties, Controls());
    }

    /** `addToHideAreaList`: a new lower-cased area is appended, written to
        storage and applied by `hideCards`; a known one changes nothing. */
    method AddToHideAreaList(name: string)
      modifies this`hideList, this`storage, this`properties, this`page, this`hiddenCardsCount
      ensures hideList == AddArea(old(hideList), name)
      ensures ToLowerCase(name) in old(hideList) ==>
        storage == old(storage) && page == old(page) && properties == old(properties) &&
        hiddenCardsCount == old(hiddenCardsCount)
      ensures ToLowerCase(name) !in old(hideList) ==>
        storage == Persisted(old(storage), old(properties), Controls()) &&
        page == ApplyVisibility(old(page), old(properties), hideList) &&
        properties == WithDefaults(old(properties), CardKeys(CardsOf(old(page), location))) &&
        hiddenCardsCount == HiddenCount(CardsOf(old(page), location), old(properties), hideList)
    {
      var area := ToLowerCase(name);
      if area !in hideList {
        hideList := hideList + [area];
        WriteStorage();
        var count := HideCards();
      }
    }

    /** `writeStorage`: one write of the non-empty records and the global controls. */
    method WriteStorage()
      modifies this`storage
      ensures storage == Persisted(old(storage), properties, Controls())
    {
      var filtered := FilterNonEmpty(properties);
      assert filtered == NonEmptyRecords(properties);
      storage := storage[PropertiesKey := PropertiesRecord(filtered)][ControlsKey := ControlsRecord(Controls())];
    }

    /** `readStorage`: the stored records replace the map, and the stored
        controls, or the defaults, replace the global controls. */
    method ReadStorage()
      modifies this`properties, this`hiddenEnabled, this`hideList
      ensures properties == StoredProperties(storage)
      ensures Controls() == StoredControls(storage)
    {
      properties := map[];
      if PropertiesKey in storage && storage[PropertiesKey].PropertiesRecord? {
        properties := storage[PropertiesKey].properties;
      }
      var controls := DefaultControls;
      if ControlsKey in storage && storage[ControlsKey].ControlsRecord? {
        controls := storage[ControlsKey].controls;
      }
      hiddenEnabled := controls.hiddenEnabled;
      hideList := controls.hideList;
    }

    /** The `onMessage` listener: answers a count request with the current
        count; applies new settings, updates the body class and re-runs
        `hideCards`. */
    method HandleMessage(msg: Message) returns (response: Option<Response>)
      modifies this`hiddenEnabled, this`hideList, this`hiddenDisabledClass, this`properties, this`page, this`hiddenCardsCount
      ensures msg.GetHiddenCount? ==>
        response == Some(HiddenCountResponse(old(hiddenCardsCount))) && unchanged(this)
      ensures msg.SettingsUpdated? ==>
        response.None? && Controls() == msg.settings && hiddenDisabledClass == !msg.settings.hiddenEnabled &&
        page == ApplyVisibility(old(page), old(properties), msg.settings.hideList) &&
        properties == WithDefaults(old(properties), CardKeys(CardsOf(old(page), location))) &&
        hiddenCardsCount == HiddenCount(CardsOf(old(page), location), old(properties), msg.settings.hideList)
    {
      match msg
      case GetHiddenCount =>
        response := Some(HiddenCountResponse(hiddenCardsCount));
      case SettingsUpdated(settings) =>
        hiddenEnabled := settings.hiddenEnabled;
        hideList := settings.hideList;
        UpdateVisibilityState();
        var count := HideCards();
        response := None;
    }

    /** The mutation observer's callback: `initCards` when some record adds
        or removes children. */
    method OnMutations(ms: seq<MutationRecord>)
      modifies this`properties, this`page
      ensures HasRelevantChanges(ms) ==>
        page == AttachAll(old(page), old(properties)) &&
        properties == WithDefaults(old(properties), UndecoratedKeys(CardsOf(old(page), location), old(page)))
      ensures !HasRelevantChanges(ms) ==> page == old(page) && properties == old(properties)
    {
      if HasRelevantChanges(ms) {
        InitCards();
      }
    }

    /** The bootstrap: on a page with cards, read storage and continue with
        `Decorate`; on any other page do nothing. */
    method Start()
      modifies this`properties, this`page, this`hiddenCardsCount, this`hiddenEnabled, this`hideList, this`hiddenDisabledClass
      ensures CardsOf(old(page), location) == [] ==> unchanged(this)
      ensures CardsOf(old(page), location) != [] ==> Controls() == StoredControls(storage)
      ensures CardsOf(old(page), location) != [] ==>
        Decorated(old(page), StoredProperties(storage), location, page, properties, hiddenCardsCount, Controls(), hiddenDisabledClass)
    {
      var cards := FindCards(page, location);
      if |cards| > 0 {
        ReadStorage();
        Decorate();
      }
    }

    /** The continuation of the bootstrap once storage is read: attach
        controls, hide cards, set the body class. The records `initCards`
        inserts are defaults and change no decision, so the result is
        stated on the records read from storage. */
    method Decorate()
      modifies this`properties, this`page, this`hiddenCardsCount, this`hiddenDisabledClass
      ensures Decorated(old(page), old(properties), location, page, properties, hiddenCardsCount, Controls(), hiddenDisabledClass)
    {
      ghost var page0, loaded, controls := page, properties, Controls();
      InitCards();
      ghost var page1, props1 := page, properties;
      var count := HideCards();
      ghost var page2, props2, count2 := page, properties, hiddenCardsCount;
      assert page2 == ApplyVisibility(page1, props1, controls.hideList);
      assert count2 == HiddenCount(CardsOf(page1, location), props1, controls.hideList);
      UpdateVisibilityState();
      BootstrapState(page0, loaded, location, page1, props1, page2, props2, count2, controls, hiddenDisabledClass);
    }
  }

  /** The state after the bootstrap on a page with cards, given the records
      read from storage: every card carries controls built from those
      records and is marked by the visibility rule on them, every card has a
      record, the count is that of the hidden cards, and the body class
      reflects the enabled flag. */
  ghost predicate Decorated(page0: Page, loaded: map<string, Metadata>, url: string, page: Page,
                            props: map<string, Metadata>, count: nat, controls: GlobalControls, disabledClass: bool)
  {
    var cards := CardsOf(page0, url);
    page == ApplyVisibility(AttachAll(page0, loaded), loaded, controls.hideList) &&
    props == WithDefaults(loaded, CardKeys(cards)) &&
    count == HiddenCount(cards, loaded, controls.hideList) &&
    disabledClass == !controls.hiddenEnabled
  }

  /** `initCards` followed by `hideCards` on freshly loaded records: the
      default records `initCards` inserts change no decision, so the result
      is stated on the loaded records alone. */
  lemma BootstrapState(page0: Page, loaded: map<string, Metadata>, url: string,
                       page1: Page, props1: map<string, Metadata>, page2: Page, props2: map<string, Metadata>,
                       count: nat, controls: GlobalControls, disabledClass: bool)
    requires page1 == AttachAll(page0, loaded)
    requires props1 == WithDefaults(loaded, UndecoratedKeys(CardsOf(page0, url), page0))
    requires page2 == ApplyVisibility(page1, props1, controls.hideList)
    requires props2 == WithDefaults(props1, CardKeys(CardsOf(page1, url)))
    requires count == HiddenCount(CardsOf(page1, url), props1, controls.hideList)
    requires disabledClass == !controls.hiddenEnabled
    ensures Decorated(page0, loaded, url, page2, props2, count, controls, disabledClass)
  {
    var cards := CardsOf(page0, url);
    var undecorated := UndecoratedKeys(cards, page0);
    var hideList := controls.hideList;
    AttachAllControls(page0, loaded, url);
    VisibilityIgnoresDefaults(page1, loaded, undecorated, hideList);
    HiddenCountIgnoresDefaults(cards, loaded, undecorated, hideList);
    WithDefaultsTwice(loaded, undecorated, CardKeys(cards));
    UndecoratedAmongCards(cards, page0);
    assert undecorated + CardKeys(cards) == CardKeys(cards);
  }

  /** The records after `toggleHideCard` flips the card's hidden flag
      (creating the card's record first when it has none). */
  function ToggledRecords(props: map<string, Metadata>, card: Card): (r: map<string, Metadata>)
    ensures r.Keys == props.Keys + {StorageKey(card.id)}
    ensures ManuallyHidden(r[StorageKey(card.id)]) == !ManuallyHidden(MetadataOrDefault(props, StorageKey(card.id)))
    ensures forall k :: k in props && k != StorageKey(card.id) ==> r[k] == props[k]
  {
    var key := StorageKey(card.id);
    props[key := Toggled(MetadataOrDefault(props, key))]
  }

  /** The page and records after `toggleHideCard`: the toggled records with
      defaults for every card, every card marked by the visibility rule on
      the toggled records, and the toggled card's controls rebuilt from its
      new record in place of its oldest wrapper. */
  ghost predicate ToggledState(page0: Page, props0: map<string, Metadata>, hideList: seq<string>, card: Card, url: string,
                               page: Page, props: map<string, Metadata>)
    requires card.node < |page0|
  {
    var key := StorageKey(card.id);
    var toggled := ToggledRecords(props0, card);
    var marked := ApplyVisibility(page0, toggled, hideList);
    props == WithDefaults(toggled, CardKeys(CardsOf(page0, url))) &&
    |page| == |page0| &&
    page[card.node] == marked[card.node].(wrappers :=
      Reattach(page0[card.node].wrappers, true, OverlayFor(toggled[key], card.address))) &&
    forall n :: 0 <= n < |page| && n != card.node ==> page[n] == marked[n]
  }

  /** `hideCards` on the toggled records followed by `addCardControls` with
      `force` gives the toggled state; the forced re-attachment finds the
      card's record in place and so adds none. */
  lemma ToggleState(page0: Page, props0: map<string, Metadata>, hideList: seq<string>, card: Card, url: string,
                    toggled: map<string, Metadata>, page2: Page, props2: map<string, Metadata>,
                    page3: Page, props3: map<string, Metadata>)
    requires card.node < |page0|
    requires toggled == ToggledRecords(props0, card)
    requires page2 == ApplyVisibility(page0, toggled, hideList)
    requires props2 == WithDefaults(toggled, CardKeys(CardsOf(page0, url)))
    requires card.node < |page2| && ControlsAttached(page2, props2, card, true, page3, props3)
    ensures ToggledState(page0, props0, hideList, card, url, page3, props3)
    ensures props3 == props2
  {
    var key := StorageKey(card.id);
    WithDefaultsKeepsLookups(toggled, CardKeys(CardsOf(page0, url)), key);
    assert key in props2;
  }

  /** The node indices of the cards. */
  function Nodes(cards: seq<Card>): set<nat> {
    set j | 0 <= j < |cards| :: cards[j].node
  }

  /** One more card of the list adds its node, which was not there yet. */
  lemma NodesStep(cards: seq<Card>, i: nat)
    requires i < |cards|
    requires forall j, k :: 0 <= j < k < |cards| ==> cards[j].node < cards[k].node
    ensures Nodes(cards[..i + 1]) == Nodes(cards[..i]) + {cards[i].node}
    ensures cards[i].node !in Nodes(cards[..i])
  {
    assert forall j :: 0 <= j < i ==> cards[..i + 1][j] == cards[..i][j];
    assert cards[..i + 1][i] == cards[i];
  }

  /** Every result element is the root of a card. */
  lemma NodesCover(page: Page, url: string)
    ensures forall n :: 0 <= n < |page| && IsResult(page[n]) ==> n in Nodes(CardsOf(page, url))
  {
    forall n | 0 <= n < |page| && IsResult(page[n])
      ensures n in Nodes(CardsOf(page, url))
    {
      CardsOfCover(page, url, n);
    }
  }

  /** `page` agrees with `target` at `nodes` and with `page0` elsewhere. */
  ghost predicate UpdatedAt(page: Page, page0: Page, target: Page, nodes: set<nat>) {
    |page| == |page0| == |target| &&
    forall n :: 0 <= n < |page| ==> page[n] == if n in nodes then target[n] else page0[n]
  }

  /** Setting one more node to its target extends the updated part. */
  lemma UpdatedAtStep(page: Page, page': Page, page0: Page, target: Page, nodes: set<nat>, node: nat)
    requires UpdatedAt(page, page0, target, nodes) && node < |page|
    requires |page'| == |page| && page'[node] == target[node]
    requires forall n :: 0 <= n < |page| && n != node ==> page'[n] == page[n]
    ensures UpdatedAt(page', page0, target, nodes + {node})
  {
  }

  /** Once the nodes of all cards are updated, the page is the target,
      provided the target leaves the other elements alone. */
  lemma UpdatedAll(page: Page, page0: Page, target: Page, url: string)
    requires UpdatedAt(page, page0, target, Nodes(CardsOf(page0, url)))
    requires forall n :: 0 <= n < |page0| && !IsResult(page0[n]) ==> target[n] == page0[n]
    ensures page == target
  {
    NodesCover(page0, url);
    assert forall n :: 0 <= n < |page| ==> page[n] == target[n];
  }

  /** The marked element of card `i` is its element with the decision for the card. */
  lemma MarkStep(page0: Page, cards: seq<Card>, i: nat, props: map<string, Metadata>, hideList: seq<string>, url: string)
    requires cards == CardsOf(page0, url) && i < |cards|
    ensures var c := cards[i];
      c.node < |page0| &&
      ApplyVisibility(page0, props, hideList)[c.node] == page0[c.node].(hiddenClass := CardHidden(c, props, hideList))
  {
    var c := cards[i];
    CardsOfExtract(page0, url);
    assert IsResult(page0[c.node]) && c == ExtractCard(page0[c.node], c.node, url);
  }

  /** One card of `hideCards`: the callback's effect on card `i` extends
      the marked part of the page, the records and the count by that card. */
  lemma HideStep(page0: Page, props0: map<string, Metadata>, hideList: seq<string>, url: string, cards: seq<Card>, i: nat,
                 page: Page, props: map<string, Metadata>, count: nat, hidden: bool,
                 page': Page, props': map<string, Metadata>, count': nat)
    requires cards == CardsOf(page0, url) && i < |cards|
    requires UpdatedAt(page, page0, ApplyVisibility(page0, props0, hideList), Nodes(cards[..i]))
    requires props == WithDefaults(props0, CardKeys(cards[..i]))
    requires count == HiddenCount(cards[..i], props0, hideList)
    requires cards[i].node < |page|
    requires props' == EnsureMetadata(props, StorageKey(cards[i].id))
    requires hidden == ShouldHide(MetadataOrDefault(props, StorageKey(cards[i].id)), cards[i].address, hideList)
    requires count' == count + (if hidden then 1 else 0)
    requires page' == page[cards[i].node := page[cards[i].node].(hiddenClass := hidden)]
    ensures UpdatedAt(page', page0, ApplyVisibility(page0, props0, hideList), Nodes(cards[..i + 1]))
    ensures props' == WithDefaults(props0, CardKeys(cards[..i + 1]))
    ensures count' == HiddenCount(cards[..i + 1], props0, hideList)
  {
    DecisionIgnoresDefaults(props0, CardKeys(cards[..i]), cards[i], hideList);
    HiddenCountStep(cards, i, props0, hideList);
    RecordsNext(props0, cards, i, props, props');
    MarkNext(page0, props0, hideList, url, cards, i, page, hidden, page');
  }

  /** The decision on a card is the same with default records inserted. */
  lemma DecisionIgnoresDefaults(props0: map<string, Metadata>, keys: set<string>, card: Card, hideList: seq<string>)
    ensures ShouldHide(MetadataOrDefault(WithDefaults(props0, keys), StorageKey(card.id)), card.address, hideList) ==
      CardHidden(card, props0, hideList)
  {
    WithDefaultsKeepsLookups(props0, keys, StorageKey(card.id));
  }

  /** Fetching the record of card `i` extends the defaults by its key. */
  lemma RecordsNext(props0: map<string, Metadata>, cards: seq<Card>, i: nat, props: map<string, Metadata>, props': map<string, Metadata>)
    requires i < |cards|
    requires props == WithDefaults(props0, CardKeys(cards[..i]))
    requires props' == EnsureMetadata(props, StorageKey(cards[i].id))
    ensures props' == WithDefaults(props0, CardKeys(cards[..i + 1]))
  {
    CardKeysStep(cards, i);
    EnsureAfterDefaults(props0, CardKeys(cards[..i]), StorageKey(cards[i].id));
  }

  /** Setting the class of card `i` by its decision extends the marked part of the page. */
  lemma MarkNext(page0: Page, props0: map<string, Metadata>, hideList: seq<string>, url: string, cards: seq<Card>, i: nat,
                 page: Page, hidden: bool, page': Page)
    requires cards == CardsOf(page0, url) && i < |cards|
    requires UpdatedAt(page, page0, ApplyVisibility(page0, props0, hideList), Nodes(cards[..i]))
    requires hidden == CardHidden(cards[i], props0, hideList)
    requires cards[i].node < |page| && page' == page[cards[i].node := page[cards[i].node].(hiddenClass := hidden)]
    ensures UpdatedAt(page', page0, ApplyVisibility(page0, props0, hideList), Nodes(cards[..i + 1]))
  {
    NodesStep(cards, i);
    MarkStep(page0, cards, i, props0, hideList, url);
    UpdatedAtStep(page, page', page0, ApplyVisibility(page0, props0, hideList), Nodes(cards[..i]), cards[i].node);
  }

  /** Marking leaves the elements that are not cards alone. */
  lemma MarkOnlyCards(page0: Page, props: map<string, Metadata>, hideList: seq<string>)
    ensures forall n :: 0 <= n < |page0| && !IsResult(page0[n]) ==> ApplyVisibility(page0, props, hideList)[n] == page0[n]
  {
  }

  /** What `addCardControls` does to the page and the metadata map. */
  ghost predicate ControlsAttached(page: Page, props: map<string, Metadata>, card: Card, force: bool,
                                   page': Page, props': map<string, Metadata>)
    requires card.node < |page|
  {
    var before := page[card.node];
    if before.wrappers != [] && !force then
      props' == props && page' == page
    else
      props' == EnsureMetadata(props, StorageKey(card.id)) &&
      page' == page[card.node := before.(wrappers := Reattach(before.wrappers, force,
        OverlayFor(MetadataOrDefault(props, StorageKey(card.id)), card.address)))]
  }

  /** Offering controls to card `i` sets its element to its target and
      creates its record when it had no wrapper. */
  lemma InitStep(page: Page, props: map<string, Metadata>, page': Page, props': map<string, Metadata>,
                 page0: Page, props0: map<string, Metadata>, cards: seq<Card>, i: nat, url: string)
    requires cards == CardsOf(page0, url) && i < |cards|
    requires UpdatedAt(page, page0, AttachAll(page0, props0), Nodes(cards[..i]))
    requires props == WithDefaults(props0, UndecoratedKeys(cards[..i], page0))
    requires cards[i].node < |page| && ControlsAttached(page, props, cards[i], false, page', props')
    ensures UpdatedAt(page', page0, AttachAll(page0, props0), Nodes(cards[..i + 1]))
    ensures props' == WithDefaults(props0, UndecoratedKeys(cards[..i + 1], page0))
  {
    var c := cards[i];
    NodesStep(cards, i);
    UndecoratedKeysStep(cards, i, page0);
    var e := page0[c.node];
    CardsOfExtract(page0, url);
    assert IsResult(e) && c == ExtractCard(e, c.node, url);
    var target := AttachAll(page0, props0);
    assert target[c.node] == AttachTo(e, props0, false);
    var attached := AttachedElement(page, props, c, page', props', page0, props0, UndecoratedKeys(cards[..i], page0));
    UpdatedAtStep(page, page', page0, target, Nodes(cards[..i]), c.node);
  }

  /** On a page without cards `initCards` changes nothing. */
  lemma NoCardsNoChange(page: Page, props: map<string, Metadata>, url: string)
    requires CardsOf(page, url) == []
    ensures AttachAll(page, props) == page
    ensures WithDefaults(props, UndecoratedKeys(CardsOf(page, url), page)) == props
  {
    NodesCover(page, url);
    assert forall n :: 0 <= n < |page| ==> !IsResult(page[n]);
    assert UndecoratedKeys(CardsOf(page, url), page) == {};
  }

  /** Attaching leaves the elements that are not cards alone. */
  lemma AttachOnlyCards(page0: Page, props: map<string, Metadata>)
    ensures forall n :: 0 <= n < |page0| && !IsResult(page0[n]) ==> AttachAll(page0, props)[n] == page0[n]
  {
  }

  /** The element of card `c` after `addCardControls`, and the map. */
  lemma AttachedElement(page: Page, props: map<string, Metadata>, c: Card, page': Page, props': map<string, Metadata>,
                        page0: Page, props0: map<string, Metadata>, keys: set<string>) returns (attached: Element)
    requires c.node < |page| && c.node < |page0| && IsResult(page0[c.node]) && page[c.node] == page0[c.node]
    requires c.id == CardId(page0[c.node].testId) && c.address == CardAddress(page0[c.node])
    requires props == WithDefaults(props0, keys)
    requires ControlsAttached(page, props, c, false, page', props')
    ensures attached == AttachTo(page0[c.node], props0, false)
    ensures |page'| == |page| && page'[c.node] == attached
    ensures forall n :: 0 <= n < |page| && n != c.node ==> page'[n] == page[n]
    ensures page0[c.node].wrappers != [] ==> props' == props
    ensures page0[c.node].wrappers == [] ==> props' == WithDefaults(props0, keys + {StorageKey(c.id)})
  {
    attached := AttachTo(page0[c.node], props0, false);
    AttachedPage(page, props, c, page', props', page0, props0, keys);
    AttachedRecords(page, props, c, page', props', page0, props0, keys);
  }

  lemma AttachedPage(page: Page, props: map<string, Metadata>, c: Card, page': Page, props': map<string, Metadata>,
                     page0: Page, props0: map<string, Metadata>, keys: set<string>)
    requires c.node < |page| && c.node < |page0| && IsResult(page0[c.node]) && page[c.node] == page0[c.node]
    requires c.id == CardId(page0[c.node].testId) && c.address == CardAddress(page0[c.node])
    requires props == WithDefaults(props0, keys)
    requires ControlsAttached(page, props, c, false, page', props')
    ensures |page'| == |page| && page'[c.node] == AttachTo(page0[c.node], props0, false)
    ensures forall n :: 0 <= n < |page| && n != c.node ==> page'[n] == page[n]
  {
    var e := page0[c.node];
    assert KeyOf(e) == StorageKey(c.id);
    WithDefaultsKeepsLookups(props0, keys, StorageKey(c.id));
  }

  lemma AttachedRecords(page: Page, props: map<string, Metadata>, c: Card, page': Page, props': map<string, Metadata>,
                        page0: Page, props0: map<string, Metadata>, keys: set<string>)
    requires c.node < |page| && c.node < |page0| && page[c.node] == page0[c.node]
    requires props == WithDefaults(props0, keys)
    requires ControlsAttached(page, props, c, false, page', props')
    ensures page0[c.node].wrappers != [] ==> props' == props
    ensures page0[c.node].wrappers == [] ==> props' == WithDefaults(props0, keys + {StorageKey(c.id)})
  {
    if page0[c.node].wrappers == [] {
      EnsureAfterDefaults(props0, keys, StorageKey(c.id));
    }
  }
}
