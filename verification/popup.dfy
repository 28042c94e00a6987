/**
  The popup: its copy of the global controls and of the hidden count, the
  two texts it renders from them, the record it stores and the messages it
  sends to the content script of the active tab.
*/
module Popup {
  import opened Wrappers
  import opened JsStrings
  import opened Protocol

  /** The toggle button's text: what clicking it will do, and how many
      properties that concerns. */
  function ToggleLabel(hiddenEnabled: bool, hiddenCount: nat): (text: string)
    ensures |text| > 5
    ensures hiddenEnabled <==> text[0] == 'S'
  {
    if hiddenEnabled then "Show " + NumberToString(hiddenCount) + " hidden"
    else "Hide " + NumberToString(hiddenCount)
  }

  /** Different states never share a label: the text tells both the state
      of the toggle and the exact count. */
  lemma ToggleLabelInjective(e1: bool, c1: nat, e2: bool, c2: nat)
    requires ToggleLabel(e1, c1) == ToggleLabel(e2, c2)
    ensures e1 == e2 && c1 == c2
  {
    var n1, n2 := NumberToString(c1), NumberToString(c2);
    var text := ToggleLabel(e1, c1);
    if e1 {
      assert text == "Show " + n1 + " hidden";
      assert text == "Show " + n2 + " hidden";
      assert n1 == text[5..|text| - 7] == n2;
    } else {
      assert text == "Hide " + n1;
      assert text == "Hide " + n2;
      assert n1 == text[5..] == n2;
    }
    NumeralInjective(c1, c2);
  }

  /** `item.trim().toLowerCase()`. */
  function NormalizeItem(piece: string): string {
    ToLowerCase(Trim(piece))
  }

  /** A hide-list entry as the popup keeps it: non-empty, free of commas,
      trimmed and lower-case. */
  predicate IsHideListItem(item: string) {
    item != "" && ',' !in item && IsTrimmed(item) && IsLowerCase(item)
  }

  /** A normalised piece is trimmed and lower-case, and has a comma only if
      the piece had one. */
  lemma NormalizeItemClean(piece: string)
    ensures IsTrimmed(NormalizeItem(piece)) && IsLowerCase(NormalizeItem(piece))
    ensures ',' !in piece ==> ',' !in NormalizeItem(piece)
  {
    LowerTrimmed(piece, Trim(piece), |piece| - |TrimStart(piece)|);
  }

  /** Lower-casing the middle of `piece` keeps it trimmed and adds no comma. */
  lemma LowerTrimmed(piece: string, t: string, k: nat)
    requires IsTrimmed(t) && MatchAt(piece, t, k)
    ensures IsTrimmed(ToLowerCase(t)) && IsLowerCase(ToLowerCase(t))
    ensures ',' !in piece ==> ',' !in ToLowerCase(t)
  {
    var item := ToLowerCase(t);
    LowerCaseIdempotent(t);
    if item != [] {
      LowerCaseKeepsSpace(t[0]);
      LowerCaseKeepsSpace(t[|t| - 1]);
    }
    if ',' !in piece {
      forall i | 0 <= i < |item| ensures item[i] != ',' {
        assert t[i] == piece[k + i];
      }
    }
  }

  /** The pieces, normalised, with the empty ones dropped. */
  function NormalizeItems(pieces: seq<string>): (items: seq<string>)
    ensures |items| <= |pieces|
  {
    if pieces == [] then []
    else
      var item := NormalizeItem(pieces[0]);
      (if item != "" then [item] else []) + NormalizeItems(pieces[1..])
  }

  /** Entries as the popup keeps them: non-empty, trimmed, lower-case and
      free of commas. */
  predicate CleanList(items: seq<string>) {
    items == [] || (IsHideListItem(items[0]) && CleanList(items[1..]))
  }

  lemma {:induction false} NormalizeItemsClean(pieces: seq<string>)
    requires forall j :: 0 <= j < |pieces| ==> ',' !in pieces[j]
    ensures CleanList(NormalizeItems(pieces))
  {
    if pieces != [] {
      var tail := pieces[1..];
      assert forall j :: 0 <= j < |tail| ==> ',' !in tail[j] by {
        assert forall j :: 0 <= j < |tail| ==> tail[j] == pieces[j + 1];
      }
      NormalizeItemsClean(tail);
      var item := NormalizeItem(pieces[0]);
      if item != "" {
        assert IsHideListItem(item) by {
          NormalizeItemClean(pieces[0]);
        }
        assert NormalizeItems(pieces) == [item] + NormalizeItems(tail);
        ConsClean(item, NormalizeItems(tail));
      } else {
        assert NormalizeItems(pieces) == [] + NormalizeItems(tail);
        assert [] + NormalizeItems(tail) == NormalizeItems(tail);
      }
    }
  }

  lemma ConsClean(item: string, rest: seq<string>)
    requires IsHideListItem(item) && CleanList(rest)
    ensures CleanList([item] + rest)
  {
    assert ([item] + rest)[1..] == rest;
  }

  /** `updateHideList`'s parse of the text field: split at commas, trim,
      lower-case, drop the empty entries. */
  function ParseHideList(value: string): seq<string> {
    NormalizeItems(Split(value, ','))
  }

  /** Every entry the parse yields is non-empty, trimmed, lower-case and
      comma-free. */
  lemma ParseHideListClean(value: string)
    ensures CleanList(ParseHideList(value))
  {
    NormalizeItemsClean(Split(value, ','));
  }

  /** `updateUI`'s rendering of the hide list into the text field. */
  function RenderHideList(items: seq<string>): string {
    Join(items, ", ")
  }

  /** Normalising works piece by piece. */
  lemma {:induction false} NormalizeItemsAppend(xs: seq<string>, ys: seq<string>)
    ensures NormalizeItems(xs + ys) == NormalizeItems(xs) + NormalizeItems(ys)
  {
    if xs == [] {
      assert xs + ys == ys;
      assert NormalizeItems(xs) == [];
    } else {
      assert (xs + ys)[0] == xs[0];
      assert (xs + ys)[1..] == xs[1..] + ys;
      NormalizeItemsAppend(xs[1..], ys);
      var item := NormalizeItem(xs[0]);
      var head := if item != "" then [item] else [];
      assert NormalizeItems(xs + ys) == head + NormalizeItems(xs[1..] + ys);
      assert NormalizeItems(xs) == head + NormalizeItems(xs[1..]);
      SeqAssoc(head, NormalizeItems(xs[1..]), NormalizeItems(ys));
    }
  }

  lemma SeqAssoc(a: seq<string>, b: seq<string>, c: seq<string>)
    ensures a + (b + c) == (a + b) + c
  {
  }

  /** Entries come out in the order they were typed: the parse of two
      comma-separated parts is the parse of the first followed by the parse
      of the second. */
  lemma ParseHideListConcat(a: string, b: string)
    ensures ParseHideList(a + "," + b) == ParseHideList(a) + ParseHideList(b)
  {
    assert a + "," + b == a + [','] + b;
    SplitConcat(a, ',', b);
    NormalizeItemsAppend(Split(a, ','), Split(b, ','));
  }

  /** A blank in front of the text does not change the parse. */
  lemma ParseIgnoresLeadingBlank(t: string)
    ensures ParseHideList([' '] + t) == ParseHideList(t)
  {
    var s := [' '] + t;
    assert s[0] == ' ' && s[1..] == t;
    SplitFirst(s, ',');
    var rest := Split(t, ',');
    assert Split(s, ',') == [[' '] + rest[0]] + rest[1..];
    TrimLeadingBlank(rest[0]);
    NormalizeSameFirst([' '] + rest[0], rest[0], rest[1..]);
    assert [rest[0]] + rest[1..] == rest;
  }

  /** Pieces that normalise alike can stand for each other in front. */
  lemma NormalizeSameFirst(x: string, y: string, tail: seq<string>)
    requires NormalizeItem(x) == NormalizeItem(y)
    ensures NormalizeItems([x] + tail) == NormalizeItems([y] + tail)
  {
    assert ([x] + tail)[1..] == tail && ([y] + tail)[1..] == tail;
  }

  /** A single entry parses back to itself. */
  lemma ParseOneItem(item: string)
    requires IsHideListItem(item)
    ensures ParseHideList(item) == [item]
  {
    SplitWithoutSeparator(item, ',');
    TrimOfTrimmed(item);
    LowerCaseOfLower(item);
  }

  /** Parsing the rendered list gives back the list, for entries as the
      popup keeps them. */
  lemma {:induction false} ParseRenderRoundTrip(items: seq<string>)
    requires CleanList(items)
    ensures ParseHideList(RenderHideList(items)) == items
  {
    if items == [] {
      ParseEmpty();
    } else if |items| == 1 {
      ParseOneItem(items[0]);
    } else {
      assert IsHideListItem(items[0]) && CleanList(items[1..]);
      var tail := RenderHideList(items[1..]);
      RenderFirst(items);
      ParseRenderRoundTrip(items[1..]);
      ParseEntryThenList(items[0], tail);
      assert [items[0]] + items[1..] == items;
    }
  }

  /** The rendering is the first entry, a comma, a blank and the rendering
      of the others. */
  lemma RenderFirst(items: seq<string>)
    requires |items| > 1
    ensures RenderHideList(items) == items[0] + "," + ([' '] + RenderHideList(items[1..]))
  {
    var tail := RenderHideList(items[1..]);
    assert Join(items, ", ") == items[0] + ", " + tail;
    assert items[0] + ", " + tail == items[0] + "," + ([' '] + tail);
  }

  /** An empty field gives an empty list. */
  lemma ParseEmpty()
    ensures ParseHideList("") == []
  {
    assert Split("", ',') == [""];
    assert Trim("") == "";
    assert NormalizeItems([""]) == [] + NormalizeItems([]);
  }

  /** An entry, a comma and a blank in front of some text add the entry in
      front of the text's parse. */
  lemma ParseEntryThenList(head: string, tail: string)
    requires IsHideListItem(head)
    ensures ParseHideList(head + "," + ([' '] + tail)) == [head] + ParseHideList(tail)
  {
    ParseHideListConcat(head, [' '] + tail);
    ParseOneItem(head);
    ParseIgnoresLeadingBlank(tail);
  }

  /** Re-entering what the popup displays changes nothing. */
  lemma ParseHideListIdempotent(value: string)
    ensures ParseHideList(RenderHideList(ParseHideList(value))) == ParseHideList(value)
  {
    ParseHideListClean(value);
    ParseRenderRoundTrip(ParseHideList(value));
  }

  /** `tab?.id` is truthy: there is an active tab and its id is not 0. */
  predicate TabIsTruthy(tab: Option<int>) {
    tab.Some? && tab.value != 0
  }

  /** The popup's `state`, the two elements it writes, the storage area
      and the messages sent so far, each with the tab it went to. */
  class PopupState {
    var hiddenEnabled: bool
    var hideList: seq<string>
    var hiddenCount: nat
    /** `#toggleHiddenText`'s text. */
    var toggleText: string
    /** `#hideList`'s value. */
    var hideListInput: string
    /** `chrome.storage.local`. */
    var storage: StorageArea
    var outbox: seq<(int, Message)>
    /** The id of the active tab of the current window, `None` when there is none. */
    const activeTab: Option<int>

    /** The popup as it opens, before `loadSettings` has answered. */
    constructor(storage: StorageArea, activeTab: Option<int>, toggleText: string, hideListInput: string)
      ensures hiddenEnabled && hideList == [] && hiddenCount == 0
      ensures this.storage == storage && this.activeTab == activeTab && outbox == []
      ensures this.toggleText == toggleText && this.hideListInput == hideListInput
    {
      hiddenEnabled := true;
      hideList := [];
      hiddenCount := 0;
      this.storage := storage;
      this.activeTab := activeTab;
      outbox := [];
      this.toggleText := toggleText;
      this.hideListInput := hideListInput;
    }

    /** The settings the popup stores and sends: never the count. */
    function Settings(): GlobalControls
      reads this`hiddenEnabled, this`hideList
    {
      GlobalControls(hiddenEnabled, hideList)
    }

    /** `updateUI`. */
    method UpdateUI()
      modifies this`toggleText, this`hideListInput
      ensures toggleText == ToggleLabel(hiddenEnabled, hiddenCount)
      ensures hideListInput == RenderHideList(hideList)
    {
      toggleText := if hiddenEnabled then "Show " + NumberToString(hiddenCount) + " hidden"
        else "Hide " + NumberToString(hiddenCount);
      hideListInput := Join(hideList, ", ");
    }

    /** `notifyContentScript`: a `settingsUpdated` message to the active
        tab, when its id is truthy. */
    method NotifyContentScript()
      modifies this`outbox
      ensures outbox == old(outbox) + (if TabIsTruthy(activeTab) then [(activeTab.value, SettingsUpdated(Settings()))] else [])
    {
      if activeTab.Some? && activeTab.value != 0 {
        outbox := outbox + [(activeTab.value, SettingsUpdated(GlobalControls(hiddenEnabled, hideList)))];
      }
    }

    /** `loadSettings`: ask the active tab for its hidden count; when an
        answer comes, take its count and redraw. `response` is what the
        content script answers, `None` when it does not. */
    method LoadSettings(response: Option<Response>)
      modifies this`outbox, this`hiddenCount, this`toggleText, this`hideListInput
      ensures outbox == old(outbox) + (if TabIsTruthy(activeTab) then [(activeTab.value, GetHiddenCount)] else [])
      ensures TabIsTruthy(activeTab) && response.Some? ==>
        && hiddenCount == response.value.count
        && toggleText == ToggleLabel(hiddenEnabled, hiddenCount)
        && hideListInput == RenderHideList(hideList)
      ensures !(TabIsTruthy(activeTab) && response.Some?) ==>
        hiddenCount == old(hiddenCount) && toggleText == old(toggleText) && hideListInput == old(hideListInput)
    {
      if activeTab.Some? && activeTab.value != 0 {
        outbox := outbox + [(activeTab.value, GetHiddenCount)];
        if response.Some? {
          hiddenCount := response.value.count;
          UpdateUI();
        }
      }
    }

    /** `saveSettings`: the controls record under `"global-controls"`. */
    method SaveSettings()
      modifies this`storage
      ensures storage == old(storage)[ControlsKey := ControlsRecord(Settings())]
    {
      storage := storage[ControlsKey := ControlsRecord(GlobalControls(hiddenEnabled, hideList))];
    }

    /** `toggleHidden`: flip the toggle, store, redraw, notify. */
    method ToggleHidden()
      modifies this`hiddenEnabled, this`storage, this`toggleText, this`hideListInput, this`outbox
      ensures hiddenEnabled == !old(hiddenEnabled)
      ensures hideList == old(hideList) && hiddenCount == old(hiddenCount)
      ensures storage == old(storage)[ControlsKey := ControlsRecord(Settings())]
      ensures toggleText == ToggleLabel(hiddenEnabled, hiddenCount)
      ensures hideListInput == RenderHideList(hideList)
      ensures outbox == old(outbox) + (if TabIsTruthy(activeTab) then [(activeTab.value, SettingsUpdated(Settings()))] else [])
    {
      hiddenEnabled := !hiddenEnabled;
      SaveSettings();
      UpdateUI();
      NotifyContentScript();
    }

    /** `updateHideList`: `value` is the text the field holds when its
        change event fires; it is parsed, stored and sent, and the field
        keeps it as typed. */
    method UpdateHideList(value: string)
      modifies this`hideListInput, this`hideList, this`storage, this`outbox
      ensures hideListInput == value
      ensures hideList == ParseHideList(value)
      ensures hiddenEnabled == old(hiddenEnabled) && hiddenCount == old(hiddenCount)
      ensures storage == old(storage)[ControlsKey := ControlsRecord(Settings())]
      ensures outbox == old(outbox) + (if TabIsTruthy(activeTab) then [(activeTab.value, SettingsUpdated(Settings()))] else [])
    {
      hideListInput := value;
      hideList := NormalizeItems(Split(value, ','));
      SaveSettings();
      NotifyContentScript();
    }
  }
}
