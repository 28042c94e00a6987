/**
  The control wrapper `addCardControls` appends to a card, and the two
  string helpers it uses: `extractPlaceName` and `capitalize`.
*/
module Overlay {
  import opened Wrappers
  import opened JsStrings
  import opened Protocol

  /** A rendered `.df-controls-wrapper`: the text of the hide button, the
      area whose "Hide all" button it offers (with that button's text), and
      the notes container's `shown` class and text. */
  datatype Overlay = Overlay(
    hideLabel: string,
    area: Option<string>,
    areaLabel: Option<string>,
    notesShown: bool,
    notesText: string)

  /** A trimmed segment of an address names a place when it holds no digit
      and no county prefix `"co. "`. */
  predicate IsPlaceSegment(t: string) {
    IndexOf(t, "co. ") < 0 && !HasDigit(t)
  }

  /** `.map((t) => t.trim())`. */
  function TrimAll(segments: seq<string>): (r: seq<string>)
    ensures |r| == |segments|
    ensures forall i :: 0 <= i < |r| ==> r[i] == Trim(segments[i])
  {
    if segments == [] then [] else [Trim(segments[0])] + TrimAll(segments[1..])
  }

  /** No segment names a place. */
  predicate NoPlace(names: seq<string>) {
    forall i :: 0 <= i < |names| ==> !IsPlaceSegment(names[i])
  }

  /** Segment `i` is the last one that names a place. */
  predicate IsLastPlace(names: seq<string>, i: int) {
    && 0 <= i < |names|
    && IsPlaceSegment(names[i])
    && forall j :: i < j < |names| ==> !IsPlaceSegment(names[j])
  }

  /** `.filter(...)` keeping the segments that name a place, in order. */
  function PlaceCandidates(names: seq<string>): (r: seq<string>)
    ensures |r| <= |names|
    ensures forall i :: 0 <= i < |r| ==> IsPlaceSegment(r[i])
  {
    if names == [] then []
    else
      var last := names[|names| - 1];
      PlaceCandidates(names[..|names| - 1]) + (if IsPlaceSegment(last) then [last] else [])
  }

  /** The filter leaves nothing exactly when no segment names a place. */
  lemma {:induction false} PlaceCandidatesNone(names: seq<string>)
    ensures PlaceCandidates(names) == [] <==> NoPlace(names)
  {
    if names != [] {
      var n := |names| - 1;
      var init := names[..n];
      PlaceCandidatesNone(init);
      if IsPlaceSegment(names[n]) {
        assert PlaceCandidates(names) == PlaceCandidates(init) + [names[n]];
        assert !NoPlace(names);
      } else {
        assert PlaceCandidates(names) == PlaceCandidates(init);
        assert NoPlace(names) <==> NoPlace(init) by {
          assert forall i :: 0 <= i < n ==> init[i] == names[i];
        }
      }
    }
  }

  /** The last survivor of the filter is the last segment that names a place. */
  lemma {:induction false} PlaceCandidatesLast(names: seq<string>)
    ensures PlaceCandidates(names) == [] <==> NoPlace(names)
    ensures var r := PlaceCandidates(names);
      r != [] ==> exists i :: IsLastPlace(names, i) && r[|r| - 1] == names[i]
  {
    PlaceCandidatesNone(names);
    if names != [] {
      var n := |names| - 1;
      var init := names[..n];
      var r := PlaceCandidates(names);
      if IsPlaceSegment(names[n]) {
        assert r[|r| - 1] == names[n];
        assert IsLastPlace(names, n);
      } else if PlaceCandidates(init) != [] {
        PlaceCandidatesLast(init);
        assert r == PlaceCandidates(init);
        var i :| IsLastPlace(init, i) && r[|r| - 1] == init[i];
        assert init[i] == names[i];
        assert IsLastPlace(names, i);
      }
    }
  }

  /** The trimmed comma-separated segments of a lower-cased address. */
  function AddressSegments(address: string): seq<string> {
    TrimAll(Split(ToLowerCase(address), ','))
  }

  /** `extractPlaceName`: `None` (null) exactly when no trimmed segment of
      the lower-cased address names a place; otherwise the last one that does. */
  function ExtractPlaceName(address: string): (r: Option<string>)
    ensures r.None? <==> NoPlace(AddressSegments(address))
    ensures r.Some? ==>
      IsPlaceSegment(r.value) && IsTrimmed(r.value) &&
      exists i :: IsLastPlace(AddressSegments(address), i) && r.value == AddressSegments(address)[i]
  {
    var segments := AddressSegments(address);
    var names := PlaceCandidates(segments);
    PlaceCandidatesLast(segments);
    if |names| > 0 then Some(names[|names| - 1]) else None
  }

  /** Each trimmed segment is cut out of the lower-cased address. */
  lemma SegmentOccurs(address: string, i: nat) returns (k: nat)
    requires i < |AddressSegments(address)|
    ensures MatchAt(ToLowerCase(address), AddressSegments(address)[i], k)
  {
    var lower := ToLowerCase(address);
    k := TrimmedPieceOccurs(lower, ',', i);
  }

  /** The place name is cut out of the lower-cased address, so it is
      lower-case and `includes` finds it there. */
  lemma PlaceInAddress(address: string)
    requires ExtractPlaceName(address).Some?
    ensures var p := ExtractPlaceName(address).value;
      IsLowerCase(p) && Includes(ToLowerCase(address), p)
  {
    var p := ExtractPlaceName(address).value;
    var segments := AddressSegments(address);
    var i :| IsLastPlace(segments, i) && p == segments[i];
    var k := SegmentOccurs(address, i);
    MatchIncludes(ToLowerCase(address), p, k);
    LowerCaseIdempotent(address);
    MatchAtLowerCase(ToLowerCase(address), p, k);
  }

  /** Every character that starts `s` or follows a blank is upper-cased;
      everything else is kept. */
  ghost predicate CapitalizedFrom(s: string, r: string) {
    && |r| == |s|
    && (|s| > 0 ==> r[0] == UpperChar(s[0]))
    && forall i :: 1 <= i < |s| ==> r[i] == (if s[i - 1] == ' ' then UpperChar(s[i]) else s[i])
  }

  function CapitalizeWord(w: string): string {
    ToUpperCase(w[..if |w| == 0 then 0 else 1]) + w[if |w| == 0 then 0 else 1..]
  }

  function CapitalizeWords(ws: seq<string>): (r: seq<string>)
    ensures |r| == |ws|
    ensures forall i :: 0 <= i < |ws| ==> r[i] == CapitalizeWord(ws[i])
  {
    if ws == [] then [] else [CapitalizeWord(ws[0])] + CapitalizeWords(ws[1..])
  }

  /** `capitalize`: split on blanks, upper-case each word's first letter, join again. */
  function Capitalize(s: string): string {
    if s == "" then "" else Join(CapitalizeWords(Split(s, ' ')), " ")
  }

  lemma CapitalizeWordSpec(w: string)
    requires ' ' !in w
    ensures CapitalizedFrom(w, CapitalizeWord(w))
  {
    var r := CapitalizeWord(w);
    forall i | 1 <= i < |w|
      ensures r[i] == (if w[i - 1] == ' ' then UpperChar(w[i]) else w[i])
    {
      assert w[i - 1] in w;
    }
  }

  lemma CapitalizedJoin(a: string, ra: string, b: string, rb: string)
    requires CapitalizedFrom(a, ra) && CapitalizedFrom(b, rb)
    ensures CapitalizedFrom(a + " " + b, ra + " " + rb)
  {
    var s, r := a + " " + b, ra + " " + rb;
    assert UpperChar(' ') == ' ';
    if |a| > 0 {
      assert s[0] == a[0] && r[0] == ra[0];
    }
    forall i | 1 <= i < |s|
      ensures r[i] == (if s[i - 1] == ' ' then UpperChar(s[i]) else s[i])
    {
      if i < |a| {
        assert s[i] == a[i] && r[i] == ra[i] && s[i - 1] == a[i - 1];
      } else if i == |a| {
        assert s[i] == ' ' && r[i] == ' ';
      } else {
        var j := i - |a| - 1;
        assert s[i] == b[j] && r[i] == rb[j];
        if j > 0 {
          assert s[i - 1] == b[j - 1];
        } else {
          assert s[i - 1] == ' ';
        }
      }
    }
  }

  lemma {:induction false} CapitalizeWordsJoin(ws: seq<string>)
    requires forall i :: 0 <= i < |ws| ==> ' ' !in ws[i]
    ensures CapitalizedFrom(Join(ws, " "), Join(CapitalizeWords(ws), " "))
  {
    if |ws| == 0 {
    } else if |ws| == 1 {
      CapitalizeWordSpec(ws[0]);
    } else {
      CapitalizeWordSpec(ws[0]);
      CapitalizeWordsJoin(ws[1..]);
      assert CapitalizeWords(ws)[1..] == CapitalizeWords(ws[1..]);
      CapitalizedJoin(ws[0], CapitalizeWord(ws[0]), Join(ws[1..], " "), Join(CapitalizeWords(ws[1..]), " "));
    }
  }

  /** `capitalize` upper-cases exactly the first letter and every letter
      that follows a blank, and keeps the length. */
  lemma CapitalizeSpec(s: string)
    ensures CapitalizedFrom(s, Capitalize(s))
  {
    if s != "" {
      CapitalizeWordsJoin(Split(s, ' '));
    }
  }

  /** The wrapper `addCardControls` builds for a card with metadata `m` and
      address `address`. An empty place name is falsy: no "Hide all" button. */
  function OverlayFor(m: Metadata, address: string): Overlay {
    var place := ExtractPlaceName(address);
    var area := if place.Some? && place.value != "" then place else None;
    Overlay(
      if ManuallyHidden(m) then "Unhide" else "Hide",
      area,
      if area.Some? then Some("Hide all " + Capitalize(area.value)) else None,
      m.notes.Some? && m.notes.value != "",
      if m.notes.Some? then m.notes.value else "")
  }

  /** Attaching with or without `force`: without it an existing wrapper is
      kept; otherwise the first existing wrapper is removed and `latest` is
      appended. A card with at most one wrapper ends with exactly one. */
  function Reattach(wrappers: seq<Overlay>, force: bool, latest: Overlay): (r: seq<Overlay>)
    ensures wrappers != [] && !force ==> r == wrappers
    ensures wrappers == [] || force ==> r != [] && r[|r| - 1] == latest
    ensures |wrappers| <= 1 ==> |r| == 1
    ensures |r| == (if wrappers == [] then 1 else |wrappers|)
    ensures force && wrappers != [] ==> forall i :: 0 <= i < |r| - 1 ==> r[i] == wrappers[i + 1]
  {
    if wrappers != [] && !force then wrappers
    else (if wrappers == [] then [] else wrappers[1..]) + [latest]
  }
}
