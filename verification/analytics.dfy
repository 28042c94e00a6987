/**
  The measurement-protocol client: objects serialised as query strings,
  the hit records (page views, screen views, events) and the client's
  own parameters and custom dimensions.
*/
module Analytics {
  import opened Wrappers
  import opened JsStrings
  import opened UriComponent

  /** The JavaScript values a hit or parameter may hold (numbers are integers here). */
  datatype JsValue = Undefined | Null | Bool(b: bool) | Number(n: int) | Str(s: string)

  /** JavaScript truthiness. */
  predicate Truthy(v: JsValue) {
    match v
    case Undefined => false
    case Null => false
    case Bool(b) => b
    case Number(n) => n != 0
    case Str(s) => s != ""
  }

  /** `String(v)`, as `encodeURIComponent` converts its argument. */
  function ToJsString(v: JsValue): string {
    match v
    case Undefined => "undefined"
    case Null => "null"
    case Bool(b) => if b then "true" else "false"
    case Number(n) => IntToString(n)
    case Str(s) => s
  }

  /** Property names of an object are distinct. */
  predicate DistinctKeys(entries: seq<(string, JsValue)>) {
    forall i, j :: 0 <= i < j < |entries| ==> entries[i].0 != entries[j].0
  }

  /** A plain object: its own enumerable properties, in enumeration order. */
  type Props = entries: seq<(string, JsValue)> | DistinctKeys(entries)

  /** The position of property `key`, `None` when the object has no such property. */
  function IndexOfKey(obj: Props, key: string): (r: Option<nat>)
    ensures r.Some? ==> r.value < |obj| && obj[r.value].0 == key
    ensures r.None? ==> forall i :: 0 <= i < |obj| ==> obj[i].0 != key
  {
    if obj == [] then None
    else if obj[|obj| - 1].0 == key then Some(|obj| - 1)
    else IndexOfKey(obj[..|obj| - 1], key)
  }

  /** `obj[key]`, `None` for `undefined` when the object has no such property. */
  function Get(obj: Props, key: string): Option<JsValue> {
    match IndexOfKey(obj, key)
    case None => None
    case Some(i) => Some(obj[i].1)
  }

  /** `encodeURIComponent(key) + "=" + encodeURIComponent(value)`. */
  function Pair(key: string, value: JsValue): string {
    Encode(key) + "=" + Encode(ToJsString(value))
  }

  /** The pairs `toQueryString` pushes: one per property with a truthy value, in order. */
  function QueryPairs(obj: seq<(string, JsValue)>): (r: seq<string>)
    ensures |r| <= |obj|
  {
    if obj == [] then [] else QueryPairs(obj[..|obj| - 1]) + PairIfTruthy(obj[|obj| - 1].0, obj[|obj| - 1].1)
  }

  function QueryString(obj: seq<(string, JsValue)>): string {
    Join(QueryPairs(obj), "&")
  }

  /** The pair of a property when its value is truthy, nothing otherwise. */
  function PairIfTruthy(key: string, value: JsValue): seq<string> {
    if Truthy(value) then [Pair(key, value)] else []
  }

  class Serializable {
    var properties: Props

    /** `this.properties = props || {}`. */
    constructor(props: Option<Props>)
      ensures properties == (if props.Some? then props.value else [])
    {
      properties := if props.Some? then props.value else [];
    }

    /** `toQueryString`. */
    method ToQueryString() returns (s: string)
      ensures s == QueryString(properties)
    {
      var str: seq<string> := [];
      for i := 0 to |properties|
        invariant str == QueryPairs(properties[..i])
      {
        var (p, v) := properties[i];
        assert properties[..i + 1][..i] == properties[..i];
        if Truthy(v) {
          str := str + [Encode(p) + "=" + Encode(ToJsString(v))];
        }
      }
      assert properties[..|properties|] == properties;
      s := Join(str, "&");
    }
  }

  /** A pair is never empty: it holds at least its `=`. */
  lemma PairsNotEmpty(obj: seq<(string, JsValue)>)
    ensures forall i :: 0 <= i < |QueryPairs(obj)| ==> '=' in QueryPairs(obj)[i]
  {
    if obj != [] {
      PairsNotEmpty(obj[..|obj| - 1]);
      var (key, value) := obj[|obj| - 1];
      assert Pair(key, value)[|Encode(key)|] == '=';
    }
  }

  /** The pairs hold no `&`, since `encodeURIComponent` escapes it. */
  lemma PairsWithoutAmpersand(obj: seq<(string, JsValue)>)
    ensures forall i :: 0 <= i < |QueryPairs(obj)| ==> '&' !in QueryPairs(obj)[i]
  {
    if obj != [] {
      PairsWithoutAmpersand(obj[..|obj| - 1]);
      var (key, value) := obj[|obj| - 1];
      var k, v := Encode(key), Encode(ToJsString(value));
      assert Pair(key, value) == k + "=" + v;
      assert forall i :: 0 <= i < |k| ==> k[i] != '&';
      assert forall i :: 0 <= i < |v| ==> v[i] != '&';
    }
  }

  /** `toQueryString` gives `""` exactly when no property has a truthy value. */
  lemma {:induction false} EmptyQueryString(obj: seq<(string, JsValue)>)
    ensures QueryString(obj) == "" <==> forall i :: 0 <= i < |obj| ==> !Truthy(obj[i].1)
  {
    if obj != [] {
      var init := obj[..|obj| - 1];
      EmptyQueryString(init);
      PairsNotEmpty(obj);
      var pairs := QueryPairs(obj);
      assert forall i :: 0 <= i < |init| ==> init[i] == obj[i];
      if |pairs| >= 1 {
        assert pairs[0] != "";
        assert Join(pairs, "&") != "" by {
          if |pairs| > 1 {
            assert Join(pairs, "&") == pairs[0] + "&" + Join(pairs[1..], "&");
          }
        }
      }
    }
  }

  function EntryIfTruthy(key: string, value: JsValue): seq<(string, string)> {
    if Truthy(value) then [(key, ToJsString(value))] else []
  }

  /** The truthy properties, with their values as strings: what a query
      string carries. */
  function TruthyEntries(obj: seq<(string, JsValue)>): seq<(string, string)> {
    if obj == [] then [] else TruthyEntries(obj[..|obj| - 1]) + EntryIfTruthy(obj[|obj| - 1].0, obj[|obj| - 1].1)
  }

  /** One `key=value` piece, both halves percent-decoded. */
  function ParsePair(piece: string): Option<(string, string)> {
    var halves := Split(piece, '=');
    if |halves| != 2 then None
    else match (Decode(halves[0]), Decode(halves[1]))
      case (Some(k), Some(v)) => Some((k, v))
      case _ => None
  }

  function ParsePairs(pieces: seq<string>): Option<seq<(string, string)>> {
    if pieces == [] then Some([])
    else match (ParsePairs(pieces[..|pieces| - 1]), ParsePair(pieces[|pieces| - 1]))
      case (Some(init), Some(last)) => Some(init + [last])
      case _ => None
  }

  /** Reads a query string back into its decoded pairs. */
  function ParseQuery(q: string): Option<seq<(string, string)>> {
    if q == "" then Some([]) else ParsePairs(Split(q, '&'))
  }

  lemma ParseOnePair(key: string, value: JsValue)
    ensures ParsePair(Pair(key, value)) == Some((key, ToJsString(value)))
  {
    var k, v := Encode(key), Encode(ToJsString(value));
    assert '=' !in k by {
      assert forall i :: 0 <= i < |k| ==> k[i] != '=';
    }
    assert '=' !in v by {
      assert forall i :: 0 <= i < |v| ==> v[i] != '=';
    }
    assert Pair(key, value) == k + ['='] + v;
    SplitAtFirst(k, '=', v);
    SplitWithoutSeparator(v, '=');
    DecodeEncode(key);
    DecodeEncode(ToJsString(value));
  }

  /** One more property adds its pair exactly when its value is truthy. */
  lemma QueryPairsSnoc(obj: seq<(string, JsValue)>, key: string, value: JsValue)
    ensures QueryPairs(obj + [(key, value)]) == QueryPairs(obj) + PairIfTruthy(key, value)
    ensures TruthyEntries(obj + [(key, value)]) == TruthyEntries(obj) + EntryIfTruthy(key, value)
  {
    assert (obj + [(key, value)])[..|obj|] == obj;
  }

  /** Parsing one more piece appends its pair. */
  lemma ParsePairsSnoc(pieces: seq<string>, piece: string, entries: seq<(string, string)>, entry: (string, string))
    requires ParsePairs(pieces) == Some(entries) && ParsePair(piece) == Some(entry)
    ensures ParsePairs(pieces + [piece]) == Some(entries + [entry])
  {
    assert (pieces + [piece])[..|pieces|] == pieces;
  }

  lemma {:induction false} ParseAllPairs(obj: seq<(string, JsValue)>)
    ensures ParsePairs(QueryPairs(obj)) == Some(TruthyEntries(obj))
  {
    if obj != [] {
      var init := obj[..|obj| - 1];
      var (key, value) := obj[|obj| - 1];
      assert obj == init + [(key, value)];
      QueryPairsSnoc(init, key, value);
      ParseAllPairs(init);
      if Truthy(value) {
        ParseOnePair(key, value);
        ParsePairsSnoc(QueryPairs(init), Pair(key, value), TruthyEntries(init), (key, ToJsString(value)));
      } else {
        assert QueryPairs(obj) == QueryPairs(init);
        assert TruthyEntries(obj) == TruthyEntries(init);
      }
    }
  }

  /** Parsing a query string `toQueryString` wrote gives back every truthy
      property, in order, with its value as a string. */
  lemma QueryStringRoundTrip(obj: seq<(string, JsValue)>)
    ensures ParseQuery(QueryString(obj)) == Some(TruthyEntries(obj))
  {
    var pairs := QueryPairs(obj);
    ParseAllPairs(obj);
    if pairs == [] {
      assert QueryString(obj) == "";
      assert TruthyEntries(obj) == [] by {
        assert ParsePairs(pairs) == Some([]);
      }
    } else {
      PairsNotEmpty(obj);
      PairsWithoutAmpersand(obj);
      EmptyQueryString(obj);
      assert QueryString(obj) != "" by {
        assert pairs[0] != "";
        if |pairs| > 1 {
          assert Join(pairs, "&") == pairs[0] + "&" + Join(pairs[1..], "&");
        }
      }
      SplitJoin(pairs, '&');
    }
  }

  function PageHitFields(screenName: JsValue): Props {
    [("dp", screenName), ("t", Str("pageview"))]
  }

  function ScreenHitFields(screenName: JsValue): Props {
    [("cd", screenName), ("t", Str("screenview"))]
  }

  function EventFields(category: JsValue, action: JsValue, eventLabel: JsValue, value: JsValue): Props {
    [("ec", category), ("ea", action), ("el", eventLabel), ("ev", value), ("t", Str("event"))]
  }

  /** The pairs of a two-property record, property by property. */
  lemma QueryPairsOfTwo(p: (string, JsValue), q: (string, JsValue))
    ensures QueryPairs([p, q]) == PairIfTruthy(p.0, p.1) + PairIfTruthy(q.0, q.1)
  {
    QueryPairsSnoc([], p.0, p.1);
    QueryPairsSnoc([p], q.0, q.1);
    assert [p] + [q] == [p, q];
  }

  /** The pairs of a five-property record, property by property. */
  lemma QueryPairsOfFive(p: (string, JsValue), q: (string, JsValue), r: (string, JsValue),
                         s: (string, JsValue), t: (string, JsValue))
    ensures QueryPairs([p, q, r, s, t]) ==
      PairIfTruthy(p.0, p.1) + PairIfTruthy(q.0, q.1) + PairIfTruthy(r.0, r.1) +
      PairIfTruthy(s.0, s.1) + PairIfTruthy(t.0, t.1)
  {
    QueryPairsOfTwo(p, q);
    QueryPairsSnoc([p, q], r.0, r.1);
    assert [p, q] + [r] == [p, q, r];
    QueryPairsSnoc([p, q, r], s.0, s.1);
    assert [p, q, r] + [s] == [p, q, r, s];
    QueryPairsSnoc([p, q, r, s], t.0, t.1);
    assert [p, q, r, s] + [t] == [p, q, r, s, t];
  }

  /** An event's query string: a falsy category, action, label or value is
      left out, and the hit type always comes last. */
  lemma EventQuery(category: JsValue, action: JsValue, eventLabel: JsValue, value: JsValue)
    ensures QueryPairs(EventFields(category, action, eventLabel, value)) ==
      PairIfTruthy("ec", category) + PairIfTruthy("ea", action) +
      PairIfTruthy("el", eventLabel) + PairIfTruthy("ev", value) + [Pair("t", Str("event"))]
  {
    QueryPairsOfFive(("ec", category), ("ea", action), ("el", eventLabel), ("ev", value), ("t", Str("event")));
  }

  /** The query string of a two-property record whose second value is truthy. */
  lemma QueryStringOfTwo(p: (string, JsValue), q: (string, JsValue))
    requires Truthy(q.1)
    ensures QueryString([p, q]) == (if Truthy(p.1) then Pair(p.0, p.1) + "&" else "") + Pair(q.0, q.1)
  {
    QueryPairsOfTwo(p, q);
    var last := Pair(q.0, q.1);
    if Truthy(p.1) {
      assert QueryPairs([p, q]) == [Pair(p.0, p.1), last];
      assert Join([Pair(p.0, p.1), last], "&") == Pair(p.0, p.1) + "&" + Join([last], "&");
    } else {
      assert QueryPairs([p, q]) == [last];
    }
  }

  /** A page view carries its page name when that is truthy, then its type. */
  lemma PageHitQuery(screenName: JsValue)
    ensures QueryString(PageHitFields(screenName)) ==
      (if Truthy(screenName) then Pair("dp", screenName) + "&" else "") + Pair("t", Str("pageview"))
  {
    QueryStringOfTwo(("dp", screenName), ("t", Str("pageview")));
  }

  /** A screen view carries its screen name when that is truthy, then its type. */
  lemma ScreenHitQuery(screenName: JsValue)
    ensures QueryString(ScreenHitFields(screenName)) ==
      (if Truthy(screenName) then Pair("cd", screenName) + "&" else "") + Pair("t", Str("screenview"))
  {
    QueryStringOfTwo(("cd", screenName), ("t", Str("screenview")));
  }

  /** A hit: a serialisable property record and whether it has been sent. */
  class Hit {
    var properties: Props
    var sent: bool

    /** `new Hit(props)`. */
    constructor(props: Option<Props>)
      ensures properties == (if props.Some? then props.value else []) && !sent
    {
      properties := if props.Some? then props.value else [];
      sent := false;
    }

    /** `new PageHit(screenName)`. */
    constructor PageHit(screenName: JsValue)
      ensures properties == PageHitFields(screenName) && !sent
    {
      properties := PageHitFields(screenName);
      sent := false;
    }

    /** `new ScreenHit(screenName)`. */
    constructor ScreenHit(screenName: JsValue)
      ensures properties == ScreenHitFields(screenName) && !sent
    {
      properties := ScreenHitFields(screenName);
      sent := false;
    }

    /** `new Event(category, action, eventLabel, value)`. */
    constructor Event(category: JsValue, action: JsValue, eventLabel: JsValue, value: JsValue)
      ensures properties == EventFields(category, action, eventLabel, value) && !sent
    {
      properties := EventFields(category, action, eventLabel, value);
      sent := false;
    }

    /** The inherited `toQueryString`. */
    method ToQueryString() returns (s: string)
      ensures s == QueryString(properties)
    {
      var serializable := new Serializable(Some(properties));
      s := serializable.ToQueryString();
    }
  }

  /** `obj[name] = value`: an existing property keeps its place, a new one goes last. */
  function SetProperty(obj: Props, name: string, value: JsValue): (r: Props)
    ensures |r| == if Get(obj, name).Some? then |obj| else |obj| + 1
    ensures forall i :: 0 <= i < |obj| ==> r[i].0 == obj[i].0
  {
    match IndexOfKey(obj, name)
    case Some(i) =>
      var r := obj[i := (name, value)];
      assert forall j :: 0 <= j < |r| ==> r[j].0 == obj[j].0;
      r
    case None =>
      obj + [(name, value)]
  }

  /** Where a property is found depends only on the property names. */
  lemma {:induction false} IndexOfSameKeys(a: Props, b: Props, key: string)
    requires |a| == |b| && forall i :: 0 <= i < |a| ==> a[i].0 == b[i].0
    ensures IndexOfKey(a, key) == IndexOfKey(b, key)
  {
    if a != [] && a[|a| - 1].0 != key {
      IndexOfSameKeys(a[..|a| - 1], b[..|b| - 1], key);
    }
  }

  /** `addParameter` sets exactly one property: `name` now reads `value`
      and every other name reads what it read before. */
  lemma SetPropertyLookups(obj: Props, name: string, value: JsValue)
    ensures Get(SetProperty(obj, name, value), name) == Some(value)
    ensures forall k :: k != name ==> Get(SetProperty(obj, name, value), k) == Get(obj, k)
  {
    var r := SetProperty(obj, name, value);
    match IndexOfKey(obj, name)
    case Some(i) =>
      forall k ensures IndexOfKey(r, k) == IndexOfKey(obj, k) {
        IndexOfSameKeys(r, obj, k);
      }
    case None =>
      assert r[..|obj|] == obj;
  }

  /** A custom-dimension array: `None` for a hole. */
  type Dimensions = seq<Option<string>>

  /** `customDimensions[index] = value`: the array grows with holes when needed. */
  function SetDimension(dims: Dimensions, index: nat, value: string): (r: Dimensions)
    ensures |r| == if index < |dims| then |dims| else index + 1
    ensures r[index] == Some(value)
    ensures forall j :: 0 <= j < |r| && j != index ==> r[j] == if j < |dims| then dims[j] else None
  {
    if index < |dims| then dims[index := Some(value)]
    else dims + seq(index - |dims|, _ => None) + [Some(value)]
  }

  /** `delete customDimensions[index]`: a hole, the length unchanged. */
  function ClearDimension(dims: Dimensions, index: nat): (r: Dimensions)
    ensures |r| == |dims|
    ensures index < |r| ==> r[index].None?
    ensures forall j :: 0 <= j < |r| && j != index ==> r[j] == dims[j]
  {
    if index < |dims| then dims[index := None] else dims
  }

  /** Slot `i` of the dimension string: `cd{i}={value}`, empty for a hole. */
  function DimensionSlots(dims: Dimensions): (r: seq<string>)
    ensures |r| == |dims|
  {
    seq(|dims|, i requires 0 <= i < |dims| =>
      if dims[i].Some? then "cd" + NumberToString(i) + "=" + dims[i].value else "")
  }

  function DimensionString(dims: Dimensions): string {
    Join(DimensionSlots(dims), "&")
  }

  /** When no value holds `&`, splitting the dimension string at `&` gives
      back exactly one slot per array index: holes stay empty, set indices
      keep their `cd{i}=` slot. */
  lemma DimensionSlotsRoundTrip(dims: Dimensions)
    requires |dims| >= 1
    requires forall i :: 0 <= i < |dims| && dims[i].Some? ==> '&' !in dims[i].value
    ensures Split(DimensionString(dims), '&') == DimensionSlots(dims)
  {
    var slots := DimensionSlots(dims);
    forall i | 0 <= i < |slots| ensures '&' !in slots[i] {
      if dims[i].Some? {
        var numeral := NumberToString(i);
        assert '&' !in numeral by {
          assert forall j :: 0 <= j < |numeral| ==> numeral[j] != '&';
        }
        assert slots[i] == "cd" + numeral + "=" + dims[i].value;
      }
    }
    SplitJoin(slots, '&');
  }

  /** The client: its property id, user agent, extra parameters and custom dimensions. */
  class Client {
    const propertyId: string
    const userAgent: string
    var parameters: Props
    var customDimensions: Dimensions

    /** `new Analytics(propertyId, additionalParameters)`, minus the client id lookup. */
    constructor(propertyId: string, additionalParameters: Props, userAgent: string)
      ensures this.propertyId == propertyId && this.userAgent == userAgent
      ensures parameters == additionalParameters && customDimensions == []
    {
      this.propertyId := propertyId;
      this.userAgent := userAgent;
      parameters := additionalParameters;
      customDimensions := [];
    }

    /** `addParameter`. */
    method AddParameter(name: string, value: JsValue)
      modifies this`parameters
      ensures parameters == SetProperty(old(parameters), name, value)
    {
      parameters := SetProperty(parameters, name, value);
    }

    /** `addCustomDimension`. */
    method AddCustomDimension(index: nat, value: string)
      modifies this`customDimensions
      ensures customDimensions == SetDimension(old(customDimensions), index, value)
    {
      customDimensions := SetDimension(customDimensions, index, value);
    }

    /** `removeCustomDimension`. */
    method RemoveCustomDimension(index: nat)
      modifies this`customDimensions
      ensures customDimensions == ClearDimension(old(customDimensions), index)
    {
      customDimensions := ClearDimension(customDimensions, index);
    }

    /** The two query fragments `send` builds from the client's own state. */
    method SendFragments() returns (params: string, dimensions: string)
      ensures params == QueryString(parameters)
      ensures dimensions == DimensionString(customDimensions)
    {
      var serializable := new Serializable(Some(parameters));
      params := serializable.ToQueryString();
      dimensions := DimensionString(customDimensions);
    }
  }
}
