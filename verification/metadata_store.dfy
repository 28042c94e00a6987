/**
  The identity and metadata store of the content script as values: the
  get-or-insert of `getMetadata`, the updates of `toggleHideCard`,
  `saveNotes` and `addToHideAreaList`, and what `writeStorage` and
  `readStorage` put into and take out of the storage area.
*/
module MetadataStore {
  import opened Wrappers
  import opened JsStrings
  import opened Protocol

  /** The record `getMetadata` returns for `key`: the stored one, or a fresh default. */
  function MetadataOrDefault(props: map<string, Metadata>, key: string): Metadata {
    if key in props then props[key] else DefaultMetadata
  }

  /** The map after `getMetadata`: a missing key gets the default record,
      an existing record is kept, and no other key is touched. */
  function EnsureMetadata(props: map<string, Metadata>, key: string): (r: map<string, Metadata>)
    ensures r.Keys == props.Keys + {key}
    ensures key in props ==> r == props
    ensures key !in props ==> r[key] == DefaultMetadata
    ensures forall k :: k in props ==> r[k] == props[k]
  {
    if key in props then props else props[key := DefaultMetadata]
  }

  /** The map after `getMetadata` has run for every key in `keys`. */
  function WithDefaults(props: map<string, Metadata>, keys: set<string>): (r: map<string, Metadata>)
    ensures r.Keys == props.Keys + keys
  {
    map k | k in props.Keys + keys :: MetadataOrDefault(props, k)
  }

  /** Inserting defaults never changes what `getMetadata` returns. */
  lemma WithDefaultsKeepsLookups(props: map<string, Metadata>, keys: set<string>, k: string)
    ensures MetadataOrDefault(WithDefaults(props, keys), k) == MetadataOrDefault(props, k)
  {
  }

  /** One more `getMetadata` on top of a batch of them. */
  lemma EnsureAfterDefaults(props: map<string, Metadata>, keys: set<string>, key: string)
    ensures EnsureMetadata(WithDefaults(props, keys), key) == WithDefaults(props, keys + {key})
  {
    var l, r := EnsureMetadata(WithDefaults(props, keys), key), WithDefaults(props, keys + {key});
    assert l.Keys == r.Keys;
    forall k | k in l ensures l[k] == r[k] {
    }
  }

  /** Two batches of `getMetadata` are one batch over both key sets. */
  lemma WithDefaultsTwice(props: map<string, Metadata>, a: set<string>, b: set<string>)
    ensures WithDefaults(WithDefaults(props, a), b) == WithDefaults(props, a + b)
  {
    var l, r := WithDefaults(WithDefaults(props, a), b), WithDefaults(props, a + b);
    forall k | k in l ensures l[k] == r[k] {
      WithDefaultsKeepsLookups(props, a, k);
    }
  }

  /** `metadata.hidden = !metadata.hidden`. */
  function Toggled(m: Metadata): (r: Metadata)
    ensures ManuallyHidden(r) <==> !ManuallyHidden(m)
    ensures r.hidden.Some? && r.notes == m.notes
  {
    m.(hidden := Some(!ManuallyHidden(m)))
  }

  /** Toggling twice restores the hidden state of a record that has one. */
  lemma ToggleTwice(m: Metadata)
    requires m.hidden.Some?
    ensures Toggled(Toggled(m)) == m
  {
    if m.hidden.value {
      assert Toggled(m).hidden == Some(false);
    } else {
      assert Toggled(m).hidden == Some(true);
    }
  }

  /** No value occurs twice. */
  predicate NoDuplicates(xs: seq<string>) {
    forall i, j :: 0 <= i < j < |xs| ==> xs[i] != xs[j]
  }

  /** `addToHideAreaList`'s update of the hide list: the lower-cased name is
      appended unless it is already there. */
  function AddArea(hideList: seq<string>, name: string): (r: seq<string>)
    ensures ToLowerCase(name) in r
    ensures forall t :: t in r <==> t in hideList || t == ToLowerCase(name)
    ensures |hideList| <= |r| <= |hideList| + 1 && r[..|hideList|] == hideList
    ensures ToLowerCase(name) in hideList ==> r == hideList
    ensures NoDuplicates(hideList) ==> NoDuplicates(r)
  {
    var term := ToLowerCase(name);
    if term in hideList then hideList else hideList + [term]
  }

  /** A second call with the same name, in any case, changes nothing. */
  lemma AddAreaIdempotent(hideList: seq<string>, name: string, again: string)
    requires ToLowerCase(again) == ToLowerCase(name)
    ensures AddArea(AddArea(hideList, name), again) == AddArea(hideList, name)
  {
  }

  /** The records `writeStorage` keeps: those with at least one field, unchanged. */
  function NonEmptyRecords(props: map<string, Metadata>): (r: map<string, Metadata>)
    ensures forall k :: k in r <==> k in props && FieldCount(props[k]) > 0
    ensures forall k :: k in r ==> r[k] == props[k]
  {
    map k | k in props && FieldCount(props[k]) > 0 :: props[k]
  }

  /** Records created by `getMetadata` have both fields, so a map of them is kept whole. */
  lemma NonEmptyRecordsKeepsCreated(props: map<string, Metadata>)
    requires forall k :: k in props ==> props[k].hidden.Some?
    ensures NonEmptyRecords(props) == props
  {
  }

  /** The storage area after `writeStorage`: one `set` with the filtered
      properties and the global controls; other keys are untouched. */
  function Persisted(storage: StorageArea, props: map<string, Metadata>, controls: GlobalControls): StorageArea {
    storage[PropertiesKey := PropertiesRecord(NonEmptyRecords(props))][ControlsKey := ControlsRecord(controls)]
  }

  /** `data.properties || {}` in `readStorage`. */
  function StoredProperties(storage: StorageArea): map<string, Metadata> {
    if PropertiesKey in storage && storage[PropertiesKey].PropertiesRecord? then storage[PropertiesKey].properties
    else map[]
  }

  /** The global controls `readStorage` ends with: the stored record, or the defaults. */
  function StoredControls(storage: StorageArea): GlobalControls {
    if ControlsKey in storage && storage[ControlsKey].ControlsRecord? then storage[ControlsKey].controls
    else DefaultControls
  }

  /** Reading back what was written gives the non-empty records and the
      controls, and keys of the storage area this extension does not use
      keep their values. */
  lemma PersistRoundTrip(storage: StorageArea, props: map<string, Metadata>, controls: GlobalControls)
    ensures StoredProperties(Persisted(storage, props, controls)) == NonEmptyRecords(props)
    ensures StoredControls(Persisted(storage, props, controls)) == controls
    ensures forall k :: k in storage && k != PropertiesKey && k != ControlsKey ==>
      k in Persisted(storage, props, controls) && Persisted(storage, props, controls)[k] == storage[k]
  {
    assert PropertiesKey != ControlsKey;
  }

  /** `writeStorage`'s loop over `Object.entries(propertyMetadata)`. */
  method FilterNonEmpty(props: map<string, Metadata>) returns (filtered: map<string, Metadata>)
    ensures forall k :: k in filtered <==> k in props && FieldCount(props[k]) > 0
    ensures forall k :: k in filtered ==> filtered[k] == props[k]
  {
    filtered := map[];
    var remaining := props.Keys;
    while remaining != {}
      invariant remaining <= props.Keys
      invariant forall k :: k in filtered <==> k in props && k !in remaining && FieldCount(props[k]) > 0
      invariant forall k :: k in filtered ==> filtered[k] == props[k]
      decreases remaining
    {
      var key :| key in remaining;
      if FieldCount(props[key]) > 0 {
        filtered := filtered[key := props[key]];
      }
      remaining := remaining - {key};
    }
  }
}
