/**
  The records the content script, the popup and the storage area exchange:
  per-property metadata, the global controls, what `chrome.storage.local`
  holds and the runtime messages between popup and content script.
*/
module Protocol {
  import opened Wrappers

  /** A property's user state. A field absent from the stored object is `None`. */
  datatype Metadata = Metadata(hidden: Option<bool>, notes: Option<string>)

  /** The record `getMetadata` creates for a property seen for the first time. */
  const DefaultMetadata := Metadata(Some(false), Some(""))

  /** `Object.keys(value).length`. */
  function FieldCount(m: Metadata): (n: nat)
    ensures n <= 2
    ensures n == 0 <==> m.hidden.None? && m.notes.None?
  {
    (if m.hidden.Some? then 1 else 0) + (if m.notes.Some? then 1 else 0)
  }

  /** `metadata.hidden === true` (also the truthiness of `metadata.hidden`). */
  predicate ManuallyHidden(m: Metadata) {
    m.hidden == Some(true)
  }

  /** Process-wide settings, shared by the popup and the content script. */
  datatype GlobalControls = GlobalControls(hiddenEnabled: bool, hideList: seq<string>)

  /** The value `readStorage` falls back to when nothing is stored. */
  const DefaultControls := GlobalControls(true, [])

  /** A value held by the storage area. */
  datatype StoredValue =
    | PropertiesRecord(properties: map<string, Metadata>)
    | ControlsRecord(controls: GlobalControls)

  /** `chrome.storage.local`, reduced to the keys this extension writes. */
  type StorageArea = map<string, StoredValue>

  const PropertiesKey := "properties"
  const ControlsKey := "global-controls"

  /** Runtime messages the popup sends to the content script. */
  datatype Message = GetHiddenCount | SettingsUpdated(settings: GlobalControls)

  /** The content script's answer to `getHiddenCount`. */
  datatype Response = HiddenCountResponse(count: nat)
}
