/**
  The filter of the results-container mutation observer: only batches in
  which some `childList` record adds or removes nodes lead to `initCards`.
*/
module Observer {
  /** The `type` of a mutation record. */
  datatype MutationKind = ChildList | Attributes | CharacterData

  /** A mutation record: its type and the lengths of its added and removed node lists. */
  datatype MutationRecord = MutationRecord(kind: MutationKind, addedNodes: nat, removedNodes: nat)

  /** A record that adds or removes children. */
  predicate Relevant(m: MutationRecord) {
    m.kind == ChildList && (m.addedNodes > 0 || m.removedNodes > 0)
  }

  /** `mutations.some(...)`, scanning from the first record. */
  function HasRelevantChanges(ms: seq<MutationRecord>): (r: bool)
    ensures r <==> exists i :: 0 <= i < |ms| && Relevant(ms[i])
  {
    if ms == [] then false
    else if Relevant(ms[0]) then true
    else
      var rest := HasRelevantChanges(ms[1..]);
      assert forall i :: 1 <= i < |ms| ==> ms[i] == ms[1..][i - 1];
      rest
  }
}
