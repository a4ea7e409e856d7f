/**
 * The front end's reference store, `src/atoms/referencesState.ts`: a record
 * from reference id to reference item that `setReferencesAtom` replaces
 * wholesale, read through `getReferencesAtom` and `getDerivedReferenceAtom`.
 */
module ReferencesState {
  import opened Wrappers
  import opened KeyedIndex

  /** A reference item as the front end holds it: its id and its other fields by name. */
  datatype ReferenceItem = ReferenceItem(id: string, fields: map<string, string>)

  function ItemId(r: ReferenceItem): string {
    r.id
  }

  function Ids(references: seq<ReferenceItem>): set<string> {
    KeySet(references, ItemId)
  }

  /** Every entry of the record is filed under its own item's id. */
  ghost predicate KeyedById(d: OrderedDict<ReferenceItem>) {
    && WellFormed(d)
    && forall k :: k in d.entries ==> d.entries[k].id == k
  }

  /** The record `setReferencesAtom` builds keys every item by its own id. */
  lemma {:induction false} FromListKeyedById(references: seq<ReferenceItem>)
    ensures KeyedById(FromSeq(references, ItemId))
  {
    if references != [] {
      FromListKeyedById(references[..|references| - 1]);
    }
  }

  /** After setting a list, an id can be looked up exactly when the list carries it, and it finds the LAST item with that id. */
  lemma LookupAfterSet(references: seq<ReferenceItem>, referenceId: string)
    ensures referenceId in FromSeq(references, ItemId).entries <==> exists i :: 0 <= i < |references| && references[i].id == referenceId
    ensures forall i :: 0 <= i < |references| && references[i].id == referenceId ==>
      (forall j :: i < j < |references| ==> references[j].id != referenceId) ==>
      FromSeq(references, ItemId).entries[referenceId] == references[i]
  {
    forall i | 0 <= i < |references| && references[i].id == referenceId
      && (forall j :: i < j < |references| ==> references[j].id != referenceId)
      ensures FromSeq(references, ItemId).entries[referenceId] == references[i]
    {
      LastOccurrenceWins(references, ItemId, i);
    }
    if referenceId in FromSeq(references, ItemId).entries {
      assert referenceId in Ids(references);
    }
  }

  /** The values of a record keyed by id carry the record's keys, in order, as their ids. */
  lemma KeyedValuesIds(d: OrderedDict<ReferenceItem>)
    requires KeyedById(d)
    ensures UniqueKeys(Values(d), ItemId)
  {
    var vs := Values(d);
    assert forall i :: 0 <= i < |vs| ==> vs[i].id == d.keys[i];
  }

  /** The list of all references holds one item per distinct id of the list that was set, each taken from that list. */
  lemma OneItemPerId(references: seq<ReferenceItem>)
    ensures |Values(FromSeq(references, ItemId))| == |Ids(references)|
    ensures UniqueKeys(Values(FromSeq(references, ItemId)), ItemId)
    ensures forall r :: r in Values(FromSeq(references, ItemId)) ==> r in references
  {
    FromSeqKeyCount(references, ItemId);
    FromListKeyedById(references);
    KeyedValuesIds(FromSeq(references, ItemId));
    ValuesFromList(references);
  }

  lemma ValuesFromList(references: seq<ReferenceItem>)
    ensures forall r :: r in Values(FromSeq(references, ItemId)) ==> r in references
  {
    FromSeqEntriesFromList(references, ItemId);
  }

  /** A list with distinct ids comes back whole and in order. */
  lemma DistinctListRoundTrip(references: seq<ReferenceItem>)
    requires UniqueKeys(references, ItemId)
    ensures Values(FromSeq(references, ItemId)) == references
  {
    UniqueKeysValues(references, ItemId);
  }

  class ReferencesStore {
    var state: OrderedDict<ReferenceItem>

    ghost predicate Valid()
      reads this
    {
      KeyedById(state)
    }

    /** The store starts as the empty record. */
    constructor ()
      ensures state == Empty() && Valid()
    {
      state := Empty();
    }

    /** `setReferencesAtom`: build a fresh record, filing each item under its id in list order, then replace the state. */
    method SetReferences(references: seq<ReferenceItem>)
      modifies this`state
      ensures state == FromSeq(references, ItemId)
      ensures state.entries.Keys == Ids(references)
      ensures Valid()
    {
      var updated := Empty();
      var i := 0;
      while i < |references|
        invariant 0 <= i <= |references|
        invariant updated == FromSeq(references[..i], ItemId)
      {
        assert references[..i + 1][..i] == references[..i];
        updated := Put(updated, references[i].id, references[i]);
        i := i + 1;
      }
      assert references[..i] == references;
      state := updated;
      FromListKeyedById(references);
    }

    /** `getReferencesAtom`: the values of the record, one per stored id. */
    function GetReferences(): (items: seq<ReferenceItem>)
      requires Valid()
      reads this
      ensures |items| == |state.entries|
      ensures forall k :: k in state.entries ==> state.entries[k] in items
      ensures forall i :: 0 <= i < |items| ==> items[i].id in state.entries && state.entries[items[i].id] == items[i]
    {
      WellFormedSize(state);
      Values(state)
    }

    /** `getDerivedReferenceAtom`: the item stored under the id, or nothing. */
    function GetDerivedReference(referenceId: string): (r: Option<ReferenceItem>)
      requires Valid()
      reads this
      ensures r.None? <==> referenceId !in state.entries
      ensures r.Some? ==> r.value.id == referenceId && r.value == state.entries[referenceId]
    {
      if referenceId in state.entries then Some(state.entries[referenceId]) else None
    }
  }
}
