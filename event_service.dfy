/**
 * EventService: the list of events kept under one storage key. Every
 * operation reads the whole list, changes its copy and writes the whole list
 * back. The key-value store and the JSON coder are not modelled: the stored
 * value is either missing, undecodable, or a decoded list, and whether
 * encoding succeeds is a parameter of every write.
 */
module EventService {
  import opened Wrappers
  import opened Seqs
  import opened EventModel

  /** What is stored under the events key. */
  datatype Storage = Missing | Undecodable | Stored(events: seq<Event>)

  /** What `load()` makes of the stored value: the decoded list, or the empty list. */
  function Decoded(storage: Storage): (events: seq<Event>)
    ensures storage.Stored? ==> events == storage.events
    ensures !storage.Stored? ==> events == []
  {
    if storage.Stored? then storage.events else []
  }

  /** `firstIndex(where: { $0.id == id })`: the position of the first event with that id. */
  function FirstIndexWithId(events: seq<Event>, id: string): (r: Option<nat>)
    ensures r.Some? ==>
      r.value < |events| && events[r.value].id == id && forall j :: 0 <= j < r.value ==> events[j].id != id
    ensures r.None? ==> forall j :: 0 <= j < |events| ==> events[j].id != id
  {
    if events == [] then None
    else if events[0].id == id then Some(0)
    else match FirstIndexWithId(events[1..], id)
      case None => None
      case Some(i) => Some(i + 1)
  }

  /** The list `update(event)` saves: `event` in place of the first event with its id. */
  function ReplaceFirstWithId(events: seq<Event>, event: Event): (r: seq<Event>)
    requires FirstIndexWithId(events, event.id).Some?
    ensures |r| == |events|
    ensures r[FirstIndexWithId(events, event.id).value] == event
    ensures forall j :: 0 <= j < |events| && j != FirstIndexWithId(events, event.id).value ==> r[j] == events[j]
  {
    events[FirstIndexWithId(events, event.id).value := event]
  }

  /** The list `delete(event)` saves: `removeAll { $0.id == id }`. */
  function RemoveAllWithId(events: seq<Event>, id: string): (r: seq<Event>)
    ensures forall i :: 0 <= i < |r| ==> r[i].id != id
  {
    Filter(events, (e: Event) => e.id != id)
  }

  /** Removal keeps every event with another id, as often as it occurs and in its original order. */
  lemma RemoveKeepsOthers(events: seq<Event>, id: string)
    ensures IsSubsequence(RemoveAllWithId(events, id), events)
    ensures forall e: Event :: e.id != id ==> multiset(RemoveAllWithId(events, id))[e] == multiset(events)[e]
  {
    FilterIsSubsequence(events, (e: Event) => e.id != id);
    forall e: Event | e.id != id
      ensures multiset(RemoveAllWithId(events, id))[e] == multiset(events)[e]
    {
      FilterCounts(events, (e: Event) => e.id != id, e);
    }
  }

  /** Removing an id that no event has changes nothing. */
  lemma RemoveAbsentId(events: seq<Event>, id: string)
    requires FirstIndexWithId(events, id).None?
    ensures RemoveAllWithId(events, id) == events
  {
    FilterKeepsAll(events, (e: Event) => e.id != id);
  }

  /** No two events share an id. */
  predicate UniqueIds(events: seq<Event>) {
    forall i, j :: 0 <= i < j < |events| ==> events[i].id != events[j].id
  }

  /** Adding an event whose id is new keeps the ids unique. */
  lemma AppendKeepsUniqueIds(events: seq<Event>, event: Event)
    requires UniqueIds(events) && FirstIndexWithId(events, event.id).None?
    ensures UniqueIds(events + [event])
  {
  }

  /** Replacing an event by one with the same id keeps the ids unique. */
  lemma ReplaceKeepsUniqueIds(events: seq<Event>, event: Event)
    requires UniqueIds(events) && FirstIndexWithId(events, event.id).Some?
    ensures UniqueIds(ReplaceFirstWithId(events, event))
  {
  }

  /** With unique ids, the event replaced is the only one with its id. */
  lemma ReplacedIsOnlyOneWithId(events: seq<Event>, event: Event, j: nat)
    requires UniqueIds(events) && FirstIndexWithId(events, event.id).Some?
    requires j < |events| && ReplaceFirstWithId(events, event)[j].id == event.id
    ensures j == FirstIndexWithId(events, event.id).value
  {
  }

  class EventService {
    var storage: Storage

    /** The events `load()` would return now. */
    function Contents(): seq<Event>
      reads this
    {
      Decoded(storage)
    }

    constructor (initial: Storage)
      ensures storage == initial
    {
      storage := initial;
    }

    /** `load()`: the stored list, or `[]` when nothing is stored or it does not decode. */
    method Load() returns (events: seq<Event>)
      ensures storage.Stored? ==> events == storage.events
      ensures !storage.Stored? ==> events == []
    {
      match storage
      case Stored(es) => events := es;
      case _ => events := [];
    }

    /** `save(events)`: stores the list; when encoding fails nothing changes. */
    method Save(events: seq<Event>, encodeOk: bool)
      modifies this
      ensures storage == if encodeOk then Stored(events) else old(storage)
    {
      if !encodeOk {
        return;
      }
      storage := Stored(events);
    }

    /** `add(event)`: appends `event` to the loaded list and saves it. */
    method Add(event: Event, encodeOk: bool)
      modifies this
      ensures encodeOk ==> storage == Stored(old(Contents()) + [event])
      ensures !encodeOk ==> storage == old(storage)
    {
      var events := Load();
      events := events + [event];
      Save(events, encodeOk);
    }

    /**
     * `update(event)`: replaces the first loaded event with the same id and
     * saves; when no event has that id nothing is saved at all.
     */
    method Update(event: Event, encodeOk: bool)
      modifies this
      ensures FirstIndexWithId(old(Contents()), event.id).None? ==> storage == old(storage)
      ensures FirstIndexWithId(old(Contents()), event.id).Some? ==>
        storage == if encodeOk then Stored(ReplaceFirstWithId(old(Contents()), event)) else old(storage)
    {
      var events := Load();
      var index := FirstIndexWithId(events, event.id);
      if index.None? {
        return;
      }
      events := events[index.value := event];
      Save(events, encodeOk);
    }

    /** `delete(event)`: removes every loaded event with the same id and saves. */
    method Delete(event: Event, encodeOk: bool)
      modifies this
      ensures encodeOk ==> storage == Stored(RemoveAllWithId(old(Contents()), event.id))
      ensures !encodeOk ==> storage == old(storage)
    {
      var events := Load();
      events := RemoveAllWithId(events, event.id);
      Save(events, encodeOk);
    }
  }
}
