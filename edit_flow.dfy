/**
 * What the home screen's sheets do with the event the form hands back: a new
 * event is added to the store, an edited or soft-deleted one goes through
 * `update`, and the list is reloaded and filtered.
 */
module EditFlow {
  import opened Wrappers
  import opened CivilCalendar
  import opened EventModel
  import opened EventService
  import opened HomeView
  import opened AddEventView

  /** A new event saved from the form shows up under "all" once it is added. */
  lemma AddedEventIsListed(events: seq<Event>, form: FormState, freshId: string, now: Instant)
    requires SaveEnabled(form)
    ensures var saved := SaveTapped(None, form, freshId, now).value;
      saved in FilteredEvents(events + [saved], All)
  {
    var saved := SaveTapped(None, form, freshId, now).value;
    assert (events + [saved])[|events|] == saved;
  }

  /**
   * Deleting from the edit form keeps the record in storage, marked deleted,
   * and no list shown afterwards has an event with its id.
   */
  lemma SoftDeleteHidesEvent(events: seq<Event>, edited: Event, now: Instant, filter: AnniversaryFilter)
    requires UniqueIds(events) && edited in events
    ensures var deleted := DeleteTapped(Some(edited), now).value;
      FirstIndexWithId(events, edited.id).Some?
      && var after := ReplaceFirstWithId(events, deleted);
         |after| == |events| && deleted in after
         && forall i :: 0 <= i < |FilteredEvents(after, filter)| ==> FilteredEvents(after, filter)[i].id != edited.id
  {
    var deleted := DeleteTapped(Some(edited), now).value;
    var k :| 0 <= k < |events| && events[k] == edited;
    var index := FirstIndexWithId(events, edited.id).value;
    var after := ReplaceFirstWithId(events, deleted);
    var shown := FilteredEvents(after, filter);
    forall i | 0 <= i < |shown|
      ensures shown[i].id != edited.id
    {
      var j :| 0 <= j < |after| && after[j] == shown[i];
      if j != index {
        assert after[j] == events[j];
      }
    }
  }
}
