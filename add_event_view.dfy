/**
 * AddEventView: the add/edit form. Its initial state comes from the event
 * being edited, if any; the Save and Delete buttons build the `Event` handed
 * to `onSave`. The fresh id and the current time are parameters.
 */
module AddEventView {
  import opened Wrappers
  import opened CivilCalendar
  import opened EventModel

  /** The form's editable state. */
  datatype FormState = FormState(eventType: EventType, title: string, date: Instant, memo: string)

  /** The user name the form writes into the audit fields. */
  const Me: string := "me"

  /** `init`: a new event starts as an untitled anniversary dated now; an edited event fills the form with its fields. */
  function InitialForm(event: Option<Event>, now: Instant): (form: FormState)
    ensures event.None? ==> form == FormState(Anniversary, "", now, "")
    ensures event.Some? ==>
      form.eventType == event.value.eventType && form.title == event.value.title
      && form.date == event.value.eventDate
      && (event.value.memo.Some? ==> form.memo == event.value.memo.value)
      && (event.value.memo.None? ==> form.memo == "")
  {
    FormState(
      if event.Some? then event.value.eventType else Anniversary,
      if event.Some? then event.value.title else "",
      if event.Some? then event.value.eventDate else now,
      if event.Some? then event.value.memo.GetOr("") else "")
  }

  /** `.disabled(title.isEmpty)` on the Save button. */
  predicate SaveEnabled(form: FormState) {
    form.title != ""
  }

  /**
   * The Save button: the form's fields under the edited event's identity, or
   * under `freshId` for a new event; `None` while the button is disabled.
   */
  function SaveTapped(event: Option<Event>, form: FormState, freshId: string, now: Instant): (saved: Option<Event>)
    ensures saved.Some? <==> SaveEnabled(form)
    ensures saved.Some? ==>
      var e := saved.value;
      e.title != "" && !e.isDeleted && e.updatedBy == Me && e.updatedAt == now
      && e.eventType == form.eventType && e.title == form.title && e.eventDate == form.date
      && (e.memo.None? <==> form.memo == "") && (e.memo.Some? ==> e.memo.value == form.memo)
    ensures saved.Some? && event.Some? ==>
      saved.value.id == event.value.id && saved.value.coupleId == event.value.coupleId
      && saved.value.createdBy == event.value.createdBy
    ensures saved.Some? && event.None? ==>
      saved.value.id == freshId && saved.value.coupleId == "" && saved.value.createdBy == Me
  {
    if !SaveEnabled(form) then None
    else Some(Event(
      id := if event.Some? then event.value.id else freshId,
      coupleId := if event.Some? then event.value.coupleId else "",
      eventType := form.eventType,
      title := form.title,
      eventDate := form.date,
      memo := if form.memo == "" then None else Some(form.memo),
      createdBy := if event.Some? then event.value.createdBy else Me,
      updatedBy := Me,
      updatedAt := now,
      isDeleted := false))
  }

  /**
   * The Delete button, shown only while editing: the edited event as it was
   * stored, marked deleted and stamped as updated by this user now.
   */
  function DeleteTapped(event: Option<Event>, now: Instant): (deleted: Option<Event>)
    ensures deleted.Some? <==> event.Some?
    ensures deleted.Some? ==>
      deleted.value == event.value.(updatedBy := Me, updatedAt := now, isDeleted := true)
  {
    if event.None? then None
    else
      var e := event.value;
      Some(Event(
        id := e.id,
        coupleId := e.coupleId,
        eventType := e.eventType,
        title := e.title,
        eventDate := e.eventDate,
        memo := e.memo,
        createdBy := e.createdBy,
        updatedBy := Me,
        updatedAt := now,
        isDeleted := true))
  }

  /** Opening an event for editing and saving it untouched gives the same event, restamped and live. */
  lemma SaveUnchangedEdit(event: Event, openedAt: Instant, freshId: string, now: Instant)
    requires event.title != "" && event.memo != Some("")
    ensures SaveTapped(Some(event), InitialForm(Some(event), openedAt), freshId, now)
            == Some(event.(updatedBy := Me, updatedAt := now, isDeleted := false))
  {
  }
}
