/**
 * The `Event` record as the add/edit form builds it, with its two kinds.
 * Ids, couple ids and user names are strings; dates are instants.
 */
module EventModel {
  import opened Wrappers
  import opened CivilCalendar

  /** `EventType`: `.anniversary` recurs every year, `.event` (here `PlainEvent`) happens once. */
  datatype EventType = Anniversary | PlainEvent

  datatype Event = Event(
    id: string,
    coupleId: string,
    eventType: EventType,
    title: string,
    eventDate: Instant,
    memo: Option<string>,
    createdBy: string,
    updatedBy: string,
    updatedAt: Instant,
    isDeleted: bool)
}
