/**
 * The parts of HomeView that decide what is shown: the event list under the
 * selected segment, and the partner's avatar image and whether it can be edited.
 */
module HomeView {
  import opened Wrappers
  import opened Seqs
  import opened EventModel

  /** The segments above the list. */
  datatype AnniversaryFilter = All | AnniversaryOnly | EventOnly

  /** The segment's raw value, which is also its title. */
  function Title(filter: AnniversaryFilter): (title: string)
    ensures title != []
  {
    match filter
    case All => "全て"
    case AnniversaryOnly => "記念日"
    case EventOnly => "イベント"
  }

  /** The segment titles tell the segments apart. */
  lemma TitlesDistinct(a: AnniversaryFilter, b: AnniversaryFilter)
    requires Title(a) == Title(b)
    ensures a == b
  {
  }

  /** Whether an event of type `t` belongs under `filter`. */
  predicate Admits(filter: AnniversaryFilter, t: EventType) {
    match filter
    case All => true
    case AnniversaryOnly => t == Anniversary
    case EventOnly => t == PlainEvent
  }

  /** The events not soft-deleted, in stored order (`alive`). */
  function Alive(events: seq<Event>): seq<Event> {
    Filter(events, (e: Event) => !e.isDeleted)
  }

  function OfType(events: seq<Event>, t: EventType): seq<Event> {
    Filter(events, (e: Event) => e.eventType == t)
  }

  /** `filteredEvents`: drops soft-deleted events, then keeps the selected type. */
  function FilteredEvents(events: seq<Event>, filter: AnniversaryFilter): (shown: seq<Event>)
    ensures |shown| <= |events|
    ensures forall i :: 0 <= i < |shown| ==>
      shown[i] in events && !shown[i].isDeleted && Admits(filter, shown[i].eventType)
    ensures forall i :: 0 <= i < |events| && !events[i].isDeleted && Admits(filter, events[i].eventType) ==>
      events[i] in shown
  {
    var alive := Alive(events);
    match filter
    case All => alive
    case AnniversaryOnly => OfType(alive, Anniversary)
    case EventOnly => OfType(alive, PlainEvent)
  }

  /** Every list shown is the stored list with some events left out, order kept. */
  lemma FilteredIsSubsequence(events: seq<Event>, filter: AnniversaryFilter)
    ensures IsSubsequence(FilteredEvents(events, filter), events)
  {
    FilterIsSubsequence(events, (e: Event) => !e.isDeleted);
    if filter != All {
      var t := if filter == AnniversaryOnly then Anniversary else PlainEvent;
      FilterIsSubsequence(Alive(events), (e: Event) => e.eventType == t);
      SubsequenceTransitive(FilteredEvents(events, filter), Alive(events), events);
    }
  }

  /** A shown list holds each admitted live event exactly as often as it is stored, and nothing else. */
  lemma FilteredCounts(events: seq<Event>, filter: AnniversaryFilter, e: Event)
    ensures multiset(FilteredEvents(events, filter))[e] ==
      if !e.isDeleted && Admits(filter, e.eventType) then multiset(events)[e] else 0
  {
    FilterCounts(events, (x: Event) => !x.isDeleted, e);
    if filter != All {
      var t := if filter == AnniversaryOnly then Anniversary else PlainEvent;
      FilterCounts(Alive(events), (x: Event) => x.eventType == t, e);
    }
  }

  /** With nothing soft-deleted, "all" shows the stored list unchanged. */
  lemma AllShowsEverythingAlive(events: seq<Event>)
    requires forall i :: 0 <= i < |events| ==> !events[i].isDeleted
    ensures FilteredEvents(events, All) == events
  {
    FilterKeepsAll(events, (e: Event) => !e.isDeleted);
  }

  /** The anniversary and event segments split the "all" segment between them. */
  lemma SegmentsPartitionAll(events: seq<Event>)
    ensures multiset(FilteredEvents(events, AnniversaryOnly)) + multiset(FilteredEvents(events, EventOnly))
            == multiset(FilteredEvents(events, All))
    ensures |FilteredEvents(events, AnniversaryOnly)| + |FilteredEvents(events, EventOnly)| == |FilteredEvents(events, All)|
  {
    var alive := Alive(events);
    FilterPartition(alive, (e: Event) => e.eventType == Anniversary, (e: Event) => e.eventType == PlainEvent);
    assert |multiset(FilteredEvents(events, AnniversaryOnly))| + |multiset(FilteredEvents(events, EventOnly))|
           == |multiset(alive)|;
  }

  /** An image handle; image loading is not modelled. */
  datatype Image = Image(name: string)

  /** The two images of a `User` that this screen reads. */
  datatype User = User(iconImage: Option<Image>, partnerIconImage: Option<Image>)

  /** `partnerUser?.iconImage`. */
  function PartnerIcon(partnerUser: Option<User>): Option<Image> {
    if partnerUser.Some? then partnerUser.value.iconImage else None
  }

  /**
   * `displayPartnerImage`: the partner's own icon, else the partner icon stored
   * with this user, else the image picked in this session.
   */
  function DisplayPartnerImage(partnerUser: Option<User>, user: User, tempPartnerImage: Option<Image>): (image: Option<Image>)
    ensures PartnerIcon(partnerUser).Some? ==> image == PartnerIcon(partnerUser)
    ensures PartnerIcon(partnerUser).None? && user.partnerIconImage.Some? ==> image == user.partnerIconImage
    ensures PartnerIcon(partnerUser).None? && user.partnerIconImage.None? ==> image == tempPartnerImage
    ensures image.None? <==> PartnerIcon(partnerUser).None? && user.partnerIconImage.None? && tempPartnerImage.None?
  {
    PartnerIcon(partnerUser).OrElse(user.partnerIconImage).OrElse(tempPartnerImage)
  }

  /** `isEditable` of the partner avatar. */
  predicate PartnerAvatarEditable(partnerUser: Option<User>, user: User) {
    partnerUser.None? && user.partnerIconImage.None?
  }

  /** The avatar's `onTap`: opens the image picker only when the avatar is editable. */
  function TapPartnerAvatar(partnerUser: Option<User>, user: User, showPicker: bool): (showPickerAfter: bool)
    ensures showPickerAfter <==> showPicker || PartnerAvatarEditable(partnerUser, user)
    ensures !showPicker ==> (showPickerAfter <==> partnerUser.None? && user.partnerIconImage.None?)
  {
    if !(partnerUser.None? && user.partnerIconImage.None?) then showPicker
    else true
  }

  /** While the avatar is editable it shows the picked image; once a partner icon exists, picking changes nothing shown. */
  lemma EditableAvatarShowsPickedImage(partnerUser: Option<User>, user: User, picked: Option<Image>, other: Option<Image>)
    ensures PartnerAvatarEditable(partnerUser, user) ==> DisplayPartnerImage(partnerUser, user, picked) == picked
    ensures PartnerIcon(partnerUser).Some? || user.partnerIconImage.Some? ==>
      DisplayPartnerImage(partnerUser, user, picked) == DisplayPartnerImage(partnerUser, user, other)
  {
  }
}
