# YKD_Anniversary: date logic, row captions, event store and forms

This is a Dafny model of the deterministic core of YKD_Anniversary, an iOS app
where a couple keeps a list of anniversaries and one-off events. The model
covers five parts of the app:

- **Date arithmetic** (`EventDateLogic`). `DaysBetween` counts the whole days
  elapsed between two instants. `NextAnniversaryDate` finds the next yearly
  occurrence of an origin date that is not before `now`.
- **The row caption** (`EventRowView.subTitle`). A one-off event shows "today",
  "in N days" or "N days ago". An anniversary shows "today", "next in N days",
  or the days elapsed together with the days to the next occurrence.
- **The event store** (`EventService`). The app persists a whole list of events
  and rewrites it on every `add`, `update` (match by id) and `delete` (hard
  delete by id).
- **The home screen's list** (`HomeView`). Soft-deleted events are hidden, the
  rest are filtered by the selected segment, and the partner avatar uses a
  fallback chain of images.
- **The add/edit form** (`AddEventView`). The form is filled from the event
  being edited. Save and Delete build the `Event` handed back to the screen.

Instants are modelled in one fixed calendar: the proleptic Gregorian calendar
with no time zone and no daylight-saving time. An instant is a valid civil date
plus a second of the day (`CivilCalendar.Instant`). `Seconds` places it on one
timeline through a days-from-civil count, and `SecondsFollowCalendar` proves
that this timeline order is the calendar order.

`DaysBetween` counts elapsed whole days, not the difference of calendar dates.
The code asks Foundation for the `.day` component between two instants. That is
the number of whole days elapsed, truncated toward zero, and in the model's
calendar every day is 86400 seconds. So 23:00 on one day to 01:00 on the next
is 0 days.

February 29 policy: in a year without February 29, the anniversary of a
February 29 origin falls on March 1 (`EventDateLogic.Occurrence`). This is also
what Foundation's lenient construction makes of the components (year, 2, 29)
in such a year, so the source's current-year candidate is modelled exactly. The
source's next-year branch adds one year to that candidate, and Foundation clamps
2024-02-29 plus one year to 2025-02-28. That branch disagrees with the policy;
see Findings. The model's `NextAnniversaryDate` builds next year's occurrence
with the same policy. `AsWrittenAgreesOffLeapDay` proves that it agrees with
the source for every origin other than February 29.

Clocks and identities are parameters: `now` (the `Date()` the screen refreshes),
the fresh id (`UUID().uuidString`), and whether JSON encoding succeeds
(`encodeOk`). Storage is an abstract value: `Missing`, `Undecodable` or
`Stored(events)`.

Files: `calendar.dfy` (module `CivilCalendar`), `event_date_logic.dfy`
(`EventDateLogic`), `event.dfy` (`EventModel`, the `Event` record),
`event_row_view.dfy` (`EventRowView`), `event_service.dfy` (`EventService`,
with class `EventService`), `home_view.dfy` (`HomeView`), `add_event_view.dfy`
(`AddEventView`), `edit_flow.dfy` (`EditFlow`, how the home screen's sheets
combine the form and the store), `seqs.dfy` (`Seqs`, order-preserving filter)
and `wrappers.dfy` (`Wrappers`, Swift optionals).

## Model

| member | source | states |
|---|---|---|
| CivilCalendar.SecondsFollowCalendar | YKD_Anniversary/Logic/EventDateLogic.swift:42 | Comparing two instants on the timeline (`thisYear >= now`) is the same as comparing them by year, month, day and second. |
| CivilCalendar.YearLength | YKD_Anniversary/Logic/EventDateLogic.swift:29-39 | Year *y + 1* starts 366 days after year *y* when *y* is a Gregorian leap year, and 365 days after it otherwise. |
| CivilCalendar.DayWithinYear | YKD_Anniversary/Logic/EventDateLogic.swift:29 | Every valid date lies between the first day of its year and the first day of the next year, so `component(.year, from:)` names the year that contains the instant. |
| CivilCalendar.SameDayNextYear | YKD_Anniversary/Logic/EventDateLogic.swift:44 | The same month and day one year later is 365 days ahead, or 366 when a February 29 lies between the two. |
| CivilCalendar.DaysInCalendarOrder | YKD_Anniversary/Logic/EventDateLogic.swift:42 | A date that is earlier in the calendar has a smaller day number. |
| EventDateLogic.DaysBetween | YKD_Anniversary/Logic/EventDateLogic.swift:13-17 | The result is the number of whole days elapsed, truncated toward zero. It is at least 0 when `to` is not before `from`, with the elapsed seconds between *d* and *d+1* days. It is at most 0 when `to` is before `from`, with the same bounds for the seconds in the other direction. |
| EventDateLogic.DaysBetweenSelf | YKD_Anniversary/Logic/EventDateLogic.swift:13-17 | `daysBetween(d, d) == 0`. |
| EventDateLogic.DaysBetweenAntisymmetric | YKD_Anniversary/Logic/EventDateLogic.swift:13-17 | `daysBetween(a, b) == -daysBetween(b, a)`. |
| EventDateLogic.DaysBetweenSign | YKD_Anniversary/Logic/EventDateLogic.swift:13-17 | The count is positive iff `b` is at least one whole day after `a`, and negative iff it is at least one whole day before. It is 0 iff the two are less than a day apart. |
| EventDateLogic.Occurrence | YKD_Anniversary/Logic/EventDateLogic.swift:32-39 | The anniversary in a given year keeps the origin's month and day. A February 29 origin falls on February 29 in leap years and on March 1 in other years, as Foundation's lenient construction does. Its day number is the lenient reading of (year, month, day). |
| EventDateLogic.NextAnniversaryDate | YKD_Anniversary/Logic/EventDateLogic.swift:23-45 | The result is never before `now`. It is at the start of its day and is the origin's occurrence in its own year, so it has the origin's month and day for any origin other than February 29. Its year is `year(now)` iff this year's candidate is `>= now`, and `year(now) + 1` iff the candidate is earlier than `now`. |
| EventDateLogic.NextAnniversaryIsEarliest | YKD_Anniversary/Logic/EventDateLogic.swift:35-44 | No occurrence in any year that is not before `now` comes earlier than the result, so the result is the earliest such occurrence. |
| EventDateLogic.EarlierYearOccurrencePassed | YKD_Anniversary/Logic/EventDateLogic.swift:42-44 | Occurrences in years before `year(now)` are all earlier than `now`. |
| EventDateLogic.NotPassedYear | YKD_Anniversary/Logic/EventDateLogic.swift:42-44 | An occurrence that is not before `now` lies in the year of `now` or a later year. |
| EventDateLogic.OccurrencesInOrder | YKD_Anniversary/Logic/EventDateLogic.swift:44 | Each later year's occurrence is at least 365 days per year after an earlier year's occurrence. |
| EventDateLogic.NextYearOccurrenceAfter | YKD_Anniversary/Logic/EventDateLogic.swift:44 | Next year's occurrence is after every instant of the current year. |
| EventDateLogic.NextAnniversaryFixedPoint | YKD_Anniversary/Logic/EventDateLogic.swift:23-45 | With `r = nextAnniversaryDate(o, now)`, `nextAnniversaryDate(o, r) == r`. |
| EventDateLogic.DaysUntilNextAnniversary | YKD_Anniversary/Logic/EventDateLogic.swift:13-17 | `daysBetween(now, nextAnniversaryDate(o, now))` lies in `0..365`. The same bound applies to `next` in the caption (EventRowView.swift:77-83). |
| EventDateLogic.AddOneYear | YKD_Anniversary/Logic/EventDateLogic.swift:44 | Foundation's one-year addition keeps the month and moves to the next year. It keeps the day when that day exists in the next year, and clamps it to the month's last day otherwise. |
| EventDateLogic.NextAnniversaryAsWritten | YKD_Anniversary/Logic/EventDateLogic.swift:23-45 | The source's own next-year branch adds one year to the candidate. The result is never before `now`, so the caption count the source shows is never negative. It is at the start of its day, and its year is `year(now)` iff the candidate is `>= now`. |
| EventDateLogic.AsWrittenAgreesOffLeapDay | YKD_Anniversary/Logic/EventDateLogic.swift:35-44 | For every origin other than February 29, the source's computation and the model's give the same instant. |
| EventDateLogic.AsWrittenLeapDayNotFixedPoint | YKD_Anniversary/Logic/EventDateLogic.swift:35-44 | Origin 2020-02-29 with `now` 2024-03-05 gives 2025-02-28 in the source. Asked again at 2025-02-28 00:00, the source gives 2025-03-01, so its result is not a fixed point. |
| EventDateLogic.AsWrittenSkipsLeapDay | YKD_Anniversary/Logic/EventDateLogic.swift:35-44 | In the other direction, origin 2020-02-29 with `now` 2023-06-01 gives 2024-03-01 in the source, although 2024 has a February 29. At 2024-01-01 the source gives 2024-02-29. |
| EventDateLogic.MidnightBoundaryExamples | YKD_Anniversary/Logic/EventDateLogic.swift:42-44 | Origin 2020-06-15: at 2024-06-15 00:00:00 the result is 2024-06-15, because a candidate equal to `now` counts. One second later, and on 2024-06-16, the result is 2025-06-15. |
| EventRowView.SubTitle | YKD_Anniversary/Views/EventRowView.swift:54-93 | A one-off event gets only the today, in-N-days or N-days-ago captions. It is today iff `days == 0`, in `days` days iff `days > 0`, and `-days` days ago (a positive count) iff `days < 0`. An anniversary gets only the today, next-in or passed-and-next captions. It is today iff `passed == 0` (whatever `next` is). The next-in caption appears only when `passed < 0`. The combined caption carries `passed > 0` and `next`. `next` is in `0..365`. |
| EventRowView.PlainEventToday | YKD_Anniversary/Views/EventRowView.swift:57-69 | A one-off event is today iff it is less than a day from `now` either way. It is "in N days" iff it is at least a day ahead, and "N days ago" iff it is at least a day behind. |
| EventRowView.AnniversaryAhead | YKD_Anniversary/Views/EventRowView.swift:85-90 | An anniversary shows only the next occurrence iff its origin is at least a day ahead of `now`. It shows both counts iff a whole day or more has passed since the origin. |
| EventRowView.Decimal | YKD_Anniversary/Views/EventRowView.swift:66 | Number interpolation gives a non-empty string of decimal digits. |
| EventRowView.DecimalRoundTrip | YKD_Anniversary/Views/EventRowView.swift:66 | Reading the written digits back gives the number. |
| EventRowView.LabelTextInjective | YKD_Anniversary/Views/EventRowView.swift:63-91 | Two different captions never read the same: `本日`, `あと N 日`, `N 日前`, `次は N 日後` and `P 日経過 ・ 次は N 日後` are told apart by their text, numbers included. |
| EventRowView.PlainCaptionExamples | YKD_Anniversary/Views/EventRowView.swift:57-69 | With `now` at 2024-06-15 12:00, a one-off event on 2024-06-18 12:00 gets in-3-days, one on 2024-06-12 12:00 gets 3-days-ago, and one at 2024-06-15 00:00 gets today. |
| EventRowView.AnniversaryCaptionExample | YKD_Anniversary/Views/EventRowView.swift:71-91 | An anniversary with origin 2024-06-05 12:00, seen at 2024-06-15 12:00, gets passed 10 and next 354 (to 2025-06-05). |
| EventRowView.CombinedCaptionExample | YKD_Anniversary/Views/EventRowView.swift:90 | The combined caption for passed 10 and next 355 reads `10 日経過 ・ 次は 355 日後`. |
| EventService.Decoded | YKD_Anniversary/Services/EventService.swift:18-26 | `load` returns the stored list, or `[]` when nothing is stored or the stored data does not decode. |
| EventService.FirstIndexWithId | YKD_Anniversary/Services/EventService.swift:51 | A found index holds the id and no earlier position does. No index is found only when no position holds the id. |
| EventService.ReplaceFirstWithId | YKD_Anniversary/Services/EventService.swift:51-56 | The list saved by `update` has the same length. Its first position with the id holds the new event, and every other position is unchanged. |
| EventService.RemoveAllWithId | YKD_Anniversary/Services/EventService.swift:64 | After `removeAll`, no element has the id. |
| EventService.RemoveKeepsOthers | YKD_Anniversary/Services/EventService.swift:62-66 | Removal keeps every element with another id, in original order and as often as it occurred. The result is a subsequence of the input. |
| EventService.RemoveAbsentId | YKD_Anniversary/Services/EventService.swift:64-65 | Deleting an id that no event has leaves the list equal to before. |
| EventService.AppendKeepsUniqueIds | YKD_Anniversary/Services/EventService.swift:39-43 | Adding an event with a new id keeps ids unique. |
| EventService.ReplaceKeepsUniqueIds | YKD_Anniversary/Services/EventService.swift:51-56 | Update keeps ids unique. |
| EventService.ReplacedIsOnlyOneWithId | YKD_Anniversary/Services/EventService.swift:51-56 | With unique ids, the replaced position is the only one that carries the id. |
| EventService.EventService.Load | YKD_Anniversary/Services/EventService.swift:18-26 | Returns the stored list, or `[]` when the value is missing or undecodable. |
| EventService.EventService.Save | YKD_Anniversary/Services/EventService.swift:31-34 | Stores exactly the given list. If encoding fails, the stored value is unchanged. |
| EventService.EventService.Add | YKD_Anniversary/Services/EventService.swift:39-43 | The store becomes exactly `old + [e]`, where a missing or undecodable value counts as `[]`. If encoding fails it is unchanged. |
| EventService.EventService.Update | YKD_Anniversary/Services/EventService.swift:48-57 | With no stored id equal to `e.id`, the stored value is unchanged and nothing is saved. With a match, only the first matching index is replaced. If encoding fails the stored value is unchanged. |
| EventService.EventService.Delete | YKD_Anniversary/Services/EventService.swift:62-66 | The store becomes the loaded list with every event carrying `e.id` removed. If encoding fails it is unchanged. |
| HomeView.Title | YKD_Anniversary/Views/HomeView.swift:54-59 | Every segment has a non-empty title. The three raw values `全て`, `記念日` and `イベント` are the body itself. `TitlesDistinct` proves that no two segments share a title. |
| HomeView.TitlesDistinct | YKD_Anniversary/Views/HomeView.swift:54-59 | Equal titles mean equal segments. |
| HomeView.FilteredEvents | YKD_Anniversary/Views/HomeView.swift:62-69 | The list never contains a soft-deleted event. `.anniversary` gives only anniversaries and `.event` only one-off events. Every shown event is stored, and every stored live event of the selected type is shown. |
| HomeView.FilteredIsSubsequence | YKD_Anniversary/Views/HomeView.swift:62-69 | Every filtered list is an order-preserving subsequence of `events`. |
| HomeView.FilteredCounts | YKD_Anniversary/Views/HomeView.swift:63-67 | Each live event of the selected type appears as often as it is stored, and no other event appears. With the subsequence lemma, this means `.all` is exactly the non-deleted events in stored order. |
| HomeView.AllShowsEverythingAlive | YKD_Anniversary/Views/HomeView.swift:63-65 | When nothing is soft-deleted, `.all` shows the stored list unchanged. |
| HomeView.SegmentsPartitionAll | YKD_Anniversary/Views/HomeView.swift:63-67 | The `.anniversary` and `.event` lists together hold exactly the events of the `.all` list, and their lengths add up to its length. |
| HomeView.DisplayPartnerImage | YKD_Anniversary/Views/HomeView.swift:47-51 | The result is the first present image among `partnerUser?.iconImage`, `user.partnerIconImage` and `tempPartnerImage`. It is absent only when all three are. |
| HomeView.TapPartnerAvatar | YKD_Anniversary/Views/HomeView.swift:312-316 | A tap opens the picker iff there is no `partnerUser` and no `user.partnerIconImage`, which is exactly `isEditable`. Otherwise the tap changes nothing. |
| HomeView.EditableAvatarShowsPickedImage | YKD_Anniversary/Views/HomeView.swift:47-51 | While the avatar is editable it shows the picked image. Once a partner icon exists, the picked image has no effect on what is shown. |
| AddEventView.InitialForm | YKD_Anniversary/Views/AddEventView.swift:36-39 | A new event starts as type `.anniversary` with title `""`, memo `""` and date `now`. When editing, the form copies the event's type, title and date, and copies its memo or `""`. |
| AddEventView.SaveTapped | YKD_Anniversary/Views/AddEventView.swift:122-138 | Save produces an event iff the title is non-empty. The event has `isDeleted == false`, `updatedBy == "me"`, `updatedAt == now`, and the form's type, title and date. Its memo is `nil` iff the form memo is empty, and otherwise the form memo. When editing it keeps `id`, `coupleId` and `createdBy`. A new event gets the fresh id, `coupleId == ""` and `createdBy == "me"`. |
| AddEventView.DeleteTapped | YKD_Anniversary/Views/AddEventView.swift:93-111 | Delete is offered only while editing. It produces the edited event with `isDeleted = true`, `updatedBy = "me"` and `updatedAt = now`. Every other field (`id`, `coupleId`, `type`, `title`, `eventDate`, `memo`, `createdBy`) is copied unchanged. |
| AddEventView.SaveUnchangedEdit | YKD_Anniversary/Views/AddEventView.swift:36-39 | Opening an event with a title and saving it untouched gives back the same event, marked live and restamped. This holds provided its memo is not the empty string, because an empty memo becomes `nil` (AddEventView.swift:128). |
| EditFlow.AddedEventIsListed | YKD_Anniversary/Views/HomeView.swift:209-221 | When encoding succeeds, `add` stores `old + [saved]`. A new event saved from the form and appended that way appears in the `.all` list. |
| EditFlow.SoftDeleteHidesEvent | YKD_Anniversary/Views/HomeView.swift:224-242 | When encoding succeeds, `update` stores the first-match replacement. Deleting from the edit form and replacing that way keeps the record in the list, marked deleted. With unique ids, no filtered list shown afterwards contains an event with that id. |
| Seqs.Filter | YKD_Anniversary/Views/HomeView.swift:63 | `filter` keeps exactly the elements that pass, in order. The result is no longer than the input. |
| Seqs.FilterIsSubsequence | YKD_Anniversary/Views/HomeView.swift:63 | A filtered sequence is a subsequence of its input. |
| Seqs.FilterCounts | YKD_Anniversary/Views/HomeView.swift:63 | Filtering keeps each passing element as often as it occurs, and drops every other element. |
| Seqs.SubsequenceTransitive | YKD_Anniversary/Views/HomeView.swift:66-67 | A subsequence of a subsequence is a subsequence. |

## Left out

- SwiftUI layout is not modelled because it is UI. This covers sheets, alerts, the toolbar and `Menu` wiring, and the `@State` flags of HomeView.swift:209-256. The data flow of those sheets (form, then store, then reload and filter) is kept, as the `EditFlow` lemmas over values.
- The background photo picker and its asynchronous `Task` guarded by `backgroundLoadToken` (HomeView.swift:167-199) are not modelled: they are concurrency and image I/O.
- The one-second `Timer` that refreshes `now` (HomeView.swift:202-206) is not modelled; `now` is a parameter.
- `UserDefaults` and the `JSONEncoder`/`JSONDecoder` internals are foreign library code. Storage is an abstract `Storage` value, and the outcome of encoding is the `encodeOk` parameter.
- `UserService` is not part of this model. It is a storage wrapper that returns a default user when nothing decodes.
- `ImageService`, `ElapsedTimeFormatter`, `AvatarView` and `QuarterCircleButton` are not part of this model. `User` is cut down to the two images HomeView reads, and an image is an opaque handle.
- `Calendar.current` time-zone and daylight-saving behaviour are replaced by one fixed calendar with 86400-second days.
- Instants are whole seconds. Foundation's `Date` is a floating-point interval, and `Date()` carries fractions of a second, which are not modelled. The comparison `thisYear >= now` and the `.day` count are the same function of the instant at any resolution. But a `now` such as 2024-06-15 00:00:00.5 cannot be expressed: the source gives 2025-06-15 for an origin on June 15, while the nearest modelled instant, second 0, gives 2024-06-15.
- SubTitle: `next` is computed from the corrected `NextAnniversaryDate`, so for a February 29 origin the caption can differ from the source's by a day or two. For origin 2020-02-29 12:00 and `now` 2024-03-05 00:00 the model shows 361 and the source 360. For `now` 2023-06-01 the model counts to 2024-02-29 and the source to 2024-03-01. For every other origin the two agree (`AsWrittenAgreesOffLeapDay`).
- DaysBetween: the `?? 0` fallback has no separate path. In the fixed calendar the `.day` component always exists, so the fallback never applies.
- NextAnniversaryDate: the force-unwraps of `calendar.date(...)!` cannot fail in the model. Construction is total by the February 29 policy above.
- Swift's 64-bit `Int` is modelled as an unbounded integer. Day counts between representable dates stay far below its range.
- `UUID()` and `Date()` are parameters of the form functions (`freshId`, `now`).
- The rest of `EventRowView.body` (title text, edit and delete menu) is not modelled because it is UI.

## Findings

| source | as written | input that shows it | evidently intended | confidence | as-written member | corrected member |
|---|---|---|---|---|---|---|
| YKD_Anniversary/Logic/EventDateLogic.swift:35-44 | The current-year candidate is built from (year, 2, 29), which Foundation normalises to March 1 in a non-leap year. The next-year date is the candidate plus one year, which Foundation clamps from February 29 to February 28. For a February 29 origin the two disagree about which day is the anniversary. | Origin 2020-02-29, `now` 2024-03-05 00:00. The source gives 2025-02-28 00:00. Asked again at that instant, it gives 2025-03-01 00:00. Through the rest of 2024 the source names 2025-02-28, and from 2025-01-01 on it names 2025-03-01, so the caption's `next` count gains a day at the new year. The other direction: with `now` 2023-06-01 the source gives 2024-03-01 although 2024 has a February 29, and from 2024-01-01 on it gives 2024-02-29, so the count drops by two at the new year. | One anniversary day per year with one policy: the next occurrence is the earliest occurrence not before `now`, and asking again at that instant returns it. | medium; not executed; relies on Foundation's documented lenient construction and end-of-month clamping | EventDateLogic.AsWrittenLeapDayNotFixedPoint | EventDateLogic.NextAnniversaryFixedPoint |
