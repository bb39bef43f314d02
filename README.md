# Contact manager — a verified Dafny model

This project models the in-memory engine of a small Java contact manager
(MontyWest/ContactManager). A `ContactManager` holds a set of contacts and two
meeting lists, `pastMeetings` and `futureMeetings`. Whether a meeting is past
or future is the list it sits in, not a field of the meeting. The manager
creates contacts and meetings, looks meetings up by id, filters and
date-sorts meetings per contact or per calendar day, and moves a meeting from
the future list to the past list when notes are added after its date has
passed. Contacts and meetings draw their ids from one shared counter.

Modules, one per concern of the source:

- `Text` — the notes join rule (`"; "` between notes, nothing before the
  first) and substring containment used by the name search.
- `Dates` — a date is a timestamp in milliseconds; `IsInPast` is the strict
  "before now" test, and `AreSameDay` compares day numbers.
- `DomainObject` — the shared id counter as an `IdBank` object: issuing an id
  increments it by one; restoring an object raises it to that object's id.
- `Contacts`, `Meetings` — the `Contact` and `Meeting` classes. The `final`
  fields are `const`; only `notes` is a `var`.
- `MeetingLists` — specification functions over meeting lists: search by id,
  filters, and a stable sort by date with a proof that it is the only stable
  date sort of its input.
- `Manager` — the `ContactManager` class. Its methods mutate the lists and the
  contact set. An invariant `Valid()` holds across all of them. It says that
  ids are unique across contacts and meetings, that every id lies between 1
  and the counter's current value, that no meeting is listed twice or in both
  lists, and that every meeting's contacts belong to the manager.

The wall clock is a `now` parameter. Java `null` arguments that the source
tests for explicitly are `Option` values. A contact argument is a nullable
`Contact?`. Exceptions are the `Error` values of `Errors`.

Three behaviours of the Java code that are easy to misread, and that the
model keeps:

- A meeting dated exactly now is accepted by `addFutureMeeting`, because
  `isInPast` is a strict comparison (`ContactManagerImpl.java:268-270`).
- `addFutureMeeting` accepts an empty contact set; only `addNewPastMeeting`
  refuses one.
- The query for meetings on a day scans the past list only when the date is
  strictly before now (see Findings).

## Model

| member | source | states |
|---|---|---|
| `Text.AppendNote` | src/impl/MeetingImpl.java:51-55 | the old notes are a prefix of the result and the new note is its suffix; on empty notes the result is exactly the note |
| `Text.NoteLogContainsEach` | src/impl/MeetingImpl.java:47-55 | after any sequence of `addNotes` calls from empty, every added note occurs in the notes |
| `Dates.StartOfDay` | src/impl/ContactManagerImpl.java:289-294 | the midnight before an instant is at most a day earlier and is on the same day |
| `Dates.NowIsFuture` | src/impl/ContactManagerImpl.java:262-281 | a date equal to now is not in the past, so it counts as future; one millisecond earlier is past |
| `Dates.SameDayIsSameWindow` | src/impl/ContactManagerImpl.java:289-294 | two instants are on the same day exactly when the second lies in the day-long window starting at the first one's midnight |
| `Dates.IsInPast` | src/impl/ContactManagerImpl.java:268-270 | computes whether a date is strictly before now, to the millisecond |
| `Dates.IsInFuture` | src/impl/ContactManagerImpl.java:279-281 | computes the negation of `IsInPast`, so a date equal to now is future |
| `Dates.PastStaysPast` | src/impl/ContactManagerImpl.java:268-281 | exactly one of past and future holds of a date; as now advances a past date stays past, and a date future at the later time was future before |
| `Dates.AreSameDay` | src/impl/ContactManagerImpl.java:289-294 | computes whether two instants have the same day number (same year, month and day of month) |
| `DomainObject.IdBank.constructor` | src/impl/DomainObject.java:10 | the counter starts at 0 |
| `DomainObject.IdBank.Issue` | src/impl/DomainObject.java:13-15 | the counter goes up by exactly one and the new value is the id handed out |
| `DomainObject.IdBank.Observe` | src/impl/DomainObject.java:21-26 | restoring an object raises the counter to max(counter, id); it never decreases |
| `DomainObject.Raised` | src/impl/DomainObject.java:23-25 | the raised counter is at least the old counter and the restored id, and is one of them |
| `DomainObject.RaisedAll` | src/impl/DomainObject.java:21-26 | after a series of restores the counter is at least every restored id and the starting counter |
| `DomainObject.IssuedIncreasing` | src/impl/DomainObject.java:13-15 | successive constructions get consecutive ids counter+1, counter+2, ..., strictly increasing, so pairwise distinct |
| `DomainObject.Issued` | src/impl/DomainObject.java:13-15 | computes the ids that `n` successive constructions receive from a counter; there are exactly `n` of them |
| `DomainObject.IssuedAfterRestoreIsFresh` | src/impl/DomainObject.java:21-26 | after restores, every id issued later is greater than every restored id and than the counter before the restores, so none collides |
| `Contacts.Contact.constructor` | src/impl/ContactImpl.java:12-15 | a fresh id (counter + 1), the given name, empty notes |
| `Contacts.Contact.WithNotes` | src/impl/ContactImpl.java:17-21 | a fresh id, the given name, and notes equal to the given note, because it is appended to empty notes |
| `Contacts.Contact.Restored` | src/impl/DomainObject.java:21-26 | a restored contact keeps its id and the counter is raised to it |
| `Contacts.Contact.GetName` | src/impl/ContactImpl.java:40-42 | returns the fixed name |
| `Contacts.Contact.GetNotes` | src/impl/ContactImpl.java:24-26 | returns the current notes |
| `Contacts.Contact.AddNotes` | src/impl/ContactImpl.java:29-32 | the notes become the join of the old notes and the note; the old notes stay a prefix |
| `Meetings.Meeting.constructor` | src/impl/MeetingImpl.java:27-30 | a fresh id (counter + 1), the given date and contacts, empty notes |
| `Meetings.Meeting.Restored` | src/impl/DomainObject.java:21-26 | a restored meeting keeps its id and the counter is raised to it |
| `Meetings.Meeting.GetDate` | src/impl/MeetingImpl.java:33-35 | returns a value equal to the stored date; the caller cannot reach the meeting's own date through it |
| `Meetings.Meeting.GetContacts` | src/impl/MeetingImpl.java:38-40 | returns a set equal to the stored contacts; changing the result cannot change the meeting |
| `Meetings.Meeting.GetNotes` | src/impl/MeetingImpl.java:43-45 | returns the current notes |
| `Meetings.Meeting.AddNotes` | src/impl/MeetingImpl.java:47-55 | the notes become the join of the old notes and the note; the old notes stay a prefix; nothing else changes |
| `Meetings.Meeting.Equals` | src/impl/MeetingImpl.java:61-67 | computes whether the other meeting is non-null and has the same id |
| `Meetings.EqualsIsEquivalence` | src/impl/MeetingImpl.java:61-67 | equality by id is reflexive, symmetric and transitive |
| `MeetingLists.FirstWithId` | src/impl/ContactManagerImpl.java:69-75 | null exactly when no meeting of the list has the id; otherwise a meeting with that id with no earlier one |
| `MeetingLists.Lookup` | src/impl/ContactManagerImpl.java:68-86 | null exactly when neither list has the id; a past-list match wins over a future-list one |
| `MeetingLists.RemoveFirst` | src/impl/ContactManagerImpl.java:193 | computes `List.remove(Object)`: the list without its first meeting equal (by id) to the given one, unchanged if there is none |
| `MeetingLists.RemoveFirstOfUnique` | src/impl/ContactManagerImpl.java:193 | removing the first equal meeting from a list where only that meeting has its id removes exactly one copy of it |
| `MeetingLists.MoveKeepsMeetings` | src/impl/ContactManagerImpl.java:193-194 | the future-to-past move keeps the same meetings overall and leaves no meeting with that id in the future list |
| `MeetingLists.FilterMembers` | src/impl/ContactManagerImpl.java:94-102 | a filtered list holds exactly the meetings of the list that pass the test |
| `MeetingLists.WithContactMembers` | src/impl/ContactManagerImpl.java:95-102 | the per-contact filter keeps exactly the meetings whose contacts include the contact |
| `MeetingLists.OnDayMembers` | src/impl/ContactManagerImpl.java:133-139 | the per-day filter keeps exactly the meetings on the same calendar day |
| `MeetingLists.SortByDate` | src/impl/ContactManagerImpl.java:342-349 | the sorted list is a permutation of the input and is ascending by date |
| `MeetingLists.SortByDateStable` | src/impl/ContactManagerImpl.java:342-349 | meetings with equal dates keep their relative order (the sort is stable) |
| `MeetingLists.SortedStableIsUnique` | src/impl/ContactManagerImpl.java:342-349 | two date-sorted lists with the same meetings in the same order at each date are equal, so any stable date sort gives this result |
| `MeetingLists.SortByDateCharacterised` | src/impl/ContactManagerImpl.java:342-349 | a list is the sorted form of the input exactly when it is ascending by date and keeps each date's meetings in input order |
| `MeetingLists.DayListAsWritten` | src/impl/ContactManagerImpl.java:119-144 | computes the day query as written: the date-sorted meetings on that day of the future list, plus those of the past list only when the date is strictly before now |
| `MeetingLists.DayListComplete` | src/impl/ContactManagerImpl.java:119-144 | the corrected day query is sorted and holds exactly the meetings of either list on that day |
| `MeetingLists.DayListAsWrittenMissesPastMeetings` | src/impl/ContactManagerImpl.java:123-131 | for a date not before now, a past-list meeting on that day is missing from the query as written, though it is in the corrected one |
| `MeetingLists.DayListAsWrittenAgreesBeforeNow` | src/impl/ContactManagerImpl.java:123-131 | for a date strictly before now the query as written and the corrected one agree |
| `Manager.EmptyNameMatchesAll` | src/impl/ContactManagerImpl.java:228-242 | searching by the empty name returns every contact |
| `Manager.ContactManager.constructor` | src/impl/ContactManagerImpl.java:27-29 | an empty manager, which satisfies the invariant |
| `Manager.ContactManager.IdInOneList` | src/impl/ContactManagerImpl.java:27-28 | under the invariant no id is in both meeting lists |
| `Manager.ContactManager.EqualsIsIdentity` | src/impl/MeetingImpl.java:61-67 | among the manager's meetings, equality by id is object identity |
| `Manager.ContactManager.IsValidContact` | src/impl/ContactManagerImpl.java:311-313 | computes whether the contact is in the manager's contact set |
| `Manager.ContactManager.AreValidContacts` | src/impl/ContactManagerImpl.java:302-304 | computes whether every contact of a set is in the manager's contact set |
| `Manager.ContactManager.ValidContactsEach` | src/impl/ContactManagerImpl.java:302-313 | a set is valid exactly when each of its contacts is valid, and null is never a valid contact |
| `Manager.ContactManager.IsFutureMeeting` | src/impl/ContactManagerImpl.java:321-323 | computes whether the future list holds a meeting equal (by id) to the given one, whatever its date |
| `Manager.ContactManager.IsPastMeeting` | src/impl/ContactManagerImpl.java:331-333 | computes whether the past list holds a meeting equal (by id) to the given one, whatever its date |
| `Manager.ContactManager.ListedMeetingEquality` | src/impl/ContactManagerImpl.java:321-333 | for a listed meeting, `isFutureMeeting` and `isPastMeeting` (by id, regardless of date) say exactly which list holds it |
| `Manager.ContactManager.FoundMeetingList` | src/impl/ContactManagerImpl.java:42-65 | the meeting found by id is in the list holding that id, and `isFutureMeeting` holds of it exactly when that list is the future one |
| `Manager.ContactManager.AddNewContact` | src/impl/ContactManagerImpl.java:201-208 | null name or notes gives NullPointer and changes nothing; otherwise exactly one fresh contact with the next id, the name and the notes joins the set |
| `Manager.ContactManager.GetContactsByIds` | src/impl/ContactManagerImpl.java:211-225 | IllegalArgument exactly when some id has no contact; otherwise the set of contacts whose id is listed |
| `Manager.ContactManager.FindContact` | src/impl/ContactManagerImpl.java:214-221 | null exactly when no contact has the id; otherwise the contact with that id |
| `Manager.ContactManager.GetContactsByName` | src/impl/ContactManagerImpl.java:228-242 | NullPointer on null; otherwise exactly the contacts whose name contains the text |
| `Manager.ContactManager.AddFutureMeeting` | src/impl/ContactManagerImpl.java:32-39 | IllegalArgument when a contact is unknown or the date is strictly before now, changing nothing; otherwise one fresh meeting with the next id, the date and contacts and empty notes is appended to the future list, and its id is returned; the past list and the contacts are unchanged |
| `Manager.ContactManager.AddNewPastMeeting` | src/impl/ContactManagerImpl.java:168-178 | NullPointer on any null argument, then IllegalArgument on empty or unknown contacts, changing nothing; otherwise one fresh meeting whose notes equal the text is appended to the past list; the date is not checked |
| `Manager.ContactManager.GetMeeting` | src/impl/ContactManagerImpl.java:68-86 | returns the first meeting with the id in the past list, else the first in the future list, else null |
| `Manager.ContactManager.GetPastMeeting` | src/impl/ContactManagerImpl.java:42-52 | null for an unknown id; IllegalArgument when the id is in the future list; otherwise the past-list meeting with that id |
| `Manager.ContactManager.GetFutureMeeting` | src/impl/ContactManagerImpl.java:55-65 | null for an unknown id; IllegalArgument when the id is in the past list; otherwise the future-list meeting with that id |
| `Manager.ContactManager.GetFutureMeetingList` | src/impl/ContactManagerImpl.java:89-107 | IllegalArgument for a contact not in the manager (null included); otherwise the contact's future-list meetings, stably sorted by date |
| `Manager.ContactManager.GetPastMeetingList` | src/impl/ContactManagerImpl.java:147-165 | IllegalArgument for a contact not in the manager (null included); otherwise the contact's past-list meetings, stably sorted by date |
| `Manager.ContactManager.ContactListMeaning` | src/impl/ContactManagerImpl.java:89-107 | a per-contact list is ascending by date, holds exactly the meetings of that list with the contact, and keeps equal-dated meetings in list order |
| `Manager.ContactManager.CollectOnDay` | src/impl/ContactManagerImpl.java:133-139 | the scan appends exactly the list's meetings on that day, in list order |
| `Manager.ContactManager.GetFutureMeetingListOnDay` | src/impl/ContactManagerImpl.java:119-144 | the day query as written: the sorted meetings on that day, scanning the past list only for a date strictly before now |
| `Manager.ContactManager.GetMeetingsOnDay` | src/impl/ContactManagerImpl.java:119-144 | the corrected day query: sorted, and exactly the meetings of either list on that day |
| `Manager.ContactManager.AddMeetingNotes` | src/impl/ContactManagerImpl.java:181-198 | NullPointer on null text, IllegalArgument on an unknown id, IllegalState for a future-list meeting not strictly before now, each changing nothing; otherwise a past-list meeting gets the notes appended, and a due future-list meeting moves to the end of the past list and gets the notes; only that meeting and the manager may change |
| `Manager.ContactManager.RecordNotes` | src/impl/ContactManagerImpl.java:189-197 | a future-list meeting moves to the past list before the notes are appended; a past-list meeting stays; the invariant holds |
| `Manager.ContactManager.MoveToPast` | src/impl/ContactManagerImpl.java:193-194 | the meeting leaves the future list and is appended to the past list; the set of all meetings and the invariant are preserved |

## Left out

- `flush()` and its XML file output, the interactive console runner, and `toString` formatting: these are I/O.
- The no-argument meeting constructor (null fields, used only by serialisation) and the `defaultReadObject` mechanics; only the counter update that follows a restore is modelled (`Restored` constructors).
- Thread safety of the atomic counter: the model is sequential.
- Calendar internals: a date is a millisecond timestamp, and a calendar day is `t / 86400000` in one fixed time zone. Time zones, locales and daylight-saving days are not modelled.
- Null arguments that the source does not check for itself are not modelled. These are the contact set and date of `addFutureMeeting`, the date of the day query, and a null `ids` array for `getContacts(int...)`, which fail in Java with an unchecked NullPointerException; and a null name in the contact constructors, which Java stores as a null name.
- Contacts.Contact.WithNotes: takes a `string`, so it cannot express `new ContactImpl(name, null)` (`ContactImpl.java:17-21`), which in Java gives notes equal to the four-letter text "null" because string concatenation turns a null note into "null". The manager never does this: `addNewContact` refuses null notes first.
- Contacts.Contact.AddNotes: takes a `string`, so it cannot express `addNotes(null)` (`ContactImpl.java:29-32`), which in Java appends "null", or "; null" after existing notes.
- Meetings.Meeting.AddNotes: likewise cannot express `addNotes(null)` (`MeetingImpl.java:51-55`), which appends "null" or "; null". The manager never does this: `addNewPastMeeting` and `addMeetingNotes` refuse null text first.
- Aliasing: the Java meeting constructor stores the caller's `Set` and `Calendar` objects. Mutating them later would change the meeting. Dates and sets are values here, so the model cannot express this.
- DomainObject.IdBank.Issue: does not model 32-bit `int` overflow of the counter after 2^31 - 1 objects; ids are unbounded naturals.
- Hash-set iteration order in `getContacts(int...)` and `getContacts(String)`: the model picks contacts in an unspecified order, which is enough because ids are unique and the result is a set.
- `Collections.sort` is modelled by an insertion sort. `MeetingLists.SortedStableIsUnique` shows that every stable sort by date gives the same list.

## Findings

| source | as written | input that shows it | evidently intended | confidence | as-written member | corrected member |
|---|---|---|---|---|---|---|
| src/impl/ContactManagerImpl.java:123-131 | `getFutureMeetingList(date)` scans `pastMeetings` only when `date` is strictly before now | a meeting recorded with `addNewPastMeeting` at 09:00 today, queried with a date of 18:00 today while now is 12:00: it is on the requested day but is not returned | every meeting of either list on that calendar day, since `isInPast` works to the millisecond while the query works by day | not executed | `Manager.ContactManager.GetFutureMeetingListOnDay`, `MeetingLists.DayListAsWrittenMissesPastMeetings` | `Manager.ContactManager.GetMeetingsOnDay`, `MeetingLists.DayListComplete` |
