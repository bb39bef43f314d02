/**
 * The contact manager: a set of contacts and two meeting lists. A meeting's
 * classification as past or future is the list it sits in; the only change of
 * classification is future to past, made by `AddMeetingNotes` once the
 * meeting's date has passed.
 */
module Manager {
  import Text
  import opened Errors
  import opened Dates
  import opened DomainObject
  import opened Contacts
  import opened Meetings
  import opened MeetingLists

  /** The contacts of `cs` whose name contains `name`. */
  ghost function NamedLike(cs: set<Contact>, name: string): set<Contact> {
    set c | c in cs && Text.Contains(c.name, name)
  }

  /** Searching by the empty name finds every contact. */
  lemma EmptyNameMatchesAll(cs: set<Contact>)
    ensures NamedLike(cs, "") == cs
  {
    forall c | c in cs ensures Text.Contains(c.name, "") {
      Text.EmptyContainedInAll(c.name);
    }
  }

  /** Some contact of `cs` has id `id`. */
  ghost predicate HasContactId(cs: set<Contact>, id: int) {
    exists c :: c in cs && c.id == id
  }

  /** The contacts of `cs` whose id is among `ids`. */
  ghost function WithIds(cs: set<Contact>, ids: seq<int>): set<Contact> {
    set c | c in cs && c.id in ids
  }

  class ContactManager {
    var pastMeetings: seq<Meeting>
    var futureMeetings: seq<Meeting>
    var contacts: set<Contact>
    /** The shared id counter that contacts and meetings draw from. */
    const bank: IdBank

    /** Every meeting, whichever list holds it. */
    ghost function AllMeetings(): multiset<Meeting>
      reads this
    {
      multiset(pastMeetings + futureMeetings)
    }

    /**
     * The manager's invariant: every id was issued by the counter; no
     * meeting appears twice or in both lists; no two objects share an id;
     * every meeting's contacts are contacts of this manager.
     */
    ghost predicate Valid()
      reads this, bank
    {
      var all := AllMeetings();
      && UniqueIds(all)
      && (forall m :: m in all ==> 1 <= m.id <= bank.last && m.contacts <= contacts)
      && (forall c :: c in contacts ==> 1 <= c.id <= bank.last)
      && (forall c1, c2 :: c1 in contacts && c2 in contacts && c1.id == c2.id ==> c1 == c2)
      && (forall c, m :: c in contacts && m in all ==> c.id != m.id)
    }

    constructor (bank: IdBank)
      ensures Valid()
      ensures this.bank == bank && pastMeetings == [] && futureMeetings == [] && contacts == {}
    {
      this.bank := bank;
      pastMeetings := [];
      futureMeetings := [];
      contacts := {};
    }

    /** Each meeting id sits in at most one of the two lists. */
    lemma IdInOneList(id: int)
      requires Valid()
      ensures !(HasId(pastMeetings, id) && HasId(futureMeetings, id))
    {
    }

    /** Among the manager's meetings, `equals` (same id) is identity. */
    lemma EqualsIsIdentity(x: Meeting, y: Meeting)
      requires Valid()
      requires x in AllMeetings() && y in AllMeetings()
      ensures x.Equals(y) <==> x == y
    {
    }

    /** For a meeting of this manager, `isFutureMeeting` and `isPastMeeting` say which list holds it. */
    lemma ListedMeetingEquality(m: Meeting)
      requires Valid() && (m in pastMeetings || m in futureMeetings)
      ensures IsFutureMeeting(m) <==> m in futureMeetings
      ensures IsPastMeeting(m) <==> m in pastMeetings
    {
    }

    /** The meeting found by id sits in the list that holds that id, and `isFutureMeeting` says which. */
    lemma FoundMeetingList(id: int)
      requires Valid()
      ensures var m := Lookup(pastMeetings, futureMeetings, id);
        m != null ==>
          && (m in futureMeetings <==> HasId(futureMeetings, id))
          && (IsFutureMeeting(m) <==> HasId(futureMeetings, id))
          && (m in pastMeetings <==> HasId(pastMeetings, id))
    {
    }

    // ------------------------------------------------------------ helpers

    /** `isValidContact`: the contact belongs to this manager (never true of null). */
    predicate IsValidContact(c: Contact?)
      reads this
    {
      c in contacts
    }

    /** `areValidContacts`: every contact of `cs` belongs to this manager. */
    predicate AreValidContacts(cs: set<Contact>)
      reads this
    {
      cs <= contacts
    }

    /** `isFutureMeeting`: the future list contains a meeting equal to `m`, whatever its date. */
    predicate IsFutureMeeting(m: Meeting)
      reads this
    {
      exists k :: 0 <= k < |futureMeetings| && m.Equals(futureMeetings[k])
    }

    /** `isPastMeeting`: the past list contains a meeting equal to `m`, whatever its date. */
    predicate IsPastMeeting(m: Meeting)
      reads this
    {
      exists k :: 0 <= k < |pastMeetings| && m.Equals(pastMeetings[k])
    }

    /** `areValidContacts` holds exactly when `isValidContact` holds of each contact; null is never valid. */
    lemma ValidContactsEach(cs: set<Contact>)
      ensures AreValidContacts(cs) <==> forall c :: c in cs ==> IsValidContact(c)
      ensures !IsValidContact(null)
    {
    }

    // ------------------------------------------------------------ contacts

    /** `addNewContact`: null name or notes is refused; otherwise exactly one new contact joins the set. */
    method AddNewContact(name: Option<string>, notes: Option<string>) returns (r: Outcome)
      requires Valid()
      modifies this, bank
      ensures Valid()
      ensures pastMeetings == old(pastMeetings) && futureMeetings == old(futureMeetings)
      ensures name.None? || notes.None? ==>
        r == Fail(NullPointer) && contacts == old(contacts) && bank.last == old(bank.last)
      ensures name.Some? && notes.Some? ==>
        && r == Done
        && bank.last == old(bank.last) + 1
        && old(contacts) <= contacts && |contacts| == |old(contacts)| + 1
        && forall c :: c in contacts - old(contacts) ==>
             fresh(c) && c.id == bank.last && c.name == name.value && c.notes == notes.value
    {
      if notes.None? || name.None? {
        return Fail(NullPointer);
      }
      var contact := new Contact.WithNotes(name.value, notes.value, bank);
      assert contact !in contacts;
      contacts := contacts + {contact};
      r := Done;
    }

    /**
     * `getContacts(int...)`: the contacts with the given ids; an id with no
     * contact is refused, however many ids precede it.
     */
    method GetContactsByIds(ids: seq<int>) returns (r: Result<set<Contact>>)
      requires Valid()
      ensures r.Err? <==> exists i :: 0 <= i < |ids| && !HasContactId(contacts, ids[i])
      ensures r.Err? ==> r.error == IllegalArgument
      ensures r.Ok? ==> r.value == WithIds(contacts, ids)
    {
      var found: set<Contact> := {};
      for i := 0 to |ids|
        invariant found == WithIds(contacts, ids[..i])
        invariant forall k :: 0 <= k < i ==> HasContactId(contacts, ids[k])
      {
        var candidate := FindContact(ids[i]);
        if candidate == null {
          return Err(IllegalArgument);
        }
        assert ids[..i + 1] == ids[..i] + [ids[i]];
        assert WithIds(contacts, ids[..i + 1]) == found + {candidate};
        found := found + {candidate};
      }
      assert ids[..|ids|] == ids;
      r := Ok(found);
    }

    /** The inner search of `getContacts(int...)`: scan the contacts for one with the id. */
    method FindContact(id: int) returns (c: Contact?)
      requires Valid()
      ensures c == null <==> !HasContactId(contacts, id)
      ensures c != null ==> c in contacts && c.id == id
    {
      var remaining := contacts;
      c := null;
      while c == null && remaining != {}
        invariant remaining <= contacts
        invariant c == null ==> forall x :: x in contacts - remaining ==> x.id != id
        invariant c != null ==> c in contacts && c.id == id
        decreases |remaining|
      {
        var x :| x in remaining;
        remaining := remaining - {x};
        if x.id == id {
          c := x;
        }
      }
    }

    /** `getContacts(String)`: null is refused; otherwise every contact whose name contains the text. */
    method GetContactsByName(name: Option<string>) returns (r: Result<set<Contact>>)
      ensures name.None? ==> r == Err(NullPointer)
      ensures name.Some? ==> r == Ok(NamedLike(contacts, name.value))
    {
      if name.None? {
        return Err(NullPointer);
      }
      var found: set<Contact> := {};
      var remaining := contacts;
      while remaining != {}
        invariant remaining <= contacts
        invariant found == NamedLike(contacts - remaining, name.value)
        decreases |remaining|
      {
        var c :| c in remaining;
        assert contacts - (remaining - {c}) == (contacts - remaining) + {c};
        if Text.Contains(c.name, name.value) {
          found := found + {c};
        }
        remaining := remaining - {c};
      }
      assert contacts - remaining == contacts;
      r := Ok(found);
    }

    // ------------------------------------------------------------ creating meetings

    /**
     * `addFutureMeeting`: refused when a contact is unknown or the date is
     * strictly before now; otherwise one new meeting with a fresh id joins
     * the end of the future list and its id is returned.
     */
    method AddFutureMeeting(cs: set<Contact>, date: int, now: int) returns (r: Result<nat>)
      requires Valid()
      modifies this, bank
      ensures Valid()
      ensures contacts == old(contacts) && pastMeetings == old(pastMeetings)
      ensures !AreValidContacts(cs) || IsInPast(date, now) ==>
        r == Err(IllegalArgument) && futureMeetings == old(futureMeetings) && bank.last == old(bank.last)
      ensures AreValidContacts(cs) && !IsInPast(date, now) ==>
        && r == Ok(old(bank.last) + 1) && bank.last == r.value
        && |futureMeetings| == |old(futureMeetings)| + 1
        && futureMeetings[..|old(futureMeetings)|] == old(futureMeetings)
        && var m := futureMeetings[|old(futureMeetings)|];
           fresh(m) && m.id == r.value && m.date == date && m.contacts == cs && m.notes == ""
    {
      if !AreValidContacts(cs) || IsInPast(date, now) {
        return Err(IllegalArgument);
      }
      var meeting := new Meeting(date, cs, bank);
      assert meeting !in AllMeetings();
      futureMeetings := futureMeetings + [meeting];
      assert AllMeetings() == old(AllMeetings()) + multiset{meeting};
      r := Ok(meeting.id);
    }

    /**
     * `addNewPastMeeting`: null arguments are refused first, then an empty or
     * unknown contact set; the date is not checked. Otherwise one new meeting
     * whose notes are exactly `text` joins the end of the past list.
     */
    method AddNewPastMeeting(cs: Option<set<Contact>>, date: Option<int>, text: Option<string>) returns (r: Outcome)
      requires Valid()
      modifies this, bank
      ensures Valid()
      ensures contacts == old(contacts) && futureMeetings == old(futureMeetings)
      ensures cs.None? || date.None? || text.None? ==>
        r == Fail(NullPointer) && pastMeetings == old(pastMeetings) && bank.last == old(bank.last)
      ensures cs.Some? && date.Some? && text.Some? && (|cs.value| == 0 || !AreValidContacts(cs.value)) ==>
        r == Fail(IllegalArgument) && pastMeetings == old(pastMeetings) && bank.last == old(bank.last)
      ensures cs.Some? && date.Some? && text.Some? && |cs.value| > 0 && AreValidContacts(cs.value) ==>
        && r == Done && bank.last == old(bank.last) + 1
        && |pastMeetings| == |old(pastMeetings)| + 1
        && pastMeetings[..|old(pastMeetings)|] == old(pastMeetings)
        && var m := pastMeetings[|old(pastMeetings)|];
           fresh(m) && m.id == bank.last && m.date == date.value && m.contacts == cs.value && m.notes == text.value
    {
      if cs.None? || date.None? || text.None? {
        return Fail(NullPointer);
      }
      if |cs.value| == 0 || !AreValidContacts(cs.value) {
        return Fail(IllegalArgument);
      }
      var meeting := new Meeting(date.value, cs.value, bank);
      meeting.AddNotes(text.value);
      assert meeting !in AllMeetings();
      pastMeetings := pastMeetings + [meeting];
      assert pastMeetings + futureMeetings == old(pastMeetings) + [meeting] + futureMeetings;
      assert AllMeetings() == old(AllMeetings()) + multiset{meeting};
      r := Done;
    }

    // ------------------------------------------------------------ looking meetings up

    /** `getMeeting`: the first meeting with the id in the past list, else in the future list, else null. */
    method GetMeeting(id: int) returns (m: Meeting?)
      ensures m == Lookup(pastMeetings, futureMeetings, id)
    {
      var i := 0;
      while i < |pastMeetings|
        invariant 0 <= i <= |pastMeetings|
        invariant FirstWithId(pastMeetings, id) == FirstWithId(pastMeetings[i..], id)
      {
        var candidate := pastMeetings[i];
        if candidate.id == id {
          return candidate;
        }
        assert pastMeetings[i..][1..] == pastMeetings[i + 1..];
        i := i + 1;
      }
      var j := 0;
      while j < |futureMeetings|
        invariant 0 <= j <= |futureMeetings|
        invariant FirstWithId(futureMeetings, id) == FirstWithId(futureMeetings[j..], id)
      {
        var candidate := futureMeetings[j];
        if candidate.id == id {
          return candidate;
        }
        assert futureMeetings[j..][1..] == futureMeetings[j + 1..];
        j := j + 1;
      }
      return null;
    }

    /**
     * `getPastMeeting`: null for an unknown id, refused for a meeting in the
     * future list (whatever its date), otherwise the past meeting.
     */
    method GetPastMeeting(id: int) returns (r: Result<Meeting?>)
      requires Valid()
      ensures HasId(pastMeetings, id) ==> r.Ok? && r.value != null && r.value in pastMeetings && r.value.id == id
      ensures HasId(futureMeetings, id) ==> r == Err(IllegalArgument)
      ensures !HasId(pastMeetings, id) && !HasId(futureMeetings, id) ==> r == Ok(null)
    {
      IdInOneList(id);
      var meeting := GetMeeting(id);
      if meeting == null {
        r := Ok(null);
      } else if IsFutureMeeting(meeting) {
        r := Err(IllegalArgument);
      } else {
        r := Ok(meeting);
      }
    }

    /**
     * `getFutureMeeting`: null for an unknown id, refused for a meeting in the
     * past list (whatever its date), otherwise the future meeting.
     */
    method GetFutureMeeting(id: int) returns (r: Result<Meeting?>)
      requires Valid()
      ensures HasId(futureMeetings, id) ==> r.Ok? && r.value != null && r.value in futureMeetings && r.value.id == id
      ensures HasId(pastMeetings, id) ==> r == Err(IllegalArgument)
      ensures !HasId(pastMeetings, id) && !HasId(futureMeetings, id) ==> r == Ok(null)
    {
      IdInOneList(id);
      var meeting := GetMeeting(id);
      if meeting == null {
        r := Ok(null);
      } else if IsPastMeeting(meeting) {
        r := Err(IllegalArgument);
      } else {
        r := Ok(meeting);
      }
    }

    // ------------------------------------------------------------ meeting lists

    /**
     * `getFutureMeetingList(contact)`: refused for a contact not in the
     * manager; otherwise the future-list meetings of that contact, sorted by date.
     */
    method GetFutureMeetingList(c: Contact?) returns (r: Result<seq<Meeting>>)
      ensures !IsValidContact(c) ==> r == Err(IllegalArgument)
      ensures IsValidContact(c) ==> r == Ok(SortByDate(WithContact(futureMeetings, c)))
    {
      if !IsValidContact(c) {
        return Err(IllegalArgument);
      }
      var list: seq<Meeting> := [];
      for i := 0 to |futureMeetings|
        invariant list == WithContact(futureMeetings[..i], c)
      {
        var candidate := futureMeetings[i];
        if c in candidate.GetContacts() {
          list := list + [candidate];
        }
        assert futureMeetings[..i + 1][..i] == futureMeetings[..i];
      }
      assert futureMeetings[..|futureMeetings|] == futureMeetings;
      r := Ok(SortByDate(list));
    }

    /**
     * `getPastMeetingList(contact)`: refused for a contact not in the
     * manager; otherwise the past-list meetings of that contact, sorted by date.
     */
    method GetPastMeetingList(c: Contact?) returns (r: Result<seq<Meeting>>)
      ensures !IsValidContact(c) ==> r == Err(IllegalArgument)
      ensures IsValidContact(c) ==> r == Ok(SortByDate(WithContact(pastMeetings, c)))
    {
      if !IsValidContact(c) {
        return Err(IllegalArgument);
      }
      var list: seq<Meeting> := [];
      for i := 0 to |pastMeetings|
        invariant list == WithContact(pastMeetings[..i], c)
      {
        var candidate := pastMeetings[i];
        if c in candidate.GetContacts() {
          list := list + [candidate];
        }
        assert pastMeetings[..i + 1][..i] == pastMeetings[..i];
      }
      assert pastMeetings[..|pastMeetings|] == pastMeetings;
      r := Ok(SortByDate(list));
    }

    /** The per-contact lists hold exactly that contact's meetings of the chosen list, in date order, stably. */
    lemma ContactListMeaning(c: Contact?, past: bool)
      ensures var list := if past then pastMeetings else futureMeetings;
        var r := SortByDate(WithContact(list, c));
        && SortedByDate(r)
        && (forall m :: m in r <==> m in list && c in m.contacts)
        && (forall d :: DatedAt(r, d) == DatedAt(WithContact(list, c), d))
    {
      var list := if past then pastMeetings else futureMeetings;
      var r := SortByDate(WithContact(list, c));
      WithContactMembers(list, c);
      forall m ensures m in r <==> m in list && c in m.contacts {
        assert m in r <==> m in multiset(r);
      }
      SortByDateCharacterised(WithContact(list, c), r);
    }

    /** The meetings of `s` on the day of `date`, collected in order, appended to `list`. */
    method CollectOnDay(s: seq<Meeting>, date: int, list: seq<Meeting>) returns (out: seq<Meeting>)
      ensures out == list + OnDay(s, date)
    {
      out := list;
      for i := 0 to |s|
        invariant out == list + OnDay(s[..i], date)
      {
        var candidate := s[i];
        if AreSameDay(date, candidate.GetDate()) {
          out := out + [candidate];
        }
        assert s[..i + 1][..i] == s[..i];
      }
      assert s[..|s|] == s;
    }

    /**
     * `getFutureMeetingList(date)` as written: the meetings on that calendar
     * day, sorted by date, where the past list is searched only when `date`
     * is strictly before now.
     */
    method GetFutureMeetingListOnDay(date: int, now: int) returns (r: seq<Meeting>)
      ensures r == DayListAsWritten(pastMeetings, futureMeetings, date, now)
    {
      var list: seq<Meeting> := [];
      if IsInPast(date, now) {
        list := CollectOnDay(pastMeetings, date, list);
      }
      list := CollectOnDay(futureMeetings, date, list);
      assert list == (if IsInPast(date, now) then OnDay(pastMeetings, date) else []) + OnDay(futureMeetings, date);
      r := SortByDate(list);
    }

    /** The meetings of either list on that calendar day, sorted by date (the corrected query). */
    method GetMeetingsOnDay(date: int) returns (r: seq<Meeting>)
      ensures r == DayList(pastMeetings, futureMeetings, date)
      ensures SortedByDate(r)
      ensures forall m :: m in r <==> (m in pastMeetings || m in futureMeetings) && AreSameDay(date, m.date)
    {
      var list := CollectOnDay(pastMeetings, date, []);
      list := CollectOnDay(futureMeetings, date, list);
      assert list == OnDay(pastMeetings, date) + OnDay(futureMeetings, date);
      r := SortByDate(list);
      DayListComplete(pastMeetings, futureMeetings, date);
    }

    // ------------------------------------------------------------ notes and the future-to-past move

    /**
     * `addMeetingNotes`: null text, then an unknown id, are refused; a
     * future-list meeting whose date is not strictly before now is refused
     * with nothing changed. Otherwise a future-list meeting moves to the end
     * of the past list, and the meeting's notes get `text` appended.
     */
    method AddMeetingNotes(id: int, text: Option<string>, now: int) returns (r: Outcome)
      requires Valid()
      modifies this, Lookup(pastMeetings, futureMeetings, id)
      ensures Valid()
      ensures contacts == old(contacts)
      ensures text.None? ==> r == Fail(NullPointer)
      ensures text.Some? && !old(HasId(pastMeetings, id)) && !old(HasId(futureMeetings, id)) ==>
        r == Fail(IllegalArgument)
      ensures text.Some? && old(HasId(futureMeetings, id)) && IsInFuture(old(Lookup(pastMeetings, futureMeetings, id)).date, now) ==>
        r == Fail(IllegalState)
      ensures r.Fail? ==>
        && pastMeetings == old(pastMeetings) && futureMeetings == old(futureMeetings)
        && var m := old(Lookup(pastMeetings, futureMeetings, id));
           m != null ==> m.notes == old(m.notes)
      ensures text.Some? && old(HasId(pastMeetings, id)) ==>
        && r == Done
        && pastMeetings == old(pastMeetings) && futureMeetings == old(futureMeetings)
        && var m := old(Lookup(pastMeetings, futureMeetings, id));
           m.notes == Text.AppendNote(old(m.notes), text.value)
      ensures text.Some? && old(HasId(futureMeetings, id)) && IsInPast(old(Lookup(pastMeetings, futureMeetings, id)).date, now) ==>
        && r == Done
        && var m := old(Lookup(pastMeetings, futureMeetings, id));
           && pastMeetings == old(pastMeetings) + [m]
           && futureMeetings == RemoveFirst(old(futureMeetings), m)
           && HasId(pastMeetings, id) && !HasId(futureMeetings, id)
           && m.notes == Text.AppendNote(old(m.notes), text.value)
    {
      if text.None? {
        return Fail(NullPointer);
      }
      var meeting := GetMeeting(id);
      if meeting == null {
        return Fail(IllegalArgument);
      }
      FoundMeetingList(id);
      if IsFutureMeeting(meeting) && IsInFuture(meeting.GetDate(), now) {
        return Fail(IllegalState);
      }
      RecordNotes(meeting, text.value);
      r := Done;
    }

    /**
     * The successful path of `addMeetingNotes`: a future-list meeting first
     * moves to the past list, then the notes are appended.
     */
    method RecordNotes(m: Meeting, text: string)
      requires Valid() && (m in pastMeetings || m in futureMeetings)
      modifies this, m`notes
      ensures Valid()
      ensures contacts == old(contacts)
      ensures m.notes == Text.AppendNote(old(m.notes), text)
      ensures old(m in futureMeetings) ==>
        pastMeetings == old(pastMeetings) + [m] && futureMeetings == RemoveFirst(old(futureMeetings), m)
        && HasId(pastMeetings, m.id) && !HasId(futureMeetings, m.id)
      ensures old(m !in futureMeetings) ==>
        pastMeetings == old(pastMeetings) && futureMeetings == old(futureMeetings)
      ensures forall x :: x in futureMeetings ==> x in old(futureMeetings)
    {
      ListedMeetingEquality(m);
      if IsFutureMeeting(m) {
        MoveToPast(m);
      }
      m.AddNotes(text);
    }

    /** The future-to-past move: take `m` out of the future list and append it to the past list. */
    method MoveToPast(m: Meeting)
      requires Valid() && m in futureMeetings
      modifies this
      ensures Valid()
      ensures contacts == old(contacts)
      ensures pastMeetings == old(pastMeetings) + [m]
      ensures futureMeetings == RemoveFirst(old(futureMeetings), m)
      ensures m !in futureMeetings && !HasId(futureMeetings, m.id) && HasId(pastMeetings, m.id)
      ensures forall x :: x in futureMeetings ==> x in old(futureMeetings)
      ensures AllMeetings() == old(AllMeetings())
    {
      MoveKeepsMeetings(pastMeetings, futureMeetings, m);
      RemoveFirstOfUnique(futureMeetings, m);
      var rest := RemoveFirst(futureMeetings, m);
      forall x | x in rest ensures x in futureMeetings {
        assert x in multiset(rest);
      }
      futureMeetings := rest;
      pastMeetings := pastMeetings + [m];
      assert pastMeetings[|pastMeetings| - 1] == m;
    }
  }
}
