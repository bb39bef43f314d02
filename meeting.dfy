/**
 * A meeting: an id drawn from the shared counter, a date and a set of
 * contacts fixed at construction, and notes that only ever grow. Whether a
 * meeting is past or future is not a field of the meeting: it is the list of
 * the contact manager the meeting sits in.
 */
module Meetings {
  import Text
  import opened DomainObject
  import opened Contacts

  class Meeting {
    /** Assigned once at construction (or restoration) and never changed. */
    const id: nat
    /** `final` in the source: never reassigned. */
    const date: int
    const contacts: set<Contact>
    var notes: string

    /** `MeetingImpl(date, contacts)`: a fresh id, the given date and contacts, no notes. */
    constructor (date: int, contacts: set<Contact>, bank: IdBank)
      modifies bank
      ensures id == old(bank.last) + 1 && bank.last == id
      ensures this.date == date && this.contacts == contacts && notes == ""
    {
      var issued := bank.Issue();
      id := issued;
      this.date := date;
      this.contacts := contacts;
      notes := "";
    }

    /** A meeting read back from a snapshot keeps its id; the counter is raised to it. */
    constructor Restored(id: nat, date: int, contacts: set<Contact>, notes: string, bank: IdBank)
      modifies bank
      ensures this.id == id && this.date == date && this.contacts == contacts && this.notes == notes
      ensures bank.last == Raised(old(bank.last), id)
    {
      this.id := id;
      this.date := date;
      this.contacts := contacts;
      this.notes := notes;
      new;
      bank.Observe(id);
    }

    /**
     * `getDate` returns a copy. A date is a value here, so whatever the
     * caller does with the result cannot reach the meeting's own date.
     */
    function GetDate(): (d: int)
      ensures d == date
    {
      date
    }

    /**
     * `getContacts` returns a copy. A set is a value here, so adding to the
     * result cannot change the meeting's own contacts.
     */
    function GetContacts(): (cs: set<Contact>)
      ensures cs == contacts
    {
      contacts
    }

    function GetNotes(): (r: string)
      reads this
      ensures r == notes
    {
      notes
    }

    /** `addNotes`: join the note to the existing notes; the earlier notes stay a prefix. */
    method AddNotes(note: string)
      modifies this`notes
      ensures notes == Text.AppendNote(old(notes), note)
      ensures old(notes) <= notes
    {
      if notes != "" {
        notes := notes + Text.Separator;
      }
      notes := notes + note;
    }

    /** `equals`: another meeting with the same id; never a non-meeting (null). */
    predicate Equals(other: Meeting?) {
      other != null && other.id == id
    }
  }

  /** Meeting equality is an equivalence: reflexive, symmetric and transitive. */
  lemma EqualsIsEquivalence(a: Meeting, b: Meeting, c: Meeting)
    ensures a.Equals(a)
    ensures a.Equals(b) ==> b.Equals(a)
    ensures a.Equals(b) && b.Equals(c) ==> a.Equals(c)
  {
  }
}
