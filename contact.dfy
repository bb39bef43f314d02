/**
 * A contact: a fixed name, an id drawn from the shared counter, and notes
 * that only ever grow.
 */
module Contacts {
  import Text
  import opened DomainObject

  class Contact {
    /** Assigned once at construction (or restoration) and never changed. */
    const id: nat
    const name: string
    var notes: string

    /** `ContactImpl(name)`: a fresh id, the given name, no notes. */
    constructor (name: string, bank: IdBank)
      modifies bank
      ensures id == old(bank.last) + 1 && bank.last == id
      ensures this.name == name && notes == ""
    {
      var issued := bank.Issue();
      id := issued;
      this.name := name;
      notes := "";
    }

    /** `ContactImpl(name, note)`: as above, then the note is added to the empty notes, so it is kept verbatim. */
    constructor WithNotes(name: string, note: string, bank: IdBank)
      modifies bank
      ensures id == old(bank.last) + 1 && bank.last == id
      ensures this.name == name && notes == note
    {
      var issued := bank.Issue();
      id := issued;
      this.name := name;
      notes := "";
      new;
      AddNotes(note);
    }

    /** A contact read back from a snapshot keeps its id; the counter is raised to it. */
    constructor Restored(id: nat, name: string, notes: string, bank: IdBank)
      modifies bank
      ensures this.id == id && this.name == name && this.notes == notes
      ensures bank.last == Raised(old(bank.last), id)
    {
      this.id := id;
      this.name := name;
      this.notes := notes;
      new;
      bank.Observe(id);
    }

    function GetName(): (r: string)
      ensures r == name
    {
      name
    }

    function GetNotes(): (r: string)
      reads this
      ensures r == notes
    {
      notes
    }

    /** `addNotes`: join the note to the existing notes; the earlier notes stay a prefix. */
    method AddNotes(note: string)
      modifies this`notes
      ensures notes == Text.AppendNote(old(notes), note)
      ensures old(notes) <= notes
    {
      if notes != "" {
        notes := notes + Text.Separator;
      }
      notes := notes + note;
    }
  }
}
