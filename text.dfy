/**
 * Text operations the contact manager relies on: the substring test of
 * Java's String.contains and the note-joining rule shared by contacts and
 * meetings (each `addNotes` separates a new note from earlier ones by "; ").
 */
module Text {

  /** `sub` occurs in `s` starting at offset `i`. */
  predicate OccursAt(s: string, sub: string, i: int) {
    0 <= i <= |s| - |sub| && s[i..i + |sub|] == sub
  }

  /** `sub` occurs in `s` at some offset (Java's `s.contains(sub)`). */
  predicate Contains(s: string, sub: string) {
    exists i :: 0 <= i <= |s| - |sub| && OccursAt(s, sub, i)
  }

  /** The empty string occurs in every string. */
  lemma EmptyContainedInAll(s: string)
    ensures Contains(s, "")
  {
    assert OccursAt(s, "", 0);
  }

  /** A string that ends with `sub` contains it. */
  lemma ContainsSuffix(s: string, sub: string)
    requires |sub| <= |s| && s[|s| - |sub|..] == sub
    ensures Contains(s, sub)
  {
    assert OccursAt(s, sub, |s| - |sub|);
  }

  /** Extending a string at the end keeps every substring it had. */
  lemma ContainsExtend(s: string, t: string, sub: string)
    requires s <= t && Contains(s, sub)
    ensures Contains(t, sub)
  {
    var i :| 0 <= i <= |s| - |sub| && OccursAt(s, sub, i);
    assert t[i..i + |sub|] == s[i..i + |sub|];
    assert OccursAt(t, sub, i);
  }

  const Separator: string := "; "

  /**
   * The notes after one `addNotes(note)`: the first note replaces the empty
   * notes, every later one is appended after the separator. Earlier notes
   * are never lost (they stay a prefix) and the new note ends the result.
   */
  function AppendNote(notes: string, note: string): (r: string)
    ensures notes <= r
    ensures |note| <= |r| && r[|r| - |note|..] == note
    ensures notes == "" ==> r == note
  {
    if notes == "" then note else notes + Separator + note
  }

  /** The notes of an object created with empty notes after `addNotes` was called with each of `notes` in turn. */
  function NoteLog(notes: seq<string>): string
  {
    if notes == [] then "" else AppendNote(NoteLog(notes[..|notes| - 1]), notes[|notes| - 1])
  }

  /** Every note ever added can be found in the accumulated notes. */
  lemma {:induction false} NoteLogContainsEach(notes: seq<string>, i: nat)
    requires i < |notes|
    ensures Contains(NoteLog(notes), notes[i])
  {
    var n := |notes| - 1;
    var log := NoteLog(notes);
    if i == n {
      ContainsSuffix(log, notes[n]);
    } else {
      var front := notes[..n];
      assert notes[i] == front[i];
      NoteLogContainsEach(front, i);
      ContainsExtend(NoteLog(front), log, notes[i]);
    }
  }

}
