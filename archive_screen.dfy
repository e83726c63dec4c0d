/**
 * The archive screen: the archive list it holds in memory, loaded from the
 * key-value entry `ARCHIVE`, and its delete and unarchive handlers, which write
 * to the key-value entries `ARCHIVE` and `NOTES`.
 */
module Archive {
  import opened Notes
  import opened Sequences
  import opened Storage
  import InsertNote

  /** The note put back on the main list: only `archived` changes. */
  function Restored(n: Note): (r: Note)
    ensures r.archived == Some(false) && !IsArchived(r)
    ensures r.id == n.id && r.title == n.title && r.content == n.content && r.createdAt == n.createdAt
    ensures r.updatedAt == n.updatedAt && r.image == n.image && r.imageUri == n.imageUri
    ensures r.locked == n.locked && r.password == n.password
  {
    n.(archived := Some(false))
  }

  datatype UnarchiveOutcome =
    | NoSuchNote       // `splice` returns no element and `.archived = false` throws
    | NotesUnreadable  // `JSON.parse` of `NOTES` throws
    | Moved(notes: seq<Note>, archive: seq<Note>)

  /** What `handleUnarchiveNote` decides, given the archive list on screen and
      what `NOTES` holds. */
  function UnarchiveDecision(archive: seq<Note>, notesEntry: Option<Entry<seq<Note>>>, index: nat): (r: UnarchiveOutcome)
    ensures r == NoSuchNote <==> index >= |archive|
    ensures r == NotesUnreadable <==> index < |archive| && notesEntry == Some(Corrupt)
    ensures r.Moved? ==>
      var existing := InsertNote.ExistingNotes(notesEntry).value;
      && index < |archive|
      && r.archive == RemoveAt(archive, index)
      && |r.notes| == |existing| + 1
      && r.notes[..|existing|] == existing
      && r.notes[|existing|] == Restored(archive[index])
      && |r.notes| + |r.archive| == |existing| + |archive|
  {
    if index >= |archive| then NoSuchNote
    else
      match InsertNote.ExistingNotes(notesEntry)
      case None => NotesUnreadable
      case Some(existing) => Moved(existing + [Restored(archive[index])], RemoveAt(archive, index))
  }

  class ArchiveScreen {
    var archivedNotes: seq<Note>
    const device: Device

    constructor (device: Device)
      ensures archivedNotes == [] && this.device == device
    {
      archivedNotes := [];
      this.device := device;
    }

    /** `loadArchivedNotes`, run whenever the screen gains focus. Unparseable
        text makes the listener reject before the list is set. */
    method LoadArchivedNotes()
      modifies this`archivedNotes
      ensures archivedNotes == ParsedOr(Lookup(device.lists, ArchiveKey), old(archivedNotes))
    {
      var entry := Lookup(device.lists, ArchiveKey);
      if entry.Some? && entry.value.Value? {
        archivedNotes := entry.value.v;
      }
    }

    /** `handleDeleteNote` (confirmed): splice a copy of the list, store it
        under `ARCHIVE`, and show it. */
    method DeleteNote(index: nat)
      modifies this`archivedNotes, device
      ensures archivedNotes == RemoveAt(old(archivedNotes), index)
      ensures device.lists == old(device.lists)[ArchiveKey := Value(archivedNotes)]
      ensures device.log == old(device.log) + [ArchiveKey]
      ensures device.accounts == old(device.accounts)
    {
      var updatedArchivedNotes := RemoveAt(archivedNotes, index);
      device.WriteNotes(ArchiveKey, updatedArchivedNotes);
      archivedNotes := updatedArchivedNotes;
    }

    /** `handleUnarchiveNote` (confirmed). The note object is changed in place
        before `NOTES` is read, and the list on screen still holds that object;
        so when `NOTES` does not parse, nothing is written but the list on screen
        shows the note with `archived` false. */
    method UnarchiveNote(index: nat) returns (outcome: UnarchiveOutcome)
      modifies this`archivedNotes, device
      ensures outcome == UnarchiveDecision(old(archivedNotes), old(Lookup(device.lists, NotesKey)), index)
      ensures outcome.Moved? ==>
        && device.lists == old(device.lists)[NotesKey := Value(outcome.notes)][ArchiveKey := Value(outcome.archive)]
        && device.log == old(device.log) + [NotesKey, ArchiveKey]
        && archivedNotes == outcome.archive
      ensures outcome == NotesUnreadable ==>
        && device.lists == old(device.lists) && device.log == old(device.log)
        && archivedNotes == old(archivedNotes)[index := Restored(old(archivedNotes)[index])]
      ensures outcome == NoSuchNote ==>
        device.lists == old(device.lists) && device.log == old(device.log) && archivedNotes == old(archivedNotes)
      ensures device.accounts == old(device.accounts)
    {
      if index >= |archivedNotes| {
        return NoSuchNote;
      }
      var updatedArchivedNotes := RemoveAt(archivedNotes, index);
      var unarchivedNote := Restored(archivedNotes[index]);
      archivedNotes := archivedNotes[index := unarchivedNote];
      var existing := InsertNote.ExistingNotes(Lookup(device.lists, NotesKey));
      if existing.None? {
        return NotesUnreadable;
      }
      var updatedNotes := existing.value + [unarchivedNote];
      device.WriteNotes(NotesKey, updatedNotes);
      device.WriteNotes(ArchiveKey, updatedArchivedNotes);
      archivedNotes := updatedArchivedNotes;
      outcome := Moved(updatedNotes, updatedArchivedNotes);
    }
  }

  /** Unarchiving moves exactly one note: the two stored lists together hold
      the same notes as before, with the moved one restored. */
  lemma UnarchiveKeepsEveryNote(archive: seq<Note>, existing: seq<Note>, index: nat)
    requires index < |archive|
    ensures var r := UnarchiveDecision(archive, Some(Value(existing)), index);
      && r.Moved?
      && multiset(r.notes) + multiset(r.archive) + multiset{archive[index]}
           == multiset(existing) + multiset(archive) + multiset{Restored(archive[index])}
  {
    RemoveAtMultiset(archive, index);
  }

  /** With no `NOTES` entry, or an empty one, the restored note becomes the
      whole main list. */
  lemma UnarchiveIntoEmptyNotes(archive: seq<Note>, notesEntry: Option<Entry<seq<Note>>>, index: nat)
    requires index < |archive|
    requires notesEntry == None || notesEntry == Some(Blank)
    ensures UnarchiveDecision(archive, notesEntry, index).Moved?
    ensures UnarchiveDecision(archive, notesEntry, index).notes == [Restored(archive[index])]
  {
  }
}
