/**
 * The home screen: the active list and the archive list it holds in memory,
 * loaded from `notes.json` and `archive.json`, and the handlers that change them.
 *
 * The index the delete and archive handlers receive is a position in the
 * displayed (searched) list, but they apply it to the full list `notes`; the
 * model keeps that: the handlers take a position in `notes`.
 */
module Home {
  import opened Notes
  import opened Sequences
  import opened Storage

  /** The list `loadNotes` leaves in memory: the active part of a parsed
      `notes.json`, or the current list when the file is absent, empty or does
      not parse (the error is caught and logged). */
  function LoadedActive(file: Option<Entry<seq<Note>>>, current: seq<Note>): seq<Note> {
    if file.Some? && file.value.Value? then ActiveNotes(file.value.v) else current
  }

  /** The two lists after archiving position `index` of `notes`: the note leaves
      the active list and an unchanged copy of it (its `archived` field as it
      was) is appended to the archive list. */
  function ArchiveMove(notes: seq<Note>, archived: seq<Note>, index: nat): (r: (seq<Note>, seq<Note>))
    requires index < |notes|
    ensures r.0 == RemoveAt(notes, index)
    ensures |r.1| == |archived| + 1 && r.1[..|archived|] == archived
    ensures r.1[|archived|] == notes[index]
    ensures |r.0| + |r.1| == |notes| + |archived|
    ensures multiset(r.0) + multiset(r.1) == multiset(notes) + multiset(archived)
  {
    RemoveAtMultiset(notes, index);
    (RemoveAt(notes, index), archived + [notes[index]])
  }

  class HomeScreen {
    var notes: seq<Note>
    var archivedNotes: seq<Note>
    /** Ids unlocked in this session; no handler ever adds to it. */
    var unlockedNotes: seq<string>
    const device: Device

    constructor (device: Device)
      ensures notes == [] && archivedNotes == [] && unlockedNotes == []
      ensures this.device == device
    {
      notes := [];
      archivedNotes := [];
      unlockedNotes := [];
      this.device := device;
    }

    /** `loadNotes`. */
    method LoadNotes()
      modifies this`notes
      ensures notes == LoadedActive(Lookup(device.lists, NotesFile), old(notes))
      ensures old(AllActive(notes)) ==> AllActive(notes)
      ensures Lookup(device.lists, NotesFile).Some? && Lookup(device.lists, NotesFile).value.Value? ==> AllActive(notes)
    {
      var file := Lookup(device.lists, NotesFile);
      if file.Some? && file.value.Value? {
        notes := ActiveNotes(file.value.v);
        ActiveNotesAreActive(file.value.v);
      }
    }

    /** `loadArchivedNotes`. */
    method LoadArchivedNotes()
      modifies this`archivedNotes
      ensures archivedNotes == ParsedOr(Lookup(device.lists, ArchiveFile), old(archivedNotes))
    {
      var file := Lookup(device.lists, ArchiveFile);
      if file.Some? && file.value.Value? {
        archivedNotes := file.value.v;
      }
    }

    /** `handleDeleteNote` (confirmed): splice a copy of `notes`, save it to
        `notes.json`, then reload the active list from that file. */
    method DeleteNote(index: nat)
      modifies this`notes, device
      ensures device.lists == old(device.lists)[NotesFile := Value(RemoveAt(old(notes), index))]
      ensures device.accounts == old(device.accounts)
      ensures device.log == old(device.log) + [NotesFile]
      ensures notes == ActiveNotes(RemoveAt(old(notes), index))
      ensures AllActive(notes)
      ensures old(AllActive(notes)) && index < old(|notes|) ==>
        notes == RemoveAt(old(notes), index) && |notes| == old(|notes|) - 1
    {
      if AllActive(notes) && index < |notes| {
        DeleteRemovesOneNote(notes, index);
      }
      var updatedNotes := RemoveAt(notes, index);
      notes := updatedNotes;
      device.WriteNotes(NotesFile, updatedNotes);
      LoadNotes();
    }

    /** `handleArchiveNote` (confirmed): move a copy of the note to the end of
        the archive list, save both files, then reload both lists. */
    method ArchiveNote(index: nat)
      requires index < |notes|
      modifies this`notes, this`archivedNotes, device
      ensures var moved := ArchiveMove(old(notes), old(archivedNotes), index);
        && device.lists == old(device.lists)[NotesFile := Value(moved.0)][ArchiveFile := Value(moved.1)]
        && notes == ActiveNotes(moved.0)
        && archivedNotes == moved.1
      ensures AllActive(notes)
      ensures old(AllActive(notes)) ==> notes == ArchiveMove(old(notes), old(archivedNotes), index).0
      ensures device.accounts == old(device.accounts)
      ensures device.log == old(device.log) + [NotesFile, ArchiveFile]
    {
      if AllActive(notes) {
        DeleteRemovesOneNote(notes, index);
      }
      var updatedNotes := RemoveAt(notes, index);
      var noteToArchive := notes[index];
      var updatedArchived := archivedNotes + [noteToArchive];
      notes := updatedNotes;
      archivedNotes := updatedArchived;
      device.WriteNotes(NotesFile, updatedNotes);
      device.WriteNotes(ArchiveFile, updatedArchived);
      LoadNotes();
      LoadArchivedNotes();
    }

    /** The body shared by the `onLock` and `onUnlock` callbacks: replace the
        note with id `id`, and save, only when such a note is listed. */
    method ReplaceAndSave(id: string, replacement: Note)
      modifies this`notes, device
      ensures IndexOfId(old(notes), id) != -1 ==>
        && notes == ReplaceById(old(notes), id, replacement)
        && device.lists == old(device.lists)[NotesFile := Value(notes)]
        && device.log == old(device.log) + [NotesFile]
      ensures IndexOfId(old(notes), id) == -1 ==>
        && notes == old(notes)
        && device.lists == old(device.lists)
        && device.log == old(device.log)
      ensures old(AllActive(notes)) && !IsArchived(replacement) ==> AllActive(notes)
      ensures device.accounts == old(device.accounts)
    {
      var noteIndex := IndexOfId(notes, id);
      if noteIndex != -1 {
        var updatedNotes := notes[noteIndex := replacement];
        notes := updatedNotes;
        device.WriteNotes(NotesFile, updatedNotes);
      }
    }

    /** The `onLock` callback handed to the lock screen for note `id`. */
    method OnLock(id: string, lockedNote: Note)
      modifies this`notes, device
      ensures IndexOfId(old(notes), id) != -1 ==>
        && notes == ReplaceById(old(notes), id, lockedNote)
        && device.lists == old(device.lists)[NotesFile := Value(notes)]
        && device.log == old(device.log) + [NotesFile]
      ensures IndexOfId(old(notes), id) == -1 ==>
        notes == old(notes) && device.lists == old(device.lists) && device.log == old(device.log)
      ensures old(AllActive(notes)) && !IsArchived(lockedNote) ==> AllActive(notes)
      ensures device.accounts == old(device.accounts)
    {
      ReplaceAndSave(id, lockedNote);
    }

    /** The `onUnlock` callback handed to the password screen for note `id`. */
    method OnUnlock(id: string, unlockedNote: Note)
      modifies this`notes, device
      ensures IndexOfId(old(notes), id) != -1 ==>
        && notes == ReplaceById(old(notes), id, unlockedNote)
        && device.lists == old(device.lists)[NotesFile := Value(notes)]
        && device.log == old(device.log) + [NotesFile]
      ensures IndexOfId(old(notes), id) == -1 ==>
        notes == old(notes) && device.lists == old(device.lists) && device.log == old(device.log)
      ensures old(AllActive(notes)) && !IsArchived(unlockedNote) ==> AllActive(notes)
      ensures device.accounts == old(device.accounts)
    {
      ReplaceAndSave(id, unlockedNote);
    }
  }

  /** A missing, empty or unparseable `notes.json` leaves the list on screen as
      it was; it is not reset to empty. */
  lemma FailedLoadKeepsList(file: Option<Entry<seq<Note>>>, current: seq<Note>)
    requires file == None || file == Some(Blank) || file == Some(Corrupt)
    ensures LoadedActive(file, current) == current
  {
  }

  /** Deleting a position of the active list removes exactly that note and keeps
      the others in order; when nothing in the list is archived, the reloaded
      list is exactly the spliced one, one shorter. */
  lemma DeleteRemovesOneNote(notes: seq<Note>, index: nat)
    requires index < |notes|
    requires AllActive(notes)
    ensures ActiveNotes(RemoveAt(notes, index)) == RemoveAt(notes, index)
    ensures |ActiveNotes(RemoveAt(notes, index))| == |notes| - 1
    ensures multiset(ActiveNotes(RemoveAt(notes, index))) + multiset{notes[index]} == multiset(notes)
  {
    var r := RemoveAt(notes, index);
    forall k | 0 <= k < |r| ensures !IsArchived(r[k]) {
      assert r[k] == if k < index then notes[k] else notes[k + 1];
    }
    ActiveNotesOfActiveList(r);
    RemoveAtMultiset(notes, index);
  }

  /** A position taken from the displayed (searched) list is always a valid
      position of the full list, so the archive handler's index is in range; with
      an empty search box it also names the tapped note. */
  lemma DisplayedIndexIsInRange(notes: seq<Note>, query: string, index: nat)
    requires index < |SearchResults(notes, query)|
    ensures index < |notes|
    ensures query == [] ==> SearchResults(notes, query)[index] == notes[index]
  {
    SearchResultsAreTheMatches(notes, query);
    if query == [] {
      EmptyQueryListsEverything(notes);
    }
  }
}
