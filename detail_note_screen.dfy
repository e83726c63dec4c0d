/**
 * The detail screen: it shows the note stored at the position it was opened
 * with, falling back to the note it was handed, and keeps its own small
 * locked/unlocked state, decided by the note's `password` field (not by its
 * `locked` field).
 */
module DetailNote {
  import opened Notes
  import opened Storage

  /** `notes[index]` when that entry exists; `index` is absent when the screen
      was opened without one. */
  function StoredAt(ns: seq<Note>, index: Option<int>): (r: Option<Note>)
    ensures r.Some? <==> index.Some? && 0 <= index.value < |ns|
    ensures r.Some? ==> r.value == ns[index.value]
  {
    if index.Some? && 0 <= index.value < |ns| then Some(ns[index.value]) else None
  }

  datatype FetchOutcome =
    | Shown(note: Note, startsLocked: bool)
    | LoadFailed   // the file exists but does not parse; the error is caught

  /** What `fetchNote` decides, given what `notes.json` holds. */
  function FetchDecision(file: Option<Entry<seq<Note>>>, index: Option<int>, passed: Note): (r: FetchOutcome)
    ensures r == LoadFailed <==> file == Some(Blank) || file == Some(Corrupt)
    ensures file == None ==> r == Shown(passed, false)
    ensures file.Some? && file.value.Value? ==>
      var stored := StoredAt(file.value.v, index);
      && (stored.Some? ==> r == Shown(stored.value, HasPassword(stored.value)))
      && (stored.None? ==> r == Shown(passed, false))
    ensures r.Shown? && r.startsLocked ==> HasPassword(r.note)
  {
    match file
    case None => Shown(passed, false)
    case Some(e) =>
      match e
      case Blank => LoadFailed
      case Corrupt => LoadFailed
      case Value(ns) =>
        match StoredAt(ns, index)
        case Some(n) => Shown(n, HasPassword(n))
        case None => Shown(passed, false)
  }

  /** The unlock test: a password is set and the attempt equals it exactly. */
  predicate UnlockAccepted(shown: Option<Note>, attempt: string) {
    shown.Some? && HasPassword(shown.value) && shown.value.password == Some(attempt)
  }

  class DetailNoteScreen {
    const note: Note
    const index: Option<int>
    var updatedNote: Option<Note>
    var isLocked: bool

    constructor (note: Note, index: Option<int>)
      ensures this.note == note && this.index == index
      ensures updatedNote == None && !isLocked
    {
      this.note := note;
      this.index := index;
      updatedNote := None;
      isLocked := false;
    }

    /** `fetchNote`: it only ever sets `isLocked`, never clears it. */
    method FetchNote(device: Device)
      modifies this`updatedNote, this`isLocked
      ensures var r := FetchDecision(Lookup(device.lists, NotesFile), index, note);
        && (r.Shown? ==> updatedNote == Some(r.note) && isLocked == (old(isLocked) || r.startsLocked))
        && (r == LoadFailed ==> updatedNote == old(updatedNote) && isLocked == old(isLocked))
    {
      var file := Lookup(device.lists, NotesFile);
      if file.None? {
        updatedNote := Some(note);
      } else if file.value.Value? {
        var updated := StoredAt(file.value.v, index);
        if updated.Some? {
          updatedNote := updated;
          if HasPassword(updated.value) {
            isLocked := true;
          }
        } else {
          updatedNote := Some(note);
        }
      }
    }

    /** `handleUnlock`: a right attempt clears `isLocked`; a wrong one leaves it
        as it was (and shows an alert). */
    method HandleUnlock(attempt: string) returns (accepted: bool)
      modifies this`isLocked
      ensures accepted <==> UnlockAccepted(updatedNote, attempt)
      ensures accepted ==> !isLocked
      ensures !accepted ==> isLocked == old(isLocked)
    {
      accepted := updatedNote.Some? && HasPassword(updatedNote.value) && updatedNote.value.password == Some(attempt);
      if accepted {
        isLocked := false;
      }
    }
  }

  /** The screen only starts locked on a stored note that has a password: the
      fallback note never starts locked, and a note whose `locked` flag is set but
      that has no password is shown openly. */
  lemma LockednessFollowsPassword(file: Option<Entry<seq<Note>>>, index: Option<int>, passed: Note)
    ensures var r := FetchDecision(file, index, passed);
      r.Shown? && r.startsLocked <==>
        file.Some? && file.value.Value? && StoredAt(file.value.v, index).Some?
        && HasPassword(StoredAt(file.value.v, index).value)
  {
  }

  /** An empty attempt never unlocks, and neither does any attempt on a note
      without a password. */
  lemma UnlockNeedsAPassword(shown: Option<Note>, attempt: string)
    requires attempt == [] || shown.None? || !HasPassword(shown.value)
    ensures !UnlockAccepted(shown, attempt)
  {
  }
}
