/**
 * The insert screen: `saveNote` checks the fields, builds the new note, appends
 * it to the list under the key-value entry `NOTES`, and writes that list to
 * `NOTES` and then to `notes.json`.
 */
module InsertNote {
  import opened Text
  import opened Notes
  import opened Storage

  /** The record `saveNote` builds. It has no `archived`, `locked`, `password`,
      `image` or `updatedAt` field. The id stands for `Date.now().toString()`
      and `createdAt` for `new Date().toISOString()`. */
  function NewNote(id: string, title: string, content: string, imageUri: Option<string>, createdAt: string): (r: Note)
    ensures r.id == id && r.title == title && r.content == content
    ensures r.imageUri == imageUri && r.createdAt == createdAt
    ensures r.archived == None && r.locked == None && r.password == None
    ensures r.image == None && r.updatedAt == None
    ensures !IsArchived(r) && !IsLocked(r) && !HasPassword(r)
  {
    Note(id, title, content, createdAt, None, None, imageUri, None, None, None)
  }

  datatype InsertOutcome =
    | MissingFields            // "please enter a title and content"
    | ReadFailed               // `JSON.parse` throws; the promise rejects
    | Saved(notes: seq<Note>, next: Route)   // stored; the screen goes back

  /** The list `saveNote` starts from: an absent or empty `NOTES` entry is the
      empty list; unparseable text is a failure. */
  function ExistingNotes(entry: Option<Entry<seq<Note>>>): (r: Option<seq<Note>>)
    ensures entry == None || entry == Some(Blank) ==> r == Some([])
    ensures entry == Some(Corrupt) <==> r == None
    ensures entry.Some? && entry.value.Value? ==> r == Some(entry.value.v)
  {
    match entry
    case None => Some([])
    case Some(e) =>
      match e
      case Blank => Some([])
      case Corrupt => None
      case Value(ns) => Some(ns)
  }

  /** What `saveNote` decides, given what `NOTES` holds. */
  function SaveOutcome(entry: Option<Entry<seq<Note>>>, id: string, title: string, content: string,
                       imageUri: Option<string>, createdAt: string): (r: InsertOutcome)
    ensures r == MissingFields <==> IsBlank(title) || IsBlank(content)
    ensures r == ReadFailed <==> !IsBlank(title) && !IsBlank(content) && entry == Some(Corrupt)
    ensures r.Saved? ==>
      var existing := ExistingNotes(entry).value;
      && |r.notes| == |existing| + 1
      && r.notes[..|existing|] == existing
      && r.notes[|existing|] == NewNote(id, title, content, imageUri, createdAt)
      && r.next == Back
  {
    if IsBlank(title) || IsBlank(content) then MissingFields
    else
      match ExistingNotes(entry)
      case None => ReadFailed
      case Some(notes) => Saved(notes + [NewNote(id, title, content, imageUri, createdAt)], Back)
  }

  /** `saveNote`. */
  method SaveNote(device: Device, id: string, title: string, content: string,
                  imageUri: Option<string>, createdAt: string) returns (outcome: InsertOutcome)
    modifies device
    ensures outcome == SaveOutcome(old(Lookup(device.lists, NotesKey)), id, title, content, imageUri, createdAt)
    ensures outcome.Saved? ==>
      && device.lists == old(device.lists)[NotesKey := Value(outcome.notes)][NotesFile := Value(outcome.notes)]
      && device.log == old(device.log) + [NotesKey, NotesFile]
    ensures !outcome.Saved? ==> device.lists == old(device.lists) && device.log == old(device.log)
    ensures device.accounts == old(device.accounts)
  {
    if IsBlank(title) || IsBlank(content) {
      return MissingFields;
    }
    var existing := ExistingNotes(Lookup(device.lists, NotesKey));
    if existing.None? {
      return ReadFailed;
    }
    var notes := existing.value + [NewNote(id, title, content, imageUri, createdAt)];
    device.WriteNotes(NotesKey, notes);
    device.WriteNotes(NotesFile, notes);
    outcome := Saved(notes, Back);
  }

  /** A new note is active and unlocked, so the home screen lists it with its
      content shown, whatever the session has unlocked. */
  lemma NewNoteIsListedOpen(id: string, title: string, content: string, imageUri: Option<string>,
                            createdAt: string, unlockedNotes: seq<string>)
    ensures var n := NewNote(id, title, content, imageUri, createdAt);
      ActiveNotes([n]) == [n] && CardContent(n, unlockedNotes) == content
  {
    var n := NewNote(id, title, content, imageUri, createdAt);
    ActiveNotesOfActiveList([n]);
  }

  /** Once saved, the new note is the last note the home screen loads from the
      written list, after the active notes that were already there, in order. */
  lemma SavedNoteIsListedLast(entry: Option<Entry<seq<Note>>>, id: string, title: string, content: string,
                              imageUri: Option<string>, createdAt: string)
    requires SaveOutcome(entry, id, title, content, imageUri, createdAt).Saved?
    ensures ActiveNotes(SaveOutcome(entry, id, title, content, imageUri, createdAt).notes)
         == ActiveNotes(ExistingNotes(entry).value) + [NewNote(id, title, content, imageUri, createdAt)]
  {
    ActiveNotesAppendActive(ExistingNotes(entry).value, NewNote(id, title, content, imageUri, createdAt));
  }
}
