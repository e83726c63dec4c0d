/**
 * The edit screen: `handleUpdate` checks the fields, re-reads `notes.json`,
 * checks the position it was opened with, overwrites that note's editable
 * fields and writes the list back.
 */
module EditNote {
  import opened Text
  import opened Notes
  import opened Storage

  /** `readNotesFromFile`: a missing file, an empty file and a file that does
      not parse all read as the empty list. */
  function ReadNotesFromFile(file: Option<Entry<seq<Note>>>): (r: seq<Note>)
    ensures file.Some? && file.value.Value? ==> r == file.value.v
    ensures !(file.Some? && file.value.Value?) ==> r == []
  {
    if file.Some? && file.value.Value? then file.value.v else []
  }

  /** The note after an edit: the edited fields replaced as entered, every
      other field as stored. */
  function Edited(n: Note, title: string, content: string, image: Option<string>, updatedAt: string): (r: Note)
    ensures r.title == title && r.content == content && r.image == image && r.updatedAt == Some(updatedAt)
    ensures r.id == n.id && r.createdAt == n.createdAt && r.imageUri == n.imageUri
    ensures r.archived == n.archived && r.locked == n.locked && r.password == n.password
  {
    n.(title := title, content := content, image := image, updatedAt := Some(updatedAt))
  }

  datatype EditOutcome =
    | MissingFields     // "please enter a title and content"
    | NoteNotFound      // "note to update not found"
    | Saved(notes: seq<Note>, next: Route)   // written; the screen goes back

  /** What `handleUpdate` decides, given what `notes.json` holds. */
  function UpdateOutcome(file: Option<Entry<seq<Note>>>, index: int, title: string, content: string,
                         image: Option<string>, updatedAt: string): (r: EditOutcome)
    ensures r == MissingFields <==> IsBlank(title) || IsBlank(content)
    ensures r == NoteNotFound <==>
      !IsBlank(title) && !IsBlank(content) && !(0 <= index < |ReadNotesFromFile(file)|)
    ensures r.Saved? ==>
      var stored := ReadNotesFromFile(file);
      && 0 <= index < |stored|
      && |r.notes| == |stored|
      && r.notes[index] == Edited(stored[index], title, content, image, updatedAt)
      && (forall k :: 0 <= k < |stored| && k != index ==> r.notes[k] == stored[k])
      && r.next == Back
  {
    if IsBlank(title) || IsBlank(content) then MissingFields
    else
      var notes := ReadNotesFromFile(file);
      if index < 0 || index >= |notes| then NoteNotFound
      else Saved(notes[index := Edited(notes[index], title, content, image, updatedAt)], Back)
  }

  /** `handleUpdate`; `updatedAt` stands for the formatted current time. */
  method HandleUpdate(device: Device, index: int, title: string, content: string,
                      image: Option<string>, updatedAt: string) returns (outcome: EditOutcome)
    modifies device
    ensures outcome == UpdateOutcome(old(Lookup(device.lists, NotesFile)), index, title, content, image, updatedAt)
    ensures outcome.Saved? ==>
      && device.lists == old(device.lists)[NotesFile := Value(outcome.notes)]
      && device.log == old(device.log) + [NotesFile]
    ensures !outcome.Saved? ==> device.lists == old(device.lists) && device.log == old(device.log)
    ensures device.accounts == old(device.accounts)
  {
    if IsBlank(title) || IsBlank(content) {
      return MissingFields;
    }
    var notes := ReadNotesFromFile(Lookup(device.lists, NotesFile));
    if index < 0 || index >= |notes| {
      return NoteNotFound;
    }
    notes := notes[index := Edited(notes[index], title, content, image, updatedAt)];
    device.WriteNotes(NotesFile, notes);
    outcome := Saved(notes, Back);
  }

  /** A title or content made only of whitespace is rejected, whatever the file
      holds and whatever the position. */
  lemma WhitespaceFieldsAreRejected(file: Option<Entry<seq<Note>>>, index: int, title: string, content: string,
                                    image: Option<string>, updatedAt: string)
    requires forall i :: 0 <= i < |title| ==> IsWhitespace(title[i])
    ensures UpdateOutcome(file, index, title, content, image, updatedAt) == MissingFields
  {
    BlankIffAllWhitespace(title);
  }

  /** The fields are saved as entered: surrounding whitespace is kept. */
  lemma FieldsAreNotTrimmed(stored: seq<Note>, index: int, title: string, content: string,
                            image: Option<string>, updatedAt: string)
    requires 0 <= index < |stored|
    requires !IsBlank(title) && !IsBlank(content)
    ensures var r := UpdateOutcome(Some(Value(stored)), index, title, content, image, updatedAt);
      r.Saved? && r.notes[index].title == title && r.notes[index].content == content
  {
  }

  /** With no readable file every update is refused as not found. */
  lemma UnreadableFileFindsNothing(file: Option<Entry<seq<Note>>>, index: int, title: string, content: string,
                                   image: Option<string>, updatedAt: string)
    requires file == None || file == Some(Blank) || file == Some(Corrupt)
    ensures !UpdateOutcome(file, index, title, content, image, updatedAt).Saved?
  {
  }
}
