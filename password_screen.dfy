/**
 * The password screen: the challenge shown before a locked note is opened or
 * edited from the home screen. A right password hands the optional `onUnlock`
 * callback an unlocked copy of the note and replaces the screen with the edit
 * or the detail screen.
 */
module Password {
  import opened Text
  import opened Notes

  datatype PasswordOutcome =
    | EmptyAttempt     // "please enter the password"
    | WrongPassword    // "wrong password, try again"
    | Unlocked(callbackNote: Option<Note>, next: Route)

  /** The decision `handleUnlock` takes: blank attempts are refused before any
      comparison, then the attempt must equal `note.password` exactly. */
  function UnlockDecision(note: Note, index: int, goToEdit: bool, hasOnUnlock: bool, attempt: string): (r: PasswordOutcome)
    ensures r == EmptyAttempt <==> IsBlank(attempt)
    ensures r.Unlocked? <==> !IsBlank(attempt) && note.password == Some(attempt)
    ensures r.Unlocked? ==>
      && r.next == (if goToEdit then ToEdit(note, index) else ToDetail(note))
      && (hasOnUnlock ==> r.callbackNote == Some(note.(locked := Some(false))))
      && (!hasOnUnlock ==> r.callbackNote == None)
  {
    if IsBlank(attempt) then EmptyAttempt
    else if note.password == Some(attempt) then
      Unlocked(if hasOnUnlock then Some(note.(locked := Some(false))) else None,
               if goToEdit then ToEdit(note, index) else ToDetail(note))
    else WrongPassword
  }

  class PasswordScreen {
    const note: Note
    const index: int
    const goToEdit: bool
    const hasOnUnlock: bool
    var isLoading: bool
    /** Every value `isLoading` has been set to, in order. */
    ghost var loadingHistory: seq<bool>

    constructor (note: Note, index: int, goToEdit: bool, hasOnUnlock: bool)
      ensures this.note == note && this.index == index
      ensures this.goToEdit == goToEdit && this.hasOnUnlock == hasOnUnlock
      ensures !isLoading && loadingHistory == []
    {
      this.note := note;
      this.index := index;
      this.goToEdit := goToEdit;
      this.hasOnUnlock := hasOnUnlock;
      isLoading := false;
      loadingHistory := [];
    }

    /** `handleUnlock`: the check runs with `isLoading` set, which is cleared
        again after either outcome. */
    method HandleUnlock(attempt: string) returns (outcome: PasswordOutcome)
      modifies this`isLoading, this`loadingHistory
      ensures outcome == UnlockDecision(note, index, goToEdit, hasOnUnlock, attempt)
      ensures outcome == EmptyAttempt ==> isLoading == old(isLoading) && loadingHistory == old(loadingHistory)
      ensures outcome != EmptyAttempt ==> !isLoading && loadingHistory == old(loadingHistory) + [true, false]
    {
      if IsBlank(attempt) {
        return EmptyAttempt;
      }
      isLoading := true;
      loadingHistory := loadingHistory + [true];
      if note.password == Some(attempt) {
        var callbackNote := if hasOnUnlock then Some(note.(locked := Some(false))) else None;
        var next := if goToEdit then ToEdit(note, index) else ToDetail(note);
        outcome := Unlocked(callbackNote, next);
      } else {
        outcome := WrongPassword;
      }
      isLoading := false;
      loadingHistory := loadingHistory + [false];
    }
  }

  /** Unlocking keeps the password: the unlocked copy differs from the note only
      in `locked`, and the same password opens it again. */
  lemma UnlockKeepsPassword(note: Note, index: int, goToEdit: bool, attempt: string)
    requires UnlockDecision(note, index, goToEdit, true, attempt).Unlocked?
    ensures var unlocked := UnlockDecision(note, index, goToEdit, true, attempt).callbackNote.value;
      && unlocked.password == note.password
      && !IsLocked(unlocked)
      && UnlockDecision(unlocked, index, goToEdit, true, attempt).Unlocked?
  {
  }

  /** The comparison is not trimmed: the password followed by a space is a
      wrong password. */
  lemma AttemptIsNotTrimmed(note: Note, index: int, goToEdit: bool, hasOnUnlock: bool, password: string)
    requires note.password == Some(password) && !IsBlank(password)
    ensures UnlockDecision(note, index, goToEdit, hasOnUnlock, password + " ") == WrongPassword
  {
    var padded := password + " ";
    NotBlankAfterAppend(password, " ");
    assert |padded| == |password| + 1;
  }
}
