/**
 * The lock screen: validate the password and its confirmation, then hand the
 * caller's `onLock` callback a locked copy of the note.
 */
module LockNote {
  import opened Text
  import opened Notes

  /** The least password length, in UTF-16 code units. */
  const MinPasswordLength: nat := 6

  datatype LockError =
    | EmptyField      // "please fill in both passwords"
    | Mismatch        // "passwords do not match"
    | TooShort        // "password must be at least 6 characters"

  /** `validateInputs`: the first failing check, in the order empty, mismatch,
      length; `None` when all pass. */
  function ValidateInputs(password: string, confirm: string): (r: Option<LockError>)
    ensures r == Some(EmptyField) <==> password == [] || confirm == []
    ensures r == Some(Mismatch) <==> password != [] && confirm != [] && password != confirm
    ensures r == Some(TooShort) <==>
      password != [] && password == confirm && Utf16Length(password) < MinPasswordLength
    ensures r == None <==>
      password != [] && password == confirm && Utf16Length(password) >= MinPasswordLength
  {
    if password == [] || confirm == [] then Some(EmptyField)
    else if password != confirm then Some(Mismatch)
    else if Utf16Length(password) < MinPasswordLength then Some(TooShort)
    else None
  }

  datatype LockOutcome =
    | Rejected(error: LockError)
    | NoCallback              // "invalid onLock function"; nothing is called
    | Locked(lockedNote: Note, next: Route) // `onLock(lockedNote)` then go back

  /** `handleLock`; `hasOnLock` says whether `onLock` is a function. */
  function HandleLock(note: Note, password: string, confirm: string, hasOnLock: bool): (r: LockOutcome)
    ensures r.Rejected? <==> ValidateInputs(password, confirm).Some?
    ensures r.Rejected? ==> r.error == ValidateInputs(password, confirm).value
    ensures r == NoCallback <==> ValidateInputs(password, confirm).None? && !hasOnLock
    ensures r.Locked? ==>
      && r.lockedNote.locked == Some(true) && r.lockedNote.password == Some(password)
      && r.lockedNote == note.(locked := Some(true), password := Some(password))
      && IsLocked(r.lockedNote) && HasPassword(r.lockedNote)
      && r.next == Back
  {
    match ValidateInputs(password, confirm)
    case Some(e) => Rejected(e)
    case None => if hasOnLock then Locked(note.(locked := Some(true), password := Some(password)), Back) else NoCallback
  }

  /** A five-character password is refused as too short; a six-character one
      confirmed identically is accepted. */
  lemma PasswordLengthBoundary()
    ensures ValidateInputs("abc12", "abc12") == Some(TooShort)
    ensures ValidateInputs("abcdef", "abcdef") == None
  {
    assert Utf16Length("abc12") == 5;
    assert Utf16Length("abcdef") == 6;
  }

  /** An empty field is reported even when the two fields also differ. */
  lemma EmptyIsReportedFirst(password: string)
    requires password != []
    ensures ValidateInputs(password, []) == Some(EmptyField)
    ensures ValidateInputs([], password) == Some(EmptyField)
  {
  }
}
