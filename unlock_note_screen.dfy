/**
 * The unlock screen: one trimmed comparison that either opens the detail
 * screen for the note's id or reports a wrong password.
 */
module UnlockNote {
  import opened Text
  import opened Notes

  datatype UnlockOutcome =
    | Navigate(route: Route)
    | WrongPassword     // "wrong password, try again"

  /** `handleUnlock`: the attempt is trimmed, the stored password is not. */
  function HandleUnlock(note: Note, attempt: string): (r: UnlockOutcome)
    ensures r.Navigate? <==> note.password == Some(Trim(attempt))
    ensures r.Navigate? ==> r.route == ToDetailById(note.id)
  {
    if note.password == Some(Trim(attempt)) then Navigate(ToDetailById(note.id)) else WrongPassword
  }

  /** Whitespace typed around the password is ignored. */
  lemma PaddingIsIgnored(note: Note, pre: string, attempt: string, post: string)
    requires forall i :: 0 <= i < |pre| ==> IsWhitespace(pre[i])
    requires forall i :: 0 <= i < |post| ==> IsWhitespace(post[i])
    ensures HandleUnlock(note, pre + attempt + post) == HandleUnlock(note, attempt)
  {
    TrimIgnoresPadding(pre, attempt, post);
  }

  /** A stored password that itself starts or ends with whitespace can never be
      matched, since a trimmed attempt has none there. */
  lemma PaddedPasswordNeverUnlocks(note: Note, attempt: string)
    requires note.password.Some? && note.password.value != []
    requires IsWhitespace(note.password.value[0]) || IsWhitespace(note.password.value[|note.password.value| - 1])
    ensures HandleUnlock(note, attempt) == WrongPassword
  {
    TrimHasNoPadding(attempt);
  }
}
