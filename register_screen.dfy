/**
 * The registration screen: validate the three fields, refuse a username equal
 * to the one stored in `user.json`, and otherwise replace that single record.
 */
module Register {
  import opened Text
  import opened Notes
  import opened Storage

  /** The least password length, in UTF-16 code units. */
  const MinPasswordLength: nat := 6

  datatype RegisterError =
    | EmptyUsername   // "username must not be empty"
    | ShortPassword   // "password must be at least 6 characters"
    | Mismatch        // "confirmation does not match"

  /** The validation chain: the first failing check, in the order username,
      length, confirmation; `None` when all pass. */
  function ValidateRegistration(username: string, password: string, confirm: string): (r: Option<RegisterError>)
    ensures r == Some(EmptyUsername) <==> IsBlank(username)
    ensures r == Some(ShortPassword) <==> !IsBlank(username) && Utf16Length(password) < MinPasswordLength
    ensures r == Some(Mismatch) <==>
      !IsBlank(username) && Utf16Length(password) >= MinPasswordLength && password != confirm
    ensures r == None <==>
      !IsBlank(username) && Utf16Length(password) >= MinPasswordLength && password == confirm
  {
    if IsBlank(username) then Some(EmptyUsername)
    else if Utf16Length(password) < MinPasswordLength then Some(ShortPassword)
    else if password != confirm then Some(Mismatch)
    else None
  }

  datatype RegisterOutcome =
    | Invalid(error: RegisterError)
    | FileUnreadable    // `user.json` exists but does not parse; the promise rejects
    | UsernameTaken     // "username already exists"
    | Registered(user: User, next: Route)   // written; the screen is replaced with login

  /** What `handleRegister` decides, given what `user.json` holds. */
  function RegisterDecision(stored: Option<Entry<User>>, username: string, password: string, confirm: string): (r: RegisterOutcome)
    ensures r.Invalid? <==> ValidateRegistration(username, password, confirm).Some?
    ensures r.Invalid? ==> r.error == ValidateRegistration(username, password, confirm).value
    ensures r == FileUnreadable <==>
      ValidateRegistration(username, password, confirm).None? && (stored == Some(Blank) || stored == Some(Corrupt))
    ensures r == UsernameTaken <==>
      ValidateRegistration(username, password, confirm).None? && stored.Some? && stored.value.Value?
      && stored.value.v.username == username
    ensures r.Registered? ==> r.user == User(username, password) && r.next == ToLogin
  {
    match ValidateRegistration(username, password, confirm)
    case Some(e) => Invalid(e)
    case None =>
      match stored
      case None => Registered(User(username, password), ToLogin)
      case Some(e) =>
        match e
        case Blank => FileUnreadable
        case Corrupt => FileUnreadable
        case Value(existing) =>
          if existing.username == username then UsernameTaken else Registered(User(username, password), ToLogin)
  }

  /** `handleRegister`. */
  method HandleRegister(device: Device, username: string, password: string, confirm: string) returns (outcome: RegisterOutcome)
    modifies device
    ensures outcome == RegisterDecision(old(Lookup(device.accounts, UserFile)), username, password, confirm)
    ensures outcome.Registered? ==>
      && device.accounts == old(device.accounts)[UserFile := Value(outcome.user)]
      && device.log == old(device.log) + [UserFile]
    ensures !outcome.Registered? ==> device.accounts == old(device.accounts) && device.log == old(device.log)
    ensures device.lists == old(device.lists)
  {
    var invalid := ValidateRegistration(username, password, confirm);
    if invalid.Some? {
      return Invalid(invalid.value);
    }
    var stored := Lookup(device.accounts, UserFile);
    if stored.Some? {
      if !stored.value.Value? {
        return FileUnreadable;
      }
      if stored.value.v.username == username {
        return UsernameTaken;
      }
    }
    var newUser := User(username, password);
    device.WriteUser(UserFile, newUser);
    outcome := Registered(newUser, ToLogin);
  }

  /** Registering the same username twice: the second attempt is refused,
      whatever password it uses. */
  lemma SecondRegistrationIsTaken(stored: Option<Entry<User>>, username: string, password: string,
                                  password2: string)
    requires RegisterDecision(stored, username, password, password).Registered?
    requires Utf16Length(password2) >= MinPasswordLength
    ensures RegisterDecision(Some(Value(User(username, password))), username, password2, password2) == UsernameTaken
  {
  }

  /** The username is stored as typed: surrounding spaces are kept, so a name
      differing only in padding is not a duplicate. */
  lemma UsernameIsNotTrimmed(existing: User, username: string, password: string)
    requires !IsBlank(username) && Utf16Length(password) >= MinPasswordLength
    requires existing.username == username
    ensures RegisterDecision(Some(Value(existing)), username + " ", password, password) == Registered(User(username + " ", password), ToLogin)
  {
    NotBlankAfterAppend(username, " ");
    assert |username + " "| == |username| + 1;
  }
}
