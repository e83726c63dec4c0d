/**
 * The login screen: compare the typed credentials with the user record under
 * the key-value entry `USER`.
 */
module Login {
  import opened Notes
  import opened Storage

  datatype LoginOutcome =
    | Navigate(route: Route)   // `navigation.replace('Home')`
    | Failed                   // "wrong username or password"
    | Aborted                  // `getUser` rejects; no alert, no navigation

  /** `handleLogin`, given what `getUser` yields: exact comparison, no trimming. */
  function HandleLogin(lookup: UserLookup, username: string, password: string): (r: LoginOutcome)
    ensures r.Navigate? <==> lookup.Found? && lookup.user.username == username && lookup.user.password == password
    ensures r.Navigate? ==> r.route == ToHome
    ensures r == Aborted <==> lookup == Unreadable
    ensures lookup == NoUser ==> r == Failed
  {
    match lookup
    case Unreadable => Aborted
    case NoUser => Failed
    case Found(u) => if username == u.username && password == u.password then Navigate(ToHome) else Failed
  }

  /** On a fresh install, once `initUser` has run, the seed account logs in. */
  lemma SeedAccountLogsIn(accounts: map<string, Entry<User>>)
    requires NeedsSeed(accounts)
    ensures HandleLogin(GetUser(InitializedAccounts(accounts)), "binh", "123456") == Navigate(ToHome)
  {
    GetUserAfterInit(accounts);
  }

  /** Registration and login use different stores: a user written to the
      registration file is not seen by the login lookup. */
  lemma RegisteredUserIsNotSeenByLogin(accounts: map<string, Entry<User>>, u: User)
    ensures GetUser(accounts[UserFile := Value(u)]) == GetUser(accounts)
  {
  }
}
