/**
 * The device's persistent storage, as the screens see it: the files in the
 * document directory and the entries of the key-value store, each under its own
 * name. A stored value is either the empty string, text that does not parse, or
 * a parsed value. Note lists and user records live under different names, so
 * they are kept in two maps. Also the seed-user initialiser and the user lookup
 * of the login screen.
 */
module Storage {
  import opened Notes

  /** What is stored under a name that exists: the empty string (or an empty
      file), text `JSON.parse` rejects, or a parsed value. */
  datatype Entry<+T> = Blank | Corrupt | Value(v: T)

  /** The single credential record. */
  datatype User = User(username: string, password: string)

  /** File names in the document directory. */
  const NotesFile: string := "notes.json"
  const ArchiveFile: string := "archive.json"
  const UserFile: string := "user.json"

  /** Key-value store keys. */
  const NotesKey: string := "NOTES"
  const ArchiveKey: string := "ARCHIVE"
  const UserKey: string := "USER"

  /** The seed account written by `initUser`. */
  const SeedUser: User := User("binh", "123456")

  function Lookup<T>(m: map<string, T>, key: string): (r: Option<T>)
    ensures r.Some? <==> key in m
    ensures r.Some? ==> r.value == m[key]
  {
    if key in m then Some(m[key]) else None
  }

  /** What a load leaves on screen: the parsed value when the entry exists and
      parses, otherwise (absent, empty, or unparseable) the current value, since
      every load either skips the update or fails before it. */
  function ParsedOr<T>(entry: Option<Entry<T>>, current: T): (r: T)
    ensures entry.Some? && entry.value.Value? ==> r == entry.value.v
    ensures entry == None || entry == Some(Blank) || entry == Some(Corrupt) ==> r == current
  {
    if entry.Some? && entry.value.Value? then entry.value.v else current
  }

  /** The device storage. Writes always succeed: a failed write, which some
      screens catch and log and others let abort the handler, is not modelled.
      `log` records the names written, in order. */
  class Device {
    var lists: map<string, Entry<seq<Note>>>
    var accounts: map<string, Entry<User>>
    ghost var log: seq<string>

    constructor (lists: map<string, Entry<seq<Note>>>, accounts: map<string, Entry<User>>)
      ensures this.lists == lists && this.accounts == accounts && log == []
    {
      this.lists := lists;
      this.accounts := accounts;
      log := [];
    }

    /** Store a note list under `key`, replacing whatever was there. */
    method WriteNotes(key: string, ns: seq<Note>)
      modifies this
      ensures lists == old(lists)[key := Value(ns)]
      ensures accounts == old(accounts)
      ensures log == old(log) + [key]
    {
      lists := lists[key := Value(ns)];
      log := log + [key];
    }

    /** Store a user record under `key`, replacing whatever was there. */
    method WriteUser(key: string, u: User)
      modifies this
      ensures accounts == old(accounts)[key := Value(u)]
      ensures lists == old(lists)
      ensures log == old(log) + [key]
    {
      accounts := accounts[key := Value(u)];
      log := log + [key];
    }

    /** `initUser`: write the seed account unless `USER` already holds a
        non-empty string. */
    method InitUser()
      modifies this
      ensures accounts == InitializedAccounts(old(accounts))
      ensures lists == old(lists)
      ensures log == old(log) + (if NeedsSeed(old(accounts)) then [UserKey] else [])
    {
      var existing := Lookup(accounts, UserKey);
      if existing == None || existing == Some(Blank) {
        WriteUser(UserKey, SeedUser);
      }
    }
  }

  /** `!existing` for the `USER` entry: absent, or the empty string. */
  predicate NeedsSeed(accounts: map<string, Entry<User>>) {
    UserKey !in accounts || accounts[UserKey] == Blank
  }

  /** The accounts after `initUser`. */
  function InitializedAccounts(accounts: map<string, Entry<User>>): (r: map<string, Entry<User>>)
    ensures NeedsSeed(accounts) ==> r == accounts[UserKey := Value(SeedUser)]
    ensures !NeedsSeed(accounts) ==> r == accounts
    ensures forall k :: k != UserKey ==> Lookup(r, k) == Lookup(accounts, k)
  {
    if NeedsSeed(accounts) then accounts[UserKey := Value(SeedUser)] else accounts
  }

  /** What `getUser` yields: `null`, a parsed record, or a rejected promise
      (the stored text does not parse). */
  datatype UserLookup = NoUser | Found(user: User) | Unreadable

  /** `getUser`: `null` when `USER` is absent or the empty string. */
  function GetUser(accounts: map<string, Entry<User>>): (r: UserLookup)
    ensures r == NoUser <==> NeedsSeed(accounts)
    ensures r.Found? <==> UserKey in accounts && accounts[UserKey].Value?
    ensures r.Found? ==> accounts[UserKey] == Value(r.user)
  {
    if UserKey !in accounts then NoUser
    else match accounts[UserKey]
      case Blank => NoUser
      case Corrupt => Unreadable
      case Value(u) => Found(u)
  }

  /** Running `initUser` a second time changes nothing. */
  lemma InitUserIdempotent(accounts: map<string, Entry<User>>)
    ensures InitializedAccounts(InitializedAccounts(accounts)) == InitializedAccounts(accounts)
  {
  }

  /** `initUser` never replaces a non-empty stored user. */
  lemma InitUserKeepsExistingUser(accounts: map<string, Entry<User>>)
    requires UserKey in accounts && accounts[UserKey] != Blank
    ensures InitializedAccounts(accounts) == accounts
  {
  }

  /** After `initUser` there is always a user to look up, unless the stored text
      does not parse; where none was stored, it is the seed account. */
  lemma GetUserAfterInit(accounts: map<string, Entry<User>>)
    ensures GetUser(InitializedAccounts(accounts)) != NoUser
    ensures NeedsSeed(accounts) ==> GetUser(InitializedAccounts(accounts)) == Found(SeedUser)
    ensures GetUser(InitializedAccounts(accounts)) == Unreadable <==> GetUser(accounts) == Unreadable
  {
  }
}
