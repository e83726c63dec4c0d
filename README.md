# NotesApp note store and lock gate, in Dafny

This project models the logic inside the screen handlers of NotesApp, a React
Native note-taking app. The app keeps two note collections: the active list and
the archive. It loads them with an archived-filter, inserts by appending, edits
one note in place at a position, deletes by splicing out a position, moves notes
between the lists, replaces notes by id from the lock callbacks, and filters them
by a search query. The model also covers the password gate around individual
notes and the small account layer: registration, login and the seed user.

Layout, one module per source file:

- `Text`: the JavaScript string built-ins the handlers rely on. These are `trim`
  with its whitespace set, ASCII `toLowerCase`, `includes`, and `length` counted
  in UTF-16 code units.
- `Sequences`: `filter` and `splice(i, 1)` on lists.
- `Notes`: the `Note` record, the active filter, the search, `findIndex` by id,
  replace-by-id, the sealed-note predicate and the routes it selects.
- `Storage`: the device storage as the screens see it. It covers files in the
  document directory and key-value entries, plus `initUser` and `getUser`.
- `Home`, `EditNote`, `InsertNote`, `Archive`, `DetailNote`, `LockNote`,
  `Password`, `UnlockNote`, `Register`, `Login`: one module per screen.

Storage is the class `Storage.Device`. It holds two maps from an entry's name to
what is stored there: one for note lists and one for user records. Each screen
keeps its own names:

- the home and edit screens use the files `notes.json` and `archive.json`;
- the archive screen uses the key-value entries `NOTES` and `ARCHIVE`;
- the insert screen writes both `NOTES` and `notes.json`;
- registration uses the file `user.json`, but login and the seed user use the
  key-value entry `USER`.

A stored entry is `Blank` (an empty string or file), `Corrupt` (text that
`JSON.parse` rejects) or a parsed `Value`. A ghost `log` records the order of the
writes.

Screens that keep state in place are classes with `modifies` clauses:
`HomeScreen`, `ArchiveScreen`, `DetailNoteScreen` and `PasswordScreen`. Each
handler that changes state is a method, proved equal to a pure decision function
on the old state. The properties are proved about those functions.

Navigation is a `Route` value. Alerts are the error cases of the outcome
datatypes. Ids and timestamps, which come from the clock, are parameters.

Some behaviours of the code are easy to misread; the model follows the code:

- Edit and delete find a note by its position, not by id.
- The home screen's archive action does not set `archived` on the archived copy.
- The session set of unlocked note ids is never added to.
- The detail screen decides lockedness from `password`, not from `locked`.
- A failed load on the home screen keeps the list it was showing rather than
  emptying it.
- Errors writing `notes.json` and `archive.json` on the home, edit and insert screens are caught and logged, not reported.

## Model

| member | source | states |
|---|---|---|
| Text.IsWhitespace | screens/RegisterScreen.tsx:11 | the characters `trim` strips: the WhiteSpace and LineTerminator code points of ECMAScript; `Text.TrimStart`, `Text.TrimEnd` and `Text.BlankIffAllWhitespace` state what depends on it |
| Text.TrimStart | screens/RegisterScreen.tsx:11 | the result is a suffix of the input; everything stripped is whitespace, and the result does not start with whitespace |
| Text.TrimEnd | screens/RegisterScreen.tsx:11 | the result is a prefix of the input; everything stripped is whitespace, and the result does not end with whitespace |
| Text.Trim | screens/UnlockNoteScreen.tsx:26 | JavaScript `trim`; its meaning is stated by `Text.TrimHasNoPadding` and `Text.TrimIgnoresPadding`, on top of the contracts of `TrimStart` and `TrimEnd` |
| Text.IsBlank | screens/EditNoteScreen.tsx:51 | `s.trim()` is empty or falsy; `Text.BlankIffAllWhitespace` states that this holds exactly for all-whitespace strings, and `Text.NotBlankAfterAppend` that appending keeps a non-blank string non-blank |
| Text.NotBlankAfterAppend | screens/RegisterScreen.tsx:11 | a string that is not blank stays not blank when text is appended |
| Text.BlankIffAllWhitespace | screens/EditNoteScreen.tsx:51 | `s.trim() === ''` exactly when every character of `s` is whitespace |
| Text.TrimHasNoPadding | screens/UnlockNoteScreen.tsx:26 | a trimmed string neither starts nor ends with whitespace |
| Text.TrimIgnoresPadding | screens/UnlockNoteScreen.tsx:26 | whitespace added on either side of a string does not change its trim |
| Text.LowerChar | screens/HomeScreen.tsx:207 | maps `A`..`Z` to `a`..`z` and leaves every other character alone |
| Text.Lower | screens/HomeScreen.tsx:207-208 | keeps the length and lowers each character in place |
| Text.EmptyIsIncluded | screens/HomeScreen.tsx:207 | every string includes the empty string |
| Text.Includes | screens/HomeScreen.tsx:207-208 | JavaScript `includes`: the needle occurs at some position of the haystack; `Text.EmptyIsIncluded` states the empty-needle case |
| Text.Utf16Length | screens/LockNoteScreen.tsx:31 | `length` is between the number of code points and twice that, and equal to it when no character is outside the Basic Multilingual Plane |
| Sequences.Filter | screens/HomeScreen.tsx:82 | every element is kept exactly as often as in the input if the predicate holds, and not at all otherwise |
| Sequences.FilterKeepsOnlyMatches | screens/HomeScreen.tsx:82 | each kept element satisfies the predicate and occurs in the input |
| Sequences.FilterIsSubsequence | screens/HomeScreen.tsx:82 | the filtered list keeps the input's order (it is a subsequence) |
| Sequences.FilterKeepsAll | screens/HomeScreen.tsx:82 | a filter that every element passes returns the input unchanged |
| Sequences.FilterAppend | screens/HomeScreen.tsx:82 | filtering a concatenation is the concatenation of the filtered parts |
| Sequences.RemoveAt | screens/HomeScreen.tsx:130-131 | `splice(i, 1)` on a copy: in range, the element at `i` goes and the others keep their order; out of range, the list is unchanged |
| Sequences.RemoveAtMultiset | screens/HomeScreen.tsx:131 | splicing in range removes exactly one occurrence of the element at `i` |
| Notes.ActiveNotesAreTheUnarchived | screens/HomeScreen.tsx:81-83 | the loaded active list holds exactly the stored notes whose `archived` is not true, each as often as stored, in stored order |
| Notes.ActiveNotesOfActiveList | screens/HomeScreen.tsx:82 | a list with no archived note loads unchanged |
| Notes.ActiveNotes | screens/HomeScreen.tsx:82 | the active filter; characterised by `Notes.ActiveNotesAreTheUnarchived`, `Notes.ActiveNotesAreActive`, `Notes.ActiveNotesOfActiveList` and `Notes.ActiveNotesAppend` |
| Notes.IsArchived | screens/HomeScreen.tsx:82 | `note.archived` is truthy: set and true; a missing or false flag counts as active, which `Notes.ActiveNotesAreTheUnarchived` uses |
| Notes.AllActive | screens/HomeScreen.tsx:82 | no note of the list is archived; the home screen's handlers keep it for the shown list |
| Notes.ActiveNotesAreActive | screens/HomeScreen.tsx:82-83 | the loaded active list holds no archived note |
| Notes.ActiveNotesAppend | screens/HomeScreen.tsx:82 | loading a list made of two parts loads each part, in order |
| Notes.ActiveNotesAppendActive | screens/InsertNoteScreen.tsx:68 | appending a note that is not archived appends it, last, to the loaded active list |
| Notes.MatchesQuery | screens/HomeScreen.tsx:207-208 | the search test on lower-cased title or content; `Notes.SearchResultMatches` shows every listed note satisfies it |
| Notes.SearchResults | screens/HomeScreen.tsx:206-209 | `filteredNotes`; characterised by `Notes.SearchResultsAreTheMatches`, `Notes.SearchResultMatches` and `Notes.EmptyQueryListsEverything` |
| Notes.SearchResultsAreTheMatches | screens/HomeScreen.tsx:206-209 | the search result is a subsequence of the notes holding exactly those whose lower-cased title or content includes the lower-cased query |
| Notes.SearchResultMatches | screens/HomeScreen.tsx:206-209 | every listed note matches the query and is one of the notes |
| Notes.EmptyQueryListsEverything | screens/HomeScreen.tsx:206-209 | an empty query lists every note, in order |
| Notes.IndexOfId | screens/HomeScreen.tsx:221 | `findIndex`: -1 exactly when no note has the id, otherwise the first position holding it |
| Notes.ReplaceById | screens/HomeScreen.tsx:220-224 | the length is kept; only the first note with the id is replaced; the list is unchanged when no note has it |
| Notes.IsLocked | screens/HomeScreen.tsx:214 | `note.locked` is truthy: set and true; the same test gates the lock action (line 214), the edit action (line 251), the card tap (line 297) and the card text (line 309), through `Notes.LockActionRoute`, `Notes.IsSealed` and the routes |
| Notes.HasPassword | screens/DetailNoteScreen.tsx:43 | `password` is truthy: present and not the empty string; the detail screen locks (line 43) and unlocks (line 62) on it rather than on `locked`, as `DetailNote.LockednessFollowsPassword` and `DetailNote.UnlockNeedsAPassword` state |
| Notes.IsSealed | screens/HomeScreen.tsx:251 | `locked` and not unlocked this session; `Notes.CardContent`, `Notes.OpenRoute` and `Notes.EditRoute` state exactly when it redacts and reroutes, and `Notes.RedactionMatchesRouting` ties them together |
| Notes.CardContent | screens/HomeScreen.tsx:309 | the card shows the lock glyph exactly when the note is locked and not unlocked this session, and the content otherwise |
| Notes.OpenRoute | screens/HomeScreen.tsx:296-302 | tapping a card goes to the password screen (no edit, no callback) exactly when the note is sealed, and to the detail screen otherwise |
| Notes.EditRoute | screens/HomeScreen.tsx:250-256 | the edit action goes to the password screen with `goToEdit` exactly when the note is sealed, and to the edit screen otherwise |
| Notes.LockActionRoute | screens/HomeScreen.tsx:213-242 | the lock action goes to the password screen with the note, its position, `goToEdit` and the unlock callback exactly when `locked` is set, and to the lock screen otherwise |
| Notes.RedactionMatchesRouting | screens/HomeScreen.tsx:251-309 | content is hidden exactly when both entry points ask for the password; since the unlocked set stays empty, that is exactly when the note is locked |
| Storage.ParsedOr | screens/HomeScreen.tsx:90-101 | a load shows the parsed value; when the entry is absent, empty or unparseable, the current value stays |
| Storage.Device.constructor | utils/storage.ts:1-3 | the device store the screens import (AsyncStorage here, the file system elsewhere); it constructs nothing in the source, and in the model starts with the given entries and an empty write log |
| Storage.Device.WriteNotes | screens/HomeScreen.tsx:103-111 | replaces the list under one name and nothing else; the write is logged |
| Storage.Device.WriteUser | screens/RegisterScreen.tsx:39 | replaces the user record under one name and nothing else; the write is logged |
| Storage.Device.InitUser | utils/storage.ts:5-11 | the accounts become `InitializedAccounts` of the old ones; `USER` is written only when it was absent or empty |
| Storage.InitializedAccounts | utils/storage.ts:6-10 | the seed record `binh`/`123456` goes under `USER` when that entry is absent or empty; otherwise nothing changes; no other entry changes |
| Storage.SeedUser | utils/storage.ts:8 | the seed account, username `binh` and password `123456`; `Login.SeedAccountLogsIn` states that it logs in once `initUser` has stored it |
| Storage.NeedsSeed | utils/storage.ts:7 | `!existing`: `USER` is absent or empty; `Storage.InitializedAccounts` and `Storage.GetUser` state what depends on it |
| Storage.GetUser | utils/storage.ts:13-16 | `null` exactly when `USER` is absent or empty; a record exactly when it parses; otherwise the lookup fails |
| Storage.InitUserIdempotent | utils/storage.ts:5-11 | running `initUser` twice leaves the same accounts as running it once |
| Storage.InitUserKeepsExistingUser | utils/storage.ts:7 | a non-empty `USER` entry is never overwritten |
| Storage.GetUserAfterInit | utils/storage.ts:5-16 | after `initUser`, `getUser` is never `null`; it is the seed record when none was stored, and it fails only if it failed before |
| Home.ArchiveMove | screens/HomeScreen.tsx:146-149 | the note leaves the active list; an unchanged copy is appended to the archive list; the count across both lists and the multiset of notes are preserved |
| Home.LoadedActive | screens/HomeScreen.tsx:78-84 | the list `loadNotes` leaves; `Home.HomeScreen.LoadNotes` is proved against it and `Home.FailedLoadKeepsList` states its failure cases |
| Home.HomeScreen.constructor | screens/HomeScreen.tsx:60-62 | both lists and the unlocked set start empty |
| Home.HomeScreen.LoadNotes | screens/HomeScreen.tsx:75-88 | the list becomes the active part of a parsed `notes.json`, and stays as it was otherwise; either way no archived note is listed if none was before, and after a parsed load none is |
| Home.HomeScreen.LoadArchivedNotes | screens/HomeScreen.tsx:90-101 | the archive list becomes a parsed `archive.json`, and stays as it was otherwise |
| Home.HomeScreen.DeleteNote | screens/HomeScreen.tsx:129-134 | the spliced list is written to `notes.json`, and the list shown is its active part, with no archived note; when the list had no archived note and the position is in range, the list shown is exactly the spliced list, one shorter |
| Home.HomeScreen.ArchiveNote | screens/HomeScreen.tsx:145-155 | writes `notes.json` and then `archive.json` with the two lists of `ArchiveMove`, then shows the reloaded lists; the active list then holds no archived note, and when it held none before it is exactly the list with the note removed |
| Home.HomeScreen.ReplaceAndSave | screens/HomeScreen.tsx:220-226 | when the id is listed, the note is replaced by id and the list is written to `notes.json`; otherwise nothing changes |
| Home.HomeScreen.OnLock | screens/HomeScreen.tsx:232-240 | the lock callback replaces the note with that id by the note the callback receives and saves `notes.json`; nothing changes or is written when the id is not listed; a list with no archived note keeps that property when the received note is not archived |
| Home.HomeScreen.OnUnlock | screens/HomeScreen.tsx:219-227 | the unlock callback replaces the note with that id by the note the callback receives and saves `notes.json`; nothing changes or is written when the id is not listed; a list with no archived note keeps that property when the received note is not archived |
| Home.FailedLoadKeepsList | screens/HomeScreen.tsx:78-87 | a missing, empty or unparseable `notes.json` leaves the shown list as it was |
| Home.DeleteRemovesOneNote | screens/HomeScreen.tsx:130-134 | for a list with no archived note (which every load and handler of the home screen keeps), the reloaded list after deleting in range is the spliced list: one shorter, missing one occurrence of that note |
| Home.DisplayedIndexIsInRange | screens/HomeScreen.tsx:247 | a position in the displayed list is a valid position of the full list; with an empty query it names the same note |
| EditNote.ReadNotesFromFile | screens/EditNoteScreen.tsx:27-39 | the parsed list when the file parses; the empty list when it is missing, empty or unparseable |
| EditNote.Edited | screens/EditNoteScreen.tsx:64-70 | title, content, image and `updatedAt` are replaced as entered; every other field is kept |
| EditNote.UpdateOutcome | screens/EditNoteScreen.tsx:50-72 | rejected exactly when a trimmed field is empty; not found exactly when the position is outside the list; on success only that position changes, to the edited note, the length is kept, and the screen goes back |
| EditNote.HandleUpdate | screens/EditNoteScreen.tsx:50-83 | returns `UpdateOutcome` of the stored file; writes `notes.json` only on success |
| EditNote.WhitespaceFieldsAreRejected | screens/EditNoteScreen.tsx:51-54 | an all-whitespace title is rejected whatever the file and position |
| EditNote.FieldsAreNotTrimmed | screens/EditNoteScreen.tsx:66-67 | a successful edit stores title and content exactly as entered |
| EditNote.UnreadableFileFindsNothing | screens/EditNoteScreen.tsx:29-38 | with a missing, empty or unparseable file no update succeeds |
| InsertNote.NewNote | screens/InsertNoteScreen.tsx:58-64 | the new note holds exactly id, title, content, `imageUri` and `createdAt`; it is neither archived nor locked and has no password |
| InsertNote.ExistingNotes | screens/InsertNoteScreen.tsx:66-67 | an absent or empty `NOTES` is the empty list, a parsed one is itself, and unparseable text is a failure |
| InsertNote.SaveOutcome | screens/InsertNoteScreen.tsx:52-71 | rejected exactly when a trimmed field is empty; fails exactly when `NOTES` does not parse; otherwise the new note is appended after the unchanged existing ones, and the screen goes back |
| InsertNote.SaveNote | screens/InsertNoteScreen.tsx:52-75 | returns `SaveOutcome`; on success writes the same list to `NOTES` and then to `notes.json`, and writes nothing otherwise |
| InsertNote.NewNoteIsListedOpen | screens/InsertNoteScreen.tsx:58-64 | a new note is listed as active and its content is shown |
| InsertNote.SavedNoteIsListedLast | screens/InsertNoteScreen.tsx:66-71 | after a save, the home screen's active list loaded from the written list is the previous active notes followed by the new note |
| Archive.Restored | screens/ArchiveScreen.tsx:72 | only `archived` changes, to false |
| Archive.UnarchiveDecision | screens/ArchiveScreen.tsx:70-83 | no such note exactly when the position is out of range; fails exactly when `NOTES` does not parse; otherwise the note leaves the archive and its restored copy is appended to the notes, keeping the total count |
| Archive.ArchiveScreen.constructor | screens/ArchiveScreen.tsx:24 | the archive list starts empty |
| Archive.ArchiveScreen.LoadArchivedNotes | screens/ArchiveScreen.tsx:33-39 | the list becomes a parsed `ARCHIVE`, and stays as it was when that entry is absent, empty or unparseable |
| Archive.ArchiveScreen.DeleteNote | screens/ArchiveScreen.tsx:51-54 | the spliced list is stored under `ARCHIVE` and shown |
| Archive.ArchiveScreen.UnarchiveNote | screens/ArchiveScreen.tsx:61-94 | returns `UnarchiveDecision`; when the note moves, writes `NOTES` and then `ARCHIVE`; when `NOTES` does not parse, nothing is written but the shown note has `archived` false |
| Archive.UnarchiveKeepsEveryNote | screens/ArchiveScreen.tsx:71-83 | the two stored lists together hold the same notes as before, with the moved one restored |
| Archive.UnarchiveIntoEmptyNotes | screens/ArchiveScreen.tsx:75-79 | with no `NOTES` entry, or an empty one, the restored note becomes the whole notes list |
| DetailNote.StoredAt | screens/DetailNoteScreen.tsx:40-41 | `notes[index]` exactly when that entry exists |
| DetailNote.UnlockAccepted | screens/DetailNoteScreen.tsx:62 | the unlock test; `DetailNote.DetailNoteScreen.HandleUnlock` is proved against it and `DetailNote.UnlockNeedsAPassword` states when it fails |
| DetailNote.FetchDecision | screens/DetailNoteScreen.tsx:34-56 | shows the stored note when `notes[index]` exists, and the passed note otherwise or when the file is missing; fails exactly when the file is empty or unparseable; starts locked only with a password |
| DetailNote.DetailNoteScreen.constructor | screens/DetailNoteScreen.tsx:29 | the screen starts unlocked with no fetched note |
| DetailNote.DetailNoteScreen.FetchNote | screens/DetailNoteScreen.tsx:34-56 | the shown note and the locked flag follow `FetchDecision`; the flag is only ever set, never cleared |
| DetailNote.DetailNoteScreen.HandleUnlock | screens/DetailNoteScreen.tsx:61-67 | accepted exactly when a password is set and the attempt equals it; accepted clears the flag, and a wrong attempt leaves it |
| DetailNote.LockednessFollowsPassword | screens/DetailNoteScreen.tsx:40-47 | the screen starts locked exactly when the stored note at the position has a non-empty password; the fallback never starts locked |
| DetailNote.UnlockNeedsAPassword | screens/DetailNoteScreen.tsx:62 | an empty attempt, or a note without a password, never unlocks |
| LockNote.ValidateInputs | screens/LockNoteScreen.tsx:22-36 | the first failing check in the order empty, mismatch, length under 6; none when all pass |
| LockNote.HandleLock | screens/LockNoteScreen.tsx:38-53 | a validation error is reported; no callback when `onLock` is missing; otherwise the callback receives the note with `locked` true and the entered password, every other field kept, and the screen goes back |
| LockNote.PasswordLengthBoundary | screens/LockNoteScreen.tsx:31-34 | `abc12` is too short and `abcdef` is accepted |
| LockNote.EmptyIsReportedFirst | screens/LockNoteScreen.tsx:23-26 | an empty field is reported even when the fields also differ |
| Password.UnlockDecision | screens/PasswordScreen.tsx:32-57 | a blank attempt is refused first; unlocks exactly when the attempt equals the password untrimmed; the callback gets the note with `locked` false; goes to edit or detail by `goToEdit` |
| Password.PasswordScreen.constructor | screens/PasswordScreen.tsx:30 | `isLoading` starts false |
| Password.PasswordScreen.HandleUnlock | screens/PasswordScreen.tsx:32-57 | returns `UnlockDecision`; after a non-blank attempt `isLoading` has been set and then cleared, whatever the outcome |
| Password.UnlockKeepsPassword | screens/PasswordScreen.tsx:44 | the unlocked copy keeps the password, is not locked, and the same attempt unlocks it again |
| Password.AttemptIsNotTrimmed | screens/PasswordScreen.tsx:43 | the password followed by a space is a wrong password |
| UnlockNote.HandleUnlock | screens/UnlockNoteScreen.tsx:25-34 | navigates to detail by the note's id exactly when the trimmed attempt equals the stored password |
| UnlockNote.PaddingIsIgnored | screens/UnlockNoteScreen.tsx:26 | whitespace around the attempt does not change the outcome |
| UnlockNote.PaddedPasswordNeverUnlocks | screens/UnlockNoteScreen.tsx:26 | a stored password that starts or ends with whitespace can never be matched |
| Register.ValidateRegistration | screens/RegisterScreen.tsx:11-24 | the first failing check in the order blank username, length under 6, mismatch; none when all pass |
| Register.RegisterDecision | screens/RegisterScreen.tsx:10-39 | a validation error is reported; an empty or unparseable `user.json` fails; the same stored username is taken; otherwise exactly `{username, password}` is registered and the next screen is login |
| Register.HandleRegister | screens/RegisterScreen.tsx:10-42 | returns `RegisterDecision`; on success `user.json` holds exactly the new record, and nothing is written otherwise |
| Register.SecondRegistrationIsTaken | screens/RegisterScreen.tsx:29-36 | once a username is registered, registering it again is refused, whatever the password |
| Register.UsernameIsNotTrimmed | screens/RegisterScreen.tsx:32-38 | a username padded with a space is not a duplicate and is stored padded |
| Login.HandleLogin | screens/LoginScreen.tsx:9-16 | goes to Home exactly when both fields equal the stored record untrimmed; no stored user fails; a failed lookup aborts |
| Login.SeedAccountLogsIn | utils/storage.ts:5-16 | after `initUser` on an empty `USER`, `binh`/`123456` logs in |
| Login.RegisteredUserIsNotSeenByLogin | screens/RegisterScreen.tsx:26-39 | writing `user.json` does not change what the login lookup of `USER` yields |

## Left out

- Rendering, styles, icons, the long-press menu, view modes, and the navigation wiring in `App.tsx`. Navigation is modelled only as a `Route` value.
- The theme context, the colour constants and the settings screen: they only feed styles or clear storage.
- `JSON.stringify` and `JSON.parse` internals. A stored entry is an absent, empty, unparseable or parsed value. Well-formed JSON of the wrong shape, such as `null` or an object where a list is expected, is not represented.
- Write failures: every write succeeds. Only the writes to `notes.json` and `archive.json` on the home and edit screens, and the insert screen's write to `notes.json` (`saveNotesToFile`), catch their errors. The other writes have no `catch`, and a failure there rejects the handler and skips the steps after it. Those writes are `NOTES` in `saveNote`, `ARCHIVE` in the archive delete, `NOTES` and `ARCHIVE` in the unarchive, `user.json` in registration and `USER` in `initUser`. The model does not represent these handlers stopping midway. Examples: an insert whose `NOTES` write fails never writes `notes.json`; an unarchive whose `ARCHIVE` write fails leaves the note in both lists.
- The clock and locale: ids, `createdAt` and `updatedAt` are parameters.
- Unicode case folding: `toLowerCase` is modelled on ASCII letters only.
- Asynchrony: `setTimeout`, keyboard dismissal and the confirmation dialogs. Only the confirmed branch is modelled, run to completion without interleaving.
- Image assets and the image picker: an image is an opaque optional string.
- The unlock screen reached with a `noteId` parameter: the detail screen's handling of `noteId` is not part of this model.
- Consistency between screens: each screen keeps its own storage names, and nothing is proved across them.
- Home.HomeScreen.ArchiveNote: requires the position to be in range. The handler is only reached from a listed card, and `Home.DisplayedIndexIsInRange` shows that such a position is always in range of the full list. Out of range, the source would archive an empty object.
- Password.PasswordScreen.HandleUnlock: `isLoading` during the 500 ms delay is modelled as the history of values it takes, not as timing.
