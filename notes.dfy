/**
 * The note record shared by every screen, the list operations the home screen
 * applies to it (active filter, search, replace-by-id), the lock-gating
 * predicate, and the routes a screen can navigate to.
 */
module Notes {
  import opened Text
  import opened Sequences

  datatype Option<+T> = None | Some(value: T)

  /** One note as stored in the JSON lists. A field the source may leave out of
      the object (or set to `null`) is an `Option`; `image` is the field the edit
      screen writes and `imageUri` the one the insert screen writes. */
  datatype Note = Note(
    id: string,
    title: string,
    content: string,
    createdAt: string,
    updatedAt: Option<string>,
    image: Option<string>,
    imageUri: Option<string>,
    archived: Option<bool>,
    locked: Option<bool>,
    password: Option<string>)

  /** `note.archived` is truthy. */
  predicate IsArchived(n: Note) {
    n.archived == Some(true)
  }

  /** `note.locked` is truthy. */
  predicate IsLocked(n: Note) {
    n.locked == Some(true)
  }

  /** `note.password` is truthy: present and not the empty string. */
  predicate HasPassword(n: Note) {
    n.password.Some? && n.password.value != []
  }

  /** Where a screen sends the user next. */
  datatype Route =
    | ToHome
    | ToLogin
    | ToDetail(note: Note)
    | ToDetailById(noteId: string)
    | ToEdit(note: Note, index: int)
    | ToPassword(note: Note, index: int, goToEdit: bool, withUnlockCallback: bool)
    | ToLockNote(note: Note)
    | Back   // `navigation.goBack()`: the screen that opened this one

  /** `notes.filter(note => !note.archived)`. */
  function ActiveNotes(ns: seq<Note>): seq<Note> {
    Filter(ns, (n: Note) => !IsArchived(n))
  }

  /** Loading the active list keeps exactly the stored notes that are not
      archived, each as often as it is stored, in stored order. */
  lemma ActiveNotesAreTheUnarchived(ns: seq<Note>)
    ensures |ActiveNotes(ns)| <= |ns|
    ensures forall n :: multiset(ActiveNotes(ns))[n] == if IsArchived(n) then 0 else multiset(ns)[n]
    ensures IsSubsequence(ActiveNotes(ns), ns)
  {
    FilterIsSubsequence(ns, (n: Note) => !IsArchived(n));
  }

  /** No note of the list is archived. */
  predicate AllActive(ns: seq<Note>) {
    forall k :: 0 <= k < |ns| ==> !IsArchived(ns[k])
  }

  /** The active filter leaves no archived note. */
  lemma ActiveNotesAreActive(ns: seq<Note>)
    ensures AllActive(ActiveNotes(ns))
  {
    forall k | 0 <= k < |ActiveNotes(ns)| ensures !IsArchived(ActiveNotes(ns)[k]) {
      FilterKeepsOnlyMatches(ns, (n: Note) => !IsArchived(n), k);
    }
  }

  /** Loading a concatenation loads each part, in order. */
  lemma ActiveNotesAppend(s: seq<Note>, t: seq<Note>)
    ensures ActiveNotes(s + t) == ActiveNotes(s) + ActiveNotes(t)
  {
    FilterAppend(s, t, (n: Note) => !IsArchived(n));
  }

  /** Appending an unarchived note appends it to the loaded list. */
  lemma ActiveNotesAppendActive(ns: seq<Note>, n: Note)
    requires !IsArchived(n)
    ensures ActiveNotes(ns + [n]) == ActiveNotes(ns) + [n]
  {
    ActiveNotesAppend(ns, [n]);
    assert [n] == [] + [n];
    assert ActiveNotes([n]) == [n];
  }

  /** A list with no archived note loads unchanged. */
  lemma ActiveNotesOfActiveList(ns: seq<Note>)
    requires AllActive(ns)
    ensures ActiveNotes(ns) == ns
  {
    FilterKeepsAll(ns, (n: Note) => !IsArchived(n));
  }

  /** The home screen's search test: the lower-cased query occurs in the
      lower-cased title or the lower-cased content. */
  predicate MatchesQuery(n: Note, query: string) {
    Includes(Lower(n.title), Lower(query)) || Includes(Lower(n.content), Lower(query))
  }

  /** `filteredNotes`: the notes the home screen lists for a search query. */
  function SearchResults(ns: seq<Note>, query: string): seq<Note> {
    Filter(ns, (n: Note) => MatchesQuery(n, query))
  }

  /** The search result is an order-preserving selection of the notes, holding
      exactly the matching ones. */
  lemma SearchResultsAreTheMatches(ns: seq<Note>, query: string)
    ensures |SearchResults(ns, query)| <= |ns|
    ensures forall n :: multiset(SearchResults(ns, query))[n] == if MatchesQuery(n, query) then multiset(ns)[n] else 0
    ensures IsSubsequence(SearchResults(ns, query), ns)
  {
    FilterIsSubsequence(ns, (n: Note) => MatchesQuery(n, query));
  }

  /** Every note listed for a query matches it. */
  lemma SearchResultMatches(ns: seq<Note>, query: string, k: nat)
    requires k < |SearchResults(ns, query)|
    ensures MatchesQuery(SearchResults(ns, query)[k], query)
    ensures SearchResults(ns, query)[k] in ns
  {
    FilterKeepsOnlyMatches(ns, (n: Note) => MatchesQuery(n, query), k);
  }

  /** An empty search box lists every note, so a position in the displayed list
      is then the same position in the full list. */
  lemma EmptyQueryListsEverything(ns: seq<Note>)
    ensures SearchResults(ns, []) == ns
  {
    forall k | 0 <= k < |ns| ensures MatchesQuery(ns[k], []) {
      EmptyIsIncluded(Lower(ns[k].title));
    }
    FilterKeepsAll(ns, (n: Note) => MatchesQuery(n, []));
  }

  /** `notes.findIndex(n => n.id === id)`: the first position holding that id, or -1. */
  function IndexOfId(ns: seq<Note>, id: string): (r: int)
    ensures -1 <= r < |ns|
    ensures r == -1 <==> forall k :: 0 <= k < |ns| ==> ns[k].id != id
    ensures r >= 0 ==> ns[r].id == id && forall k :: 0 <= k < r ==> ns[k].id != id
  {
    if ns == [] then -1
    else if ns[0].id == id then 0
    else
      var k := IndexOfId(ns[1..], id);
      if k == -1 then -1 else k + 1
  }

  /** The lock and unlock callbacks of the home screen: the first note with the
      given id is replaced by `n`; a list without that id is returned unchanged. */
  function ReplaceById(ns: seq<Note>, id: string, n: Note): (r: seq<Note>)
    ensures |r| == |ns|
    ensures (forall k :: 0 <= k < |ns| ==> ns[k].id != id) ==> r == ns
    ensures forall k :: 0 <= k < |ns| && ns[k].id != id ==> r[k] == ns[k]
    ensures forall k :: 0 <= k < |ns| && ns[k].id == id ==>
              r[k] == if forall j :: 0 <= j < k ==> ns[j].id != id then n else ns[k]
  {
    var k := IndexOfId(ns, id);
    if k == -1 then ns else ns[k := n]
  }

  /** `note.locked && !unlockedNotes.includes(note.id)`: the home screen hides
      the content and asks for the password. */
  predicate IsSealed(n: Note, unlockedNotes: seq<string>) {
    IsLocked(n) && n.id !in unlockedNotes
  }

  /** The content text a home-screen card shows. */
  function CardContent(n: Note, unlockedNotes: seq<string>): (r: string)
    ensures r == n.content || r == "🔒"
    ensures IsSealed(n, unlockedNotes) ==> r == "🔒"
    ensures !IsSealed(n, unlockedNotes) ==> r == n.content
  {
    if IsSealed(n, unlockedNotes) then "🔒" else n.content
  }

  /** Where tapping a card leads. */
  function OpenRoute(n: Note, index: int, unlockedNotes: seq<string>): (r: Route)
    ensures r.ToPassword? <==> IsSealed(n, unlockedNotes)
    ensures r.ToPassword? ==> r.note == n && r.index == index && !r.goToEdit && !r.withUnlockCallback
    ensures !r.ToPassword? ==> r == ToDetail(n)
  {
    if IsSealed(n, unlockedNotes) then ToPassword(n, index, false, false) else ToDetail(n)
  }

  /** Where the edit action of a card leads. */
  function EditRoute(n: Note, index: int, unlockedNotes: seq<string>): (r: Route)
    ensures r.ToPassword? <==> IsSealed(n, unlockedNotes)
    ensures r.ToPassword? ==> r.note == n && r.index == index && r.goToEdit && !r.withUnlockCallback
    ensures !r.ToPassword? ==> r == ToEdit(n, index)
  {
    if IsSealed(n, unlockedNotes) then ToPassword(n, index, true, false) else ToEdit(n, index)
  }

  /** Where the lock action of a card leads: a locked note goes to the password
      screen with the unlock callback, any other note to the lock screen. */
  function LockActionRoute(n: Note, index: int): (r: Route)
    ensures r.ToPassword? <==> IsLocked(n)
    ensures r.ToPassword? ==> r.note == n && r.index == index && r.goToEdit && r.withUnlockCallback
    ensures !r.ToPassword? ==> r == ToLockNote(n)
  {
    if IsLocked(n) then ToPassword(n, index, true, true) else ToLockNote(n)
  }

  /** The card's content is hidden exactly when both of its entry points ask for
      the password; with nothing unlocked that is exactly when the note is locked. */
  lemma RedactionMatchesRouting(n: Note, index: int, unlockedNotes: seq<string>)
    ensures CardContent(n, unlockedNotes) != n.content ==> OpenRoute(n, index, unlockedNotes).ToPassword?
    ensures OpenRoute(n, index, unlockedNotes).ToPassword? <==> EditRoute(n, index, unlockedNotes).ToPassword?
    ensures OpenRoute(n, index, unlockedNotes).ToPassword? ==> CardContent(n, unlockedNotes) == "🔒"
    ensures unlockedNotes == [] ==> (IsSealed(n, unlockedNotes) <==> IsLocked(n))
  {
  }
}
