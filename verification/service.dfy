/**
 * The operations behind the HTTP endpoints of the note service, each a pure
 * function from the persisted store (and the request's inputs) to a response
 * and the store afterwards. Whether each write to disk succeeds, the
 * clock's reading and the Wikipedia reply are inputs.
 */
module Service {
  import opened Optional
  import opened Text
  import opened Notes
  import opened Query

  /** The persisted notes.xml: absent, unparsable, or holding a document. */
  datatype Store = Missing | Corrupt | Valid(doc: Document)

  /**
   * Whether the two writes a request can make succeed: creating the missing
   * file inside the load (service.py line 20), and saving the changed
   * document (line 30).
   */
  datatype Disk = Disk(creates: bool, saves: bool)

  /** A disk on which every write succeeds. */
  const Healthy := Disk(true, true)

  /**
   * The outcome of the OpenSearch request: a failure (network, HTTP status or
   * JSON decoding) or the decoded array. Only the array's length and its
   * element 3, the URL list, are read; element 0, which echoes the search term
   * as a string in a real reply, is never looked at.
   */
  datatype Lookup = Failed | Reply(data: seq<seq<string>>)

  /**
   * What an endpoint answers. MissingData is the 400 answer, NotFound the 404
   * one; StorageError, LookupFailed and AddFailed are the 500 answers of the
   * handlers' except clauses; InternalError is an exception no handler catches.
   */
  datatype Response<T> =
    | Ok(value: T)
    | MissingData
    | NotFound
    | StorageError
    | LookupFailed
    | AddFailed
    | InternalError

  /** A response together with the store it leaves behind. */
  datatype Step<T> = Step(response: Response<T>, store: Store)

  /** The document the next successful load reads: the stored one, or the empty root a missing file becomes. */
  function Current(s: Store): Document {
    if s.Valid? then s.doc else Empty
  }

  /** Loading succeeds: the file parses, or it is missing and the empty root can be written. */
  predicate Loads(s: Store, disk: Disk) {
    s.Valid? || (s.Missing? && disk.creates)
  }

  /** A request field is present and non-empty: the truth test `if not (topic and ...)` applied to a string. */
  predicate Given(field: Option<string>) {
    field.Some? && |field.value| > 0
  }

  /**
   * `load_or_create_xml`: reads the stored document; a missing file is
   * replaced by an empty root, which is written out; an unparsable file is an
   * error and stays as it is.
   */
  function Load(s: Store, disk: Disk): (r: Step<Document>)
    ensures r.response.Ok? || r.response.StorageError?
    ensures r.response.Ok? <==> Loads(s, disk)
    ensures r.response.Ok? ==> r.response.value == Current(s) && r.store == Valid(Current(s))
    ensures r.response.StorageError? ==> r.store == s
  {
    match s
    case Valid(d) => Step(Ok(d), s)
    case Missing => if disk.creates then Step(Ok(Empty), Valid(Empty)) else Step(StorageError, s)
    case Corrupt => Step(StorageError, s)
  }

  /** Loading twice is loading once: the second load reads back what the first one left. */
  lemma LoadTwice(s: Store, disk: Disk)
    ensures Load(Load(s, disk).store, disk) == Load(s, disk)
  {
  }

  /**
   * `add_note`: load, then check the three fields, then file the note under
   * its topic and save. The load comes first, so a missing file is written
   * even when the request is then refused.
   */
  function AddNote(s: Store, disk: Disk, topic: Option<string>, name: Option<string>,
                   text: Option<string>, timestamp: string): (r: Step<()>)
    ensures r.response.Ok? || r.response.MissingData? || r.response.StorageError?
    ensures r.response.StorageError? <==>
      !Loads(s, disk) || (Given(topic) && Given(name) && Given(text) && !disk.saves)
    ensures r.response.MissingData? <==> Loads(s, disk) && !(Given(topic) && Given(name) && Given(text))
    ensures !r.response.Ok? ==> r.store == Load(s, disk).store
    ensures r.response.Ok? ==>
      r.store == Valid(FileNote(Current(s), topic.value, Note(name.value, text.value, timestamp)))
  {
    var loaded := Load(s, disk);
    if !loaded.response.Ok? then Step(StorageError, loaded.store)
    else if !(Given(topic) && Given(name) && Given(text)) then Step(MissingData, loaded.store)
    else if !disk.saves then Step(StorageError, loaded.store)
    else Step(Ok(()), Valid(FileNote(loaded.response.value, topic.value, Note(name.value, text.value, timestamp))))
  }

  /**
   * When the missing file can be created but the save then fails, `add_note`
   * answers with a storage error and the file now holds the empty root.
   */
  lemma AddNoteSaveFailsAfterCreate(topic: string, name: string, text: string, timestamp: string)
    requires |topic| > 0 && |name| > 0 && |text| > 0
    ensures AddNote(Missing, Disk(true, false), Some(topic), Some(name), Some(text), timestamp)
      == Step(StorageError, Valid(Empty))
  {
  }

  /**
   * A refused `add_note` leaves the document as it was: a valid or corrupt
   * store is untouched, a missing one only becomes the empty root.
   */
  lemma AddNoteRefusedKeepsDocument(s: Store, disk: Disk, topic: Option<string>, name: Option<string>,
                                    text: Option<string>, timestamp: string)
    requires !(Given(topic) && Given(name) && Given(text))
    ensures var r := AddNote(s, disk, topic, name, text, timestamp);
      && (r.response.MissingData? || r.response.StorageError?)
      && Current(r.store) == Current(s)
      && (s.Valid? || s.Corrupt? ==> r.store == s)
  {
  }

  /** A successful `add_note` adds exactly one note to the document. */
  lemma AddNoteAddsOne(s: Store, disk: Disk, topic: Option<string>, name: Option<string>,
                       text: Option<string>, timestamp: string)
    requires AddNote(s, disk, topic, name, text, timestamp).response.Ok?
    ensures NoteCount(AddNote(s, disk, topic, name, text, timestamp).store.doc) == NoteCount(Current(s)) + 1
  {
    FileNoteCount(Current(s), topic.value, Note(name.value, text.value, timestamp));
  }

  /** The name `get_notes` looks up: an absent `topic` argument is formatted into the query as the text "None". */
  function QueryName(topic: Option<string>): string {
    topic.GetOr("None")
  }

  /**
   * `get_notes`: load, then report the notes of the first topic with exactly
   * the requested name; NotFound when no topic has it.
   */
  function GetNotes(s: Store, disk: Disk, topic: Option<string>): (r: Step<seq<Note>>)
    ensures r.store == Load(s, disk).store
    ensures r.response.Ok? || r.response.NotFound? || r.response.StorageError?
    ensures r.response.StorageError? <==> !Loads(s, disk)
    ensures r.response.NotFound? <==>
      Loads(s, disk) && forall i :: 0 <= i < |Current(s)| ==> Current(s)[i].name != QueryName(topic)
    ensures r.response.Ok? ==>
      exists i: nat :: FirstNamed(Current(s), QueryName(topic), i) && r.response.value == Current(s)[i].notes
  {
    var loaded := Load(s, disk);
    if !loaded.response.Ok? then Step(StorageError, loaded.store)
    else match TopicNotes(loaded.response.value, QueryName(topic))
      case None => Step(NotFound, loaded.store)
      case Some(notes) => Step(Ok(notes), loaded.store)
  }

  /** Asking without a topic is asking for the topic called "None". */
  lemma GetNotesWithoutTopic(s: Store, disk: Disk)
    ensures GetNotes(s, disk, None) == GetNotes(s, disk, Some("None"))
  {
  }

  /**
   * `search_notes`: load, then every note whose folded text contains the
   * folded keyword, with its topic's name; NotFound when there is none. An
   * absent keyword fails on `None.lower()`, which is reached only if the
   * document holds a note.
   */
  function SearchNotes(s: Store, disk: Disk, keyword: Option<string>): (r: Step<seq<Hit>>)
    ensures r.store == Load(s, disk).store
    ensures r.response.Ok? || r.response.NotFound? || r.response.StorageError? || r.response.InternalError?
    ensures r.response.StorageError? <==> !Loads(s, disk)
    ensures r.response.InternalError? <==> Loads(s, disk) && keyword.None? && NoteCount(Current(s)) > 0
    ensures r.response.NotFound? <==>
      && Loads(s, disk)
      && (if keyword.Some? then Matches(Current(s), Lower(keyword.value)) == [] else NoteCount(Current(s)) == 0)
    ensures r.response.Ok? ==>
      keyword.Some? && r.response.value == Matches(Current(s), Lower(keyword.value)) && r.response.value != []
  {
    var loaded := Load(s, disk);
    if !loaded.response.Ok? then Step(StorageError, loaded.store)
    else if keyword.None? then
      if NoteCount(loaded.response.value) == 0 then Step(NotFound, loaded.store) else Step(InternalError, loaded.store)
    else
      var found := Matches(loaded.response.value, Lower(keyword.value));
      if found == [] then Step(NotFound, loaded.store) else Step(Ok(found), loaded.store)
  }

  /** Searching is case-insensitive: the keyword, its upper-case and its lower-case form give the same answer. */
  lemma SearchIgnoresCase(s: Store, disk: Disk, keyword: string)
    ensures SearchNotes(s, disk, Some(Upper(keyword))) == SearchNotes(s, disk, Some(keyword))
    ensures SearchNotes(s, disk, Some(Lower(keyword))) == SearchNotes(s, disk, Some(keyword))
  {
    LowerOfUpper(keyword);
    LowerOfLower(keyword);
  }

  /** A store without notes (a fresh one, or one just cleared) answers every search with NotFound. */
  lemma SearchWithoutNotes(s: Store, disk: Disk, keyword: Option<string>)
    requires Loads(s, disk) && NoteCount(Current(s)) == 0
    ensures SearchNotes(s, disk, keyword).response == NotFound
  {
    if keyword.Some? {
      NoNotesNoMatches(Current(s), Lower(keyword.value));
    }
  }

  /** An empty keyword finds every note: one row per note, or NotFound when there are none. */
  lemma SearchEmptyKeyword(s: Store, disk: Disk)
    requires Loads(s, disk)
    ensures var r := SearchNotes(s, disk, Some(""));
      if NoteCount(Current(s)) == 0 then r.response.NotFound?
      else r.response.Ok? && |r.response.value| == NoteCount(Current(s))
  {
    EmptyNeedleMatchesAll(Current(s));
    assert Lower("") == "";
  }

  /** The URL quoted in the Wikipedia note: the first entry of the URL list, or a fixed placeholder. */
  function WikiLink(urls: seq<string>): string {
    if |urls| > 0 then urls[0] else "No URL found"
  }

  /** The note `add_wiki_info` files for `term`, given the reply's URL list. */
  function WikiNote(term: string, urls: seq<string>, timestamp: string): (n: Note)
    ensures n.name == "Wikipedia Info: " + term
    ensures |urls| > 0 ==> n.text == "Wikipedia link: " + urls[0]
    ensures |urls| == 0 ==> n.text == "Wikipedia link: No URL found"
    ensures n.timestamp == timestamp
  {
    Note("Wikipedia Info: " + term, "Wikipedia link: " + WikiLink(urls), timestamp)
  }

  /**
   * `add_wiki_info`: check the two fields, load, then act on the OpenSearch
   * reply. A reply of at most one element means no article; the URL list is
   * element 3, so a reply of two or three elements fails on the index. Only
   * a reply of four or more files a note, through the same find-or-create
   * step as `add_note`.
   */
  function AddWikiInfo(s: Store, disk: Disk, topic: Option<string>, term: Option<string>,
                       lookup: Lookup, timestamp: string): (r: Step<()>)
    ensures !(Given(topic) && Given(term)) ==> r == Step(MissingData, s)
    ensures Given(topic) && Given(term) && !Loads(s, disk) ==> r == Step(StorageError, s)
    ensures Given(topic) && Given(term) && Loads(s, disk) && lookup.Failed? ==> r.response == LookupFailed
    ensures Given(topic) && Given(term) && Loads(s, disk) && lookup.Reply? ==>
      if |lookup.data| <= 1 then r.response == NotFound
      else if |lookup.data| < 4 || !disk.saves then r.response == AddFailed
      else r.response == Ok(())
    ensures Given(topic) && Given(term) && !r.response.Ok? ==> r.store == Load(s, disk).store
    ensures !r.response.Ok? ==> Current(r.store) == Current(s) && (r.store == s || r.store == Valid(Empty))
    ensures r.response.Ok? ==>
      r.store == Valid(FileNote(Current(s), topic.value, WikiNote(term.value, lookup.data[3], timestamp)))
  {
    if !(Given(topic) && Given(term)) then Step(MissingData, s)
    else
      var loaded := Load(s, disk);
      if !loaded.response.Ok? then Step(StorageError, loaded.store)
      else match lookup
        case Failed => Step(LookupFailed, loaded.store)
        case Reply(data) =>
          if |data| <= 1 then Step(NotFound, loaded.store)
          else if |data| < 4 then Step(AddFailed, loaded.store)
          else if !disk.saves then Step(AddFailed, loaded.store)
          else Step(Ok(()), Valid(FileNote(loaded.response.value, topic.value, WikiNote(term.value, data[3], timestamp))))
  }

  /**
   * A Wikipedia request that passes validation but then fails still leaves a
   * missing file created: the load runs before the lookup is examined.
   */
  lemma WikiFailureAfterCreate(topic: string, term: string, lookup: Lookup, timestamp: string)
    requires |topic| > 0 && |term| > 0
    requires lookup.Failed? || |lookup.data| < 4
    ensures var r := AddWikiInfo(Missing, Healthy, Some(topic), Some(term), lookup, timestamp);
      !r.response.Ok? && r.store == Valid(Empty)
  {
  }

  /** A successful `add_wiki_info` adds exactly one note to the document. */
  lemma AddWikiInfoAddsOne(s: Store, disk: Disk, topic: Option<string>, term: Option<string>,
                           lookup: Lookup, timestamp: string)
    requires AddWikiInfo(s, disk, topic, term, lookup, timestamp).response.Ok?
    ensures NoteCount(AddWikiInfo(s, disk, topic, term, lookup, timestamp).store.doc) == NoteCount(Current(s)) + 1
  {
    FileNoteCount(Current(s), topic.value, WikiNote(term.value, lookup.data[3], timestamp));
  }

  /**
   * `delete_all_notes`: load, remove every note of every topic, save. The
   * topics stay, with their names and order.
   */
  function DeleteAllNotes(s: Store, disk: Disk): (r: Step<()>)
    ensures r.response.Ok? || r.response.StorageError?
    ensures r.response.Ok? <==> Loads(s, disk) && disk.saves
    ensures r.response.StorageError? ==> r.store == Load(s, disk).store
    ensures r.response.Ok? ==>
      && r.store.Valid?
      && |r.store.doc| == |Current(s)|
      && (forall i :: 0 <= i < |Current(s)| ==> r.store.doc[i].name == Current(s)[i].name)
      && NoteCount(r.store.doc) == 0
  {
    var loaded := Load(s, disk);
    if !loaded.response.Ok? || !disk.saves then Step(StorageError, loaded.store)
    else Step(Ok(()), Valid(ClearAll(loaded.response.value)))
  }

  /** Deleting twice is deleting once: the second call answers as the first did and changes nothing. */
  lemma DeleteAllTwice(s: Store, disk: Disk)
    ensures var first := DeleteAllNotes(s, disk);
      DeleteAllNotes(first.store, disk) == first
  {
  }

  /** `delete_all_notes` on a valid store with a healthy disk stores the cleared document. */
  lemma DeleteAllOnValid(d: Document)
    ensures DeleteAllNotes(Valid(d), Healthy) == Step(Ok(()), Valid(ClearAll(d)))
  {
  }

  /** A complete `add_note` on a valid store with a healthy disk stores the document with the note filed. */
  lemma AddNoteOnValid(d: Document, topic: string, name: string, text: string, timestamp: string)
    requires |topic| > 0 && |name| > 0 && |text| > 0
    ensures AddNote(Valid(d), Healthy, Some(topic), Some(name), Some(text), timestamp)
      == Step(Ok(()), Valid(FileNote(d, topic, Note(name, text, timestamp))))
  {
  }

  /** `get_notes` on a valid store answers with the notes of the first topic of that name. */
  lemma GetNotesOnValid(d: Document, topic: string)
    requires TopicNotes(d, topic).Some?
    ensures GetNotes(Valid(d), Healthy, Some(topic)).response == Ok(TopicNotes(d, topic).value)
  {
  }

  /**
   * The find-or-create guard seen from the endpoints: after
   * `delete_all_notes`, adding a note to an existing topic creates a second
   * topic of that name, and `get_notes` keeps answering with the first,
   * empty one, so the note just added is not returned.
   */
  lemma DeleteThenAddHidesNote(d: Document, topic: string, name: string, text: string, timestamp: string)
    requires exists i :: 0 <= i < |d| && d[i].name == topic
    requires |topic| > 0 && |name| > 0 && |text| > 0
    ensures var cleared := DeleteAllNotes(Valid(d), Healthy).store;
      var added := AddNote(cleared, Healthy, Some(topic), Some(name), Some(text), timestamp);
      && added.response.Ok?
      && added.store.doc == ClearAll(d) + [Topic(topic, [Note(name, text, timestamp)])]
      && !UniqueNames(added.store.doc)
      && GetNotes(added.store, Healthy, Some(topic)).response == Ok([])
  {
    var n := Note(name, text, timestamp);
    DeleteAllOnValid(d);
    AddNoteOnValid(ClearAll(d), topic, name, text, timestamp);
    ClearThenFileHides(d, topic, n);
    ClearThenFileDuplicates(d, topic, n);
    GetNotesOnValid(FileNote(ClearAll(d), topic, n), topic);
  }

  /** One HTTP request, with its inputs. */
  datatype Request =
    | AddNoteRequest(topic: Option<string>, name: Option<string>, text: Option<string>, timestamp: string)
    | GetNotesRequest(topic: Option<string>)
    | SearchNotesRequest(keyword: Option<string>)
    | AddWikiInfoRequest(topic: Option<string>, term: Option<string>, lookup: Lookup, timestamp: string)
    | DeleteAllNotesRequest

  /** A request, served with the given outcome of its disk writes. */
  datatype Call = Call(request: Request, disk: Disk)

  /** The store after serving one call. */
  function Serve(s: Store, c: Call): Store {
    match c.request
    case AddNoteRequest(topic, name, text, timestamp) => AddNote(s, c.disk, topic, name, text, timestamp).store
    case GetNotesRequest(topic) => GetNotes(s, c.disk, topic).store
    case SearchNotesRequest(keyword) => SearchNotes(s, c.disk, keyword).store
    case AddWikiInfoRequest(topic, term, lookup, timestamp) =>
      AddWikiInfo(s, c.disk, topic, term, lookup, timestamp).store
    case DeleteAllNotesRequest => DeleteAllNotes(s, c.disk).store
  }

  /** The store after serving `calls` one after another. */
  function Run(s: Store, calls: seq<Call>): Store {
    if |calls| == 0 then s else Serve(Run(s, calls[..|calls| - 1]), calls[|calls| - 1])
  }

  /** A stored document, if any, is tidy. */
  ghost predicate TidyStore(s: Store) {
    s.Valid? ==> Tidy(s.doc)
  }

  /** Every request except `delete_all_notes` keeps the stored document tidy. */
  lemma ServeKeepsTidy(s: Store, c: Call)
    requires TidyStore(s)
    requires !c.request.DeleteAllNotesRequest?
    ensures TidyStore(Serve(s, c))
  {
    match c.request
    case AddNoteRequest(topic, name, text, timestamp) =>
      if AddNote(s, c.disk, topic, name, text, timestamp).response.Ok? {
        FileNoteKeepsTidy(Current(s), topic.value, Note(name.value, text.value, timestamp));
      }
    case AddWikiInfoRequest(topic, term, lookup, timestamp) =>
      if AddWikiInfo(s, c.disk, topic, term, lookup, timestamp).response.Ok? {
        FileNoteKeepsTidy(Current(s), topic.value, WikiNote(term.value, lookup.data[3], timestamp));
      }
    case GetNotesRequest(_) =>
    case SearchNotesRequest(_) =>
  }

  /**
   * Topic uniqueness: any sequence of requests without `delete_all_notes`,
   * starting from a missing or tidy store, leaves every topic non-empty and
   * every topic name used once.
   */
  lemma {:induction false} TidyWithoutDeleteAll(s: Store, calls: seq<Call>)
    requires TidyStore(s)
    requires forall k :: 0 <= k < |calls| ==> !calls[k].request.DeleteAllNotesRequest?
    ensures TidyStore(Run(s, calls))
  {
    if |calls| > 0 {
      TidyWithoutDeleteAll(s, calls[..|calls| - 1]);
      ServeKeepsTidy(Run(s, calls[..|calls| - 1]), calls[|calls| - 1]);
    }
  }

  /** `delete_all_notes` on a store with topics breaks tidiness: every topic is left empty. */
  lemma DeleteAllEmptiesTopics(d: Document)
    requires |d| > 0
    ensures var s := Serve(Valid(d), Call(DeleteAllNotesRequest, Healthy));
      s.Valid? && |s.doc| == |d| && !NoEmptyTopics(s.doc)
  {
  }
}
