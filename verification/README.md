# Note service core, modelled in Dafny

This project models the in-memory note document of a small Flask note-taking
service (`service.py`) and the operations its HTTP handlers perform on it.
The document kept in `notes.xml` is a root holding topics; each topic holds
notes with a name, a text and a timestamp. The handlers work on it like this:

- `add_note` validates its fields, finds or creates the topic, and appends a note.
- `get_notes` returns the notes of a topic.
- `search_notes` scans every note for a keyword, ignoring case.
- `add_wiki_info` files a note built from a Wikipedia OpenSearch reply.
- `delete_all_notes` empties every topic.

Every operation is a pure function. It takes the persisted store (`Missing`,
`Corrupt` or `Valid(document)`) and the request's inputs. It returns the
response together with the store it leaves behind. Three things the program
gets from its environment are parameters instead:

- whether each disk write succeeds (`Disk`): creating the missing file, and saving the changed document, are two separate flags;
- the timestamp string that `datetime.now()` would give;
- the decoded OpenSearch reply (`Lookup`).

Files:

- `optional.dfy`: `Option`, which stands for an absent JSON field or query argument.
- `text.dfy`: ASCII `lower()` and Python's substring test.
- `notes.dfy`: the document (`Note`, `Topic`, `Document`), topic lookup, the find-or-create step `FileNote`, clearing, and the tidiness invariant.
- `query.dfy`: `get_notes` and `search_notes` over a document, including the nested scan as a loop.
- `service.dfy`: the store, the responses, the five endpoint operations, and request sequences.

## The find-or-create guard

`add_note` and `add_wiki_info` locate the topic with `root.find(...)`. They
then test `if not topic_element:`. An ElementTree element with no children is
false under that test, so an existing but empty topic counts as absent. The
model reproduces this exactly in `Notes.FileNote`. The first topic with the
name receives the note only if it already holds a note. Otherwise a new topic
is appended at the end of the root. Three consequences are proved:

- Adding notes alone, from a fresh store, keeps every topic non-empty and
  every name unique (`Service.TidyWithoutDeleteAll`).
- After `delete_all_notes`, adding a note to an existing topic creates a
  duplicate topic. `get_notes` keeps answering with the first, empty topic, so
  the new note is not returned (`Service.DeleteThenAddHidesNote`).
- While the first topic of a name is empty, every later addition creates yet
  another topic of that name (`Notes.EmptyTopicShadows`).

Behaviours of the code worth noting:

- `add_note` loads the store before it validates the fields. A missing file is
  therefore written even when the request is refused. A corrupt file gives a
  storage error rather than a validation error.
- `add_wiki_info` validates before it loads, but loads before it looks at the Wikipedia reply. A failed lookup therefore still leaves a missing file created.
- `delete_all_notes` answers with a message only, not with the number of notes removed.
- A topic can exist with no notes, after `delete_all_notes`.
- The Wikipedia note is named `Wikipedia Info: <term>`. Its text is
  `Wikipedia link: <url>`, or `Wikipedia link: No URL found` when the reply's
  URL list is empty.

## Model

| member | source | states |
|---|---|---|
| Service.Load | service.py:14-24 | A valid store is read as it is. A missing store yields the empty document and becomes `Valid(empty)`, provided creating the file succeeds. A corrupt store, or a missing one whose creation fails, is a storage error and stays unchanged. After any successful load, the store holds exactly the document returned. |
| Service.LoadTwice | service.py:14-21 | Loading the store a load left behind gives the same answer and the same store: creation of the missing file happens once. |
| Service.AddNote | service.py:41-68 | Load errors come first and are storage errors. Then a missing or empty topic, name or text gives MissingData and leaves the store as loaded. A failed save is a storage error that leaves the store as loaded. Success stores the document with the note filed by find-or-create. |
| Service.AddNoteSaveFailsAfterCreate | service.py:43-66 | On a missing file whose creation succeeds but whose save fails, a complete `add_note` answers with a storage error and leaves the file holding the empty root. |
| Service.AddNoteRefusedKeepsDocument | service.py:42-51 | An `add_note` with any field absent or empty never succeeds and leaves the document unchanged. A valid or corrupt store stays exactly as it was. |
| Service.AddNoteAddsOne | service.py:55-61 | A successful `add_note` raises the total note count by exactly one. |
| Notes.FindTopic | service.py:79-80 | The lookup finds no topic exactly when no topic has the name. Otherwise it returns the index of the first topic with that name. |
| Notes.FileNote | service.py:56-61 | Suppose the first topic named t holds at least one note. Then the result has the same topics, and that topic has the new note appended at its end while every other topic is unchanged. If there is no topic named t, or the first one is empty, the result is the input with a new topic `(t, [note])` appended. |
| Notes.FileNoteCount | service.py:56-61 | Filing a note adds exactly one note to the document's total. |
| Notes.FileNoteKeepsTidy | service.py:55-61 | Filing into a document whose topics are all non-empty and uniquely named keeps both properties. |
| Notes.ClearAll | service.py:171-173 | Clearing keeps the same number of topics, in the same order with the same names. Every topic ends with no notes and the total note count is zero. |
| Notes.ClearAllIdempotent | service.py:171-173 | Clearing an already cleared document changes nothing. |
| Notes.ClearThenFileDuplicates | service.py:57-58 | After clearing a document that has a topic named t, filing a note n under t appends exactly `(t, [n])` to the cleared document, a second topic named t. Names stop being unique, and the first topic named t has no notes. |
| Notes.EmptyTopicShadows | service.py:56-58 | If the first topic named t is empty, filing under t adds a new last topic holding the note. The empty topic stays the first one named t. |
| Query.TopicNotes | service.py:79-92 | The result is None exactly when no topic has exactly that name. Otherwise it holds the notes of the first such topic, in order, and may be empty. |
| Query.ClearThenFileHides | service.py:79-80 | Clear a document that has a topic named t, then file a note under t. Names are no longer unique, and a lookup of t returns an empty list: the new note cannot be seen. |
| Query.FileNoteVisible | service.py:55-61 | If no topic is empty, filing a note for t changes what a lookup of t returns: the previous notes of t (or none) followed by the new note. Lookups of every other name are unchanged. |
| Query.FileAllTidy | service.py:55-61 | Any sequence of additions, starting from the empty document, leaves all topics non-empty and uniquely named. |
| Query.FiledNotesAreVisible | service.py:79-92 | After any sequence of additions to the empty document, a lookup of t returns exactly the notes submitted under t, in submission order. It returns None when none were submitted. No update is lost. |
| Query.TopicHitsMembership | service.py:105-112 | A row is among one topic's hits exactly when it pairs the topic's name with one of its notes whose folded text contains the needle. |
| Query.MatchesMembership | service.py:104-112 | A (topic, note) row is in the search result exactly when the note belongs to a topic of that name and the note's folded text contains the needle. Nothing is missed and nothing is extra. |
| Query.MatchesConcat | service.py:104-105 | The result for two documents joined together is the result for the first followed by the result for the second. Topics keep document order. |
| Query.EmptyNeedleMatchesAll | service.py:106 | An empty needle matches every note: the result has one row per note of the document. |
| Query.NoNotesNoMatches | service.py:103-106 | A document with no notes yields no rows for any needle. |
| Query.ScanNotes | service.py:103-112 | The nested loop over topics and their notes collects exactly the rows of the search result, in order, for the folded keyword. |
| Text.Lower | service.py:106 | Folding keeps the length, maps each character through ASCII lower-casing, and leaves no upper-case ASCII letter. |
| Text.LowerOfLower | service.py:106 | Folding twice is folding once. |
| Text.LowerOfUpper | service.py:106 | Upper-casing before folding gives the same fold. |
| Text.ContainsEmpty | service.py:106 | The empty string is contained in every string. |
| Service.GetNotes | service.py:72-92 | Load errors are storage errors. The result is NotFound exactly when no topic has exactly the requested name. Otherwise it returns the notes of the first topic with that name. The store is left as loaded. |
| Service.GetNotesWithoutTopic | service.py:73-79 | A request without a `topic` argument is answered as a request for the topic named "None". |
| Service.SearchNotes | service.py:96-117 | Load errors are storage errors. Without a keyword, the result is an unhandled error if the document holds any note and NotFound if it holds none. With a keyword, the answer is Ok with the ordered matches of the folded keyword when there are any, and NotFound exactly when there are none. The store is left as loaded. |
| Service.SearchIgnoresCase | service.py:106 | Searching for a keyword, its upper-case form or its lower-case form gives the same answer. |
| Service.SearchWithoutNotes | service.py:114-115 | On a loadable store holding no notes, every search is NotFound. |
| Service.SearchEmptyKeyword | service.py:106-117 | An empty keyword returns one row per stored note, or NotFound when there are no notes. |
| Service.WikiNote | service.py:142-151 | The note is named `Wikipedia Info: ` plus the term. Its text is `Wikipedia link: ` plus the first URL, or `Wikipedia link: No URL found` when the URL list is empty. It carries the given timestamp. |
| Service.AddWikiInfo | service.py:121-162 | An absent or empty topic or term gives MissingData and leaves the store as it was, before any load. A load error is a storage error. A failed lookup is LookupFailed. A reply of at most one element is NotFound. A reply of two or three elements, or a failed save, is AddFailed. Only a reply of four or more elements succeeds, storing the document with the Wikipedia note filed by find-or-create. Every failure after validation leaves the store as the load left it, so a missing file has been created whenever the load succeeded; every failure leaves the document unchanged. |
| Service.WikiFailureAfterCreate | service.py:131-141 | On a missing file and a healthy disk, a valid `add_wiki_info` whose lookup failed or whose reply has fewer than four elements does not succeed, yet leaves the file created with the empty root. |
| Service.AddWikiInfoAddsOne | service.py:146-151 | A successful `add_wiki_info` raises the total note count by exactly one. |
| Service.DeleteAllNotes | service.py:166-179 | The call succeeds exactly when the store loads and the save succeeds. Success keeps the same topics in order and by name, with zero notes in all. Failure leaves the store as loaded. |
| Service.DeleteAllTwice | service.py:168-177 | Deleting all notes a second time gives the same answer and the same store as the first time, so a successful second call removes nothing. |
| Service.DeleteThenAddHidesNote | service.py:57-58 | Start from a document with a topic named t. After `delete_all_notes`, a valid `add_note` under t succeeds and stores the cleared document followed by a new topic `(t, [note])`, so two topics are named t, and `get_notes(t)` answers with an empty list. |
| Service.ServeKeepsTidy | service.py:55-61 | Every request except `delete_all_notes` keeps a stored document with non-empty, uniquely named topics in that shape. |
| Service.TidyWithoutDeleteAll | service.py:55-58 | Start from a missing or tidy store and serve any sequence of requests without `delete_all_notes`. Every topic stays non-empty and every topic name is used once. |
| Service.DeleteAllEmptiesTopics | service.py:171-173 | `delete_all_notes` on a document with topics leaves the same number of topics, and an empty one among them: tidiness is broken. |

## Left out

- HTTP routing, status codes, JSON bodies and the welcome page (service.py:1-7, 35-37, 47, 182-183): plumbing. Outcomes are the `Response` datatype; the comment on it says which answer is 400, 404 or 500.
- A request body that is not a JSON object, and JSON field values that are not strings: fields are modelled as absent or as strings.
- XML parsing and writing (service.py:16, 20, 30): library serialisation. Persistence is the abstract `Store`, and every stored string is assumed to be XML-safe. In the service it need not be: `tree.write` does not escape characters that XML 1.0 forbids. A name or text holding one, such as U+0001, is accepted by `add_note` with a success answer, after which every `ET.parse` at :16 fails and every later request that loads the store answers 500; the model instead keeps `Valid(...)`. A carriage return in a text comes back as a line feed after a save and a load; the model keeps it unchanged. An empty text element reading back as `None` is not modelled either; the service never stores an empty text, because of the check at :50 and the fixed prefix at :144.
- Crash during a write: a half-written file is not modelled. A failed save leaves the store as it was before the save.
- `threading.RLock` and all concurrency (service.py:8, 28, 55). `add_note` loads at :43 outside the lock, so two concurrent additions can lose one update. The model serves requests one at a time, and `Query.FiledNotesAreVisible` is the sequential no-lost-update property.
- The Wikipedia HTTP request, `raise_for_status` and JSON decoding (service.py:135-140): a network call. The reply is the `Lookup` parameter. Network, HTTP and decoding failures are one outcome, `LookupFailed`, because the handlers at :155-158 answer all of them with a 500. A reply that is a JSON object or has non-string URL entries is not modelled.
- `datetime.now().strftime` (service.py:53, 151): the timestamp is an opaque string parameter.
- Unicode `str.lower`: only ASCII letters are folded.
- XPath interpolation (service.py:56, 79, 146): a topic name containing `'` breaks the query. Lookup is modelled as exact string equality, and such names are outside the model.
- `.//topic` matches topics at any depth. Only root-level topics exist in documents this service writes.
- client.py (interactive console over HTTP) and test.py (concurrent load driver): no logic of their own.
