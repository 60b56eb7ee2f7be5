/**
 * The note document held in notes.xml: a root element whose children are topic
 * elements, each holding note elements with a text and a timestamp child. The
 * document is a value here; every operation of the service reads one, and the
 * mutating ones produce the next.
 */
module Notes {
  import opened Optional

  /** A `note` element: its `name` attribute and its `text` and `timestamp` children. */
  datatype Note = Note(name: string, text: string, timestamp: string)

  /** A `topic` element: its `name` attribute and its note children in insertion order. */
  datatype Topic = Topic(name: string, notes: seq<Note>)

  /** The children of the root `data` element, in document order. */
  type Document = seq<Topic>

  /** What the service writes when notes.xml is missing: a root with no topics. */
  const Empty: Document := []

  /** Topic `i` is the first topic called `name`, the element `.//topic[@name='...']` selects. */
  ghost predicate FirstNamed(d: Document, name: string, i: nat) {
    i < |d| && d[i].name == name && forall j :: 0 <= j < i ==> d[j].name != name
  }

  /** Finds the first topic called `name`, or None when no topic has that name. */
  function FindTopic(d: Document, name: string): (r: Option<nat>)
    ensures r.None? <==> forall i :: 0 <= i < |d| ==> d[i].name != name
    ensures r.Some? ==> FirstNamed(d, name, r.value)
  {
    if |d| == 0 then None
    else if d[0].name == name then Some(0)
    else match FindTopic(d[1..], name)
      case None => None
      case Some(k) => Some(k + 1)
  }

  /** The lookup sees only the topic names: two documents with the same names find the same topic. */
  lemma FindTopicByNames(d: Document, e: Document, name: string)
    requires |d| == |e|
    requires forall i :: 0 <= i < |d| ==> d[i].name == e[i].name
    ensures FindTopic(d, name) == FindTopic(e, name)
  {
  }

  /** Appending a topic leaves an earlier match alone and is found only when no earlier topic matches. */
  lemma FindTopicAppend(d: Document, t: Topic, name: string)
    ensures FindTopic(d + [t], name) ==
      match FindTopic(d, name)
      case Some(i) => Some(i)
      case None => if t.name == name then Some(|d|) else None
  {
    assert forall i :: 0 <= i < |d| ==> (d + [t])[i] == d[i];
    assert (d + [t])[|d|] == t;
  }

  /** Number of notes in the document, all topics together. */
  function NoteCount(d: Document): nat {
    if |d| == 0 then 0 else NoteCount(d[..|d| - 1]) + |d[|d| - 1].notes|
  }

  /** Appending a topic adds its notes to the total. */
  lemma NoteCountAppend(d: Document, t: Topic)
    ensures NoteCount(d + [t]) == NoteCount(d) + |t.notes|
  {
  }

  /** Replacing one topic changes the count by the difference in that topic's notes. */
  lemma {:induction false} NoteCountUpdate(d: Document, i: nat, t: Topic)
    requires i < |d|
    ensures NoteCount(d[i := t]) + |d[i].notes| == NoteCount(d) + |t.notes|
  {
    var last := |d| - 1;
    if i < last {
      assert d[i := t][..last] == d[..last][i := t];
      NoteCountUpdate(d[..last], i, t);
    } else {
      assert d[i := t][..last] == d[..last];
    }
  }

  /**
   * Find-or-create followed by append, as `add_note` and `add_wiki_info` do it.
   * The first topic called `t` receives the note only if it already holds a
   * note: the guard `if not topic_element` is also true of an element with no
   * children. Otherwise a new topic holding just the note goes at the end of
   * the root, even when a topic called `t` already exists.
   */
  function FileNote(d: Document, t: string, n: Note): (r: Document)
    ensures forall i: nat :: FirstNamed(d, t, i) && |d[i].notes| > 0 ==>
      && |r| == |d|
      && r[i] == Topic(t, d[i].notes + [n])
      && (forall j :: 0 <= j < |d| && j != i ==> r[j] == d[j])
    ensures (forall i: nat :: FirstNamed(d, t, i) ==> |d[i].notes| == 0) ==> r == d + [Topic(t, [n])]
  {
    match FindTopic(d, t)
    case Some(i) =>
      if |d[i].notes| > 0 then d[i := Topic(t, d[i].notes + [n])] else d + [Topic(t, [n])]
    case None => d + [Topic(t, [n])]
  }

  /** Filing a note adds exactly one note to the document. */
  lemma FileNoteCount(d: Document, t: string, n: Note)
    ensures NoteCount(FileNote(d, t, n)) == NoteCount(d) + 1
  {
    match FindTopic(d, t)
    case Some(i) =>
      if |d[i].notes| > 0 {
        NoteCountUpdate(d, i, Topic(t, d[i].notes + [n]));
      } else {
        NoteCountAppend(d, Topic(t, [n]));
      }
    case None =>
      NoteCountAppend(d, Topic(t, [n]));
  }

  /** `delete_all_notes`: every topic stays, in place and under its name, with its notes removed. */
  function ClearAll(d: Document): (r: Document)
    ensures |r| == |d|
    ensures forall i :: 0 <= i < |d| ==> r[i].name == d[i].name && r[i].notes == []
    ensures NoteCount(r) == 0
  {
    if |d| == 0 then []
    else
      var r := ClearAll(d[..|d| - 1]) + [Topic(d[|d| - 1].name, [])];
      assert r[..|d| - 1] == ClearAll(d[..|d| - 1]);
      r
  }

  /** Clearing a cleared document changes nothing. */
  lemma ClearAllIdempotent(d: Document)
    ensures ClearAll(ClearAll(d)) == ClearAll(d)
  {
  }

  /** Every topic holds at least one note. */
  ghost predicate NoEmptyTopics(d: Document) {
    forall i :: 0 <= i < |d| ==> |d[i].notes| > 0
  }

  /** No two topics share a name. */
  ghost predicate UniqueNames(d: Document) {
    forall i, j :: 0 <= i < j < |d| ==> d[i].name != d[j].name
  }

  /** The shape the service intends: topics are never empty and never duplicated. */
  ghost predicate Tidy(d: Document) {
    NoEmptyTopics(d) && UniqueNames(d)
  }

  /** Filing a note into a tidy document keeps it tidy. */
  lemma FileNoteKeepsTidy(d: Document, t: string, n: Note)
    requires Tidy(d)
    ensures Tidy(FileNote(d, t, n))
  {
  }

  /**
   * After clearing, filing under a name the document already has creates a
   * second topic of that name, and the first one, still empty, keeps
   * shadowing it.
   */
  lemma ClearThenFileDuplicates(d: Document, t: string, n: Note)
    requires exists i :: 0 <= i < |d| && d[i].name == t
    ensures var r := FileNote(ClearAll(d), t, n);
      && r == ClearAll(d) + [Topic(t, [n])]
      && |r| == |d| + 1
      && !UniqueNames(r)
      && (exists i: nat :: FirstNamed(r, t, i) && r[i].notes == [])
  {
    var c := ClearAll(d);
    var r := FileNote(c, t, n);
    var i :| 0 <= i < |d| && d[i].name == t;
    assert c[i].name == t;
    var k := FindTopic(c, t).value;
    assert r == c + [Topic(t, [n])];
    assert r[k] == c[k] && r[|d|].name == t;
    assert FirstNamed(r, t, k);
  }

  /** An empty first topic called `t` stays first, and empty, however often a note is filed under `t`. */
  lemma EmptyTopicShadows(d: Document, t: string, n: Note, i: nat)
    requires FirstNamed(d, t, i) && d[i].notes == []
    ensures var r := FileNote(d, t, n);
      |r| == |d| + 1 && FirstNamed(r, t, i) && r[i].notes == [] && r[|d|] == Topic(t, [n])
  {
  }
}
