/** The two read-only queries over a loaded document: `get_notes` and `search_notes`. */
module Query {
  import opened Optional
  import opened Text
  import opened Notes

  /**
   * The notes `get_notes` reports for `t`: those of the first topic with
   * exactly that name, in insertion order, or None when no topic has it. An
   * existing topic without notes gives Some([]), not None.
   */
  function TopicNotes(d: Document, t: string): (r: Option<seq<Note>>)
    ensures r.None? <==> forall i :: 0 <= i < |d| ==> d[i].name != t
    ensures r.Some? ==> exists i: nat :: FirstNamed(d, t, i) && r.value == d[i].notes
  {
    match FindTopic(d, t)
    case None => None
    case Some(i) => Some(d[i].notes)
  }

  /**
   * What a query for `u` sees after a note for `t` is filed, provided no topic
   * is empty: `t` gains the note at the end, every other name is untouched.
   */
  lemma FileNoteVisible(d: Document, t: string, n: Note, u: string)
    requires NoEmptyTopics(d)
    ensures TopicNotes(FileNote(d, t, n), u) ==
      if u == t then Some(TopicNotes(d, t).GetOr([]) + [n]) else TopicNotes(d, u)
  {
    var r := FileNote(d, t, n);
    match FindTopic(d, t)
    case Some(i) =>
      assert |d[i].notes| > 0;
      FindTopicByNames(d, r, u);
    case None =>
      FindTopicAppend(d, Topic(t, [n]), u);
      assert r == d + [Topic(t, [n])];
      assert TopicNotes(d, t) == None;
      assert r[|d|].notes == [] + [n];
  }

  /**
   * After clearing, a note filed under an existing name is invisible to a
   * lookup of that name: the first topic of the name is the cleared one.
   */
  lemma ClearThenFileHides(d: Document, t: string, n: Note)
    requires exists i :: 0 <= i < |d| && d[i].name == t
    ensures !UniqueNames(FileNote(ClearAll(d), t, n))
    ensures TopicNotes(FileNote(ClearAll(d), t, n), t) == Some([])
  {
    var c := ClearAll(d);
    var i :| 0 <= i < |d| && d[i].name == t;
    assert c[i].name == t;
    var k := FindTopic(c, t).value;
    var r := FileNote(c, t, n);
    assert r == c + [Topic(t, [n])];
    FindTopicAppend(c, Topic(t, [n]), t);
    assert r[k] == c[k] && r[|c|].name == t;
  }

  /** A note to file under a topic, as one successful `add_note` call submits it. */
  datatype Filing = Filing(topic: string, note: Note)

  /** The document after filing `fs` in order. */
  function FileAll(d: Document, fs: seq<Filing>): Document {
    if |fs| == 0 then d
    else
      var last := fs[|fs| - 1];
      FileNote(FileAll(d, fs[..|fs| - 1]), last.topic, last.note)
  }

  /** The notes among `fs` submitted under topic `t`, in submission order. */
  function SubmittedTo(fs: seq<Filing>, t: string): seq<Note> {
    if |fs| == 0 then []
    else
      var last := fs[|fs| - 1];
      SubmittedTo(fs[..|fs| - 1], t) + (if last.topic == t then [last.note] else [])
  }

  /** Additions alone, starting from the empty document, keep it tidy. */
  lemma {:induction false} FileAllTidy(fs: seq<Filing>)
    ensures Tidy(FileAll(Empty, fs))
  {
    if |fs| > 0 {
      FileAllTidy(fs[..|fs| - 1]);
      FileNoteKeepsTidy(FileAll(Empty, fs[..|fs| - 1]), fs[|fs| - 1].topic, fs[|fs| - 1].note);
    }
  }

  /**
   * No lost updates, sequentially: after any run of additions to a fresh
   * document (no deletion in between), `get_notes(t)` returns exactly the
   * notes submitted for `t`, in order, or NotFound when there were none.
   */
  lemma {:induction false} FiledNotesAreVisible(fs: seq<Filing>, t: string)
    ensures TopicNotes(FileAll(Empty, fs), t) ==
      if SubmittedTo(fs, t) == [] then None else Some(SubmittedTo(fs, t))
  {
    if |fs| > 0 {
      var init, last := fs[..|fs| - 1], fs[|fs| - 1];
      var d := FileAll(Empty, init);
      FiledNotesAreVisible(init, t);
      FileAllTidy(init);
      FileNoteVisible(d, last.topic, last.note, t);
      assert TopicNotes(d, t).GetOr([]) == SubmittedTo(init, t);
      assert FileAll(Empty, fs) == FileNote(d, last.topic, last.note);
      if last.topic == t {
        assert SubmittedTo(fs, t) == SubmittedTo(init, t) + [last.note];
      } else {
        assert SubmittedTo(fs, t) == SubmittedTo(init, t);
      }
    }
  }

  /** One row of a `search_notes` answer: the topic's name and the matching note. */
  datatype Hit = Hit(topic: string, note: Note)

  /** The note's text, folded, contains `needle`: the test at service.py line 106 once the keyword is folded. */
  predicate Mentions(n: Note, needle: string) {
    Contains(Lower(n.text), needle)
  }

  /** The hits among one topic's notes, in insertion order. */
  function TopicHits(name: string, ns: seq<Note>, needle: string): seq<Hit> {
    if |ns| == 0 then []
    else
      var last := ns[|ns| - 1];
      TopicHits(name, ns[..|ns| - 1], needle) + (if Mentions(last, needle) then [Hit(name, last)] else [])
  }

  /** All hits, topics in document order and notes in insertion order within each. */
  function Matches(d: Document, needle: string): seq<Hit> {
    if |d| == 0 then []
    else
      var last := d[|d| - 1];
      Matches(d[..|d| - 1], needle) + TopicHits(last.name, last.notes, needle)
  }

  /** The hits of one topic are exactly its notes whose folded text contains the needle, paired with its name. */
  lemma {:induction false} TopicHitsMembership(name: string, ns: seq<Note>, needle: string, h: Hit)
    ensures h in TopicHits(name, ns, needle) <==>
      exists j :: 0 <= j < |ns| && h == Hit(name, ns[j]) && Mentions(ns[j], needle)
  {
    if |ns| > 0 {
      var init := ns[..|ns| - 1];
      TopicHitsMembership(name, init, needle, h);
      assert forall j :: 0 <= j < |init| ==> init[j] == ns[j];
    }
  }

  /** Row `h` is note `j` of topic `i`, paired with the topic's name, and that note mentions the needle. */
  ghost predicate HitAt(d: Document, needle: string, h: Hit, i: nat, j: nat) {
    i < |d| && j < |d[i].notes| && h == Hit(d[i].name, d[i].notes[j]) && Mentions(d[i].notes[j], needle)
  }

  /**
   * A pair is a hit exactly when its note sits in a topic of that name and the
   * note's folded text contains the needle: nothing is missed and nothing extra.
   */
  lemma {:induction false} MatchesMembership(d: Document, needle: string, h: Hit)
    ensures h in Matches(d, needle) <==> exists i: nat, j: nat :: HitAt(d, needle, h, i, j)
  {
    if |d| > 0 {
      var init, last := d[..|d| - 1], d[|d| - 1];
      MatchesMembership(init, needle, h);
      TopicHitsMembership(last.name, last.notes, needle, h);
      if h in Matches(d, needle) {
        if h in Matches(init, needle) {
          var i: nat, j: nat :| HitAt(init, needle, h, i, j);
          assert init[i] == d[i];
          assert HitAt(d, needle, h, i, j);
        } else {
          var j :| 0 <= j < |last.notes| && h == Hit(last.name, last.notes[j]) && Mentions(last.notes[j], needle);
          assert HitAt(d, needle, h, |d| - 1, j);
        }
      }
      if exists i: nat, j: nat :: HitAt(d, needle, h, i, j) {
        var i: nat, j: nat :| HitAt(d, needle, h, i, j);
        if i < |init| {
          assert init[i] == d[i];
          assert HitAt(init, needle, h, i, j);
        } else {
          assert h in TopicHits(last.name, last.notes, needle);
        }
      }
    }
  }

  /** Hits keep document order: the answer for a concatenation is the two answers concatenated. */
  lemma {:induction false} MatchesConcat(d: Document, e: Document, needle: string)
    ensures Matches(d + e, needle) == Matches(d, needle) + Matches(e, needle)
  {
    if |e| > 0 {
      var init := e[..|e| - 1];
      assert (d + e)[..|d + e| - 1] == d + init;
      MatchesConcat(d, init, needle);
    } else {
      assert d + e == d;
    }
  }

  /** An empty needle gives one hit per note of the topic. */
  lemma {:induction false} TopicHitsEmptyNeedle(name: string, ns: seq<Note>)
    ensures |TopicHits(name, ns, [])| == |ns|
  {
    if |ns| > 0 {
      TopicHitsEmptyNeedle(name, ns[..|ns| - 1]);
      ContainsEmpty(Lower(ns[|ns| - 1].text));
    }
  }

  /** An empty keyword matches every note of the document. */
  lemma {:induction false} EmptyNeedleMatchesAll(d: Document)
    ensures |Matches(d, [])| == NoteCount(d)
  {
    if |d| > 0 {
      EmptyNeedleMatchesAll(d[..|d| - 1]);
      TopicHitsEmptyNeedle(d[|d| - 1].name, d[|d| - 1].notes);
    }
  }

  /** A document with no notes has no hits, whatever the needle. */
  lemma {:induction false} NoNotesNoMatches(d: Document, needle: string)
    requires NoteCount(d) == 0
    ensures Matches(d, needle) == []
  {
    if |d| > 0 {
      var last := d[|d| - 1];
      assert last.notes == [];
      NoNotesNoMatches(d[..|d| - 1], needle);
    }
  }

  /**
   * The scan of `search_notes` (service.py lines 103-112): every topic in
   * document order, every note in insertion order, keeping those whose folded
   * text contains the folded keyword.
   */
  method ScanNotes(d: Document, keyword: string) returns (found: seq<Hit>)
    ensures found == Matches(d, Lower(keyword))
  {
    var needle := Lower(keyword);
    found := [];
    var i := 0;
    while i < |d|
      invariant 0 <= i <= |d|
      invariant found == Matches(d[..i], needle)
    {
      var topic := d[i];
      var j := 0;
      while j < |topic.notes|
        invariant 0 <= j <= |topic.notes|
        invariant found == Matches(d[..i], needle) + TopicHits(topic.name, topic.notes[..j], needle)
      {
        var note := topic.notes[j];
        if Contains(Lower(note.text), needle) {
          found := found + [Hit(topic.name, note)];
        }
        assert topic.notes[..j + 1][..j] == topic.notes[..j];
        j := j + 1;
      }
      assert topic.notes[..j] == topic.notes;
      assert d[..i + 1][..i] == d[..i];
      i := i + 1;
    }
    assert d[..i] == d;
  }
}
