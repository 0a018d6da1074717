/** A row of the notes list (src/models/NoteItem.js): a title, its tags, the
    label shown for it, and the command that opens it. The catalog updates
    these fields in place, so a note is an object. */
module Items {
  import opened Options
  import opened Text
  import opened Host
  import opened Config

  /** `formatTags()`: nothing for no tags, otherwise the tags joined by
      `", "` inside brackets. */
  function FormatTags(tags: seq<string>): (r: string)
    ensures r == "" <==> tags == []
    ensures r != "" ==> r[0] == '[' && r[|r| - 1] == ']'
  {
    if tags == [] then "" else "[" + Join(tags, ", ") + "]"
  }

  /** The label the constructor gives: title, two spaces, formatted tags. */
  function Label(title: string, tags: seq<string>): (r: string)
    ensures title + "  " <= r
    ensures tags == [] ==> r == title + "  "
  {
    title + "  " + FormatTags(tags)
  }

  /** A label names the same file as its title: everything from the first
      `[` on is cut and the two separating spaces are trimmed away. */
  lemma FileNameOfLabel(title: string, tags: seq<string>)
    ensures FileName(Label(title, tags)) == FileName(title)
  {
    var f := FormatTags(tags);
    var rest := "  " + f;
    assert Label(title, tags) == title + rest;
    BeforeFirstConcat(title, rest, '[');
    if '[' in title {
      assert BeforeFirst(Label(title, tags), '[') == BeforeFirst(title, '[');
    } else {
      SpacedTagsHead(f);
      BeforeFirstNoSep(title, '[');
      TrimAppendSpaces(title, "  ");
      assert BeforeFirst(Label(title, tags), '[') == title + "  ";
    }
  }

  /** Before the tags' opening bracket there are only the two spaces. */
  lemma SpacedTagsHead(f: string)
    requires f == "" || f[0] == '['
    ensures BeforeFirst("  " + f, '[') == "  "
  {
    BeforeFirstConcat("  ", f, '[');
    assert BeforeFirst(f, '[') == [];
    assert "  " + [] == "  ";
  }

  /** The command a row runs when clicked. */
  datatype Command = Command(command: string, title: string, arguments: seq<NoteItem>)

  class NoteItem {
    var title: string
    var tags: seq<string>
    var labelText: string
    const tooltip: string
    /** `None` until the pin is toggled: the constructor takes no pin. */
    var pinned: Option<bool>
    var command: Command

    /** `new NoteItem(title, tags)`; a pin passed as a further argument is
        ignored by the constructor. */
    constructor (title: string, tags: seq<string>)
      ensures this.title == title && this.tags == tags && tooltip == title
      ensures labelText == Label(title, tags)
      ensures pinned == None
      ensures command == Command("enotes.openNote", "Open Note", [this])
    {
      this.title := title;
      this.tags := tags;
      this.tooltip := title;
      this.labelText := Label(title, tags);
      this.pinned := None;
      this.command := Command("enotes.openNote", "Open Note", []);
      new;
      this.command := Command("enotes.openNote", "Open Note", [this]);
    }
  }

  /** The titles of a list of notes, in order. */
  function TitlesOf(notes: seq<NoteItem>): (r: seq<string>)
    reads notes`title
    ensures |r| == |notes|
  {
    if notes == [] then [] else [notes[0].title] + TitlesOf(notes[1..])
  }

  /** Position `i` of the titles is the title of note `i`. */
  lemma {:induction false} TitlesOfSpec(notes: seq<NoteItem>)
    ensures forall i :: 0 <= i < |notes| ==> TitlesOf(notes)[i] == notes[i].title
  {
    if notes != [] {
      TitlesOfSpec(notes[1..]);
    }
  }

  /** The `{title, tags}` rows of a list of notes, in order. */
  function RowsOf(notes: seq<NoteItem>): (r: seq<Row>)
    reads notes`title, notes`tags
    ensures |r| == |notes|
  {
    if notes == [] then [] else [Row(notes[0].title, notes[0].tags)] + RowsOf(notes[1..])
  }

  /** Row `i` is the title and tags of note `i`. */
  lemma {:induction false} RowsOfSpec(notes: seq<NoteItem>)
    ensures forall i :: 0 <= i < |notes| ==> RowsOf(notes)[i] == Row(notes[i].title, notes[i].tags)
  {
    if notes != [] {
      RowsOfSpec(notes[1..]);
    }
  }

  /** The rows of a list with one more note: one more row. */
  lemma RowsOfSnoc(notes: seq<NoteItem>, n: NoteItem)
    ensures RowsOf(notes + [n]) == RowsOf(notes) + [Row(n.title, n.tags)]
  {
    var r := notes + [n];
    RowsOfSpec(notes);
    RowsOfSpec(r);
    assert forall i :: 0 <= i < |notes| ==> r[i] == notes[i];
  }

  /** `notes.findIndex(n => n.title === title)`: the first position holding
      that title. */
  function FindIndex(notes: seq<NoteItem>, title: string): (r: Option<nat>)
    reads notes`title
    ensures r.None? <==> forall i :: 0 <= i < |notes| ==> notes[i].title != title
    ensures r.Some? ==> r.value < |notes| && notes[r.value].title == title
    ensures r.Some? ==> forall i :: 0 <= i < r.value ==> notes[i].title != title
  {
    if notes == [] then None
    else if notes[0].title == title then Some(0)
    else match FindIndex(notes[1..], title)
      case None => None
      case Some(k) => Some(k + 1)
  }

  /** `notes.find(n => n.title === title)`. */
  function Find(notes: seq<NoteItem>, title: string): (r: Option<NoteItem>)
    reads notes`title
    ensures r.None? <==> title !in TitlesOf(notes)
    ensures r.Some? ==> r.value in notes && r.value.title == title
    ensures r.Some? ==> r.value == notes[FirstIndex(TitlesOf(notes), title)]
  {
    TitlesOfSpec(notes);
    match FindIndex(notes, title)
    case None => None
    case Some(k) =>
      var t := TitlesOf(notes);
      assert t[k] == title && title !in t[..k];
      var j := FirstIndex(t, title);
      assert j == k;
      Some(notes[k])
  }

  /** The title at position `i`. */
  function TitleAt(notes: seq<NoteItem>, i: nat): string
    requires i < |notes|
    reads notes`title
  {
    notes[i].title
  }

  /** No two notes share a title. */
  predicate Distinct(notes: seq<NoteItem>)
    reads notes`title
  {
    forall i, j {:trigger TitleAt(notes, i), TitleAt(notes, j)} ::
      0 <= i < j < |notes| ==> TitleAt(notes, i) != TitleAt(notes, j)
  }

  /** Notes whose titles are free of repeats are distinct. */
  lemma DistinctOfTitles(notes: seq<NoteItem>)
    requires NoDups(TitlesOf(notes))
    ensures Distinct(notes)
  {
    var t := TitlesOf(notes);
    TitlesOfSpec(notes);
    forall i, j | 0 <= i < j < |notes| ensures TitleAt(notes, i) != TitleAt(notes, j) {
      assert t[i] == TitleAt(notes, i) && t[j] == TitleAt(notes, j);
    }
  }

  /** A note whose title is not listed can be appended without repeating
      a title. */
  lemma DistinctSnoc(notes: seq<NoteItem>, n: NoteItem)
    requires Distinct(notes) && n.title !in TitlesOf(notes)
    ensures Distinct(notes + [n])
  {
    var r := notes + [n];
    TitlesOfSpec(notes);
    forall i, j | 0 <= i < j < |r| ensures TitleAt(r, i) != TitleAt(r, j) {
      assert TitleAt(r, i) == TitleAt(notes, i);
      if j < |notes| {
        assert TitleAt(r, j) == TitleAt(notes, j);
      } else {
        assert TitlesOf(notes)[i] == TitleAt(notes, i);
      }
    }
  }

  /** In a list without repeated titles a title finds the one note that
      has it. */
  lemma FindDistinct(notes: seq<NoteItem>, k: nat)
    requires Distinct(notes) && k < |notes|
    ensures Find(notes, notes[k].title) == Some(notes[k])
  {
    var t := TitlesOf(notes);
    TitlesOfSpec(notes);
    assert t[k] == notes[k].title;
    var j := FirstIndex(t, notes[k].title);
    assert TitleAt(notes, j) == TitleAt(notes, k);
  }
}
