/** The note catalog (src/providers/NotesProvider.js, `NotesProvider`): the
    ordered list of notes and the filter text, kept in step with the note
    files, the tag store and the open editors. */
module Provider {
  import opened Options
  import opened Json
  import opened Text
  import opened Host
  import opened Config
  import opened Items
  import opened Tags
  import opened Webview
  import opened Controller
  import opened ListView

  /** `parts.map(t => t.trim())`. */
  function TrimAll(parts: seq<string>): (r: seq<string>)
    ensures |r| == |parts|
    ensures forall i :: 0 <= i < |parts| ==> r[i] == Trim(parts[i])
  {
    if parts == [] then [] else [Trim(parts[0])] + TrimAll(parts[1..])
  }

  /** `parts.filter(t => t.length > 0)`. */
  function NonEmpty(parts: seq<string>): (r: seq<string>)
    ensures |r| <= |parts|
    ensures forall x :: x in r <==> x in parts && x != ""
  {
    if parts == [] then []
    else (if parts[0] != "" then [parts[0]] else []) + NonEmpty(parts[1..])
  }

  /** Filtering a concatenation filters each part, so the pieces kept stay
      in their order. */
  lemma {:induction false} NonEmptyAppend(a: seq<string>, b: seq<string>)
    ensures NonEmpty(a + b) == NonEmpty(a) + NonEmpty(b)
  {
    if a == [] {
      assert a + b == b;
    } else {
      assert (a + b)[0] == a[0] && (a + b)[1..] == a[1..] + b;
      NonEmptyAppend(a[1..], b);
    }
  }

  /** Two kept pieces are met in the filtered list in the order they are
      first met among all the pieces. */
  lemma {:induction false} NonEmptyFirstIndex(parts: seq<string>, x: string, y: string)
    requires x in NonEmpty(parts) && y in NonEmpty(parts)
    requires FirstIndex(NonEmpty(parts), x) < FirstIndex(NonEmpty(parts), y)
    ensures FirstIndex(parts, x) < FirstIndex(parts, y)
  {
    var rest := parts[1..];
    var k := NonEmpty(parts);
    var nr := NonEmpty(rest);
    assert x != "" && y != "" && x != y;
    assert k == (if parts[0] != "" then [parts[0]] else []) + nr;
    if parts[0] == x {
      assert FirstIndex(parts, x) == 0;
    } else {
      assert parts[0] != y;
      assert x in nr && y in nr && FirstIndex(nr, x) < FirstIndex(nr, y) by {
        if parts[0] != "" {
          assert k == [parts[0]] + nr;
          assert k[0] != x && k[0] != y;
          assert k[1..] == nr;
          assert FirstIndex(k, x) == 1 + FirstIndex(nr, x);
          assert FirstIndex(k, y) == 1 + FirstIndex(nr, y);
        } else {
          assert k == nr;
        }
      }
      NonEmptyFirstIndex(rest, x, y);
      assert FirstIndex(parts, x) == 1 + FirstIndex(rest, x);
      assert FirstIndex(parts, y) == 1 + FirstIndex(rest, y);
    }
  }

  /** Dropping the empty pieces, then duplicates, keeps the tags in the
      order of their first occurrence among the pieces. */
  lemma NormaliseOrder(pieces: seq<string>)
    ensures forall x :: x in Dedupe(NonEmpty(pieces)) ==> x in pieces
    ensures forall i, j :: 0 <= i < j < |Dedupe(NonEmpty(pieces))| ==>
              FirstIndex(pieces, Dedupe(NonEmpty(pieces))[i]) < FirstIndex(pieces, Dedupe(NonEmpty(pieces))[j])
  {
    var kept := NonEmpty(pieces);
    var r := Dedupe(kept);
    DedupeSpec(kept);
    forall i, j | 0 <= i < j < |r| ensures FirstIndex(pieces, r[i]) < FirstIndex(pieces, r[j]) {
      assert r[i] in r && r[j] in r;
      NonEmptyFirstIndex(pieces, r[i], r[j]);
    }
  }

  /** The tags typed as comma-separated text: split on commas, trimmed,
      empty entries dropped, each kept once, in the order of its first
      occurrence. */
  function NormaliseTags(input: string): (r: seq<string>)
    ensures NoDups(r)
    ensures forall t :: t in r <==> t != "" && t in TrimAll(Split(input, ','))
    ensures forall t :: t in r ==> t != "" && Trimmed(t) && ',' !in t
    ensures forall i, j :: 0 <= i < j < |r| ==>
              FirstIndex(TrimAll(Split(input, ',')), r[i]) < FirstIndex(TrimAll(Split(input, ',')), r[j])
  {
    var pieces := TrimAll(Split(input, ','));
    var kept := NonEmpty(pieces);
    DedupeSpec(kept);
    NormaliseOrder(pieces);
    Dedupe(kept)
  }

  /** An example: spaces go, the empty piece goes, and the repeated `a`
      is kept at its first place. */
  lemma NormaliseExample()
    ensures NormaliseTags(" a, b ,,a ") == ["a", "b"]
  {
    ExampleSplit();
    ExampleTrim();
    ExampleKept();
  }

  lemma ExampleSplit()
    ensures Split(" a, b ,,a ", ',') == [" a", " b ", "", "a "]
  {
    assert " a, b ,,a " == " a" + [','] + " b " + [','] + "" + [','] + "a ";
    SplitFour(" a", " b ", "", "a ", ',');
  }

  lemma SplitFour(a: string, b: string, c: string, d: string, sep: char)
    requires sep !in a && sep !in b && sep !in c && sep !in d
    ensures Split(a + [sep] + b + [sep] + c + [sep] + d, sep) == [a, b, c, d]
  {
    var cd := c + [sep] + d;
    var bcd := b + [sep] + cd;
    assert a + [sep] + b + [sep] + c + [sep] + d == a + [sep] + bcd;
    assert Split(cd, sep) == [c, d] by {
      SplitNoSep(d, sep);
      SplitCons(c, d, sep);
    }
    assert Split(bcd, sep) == [b, c, d] by {
      SplitCons(b, cd, sep);
    }
    SplitCons(a, bcd, sep);
  }

  lemma ExampleTrim()
    ensures TrimAll([" a", " b ", "", "a "]) == ["a", "b", "", "a"]
  {
    assert " b " == " " + "b" + " " && " a" == " " + "a" && "a " == "a" + " ";
    TrimFour("a", "b");
  }

  /** Pieces of two tags `x` and `y`, with spaces around some of them and
      an empty piece, trim back to the tags. */
  lemma TrimFour(x: string, y: string)
    requires x != "" && Trimmed(x) && y != "" && Trimmed(y)
    ensures TrimAll([" " + x, " " + y + " ", "", x + " "]) == [x, y, "", x]
  {
    var pieces := [" " + x, " " + y + " ", "", x + " "];
    var tags := [x, y, "", x];
    forall i | 0 <= i < |tags| ensures Trim(pieces[i]) == tags[i] {
      if i == 0 {
        TrimOfTrimmed(x);
      } else if i == 1 {
        TrimAppendSpaces(" " + y, " ");
        TrimOfTrimmed(y);
      } else if i == 2 {
        assert LeadingSpaces(pieces[2]) == 0;
      } else {
        TrimAppendSpaces(x, " ");
        TrimOfTrimmed(x);
      }
    }
    TrimAllPointwise(pieces, tags);
  }

  lemma ExampleKept()
    ensures Dedupe(NonEmpty(["a", "b", "", "a"])) == ["a", "b"]
  {
    KeptTwo("a", "b");
  }

  /** Of the pieces `x`, `y`, an empty one and `x` again, the tags kept
      are `x` then `y`. */
  lemma KeptTwo(x: string, y: string)
    requires x != "" && y != "" && x != y
    ensures Dedupe(NonEmpty([x, y, "", x])) == [x, y]
  {
    var xy: seq<string> := [x, y];
    assert NoDups(xy);
    DedupeNoDups(xy);
    var xyx := xy + [x];
    assert [x, y, "", x] == xy + ["", x];
    NonEmptyAppend(xy, ["", x]);
    assert ["", x][1..] == [x];
    assert NonEmpty(["", x]) == [x];
    assert NonEmpty(xy) == xy by {
      assert xy[1..] == [y];
    }
    assert xyx[..|xyx| - 1] == xy;
  }

  /** Tags separated by `", "`, with a prefix before the first. */
  function Spaced(tags: seq<string>): (r: seq<string>)
    ensures |r| == |tags|
    ensures forall i :: 0 <= i < |tags| ==> r[i] == " " + tags[i]
  {
    if tags == [] then [] else [" " + tags[0]] + Spaced(tags[1..])
  }

  lemma {:induction false} SplitJoined(p: string, tags: seq<string>)
    requires tags != [] && ',' !in p
    decreases |tags|
    requires forall i :: 0 <= i < |tags| ==> ',' !in tags[i]
    ensures Split(p + Join(tags, ", "), ',') == [p + tags[0]] + Spaced(tags[1..])
  {
    if |tags| == 1 {
      assert ',' !in p + tags[0];
      SplitNoSep(p + tags[0], ',');
    } else {
      var rest := tags[1..];
      assert p + Join(tags, ", ") == (p + tags[0]) + [','] + (" " + Join(rest, ", "));
      assert ',' !in p + tags[0];
      SplitCons(p + tags[0], " " + Join(rest, ", "), ',');
      SplitJoined(" ", rest);
      assert [" " + rest[0]] + Spaced(rest[1..]) == Spaced(rest);
    }
  }

  lemma {:induction false} NonEmptyAll(parts: seq<string>)
    requires forall i :: 0 <= i < |parts| ==> parts[i] != ""
    ensures NonEmpty(parts) == parts
  {
    if parts != [] {
      NonEmptyAll(parts[1..]);
      assert [parts[0]] + parts[1..] == parts;
    }
  }

  lemma TrimAllJoined(tags: seq<string>)
    requires tags != []
    requires forall i :: 0 <= i < |tags| ==> tags[i] != "" && Trimmed(tags[i]) && ',' !in tags[i]
    ensures TrimAll(Split(Join(tags, ", "), ',')) == tags
  {
    SplitJoined("", tags);
    assert "" + Join(tags, ", ") == Join(tags, ", ");
    var pieces := Split(Join(tags, ", "), ',');
    PiecesTrim(tags, pieces);
    TrimAllPointwise(pieces, tags);
  }

  lemma PiecesTrim(tags: seq<string>, pieces: seq<string>)
    requires tags != []
    requires forall i :: 0 <= i < |tags| ==> tags[i] != "" && Trimmed(tags[i]) && ',' !in tags[i]
    requires pieces == ["" + tags[0]] + Spaced(tags[1..])
    ensures |pieces| == |tags|
    ensures forall i :: 0 <= i < |tags| ==> Trim(pieces[i]) == tags[i]
  {
    forall i | 0 <= i < |tags| ensures Trim(pieces[i]) == tags[i] {
      PieceTrim(tags, pieces, i);
    }
  }

  lemma TrimAllPointwise(pieces: seq<string>, tags: seq<string>)
    requires |pieces| == |tags|
    requires forall i :: 0 <= i < |tags| ==> Trim(pieces[i]) == tags[i]
    ensures TrimAll(pieces) == tags
  {
  }

  lemma PieceTrim(tags: seq<string>, pieces: seq<string>, i: nat)
    requires i < |tags| && tags != []
    requires forall i :: 0 <= i < |tags| ==> tags[i] != "" && Trimmed(tags[i]) && ',' !in tags[i]
    requires pieces == ["" + tags[0]] + Spaced(tags[1..])
    ensures Trim(pieces[i]) == tags[i]
  {
    TrimOfTrimmed(tags[i]);
    if i == 0 {
      assert pieces[0] == "" + tags[0] == tags[0];
    } else {
      assert pieces[i] == Spaced(tags[1..])[i - 1] == " " + tags[i];
    }
  }

  /** Tags that are already normal come back unchanged from their own
      comma-joined text, which is what the tag input starts with. */
  lemma NormaliseJoined(tags: seq<string>)
    requires NoDups(tags)
    requires forall i :: 0 <= i < |tags| ==> tags[i] != "" && Trimmed(tags[i]) && ',' !in tags[i]
    ensures NormaliseTags(Join(tags, ", ")) == tags
  {
    if tags == [] {
      assert Split("", ',') == [""];
      assert TrimAll([""]) == [""];
      assert NonEmpty([""]) == [];
    } else {
      TrimAllJoined(tags);
      NonEmptyAll(tags);
      DedupeNoDups(tags);
    }
  }

  /** Normalising twice is normalising once. */
  lemma NormaliseIdempotent(input: string)
    ensures NormaliseTags(Join(NormaliseTags(input), ", ")) == NormaliseTags(input)
  {
    var r := NormaliseTags(input);
    assert forall i :: 0 <= i < |r| ==> r[i] in r;
    NormaliseJoined(r);
  }

  /** The titles of the `.md` names of a listing, in listing order: each
      name with its `.md` cut off. */
  function MdTitles(names: seq<string>): (r: seq<string>)
    ensures forall t :: t in r <==> t + ".md" in names
  {
    if names == [] then []
    else
      var n := names[0];
      var rest := MdTitles(names[1..]);
      assert forall t :: t + ".md" in names <==> t + ".md" == n || t + ".md" in names[1..];
      if EndsWith(n, ".md") then
        assert n[..|n| - 3] + ".md" == n;
        assert forall t :: t + ".md" == n ==> t == n[..|n| - 3] by {
          forall t | t + ".md" == n ensures t == n[..|n| - 3] {
            assert (t + ".md")[..|t|] == t;
          }
        }
        [n[..|n| - 3]] + rest
      else
        rest
  }

  /** Distinct file names give distinct note titles. */
  lemma {:induction false} MdTitlesNoDups(names: seq<string>)
    requires NoDups(names)
    ensures NoDups(MdTitles(names))
  {
    if names != [] {
      MdTitlesNoDups(names[1..]);
      var n := names[0];
      if EndsWith(n, ".md") {
        assert n[..|n| - 3] + ".md" == n;
        assert n !in names[1..];
      }
    }
  }

  /** An open note whose recorded file cannot be found (or which has no
      recorded file) is stale. */
  predicate Gone(title: string, paths: map<string, string>, files: map<string, Content>, faulty: set<string>) {
    !(title in paths && paths[title] in files && paths[title] !in faulty)
  }

  /** The stale titles among `titles`, in order. */
  function StaleTitles(titles: seq<string>, paths: map<string, string>,
                       files: map<string, Content>, faulty: set<string>): (r: seq<string>)
    ensures |r| <= |titles|
  {
    if titles == [] then []
    else (if Gone(titles[0], paths, files, faulty) then [titles[0]] else [])
         + StaleTitles(titles[1..], paths, files, faulty)
  }

  /** A title is stale exactly when it is one of `titles` and is gone. */
  lemma {:induction false} StaleTitlesMembers(titles: seq<string>, paths: map<string, string>,
                                              files: map<string, Content>, faulty: set<string>)
    ensures forall t :: t in StaleTitles(titles, paths, files, faulty) <==> t in titles && Gone(t, paths, files, faulty)
  {
    if titles != [] {
      StaleTitlesMembers(titles[1..], paths, files, faulty);
      assert titles == [titles[0]] + titles[1..];
    }
  }

  /** The warnings shown for closed stale panels, one per title. */
  function GoneWarnings(titles: seq<string>): (r: seq<Event>)
    ensures |r| == |titles|
  {
    if titles == [] then [] else [Shown(Warning, PanelClosedFileGone(titles[0]))] + GoneWarnings(titles[1..])
  }

  /** The `i`-th warning names the `i`-th title. */
  lemma {:induction false} GoneWarningsSpec(titles: seq<string>)
    ensures forall i :: 0 <= i < |titles| ==> GoneWarnings(titles)[i] == Shown(Warning, PanelClosedFileGone(titles[i]))
  {
    if titles != [] {
      GoneWarningsSpec(titles[1..]);
    }
  }

  /** The stale titles of a list with one more title at its end. */
  lemma {:induction false} StaleTitlesSnoc(titles: seq<string>, t: string, paths: map<string, string>,
                                           files: map<string, Content>, faulty: set<string>)
    ensures StaleTitles(titles + [t], paths, files, faulty)
            == StaleTitles(titles, paths, files, faulty) + (if Gone(t, paths, files, faulty) then [t] else [])
  {
    if titles == [] {
      assert titles + [t] == [t];
    } else {
      var head := if Gone(titles[0], paths, files, faulty) then [titles[0]] else [];
      var last := if Gone(t, paths, files, faulty) then [t] else [];
      assert (titles + [t])[0] == titles[0];
      assert (titles + [t])[1..] == titles[1..] + [t];
      assert StaleTitles(titles + [t], paths, files, faulty) == head + StaleTitles(titles[1..] + [t], paths, files, faulty);
      StaleTitlesSnoc(titles[1..], t, paths, files, faulty);
      assert head + (StaleTitles(titles[1..], paths, files, faulty) + last)
             == (head + StaleTitles(titles[1..], paths, files, faulty)) + last;
    }
  }

  lemma GoneWarningsAppend(a: seq<string>, b: seq<string>)
    ensures GoneWarnings(a + b) == GoneWarnings(a) + GoneWarnings(b)
  {
    GoneWarningsSpec(a);
    GoneWarningsSpec(b);
    GoneWarningsSpec(a + b);
    assert forall i :: 0 <= i < |a| ==> (a + b)[i] == a[i];
    assert forall i :: 0 <= i < |b| ==> (a + b)[|a| + i] == b[i];
  }

  /** Moving a note's file as `renameNote` does it: write the content under
      the new path, then delete the old path. */
  function MovedAsWritten(files: map<string, Content>, from: string, to: string): (r: map<string, Content>)
    requires from in files
    ensures from !in r
  {
    files[to := files[from]] - {from}
  }

  /** Renaming a note to its title followed by a space and a bracketed
      suffix, say `Plan` to `Plan [v2]`, keeps the file name; the write
      then the delete leave no file for the note at all. */
  lemma SameFileRenameLosesNote(s: Settings, files: map<string, Content>, title: string, rest: string)
    requires NoteUri(s, title).Some? && NoteUri(s, title).value in files
    ensures NoteUri(s, title + " [" + rest) == NoteUri(s, title)
    ensures NoteUri(s, title).value !in MovedAsWritten(files, NoteUri(s, title).value, NoteUri(s, title + " [" + rest).value)
  {
    assert title + " [" + rest == title + " " + "[" + rest;
    FileNameIgnoresBracketSuffix(title, " ", rest);
  }

  /** The move as intended: the content ends up under the new path, and
      only the old path goes. */
  function Moved(files: map<string, Content>, from: string, to: string): (r: map<string, Content>)
    requires from in files
    ensures to in r && r[to] == files[from]
    ensures forall p :: p != from && p != to ==> (p in r <==> p in files) && (p in r ==> r[p] == files[p])
    ensures from != to ==> from !in r
  {
    if from == to then files else files[to := files[from]] - {from}
  }

  /** The note files, once the tag store has saved `tags` and `md`: the
      sidecar holds them, unless the notes directory is unknown or the
      write fails. */
  function WithSidecar(files: map<string, Content>, s: Settings, faulty: set<string>,
                       tags: TagMap, md: MetaMap): (r: map<string, Content>)
    ensures forall p :: EndsWith(p, ".md") ==> (p in r <==> p in files) && (p in r ==> r[p] == files[p])
  {
    match SidecarPath(s)
    case None => files
    case Some(p) => if p in faulty then files else files[p := Doc(Document(tags, md))]
  }

  /** `notes.splice(notes.indexOf(note), 1)` when the note is listed: the
      first occurrence goes, everything else stays in order. */
  function Without<T(==)>(xs: seq<T>, x: T): (r: seq<T>)
    ensures x !in xs ==> r == xs
    ensures x in xs ==> r == xs[..FirstIndex(xs, x)] + xs[FirstIndex(xs, x) + 1..]
    ensures x in xs ==> |r| == |xs| - 1
    ensures forall i :: 0 <= i < |r| ==> r[i] in xs
    ensures forall i :: 0 <= i < |xs| && xs[i] != x ==> xs[i] in r
    ensures NoDups(xs) ==> x !in r
  {
    if x !in xs then xs
    else
      var k := FirstIndex(xs, x);
      var r := xs[..k] + xs[k + 1..];
      assert forall i :: 0 <= i < |xs| && i != k ==> xs[i] == r[if i < k then i else i - 1];
      assert NoDups(xs) ==> forall i :: 0 <= i < |r| ==> r[i] == xs[if i < k then i else i + 1];
      r
  }

  /** Removing a note keeps the titles distinct. */
  lemma WithoutDistinct(notes: seq<NoteItem>, note: NoteItem)
    requires Distinct(notes)
    ensures Distinct(Without(notes, note))
  {
    if note in notes {
      var k := FirstIndex(notes, note);
      var r := Without(notes, note);
      assert r == notes[..k] + notes[k + 1..];
      assert forall i :: 0 <= i < |r| ==> r[i] == notes[if i < k then i else i + 1];
      forall i, j | 0 <= i < j < |r| ensures TitleAt(r, i) != TitleAt(r, j) {
        var i' := if i < k then i else i + 1;
        var j' := if j < k then j else j + 1;
        assert i' < j';
        assert TitleAt(r, i) == TitleAt(notes, i') && TitleAt(r, j) == TitleAt(notes, j');
      }
    }
  }

  /** `ns` catalogs the `.md` files directly inside `dir`: one note per
      file, titled by its name, carrying the tags `tags` holds for it, its
      label, and no pin. */
  ghost predicate Catalog(ns: seq<NoteItem>, tags: TagMap, files: map<string, Content>, dir: string)
    reads ns`title, ns`tags, ns`labelText, ns`pinned
  {
    && Distinct(ns)
    && (forall t :: t in TitlesOf(ns) <==> InDir(files, dir, t + ".md"))
    && (forall i :: 0 <= i < |ns| ==>
          && ns[i].tags == GetTagsIn(tags, ns[i].title)
          && ns[i].labelText == Label(ns[i].title, ns[i].tags)
          && ns[i].pinned == None)
  }

  /** Notes built one per `.md` name of a listing of `dir` catalog it. */
  lemma CatalogOfListing(ns: seq<NoteItem>, names: seq<string>, tags: TagMap, files: map<string, Content>, dir: string)
    requires NoDups(names) && forall n :: n in names <==> InDir(files, dir, n)
    requires |ns| == |MdTitles(names)|
    requires forall i :: 0 <= i < |ns| ==>
               && ns[i].title == MdTitles(names)[i]
               && ns[i].tags == GetTagsIn(tags, ns[i].title)
               && ns[i].labelText == Label(ns[i].title, ns[i].tags)
               && ns[i].pinned == None
    ensures Catalog(ns, tags, files, dir)
  {
    var titles := MdTitles(names);
    MdTitlesNoDups(names);
    TitlesOfSpec(ns);
    assert TitlesOf(ns) == titles;
    DistinctOfTitles(ns);
  }

  /** The file move of `renameNote`: the content read from `from` is
      written to `to`, then `from` is deleted unless it is `to` itself. */
  method MoveFile(host: Host, from: string, to: string) returns (ok: bool)
    modifies host`files
    ensures ok == (old(host.Readable(from)) && to !in host.faulty)
    ensures host.files == if ok then Moved(old(host.files), from, to) else old(host.files)
  {
    var content := host.ReadFile(from);
    if content.None? {
      return false;
    }
    ok := host.WriteFile(to, content.value);
    if ok && from != to {
      var _ := host.Delete(from);
    }
  }

  /** The notes for the given titles, each with the tags `tags` holds for
      it, its label and no pin. */
  method NotesFor(titles: seq<string>, tags: TagMap) returns (built: seq<NoteItem>)
    ensures |built| == |titles|
    ensures forall i :: 0 <= i < |titles| ==>
              && fresh(built[i]) && built[i].title == titles[i]
              && built[i].tags == GetTagsIn(tags, titles[i])
              && built[i].labelText == Label(titles[i], built[i].tags) && built[i].pinned == None
  {
    built := [];
    var i := 0;
    while i < |titles|
      invariant 0 <= i <= |titles| && |built| == i
      invariant forall j :: 0 <= j < i ==>
                  && fresh(built[j]) && built[j].title == titles[j]
                  && built[j].tags == GetTagsIn(tags, titles[j])
                  && built[j].labelText == Label(titles[j], built[j].tags) && built[j].pinned == None
    {
      var n := new NoteItem(titles[i], GetTagsIn(tags, titles[i]));
      built := built + [n];
      i := i + 1;
    }
  }

  class NotesProvider {
    const host: Host
    const controller: PanelController
    const tagManager: TagManager
    var notes: seq<NoteItem>
    var filterText: string
    /** The sidebar list, once one is attached. */
    var view: NotesViewProvider?
    /** `_initPromise` is set: initialisation runs at most once. */
    var initialized: bool

    /** Everything acts on the one host and no two notes share a title.
        The editor registry's own invariant, `controller.Valid()`, is
        required separately by the operations that open or close editors. */
    ghost predicate Valid()
      reads this`view, this`notes, notes`title
    {
      && controller.host == host
      && controller.manager.host == host
      && tagManager.host == host
      && (view != null ==> view.host == host)
      && Distinct(notes)
    }

    constructor (host: Host)
      ensures this.host == host && Valid() && controller.Valid()
      ensures fresh(controller) && fresh(controller.manager) && fresh(tagManager)
      ensures notes == [] && filterText == "" && view == null && !initialized
      ensures controller.manager.panels == map[] && tagManager.tags == map[] && tagManager.metadata == map[]
    {
      this.host := host;
      controller := new PanelController(host);
      tagManager := new TagManager(host);
      notes := [];
      filterText := "";
      view := null;
      initialized := false;
    }

    /** What a refresh showing `rows` sends the sidebar: the rows passing
        the filter, once a resolved view is attached. */
    function EventsFor(rows: seq<Row>): (r: seq<Event>)
      reads this`view, this`filterText, {view}`resolved
      ensures |r| <= 1
      ensures r != [] <==> view != null && view.resolved
    {
      if view != null && view.resolved then [ListUpdate(Visible(rows, filterText), filterText)] else []
    }

    /** What a refresh sends the sidebar now. */
    function ListEvents(): (r: seq<Event>)
      reads this`view, this`filterText, this`notes, {view}`resolved, notes`title, notes`tags
    {
      EventsFor(RowsOf(notes))
    }

    /** The catalog lists one note per `.md` file directly inside `dir`,
        each with the tags the store holds for it and its label. */
    ghost predicate Lists(dir: string)
      reads this`notes, notes`title, notes`tags, notes`labelText, notes`pinned, tagManager`tags, host`files
    {
      Catalog(notes, tagManager.tags, host.files, dir)
    }

    /** `refresh`. */
    method Refresh()
      requires view != null ==> view.host == host
      modifies host`log
      ensures host.log == old(host.log) + ListEvents()
    {
      if view != null {
        view.Refresh(notes, filterText);
      }
    }

    /** Attaching the sidebar list. */
    method SetView(v: NotesViewProvider)
      requires Valid() && v.host == host
      modifies this`view
      ensures Valid() && view == v
    {
      view := v;
    }

    /** The tag store cannot be initialised: the notes directory is unknown,
        or the store needs rewriting and the write fails. */
    predicate TagStoreFails()
      reads host`files
    {
      || SidecarPath(host.settings).None?
      || (Load(host.Lookup(SidecarPath(host.settings).value)).rewrite && SidecarPath(host.settings).value in host.faulty)
    }

    /** `initialize`: the first call loads the tag store and then the
        notes; a failure of the tag store is reported and stops it. Later
        calls do nothing. */
    method Initialize()
      requires Valid() && controller.Valid()
      modifies this`notes, this`filterText, this`initialized, host`files, host`log, tagManager`tags, tagManager`metadata,
               controller.manager`panels, controller.manager`notePaths, controller.manager`order,
               controller.manager.panels.Values`disposed
      ensures Valid() && initialized
      ensures old(initialized) ==>
                && host.files == old(host.files) && host.log == old(host.log) && notes == old(notes)
                && tagManager.tags == old(tagManager.tags) && controller.manager.panels == old(controller.manager.panels)
      ensures !old(initialized) && SidecarPath(host.settings).Some? ==>
                && tagManager.tags == Load(old(host.Lookup(SidecarPath(host.settings).value))).tags
                && tagManager.metadata == Load(old(host.Lookup(SidecarPath(host.settings).value))).metadata
      ensures !old(initialized) && old(TagStoreFails()) ==>
                && host.files == old(host.files) && notes == old(notes)
                && host.log == old(host.log) + [Shown(Error, InitFailed)]
      ensures !old(initialized) && !old(TagStoreFails()) ==>
                && filterText == ""
                && (NotesPath(host.settings).value in host.faulty ==> notes == [])
                && (NotesPath(host.settings).value !in host.faulty ==> Lists(NotesPath(host.settings).value))
    {
      if initialized {
        return;
      }
      initialized := true;
      Start();
    }

    /** The body of the first `initialize`. */
    method Start()
      requires Valid() && controller.Valid()
      modifies this`notes, this`filterText, host`files, host`log, tagManager`tags, tagManager`metadata,
               controller.manager`panels, controller.manager`notePaths, controller.manager`order,
               controller.manager.panels.Values`disposed
      ensures Valid()
      ensures SidecarPath(host.settings).Some? ==>
                && tagManager.tags == Load(old(host.Lookup(SidecarPath(host.settings).value))).tags
                && tagManager.metadata == Load(old(host.Lookup(SidecarPath(host.settings).value))).metadata
      ensures old(TagStoreFails()) ==>
                && host.files == old(host.files) && notes == old(notes)
                && host.log == old(host.log) + [Shown(Error, InitFailed)]
      ensures !old(TagStoreFails()) ==>
                && filterText == ""
                && (NotesPath(host.settings).value in host.faulty ==> notes == [])
                && (NotesPath(host.settings).value !in host.faulty ==> Lists(NotesPath(host.settings).value))
    {
      var ok := tagManager.InitializeTags();
      if !ok {
        host.Show(Error, InitFailed);
        return;
      }
      LoadExistingNotes();
    }

    /** The first part of `loadExistingNotes`: every open editor whose
        recorded file cannot be found is closed, and a warning names it, in
        the order the editors were opened. Closing shows nothing, so the
        warnings come out in the same order as when each follows its close. */
    method CloseStalePanels()
      requires controller.Valid() && controller.host == host
      modifies controller.manager`panels, controller.manager`notePaths, controller.manager`order,
               controller.manager.panels.Values`disposed, host`log
      ensures controller.Valid()
      ensures forall k :: k in controller.manager.panels <==>
                k in old(controller.manager.panels) && !Gone(k, old(controller.manager.notePaths), host.files, host.faulty)
      ensures forall k :: k in controller.manager.panels ==>
                controller.manager.panels[k] == old(controller.manager.panels)[k]
                && controller.manager.notePaths[k] == old(controller.manager.notePaths)[k]
      ensures host.log == old(host.log) + GoneWarnings(StaleTitles(old(controller.manager.order),
                                                                   old(controller.manager.notePaths), host.files, host.faulty))
      ensures forall k :: k in old(controller.manager.panels) && Gone(k, old(controller.manager.notePaths), host.files, host.faulty) ==>
                old(controller.manager.panels)[k].disposed
    {
      var stale := FindStale();
      StaleTitlesMembers(controller.manager.order, controller.manager.notePaths, host.files, host.faulty);
      controller.ClosePanels(stale);
      WarnGone(stale);
    }

    /** The open editors, in opening order, whose recorded file a `stat`
        does not find. */
    method FindStale() returns (stale: seq<string>)
      ensures stale == StaleTitles(controller.manager.order, controller.manager.notePaths, host.files, host.faulty)
    {
      var titles := controller.manager.order;
      var paths := controller.manager.notePaths;
      stale := [];
      var i := 0;
      while i < |titles|
        invariant 0 <= i <= |titles|
        invariant stale == StaleTitles(titles[..i], paths, host.files, host.faulty)
      {
        var t := titles[i];
        var found := false;
        if t in paths {
          found := host.Stat(paths[t]);
        }
        StaleTitlesSnoc(titles[..i], t, paths, host.files, host.faulty);
        assert titles[..i + 1] == titles[..i] + [t];
        if !found {
          stale := stale + [t];
        }
        i := i + 1;
      }
      assert titles[..i] == titles;
    }

    /** A warning for each closed editor, in order. */
    method WarnGone(titles: seq<string>)
      modifies host`log
      ensures host.log == old(host.log) + GoneWarnings(titles)
    {
      var i := 0;
      while i < |titles|
        invariant 0 <= i <= |titles|
        invariant host.log == old(host.log) + GoneWarnings(titles[..i])
      {
        GoneWarningsAppend(titles[..i], [titles[i]]);
        assert titles[..i + 1] == titles[..i] + [titles[i]];
        host.Show(Warning, PanelClosedFileGone(titles[i]));
        i := i + 1;
      }
      assert titles[..i] == titles;
    }

    /** `loadExistingNotes`: stale editors are closed, the filter is
        cleared, and the list is rebuilt from the `.md` files of the notes
        directory; when the directory is unknown or cannot be listed that is
        reported and the list stays empty. */
    method LoadExistingNotes()
      requires Valid() && controller.Valid()
      modifies this`notes, this`filterText, host`log, controller.manager`panels, controller.manager`notePaths, controller.manager`order,
               controller.manager.panels.Values`disposed
      ensures Valid() && controller.Valid()
      ensures filterText == "" && view == old(view) && initialized == old(initialized)
      ensures forall k :: k in old(controller.manager.panels) && Gone(k, old(controller.manager.notePaths), host.files, host.faulty) ==>
                old(controller.manager.panels)[k].disposed
      ensures forall k :: k in controller.manager.panels <==>
                k in old(controller.manager.panels) && !Gone(k, old(controller.manager.notePaths), host.files, host.faulty)
      ensures forall k :: k in controller.manager.panels ==>
                controller.manager.panels[k] == old(controller.manager.panels)[k]
                && controller.manager.notePaths[k] == old(controller.manager.notePaths)[k]
      ensures var stale := GoneWarnings(StaleTitles(old(controller.manager.order),
                                                    old(controller.manager.notePaths), host.files, host.faulty));
              if NotesPath(host.settings).None? || NotesPath(host.settings).value in host.faulty then
                notes == [] && host.log == old(host.log) + stale + [Shown(Error, LoadFailed)]
              else
                && Lists(NotesPath(host.settings).value)
                && (forall n :: n in notes ==> fresh(n))
                && host.log == old(host.log) + stale + ListEvents()
    {
      CloseStalePanels();
      Relist();
    }

    /** The second part of `loadExistingNotes`: the filter is cleared and
        the catalog rebuilt from the notes directory. */
    method Relist()
      requires Valid()
      modifies this`notes, this`filterText, host`log
      ensures Valid() && filterText == ""
      ensures if NotesPath(host.settings).None? || NotesPath(host.settings).value in host.faulty then
                notes == [] && host.log == old(host.log) + [Shown(Error, LoadFailed)]
              else
                && Lists(NotesPath(host.settings).value)
                && (forall n :: n in notes ==> fresh(n))
                && host.log == old(host.log) + ListEvents()
    {
      notes := [];
      filterText := "";
      match NotesPath(host.settings)
      case None =>
        host.Show(Error, LoadFailed);
      case Some(dir) =>
        Rebuild(dir);
    }

    /** The rest of `loadExistingNotes`: the notes directory is listed and
        the catalog rebuilt from its `.md` files, then refreshed; a failed
        listing is reported. */
    method Rebuild(dir: string)
      requires Valid() && notes == []
      modifies this`notes, host`log
      ensures Valid()
      ensures dir in host.faulty ==> notes == [] && host.log == old(host.log) + [Shown(Error, LoadFailed)]
      ensures dir !in host.faulty ==>
                && Lists(dir) && (forall n :: n in notes ==> fresh(n))
                && host.log == old(host.log) + ListEvents()
    {
      var listing := host.ReadDirectory(dir);
      match listing
      case None =>
        host.Show(Error, LoadFailed);
      case Some(names) =>
        Install(dir, names);
    }

    /** The catalog becomes one fresh note per `.md` name of a listing of
        `dir`, in listing order, each with its stored tags, and is
        refreshed. */
    method Install(dir: string, names: seq<string>)
      requires Valid() && NoDups(names) && forall n :: n in names <==> InDir(host.files, dir, n)
      modifies this`notes, host`log
      ensures Valid() && Lists(dir) && (forall n :: n in notes ==> fresh(n))
      ensures host.log == old(host.log) + ListEvents()
    {
      var built := NotesFor(MdTitles(names), tagManager.tags);
      notes := built;
      Refresh();
      CatalogOfListing(notes, names, tagManager.tags, host.files, dir);
    }

    /** `addNote`: a title already listed is refused with a warning;
        otherwise an empty file is created, the note is appended and the
        list refreshed, and the note's editor opened when the settings ask
        for it. A failed creation is reported and changes nothing. */
    method AddNote(title: string)
      requires Valid()
      modifies this`notes, host`files, host`log, controller.manager`panels, controller.manager`notePaths, controller.manager`order,
               controller.manager.panels.Values`inbox, controller.manager.panels.Values`revealCount
      ensures Valid() && (old(controller.Valid()) ==> controller.Valid())
      ensures title in old(TitlesOf(notes)) ==>
                && notes == old(notes) && host.files == old(host.files)
                && controller.manager.panels == old(controller.manager.panels)
                && host.log == old(host.log) + [Shown(Warning, DuplicateTitle(title))]
      ensures title !in old(TitlesOf(notes)) && !Creatable(host, title) ==>
                && notes == old(notes) && host.files == old(host.files)
                && controller.manager.panels == old(controller.manager.panels)
                && host.log == old(host.log) + [Shown(Error, CreateFailed)]
      ensures title !in old(TitlesOf(notes)) && Creatable(host, title) ==>
                && host.files == old(host.files)[NoteUri(host.settings, title).value := Text("")]
                && |notes| == |old(notes)| + 1 && notes[..|old(notes)|] == old(notes)
                && fresh(notes[|old(notes)|])
                && notes[|old(notes)|].title == title && notes[|old(notes)|].tags == []
                && notes[|old(notes)|].labelText == Label(title, [])
                && (host.settings.openNoteRightNow ==> title in controller.manager.panels)
                && (!host.settings.openNoteRightNow ==> controller.manager.panels == old(controller.manager.panels))
                && host.log == old(host.log) + ListEvents()
    {
      if title in TitlesOf(notes) {
        host.Show(Warning, DuplicateTitle(title));
        return;
      }
      match NoteUri(host.settings, title)
      case None =>
        host.Show(Error, CreateFailed);
      case Some(uri) =>
        CreateNote(title, uri);
    }

    /** The part of `addNote` after the checks: the file is written, then
        the note appended and its editor opened when the settings ask. */
    method CreateNote(title: string, uri: string)
      requires Valid() && title !in TitlesOf(notes) && NoteUri(host.settings, title) == Some(uri)
      modifies this`notes, host`files, host`log, controller.manager`panels, controller.manager`notePaths, controller.manager`order,
               controller.manager.panels.Values`inbox, controller.manager.panels.Values`revealCount
      ensures Valid() && (old(controller.Valid()) ==> controller.Valid())
      ensures uri in host.faulty ==>
                && notes == old(notes) && host.files == old(host.files)
                && controller.manager.panels == old(controller.manager.panels)
                && host.log == old(host.log) + [Shown(Error, CreateFailed)]
      ensures uri !in host.faulty ==>
                && host.files == old(host.files)[uri := Text("")]
                && |notes| == |old(notes)| + 1 && notes[..|old(notes)|] == old(notes)
                && fresh(notes[|old(notes)|])
                && notes[|old(notes)|].title == title && notes[|old(notes)|].tags == []
                && notes[|old(notes)|].labelText == Label(title, [])
                && (host.settings.openNoteRightNow ==> title in controller.manager.panels)
                && (!host.settings.openNoteRightNow ==> controller.manager.panels == old(controller.manager.panels))
                && host.log == old(host.log) + ListEvents()
    {
      var written := host.WriteFile(uri, Text(""));
      if !written {
        host.Show(Error, CreateFailed);
        return;
      }
      ListCreated(title, uri);
    }

    /** A note whose empty file has just been written joins the list, and
        its editor opens when the settings ask for it. */
    method ListCreated(title: string, uri: string)
      requires Valid() && title !in TitlesOf(notes) && NoteUri(host.settings, title) == Some(uri)
      requires host.ReadTextOf(uri).Some?
      modifies this`notes, host`log, controller.manager`panels, controller.manager`notePaths, controller.manager`order,
               controller.manager.panels.Values`inbox, controller.manager.panels.Values`revealCount
      ensures Valid() && (old(controller.Valid()) ==> controller.Valid())
      ensures |notes| == |old(notes)| + 1 && notes[..|old(notes)|] == old(notes)
      ensures fresh(notes[|old(notes)|])
      ensures notes[|old(notes)|].title == title && notes[|old(notes)|].tags == []
      ensures notes[|old(notes)|].labelText == Label(title, [])
      ensures host.settings.openNoteRightNow ==> title in controller.manager.panels
      ensures !host.settings.openNoteRightNow ==> controller.manager.panels == old(controller.manager.panels)
      ensures host.log == old(host.log) + ListEvents()
    {
      var note := AppendNote(title);
      if host.settings.openNoteRightNow {
        OpenCreated(note, uri);
      }
    }

    /** The editor of a note whose file has just been written: it opens
        without a read error, so nothing is shown. */
    method OpenCreated(note: NoteItem, uri: string)
      requires Valid() && NoteUri(host.settings, note.title) == Some(uri) && host.ReadTextOf(uri).Some?
      modifies controller.manager`panels, controller.manager`notePaths, controller.manager`order,
               controller.manager.panels.Values`inbox, controller.manager.panels.Values`revealCount
      modifies host`log
      ensures Valid() && note.title in controller.manager.panels
      ensures old(controller.Valid()) ==> controller.Valid()
      ensures host.log == old(host.log) && ListEvents() == old(ListEvents())
    {
      ghost var m := controller.manager;
      assert note.title in m.panels ==> m.panels[note.title] in m.panels.Values;
      var _ := controller.ShowPanel(note);
    }

    /** A new untagged note at the end of the list, which is refreshed. */
    method AppendNote(title: string) returns (note: NoteItem)
      requires Valid() && title !in TitlesOf(notes)
      modifies this`notes, host`log
      ensures Valid() && fresh(note)
      ensures notes == old(notes) + [note]
      ensures note.title == title && note.tags == [] && note.labelText == Label(title, []) && note.pinned == None
      ensures host.log == old(host.log) + ListEvents()
    {
      note := new NoteItem(title, []);
      ghost var before := notes;
      notes := notes + [note];
      Refresh();
      DistinctSnoc(before, note);
    }

    /** `deleteNote`: the note's editor is closed, its tags dropped (a
        failure is only a warning) and its file deleted; once the file is
        gone the note leaves the list, which is refreshed. A note without a
        file path is reported and kept. */
    method DeleteNote(note: NoteItem)
      requires Valid()
      modifies this`notes, host`files, host`log, tagManager`tags, controller.manager`panels, controller.manager`notePaths, controller.manager`order,
               controller.manager.panels.Values`disposed
      ensures Valid() && (old(controller.Valid()) ==> controller.Valid())
      ensures NoteUri(host.settings, note.title).None? ==>
                && notes == old(notes) && host.files == old(host.files) && tagManager.tags == old(tagManager.tags)
                && controller.manager.panels == old(controller.manager.panels)
                && host.log == old(host.log) + [Shown(Error, DeleteFailed)]
      ensures NoteUri(host.settings, note.title).Some? ==>
                var uri := NoteUri(host.settings, note.title).value;
                var tagsSaved := SidecarSaves(host);
                var removed := old(host.Readable(uri));
                && controller.manager.panels == old(controller.manager.panels) - {note.title}
                && tagManager.tags == old(tagManager.tags) - {note.title}
                && host.files == WithSidecar(old(host.files), host.settings, host.faulty, tagManager.tags, tagManager.metadata)
                                 - (if removed then {uri} else {})
                && notes == (if removed then Without(old(notes), note) else old(notes))
                && host.log == old(host.log)
                               + (if tagsSaved then [] else [Shown(Warning, TagDeleteFailed)])
                               + (if !removed then [Shown(Error, FileDeleteFailed)]
                                  else if note in old(notes) then ListEvents() else [])
      ensures NoteUri(host.settings, note.title).Some? && old(note.title in controller.manager.panels) ==>
                old(controller.manager.panels[note.title]).disposed
    {
      match NoteUri(host.settings, note.title)
      case None =>
        host.Show(Error, DeleteFailed);
      case Some(uri) =>
        CloseAndRemove(note, uri);
    }

    /** `deleteNote` once the note's file is known: its editor is closed,
        then the note is removed. */
    method CloseAndRemove(note: NoteItem, uri: string)
      requires Valid() && NoteUri(host.settings, note.title) == Some(uri)
      modifies this`notes, host`files, host`log, tagManager`tags, controller.manager`panels, controller.manager`notePaths, controller.manager`order,
               controller.manager.panels.Values`disposed
      ensures Valid() && (old(controller.Valid()) ==> controller.Valid())
      ensures controller.manager.panels == old(controller.manager.panels) - {note.title}
      ensures old(note.title in controller.manager.panels) ==> old(controller.manager.panels[note.title]).disposed
      ensures tagManager.tags == old(tagManager.tags) - {note.title}
      ensures host.files == WithSidecar(old(host.files), host.settings, host.faulty, tagManager.tags, tagManager.metadata)
                            - (if old(host.Readable(uri)) then {uri} else {})
      ensures notes == (if old(host.Readable(uri)) then Without(old(notes), note) else old(notes))
      ensures host.log == old(host.log)
                          + (if SidecarSaves(host) then [] else [Shown(Warning, TagDeleteFailed)])
                          + (if !old(host.Readable(uri)) then [Shown(Error, FileDeleteFailed)]
                             else if note in old(notes) then ListEvents() else [])
    {
      ghost var m := controller.manager;
      assert note.title in m.panels ==> m.panels[note.title] in m.panels.Values;
      var _ := controller.ClosePanel(note.title);
      RemoveNote(note, uri);
    }

    /** `deleteNote` once the editor is closed: the tags are dropped, then
        the file, then the note. */
    method RemoveNote(note: NoteItem, uri: string)
      requires Valid() && NoteUri(host.settings, note.title) == Some(uri)
      modifies this`notes, host`files, host`log, tagManager`tags
      ensures Valid()
      ensures tagManager.tags == old(tagManager.tags) - {note.title}
      ensures host.files == WithSidecar(old(host.files), host.settings, host.faulty, tagManager.tags, tagManager.metadata)
                            - (if old(host.Readable(uri)) then {uri} else {})
      ensures notes == (if old(host.Readable(uri)) then Without(old(notes), note) else old(notes))
      ensures host.log == old(host.log)
                          + (if SidecarSaves(host) then [] else [Shown(Warning, TagDeleteFailed)])
                          + (if !old(host.Readable(uri)) then [Shown(Error, FileDeleteFailed)]
                             else if note in old(notes) then ListEvents() else [])
    {
      DropTags(note.title);
      assert host.Readable(uri) == old(host.Readable(uri));
      DeleteFile(note, uri);
    }

    /** The note's tags leave the store, which is saved; a failed save is
        only a warning. */
    method DropTags(title: string)
      requires tagManager.host == host
      modifies host`files, host`log, tagManager`tags
      ensures tagManager.tags == old(tagManager.tags) - {title}
      ensures host.files == WithSidecar(old(host.files), host.settings, host.faulty, tagManager.tags, tagManager.metadata)
      ensures host.log == old(host.log) + (if SidecarSaves(host) then [] else [Shown(Warning, TagDeleteFailed)])
    {
      var tagsSaved := tagManager.DeleteTag(title);
      if !tagsSaved {
        host.Show(Warning, TagDeleteFailed);
      }
    }

    /** The note's file is deleted; once it is gone the note leaves the
        list. A failed deletion is reported and keeps the note. */
    method DeleteFile(note: NoteItem, uri: string)
      requires Valid()
      modifies this`notes, host`files, host`log
      ensures Valid()
      ensures host.files == old(host.files) - (if old(host.Readable(uri)) then {uri} else {})
      ensures notes == (if old(host.Readable(uri)) then Without(old(notes), note) else old(notes))
      ensures host.log == old(host.log)
                          + (if !old(host.Readable(uri)) then [Shown(Error, FileDeleteFailed)]
                             else if note in old(notes) then ListEvents() else [])
    {
      var removed := host.Delete(uri);
      if !removed {
        host.Show(Error, FileDeleteFailed);
        return;
      }
      DropNote(note);
    }

    /** The last step of `deleteNote`: a listed note leaves the list, which
        is refreshed. */
    method DropNote(note: NoteItem)
      requires Valid()
      modifies this`notes, host`log
      ensures Valid()
      ensures notes == Without(old(notes), note)
      ensures host.log == old(host.log) + (if note in old(notes) then ListEvents() else [])
    {
      if note in notes {
        WithoutDistinct(notes, note);
        notes := Without(notes, note);
        Refresh();
      }
    }

    /** Some note other than `note` is titled `title`. */
    predicate TakenByOther(title: string, note: NoteItem)
      reads this`notes, notes`title
    {
      exists i :: 0 <= i < |notes| && notes[i].title == title && notes[i] != note
    }

    /** `renameNote` passes its checks and moves the note's file: the new
        title is non-empty, different and free, the notes directory is
        known, the old file can be read and the new one written. */
    predicate Renames(note: NoteItem, newTitle: string)
      reads this`notes, notes`title, note`title, host`files
    {
      && newTitle != "" && newTitle != note.title && !TakenByOther(newTitle, note)
      && NotesPath(host.settings).Some?
      && host.Readable(NoteUri(host.settings, note.title).value)
      && NoteUri(host.settings, newTitle).value !in host.faulty
    }

    /** `renameNote`: an empty or unchanged title does nothing, and a title
        another note holds is refused with a warning. Otherwise the file is
        moved (read, written under the new title's path, the old path
        deleted), the tag entry renamed, the note retitled and relabelled,
        its open editor re-keyed, and the list refreshed; a failed read or
        write is reported and changes nothing. When the notes directory is
        unknown the first path lookup throws outside the handler and
        nothing happens. */
    method RenameNote(note: NoteItem, newTitle: string) returns (completed: bool)
      requires Valid()
      modifies note`title, note`labelText, host`files, host`log, tagManager`tags,
               controller.manager`panels, controller.manager`notePaths, controller.manager`order,
               controller.manager.panels.Values`caption, controller.manager.panels.Values`inbox
      ensures Valid() && (old(controller.Valid()) ==> controller.Valid())
      ensures !completed <==> newTitle != "" && newTitle != old(note.title) && !old(TakenByOther(newTitle, note))
                              && NotesPath(host.settings).None?
      ensures host.log == old(host.log)
                          + (if newTitle == "" || newTitle == old(note.title) then []
                             else if old(TakenByOther(newTitle, note)) then [Shown(Warning, DuplicateTitle(newTitle))]
                             else if NotesPath(host.settings).None? then []
                             else if old(Renames(note, newTitle)) then ListEvents()
                             else [Shown(Error, RenameFailed)])
      ensures note.title == if old(Renames(note, newTitle)) then newTitle else old(note.title)
      ensures newTitle == "" || newTitle == old(note.title) || old(TakenByOther(newTitle, note))
              || NotesPath(host.settings).None? ==>
                && note.title == old(note.title) && host.files == old(host.files)
                && tagManager.tags == old(tagManager.tags)
                && controller.manager.panels == old(controller.manager.panels)
                && controller.manager.notePaths == old(controller.manager.notePaths)
                && host.log == old(host.log)
                               + (if newTitle != "" && newTitle != old(note.title) && old(TakenByOther(newTitle, note))
                                  then [Shown(Warning, DuplicateTitle(newTitle))] else [])
      ensures newTitle != "" && newTitle != old(note.title) && !old(TakenByOther(newTitle, note))
              && NotesPath(host.settings).Some? ==>
                var oldUri := NoteUri(host.settings, old(note.title)).value;
                var newUri := NoteUri(host.settings, newTitle).value;
                if !(old(host.Readable(oldUri)) && newUri !in host.faulty) then
                  && note.title == old(note.title) && host.files == old(host.files)
                  && tagManager.tags == old(tagManager.tags)
                  && controller.manager.panels == old(controller.manager.panels)
                  && controller.manager.notePaths == old(controller.manager.notePaths)
                  && host.log == old(host.log) + [Shown(Error, RenameFailed)]
                else
                  && note.title == newTitle && note.labelText == Label(newTitle, note.tags)
                  && tagManager.tags == Renamed(old(tagManager.tags), old(note.title), newTitle)
                  && host.files == WithSidecar(Moved(old(host.files), oldUri, newUri), host.settings, host.faulty,
                                               tagManager.tags, tagManager.metadata)
                  && (old(note.title) !in old(controller.manager.panels) ==>
                        controller.manager.panels == old(controller.manager.panels)
                        && controller.manager.notePaths == old(controller.manager.notePaths)
                        && controller.manager.order == old(controller.manager.order))
                  && (old(note.title) in old(controller.manager.panels) ==>
                        var p := old(controller.manager.panels[note.title]);
                        && controller.manager.panels == (old(controller.manager.panels) - {old(note.title)})[newTitle := p]
                        && controller.manager.notePaths == (old(controller.manager.notePaths) - {old(note.title)})[newTitle := newUri]
                        && controller.manager.order == SetKey(DeleteKey(old(controller.manager.order), old(note.title)), newTitle)
                        && p.caption == Caption(newTitle)
                        && p.inbox == old(p.inbox) + (if old(p.disposed) then [] else [Update(Some(newTitle), None, note.tags, true, None)]))
                  && host.log == old(host.log) + ListEvents()
    {
      completed := true;
      if newTitle == "" || newTitle == note.title {
        return;
      }
      if TakenByOther(newTitle, note) {
        host.Show(Warning, DuplicateTitle(newTitle));
        return;
      }
      match NoteUri(host.settings, note.title)
      case None =>
        completed := false;
      case Some(oldUri) =>
        var newUri := NoteUri(host.settings, newTitle).value;
        var moved := MoveFile(host, oldUri, newUri);
        if !moved {
          host.Show(Error, RenameFailed);
          return;
        }
        Retitle(note, newTitle, newUri);
    }

    /** The rest of `renameNote` once the file has moved: the tag entry
        follows the title, the note is retitled, its editor re-keyed and
        told its new title while keeping its unsaved text, and the list is
        refreshed. The tag store's save is not awaited, so its failure
        stops nothing. */
    method Retitle(note: NoteItem, newTitle: string, newUri: string)
      requires Valid() && !TakenByOther(newTitle, note)
      modifies note`title, note`labelText, host`files, host`log, tagManager`tags,
               controller.manager`panels, controller.manager`notePaths, controller.manager`order,
               controller.manager.panels.Values`caption, controller.manager.panels.Values`inbox
      ensures Valid() && (old(controller.Valid()) ==> controller.Valid())
      ensures note.title == newTitle && note.labelText == Label(newTitle, note.tags)
      ensures tagManager.tags == Renamed(old(tagManager.tags), old(note.title), newTitle)
      ensures host.files == WithSidecar(old(host.files), host.settings, host.faulty, tagManager.tags, tagManager.metadata)
      ensures old(note.title) !in old(controller.manager.panels) ==>
                controller.manager.panels == old(controller.manager.panels)
                && controller.manager.notePaths == old(controller.manager.notePaths)
                && controller.manager.order == old(controller.manager.order)
      ensures old(note.title) in old(controller.manager.panels) ==>
                var p := old(controller.manager.panels[note.title]);
                && controller.manager.panels == (old(controller.manager.panels) - {old(note.title)})[newTitle := p]
                && controller.manager.notePaths == (old(controller.manager.notePaths) - {old(note.title)})[newTitle := newUri]
                && controller.manager.order == SetKey(DeleteKey(old(controller.manager.order), old(note.title)), newTitle)
                && p.caption == Caption(newTitle)
                && p.inbox == old(p.inbox) + (if old(p.disposed) then [] else [Update(Some(newTitle), None, note.tags, true, None)])
      ensures host.log == old(host.log) + ListEvents()
    {
      var oldTitle := note.title;
      MoveTitle(note, newTitle);
      Rekey(oldTitle, newTitle, note.tags, newUri);
    }

    /** The editor of `oldTitle`, if open, is re-keyed to `newTitle` and
        told it, keeping its text; then the list is refreshed. */
    method Rekey(oldTitle: string, newTitle: string, tags: seq<string>, newUri: string)
      requires Valid()
      modifies host`log, controller.manager`panels, controller.manager`notePaths, controller.manager`order,
               controller.manager.panels.Values`caption, controller.manager.panels.Values`inbox
      ensures old(controller.Valid()) ==> controller.Valid()
      ensures oldTitle !in old(controller.manager.panels) ==>
                controller.manager.panels == old(controller.manager.panels)
                && controller.manager.notePaths == old(controller.manager.notePaths)
                && controller.manager.order == old(controller.manager.order)
      ensures oldTitle in old(controller.manager.panels) ==>
                var p := old(controller.manager.panels[oldTitle]);
                && controller.manager.panels == (old(controller.manager.panels) - {oldTitle})[newTitle := p]
                && controller.manager.notePaths == (old(controller.manager.notePaths) - {oldTitle})[newTitle := newUri]
                && controller.manager.order == SetKey(DeleteKey(old(controller.manager.order), oldTitle), newTitle)
                && p.caption == Caption(newTitle)
                && p.inbox == old(p.inbox) + (if old(p.disposed) then [] else [Update(Some(newTitle), None, tags, true, None)])
      ensures host.log == old(host.log) + ListEvents()
    {
      ghost var m := controller.manager;
      assert oldTitle in m.panels ==> m.panels[oldTitle] in m.panels.Values;
      controller.UpdateNoteTitle(oldTitle, newTitle, tags, newUri);
      Refresh();
    }

    /** The tag entry follows the title (its save not awaited), and the
        note takes the new title. */
    method MoveTitle(note: NoteItem, newTitle: string)
      requires Valid() && !TakenByOther(newTitle, note)
      modifies note`title, note`labelText, host`files, tagManager`tags
      ensures Valid()
      ensures note.title == newTitle && note.labelText == Label(newTitle, note.tags)
      ensures tagManager.tags == Renamed(old(tagManager.tags), old(note.title), newTitle)
      ensures host.files == WithSidecar(old(host.files), host.settings, host.faulty, tagManager.tags, tagManager.metadata)
    {
      var _ := tagManager.RenameTag(note.title, newTitle);
      SetTitle(note, newTitle);
    }

    /** The note takes the new title and the label that goes with it; no
        other note holds that title, so titles stay distinct. */
    method SetTitle(note: NoteItem, newTitle: string)
      requires Valid() && !TakenByOther(newTitle, note)
      modifies note`title, note`labelText
      ensures Valid()
      ensures note.title == newTitle && note.labelText == Label(newTitle, note.tags)
    {
      note.title := newTitle;
      note.labelText := Label(newTitle, note.tags);
      forall i, j | 0 <= i < j < |notes| ensures TitleAt(notes, i) != TitleAt(notes, j) {
        assert old(TitleAt(notes, i)) != old(TitleAt(notes, j));
        if notes[i] == note {
          assert old(notes[j].title) != newTitle;
        } else if notes[j] == note {
          assert old(notes[i].title) != newTitle;
        }
      }
    }

    /** `editTags`: the note's tags become the normalised input and its
        label follows; the store records them. Once the store is saved the
        open editor is told the tags, keeping its text, and the list is
        refreshed; a failed save throws out of the operation first. */
    method EditTags(note: NoteItem, input: string) returns (saved: bool)
      requires Valid()
      modifies note`tags, note`labelText, host`files, host`log, tagManager`tags
      modifies (if note.title in controller.manager.panels then {controller.manager.panels[note.title]} else {})`inbox
      ensures Valid() && (old(controller.Valid()) ==> controller.Valid())
      ensures saved == SidecarSaves(host)
      ensures note.tags == NormaliseTags(input) && note.labelText == Label(note.title, note.tags)
      ensures tagManager.tags == old(tagManager.tags)[note.title := EncodeList(note.tags)]
      ensures host.files == WithSidecar(old(host.files), host.settings, host.faulty, tagManager.tags, tagManager.metadata)
      ensures note.title in controller.manager.panels ==>
                controller.manager.panels[note.title].inbox
                == old(controller.manager.panels[note.title].inbox)
                   + (if !SidecarSaves(host) || old(controller.manager.panels[note.title].disposed) then []
                      else [Update(None, None, note.tags, true, None)])
      ensures host.log == old(host.log) + (if SidecarSaves(host) then ListEvents() else [])
    {
      saved := Retag(note, NormaliseTags(input));
    }

    /** `editTags` once the input is normalised to `tags`. */
    method Retag(note: NoteItem, tags: seq<string>) returns (saved: bool)
      requires Valid()
      modifies note`tags, note`labelText, host`files, host`log, tagManager`tags
      modifies (if note.title in controller.manager.panels then {controller.manager.panels[note.title]} else {})`inbox
      ensures Valid() && (old(controller.Valid()) ==> controller.Valid())
      ensures saved == SidecarSaves(host)
      ensures note.tags == tags && note.labelText == Label(note.title, tags)
      ensures tagManager.tags == old(tagManager.tags)[note.title := EncodeList(tags)]
      ensures host.files == WithSidecar(old(host.files), host.settings, host.faulty, tagManager.tags, tagManager.metadata)
      ensures note.title in controller.manager.panels ==>
                controller.manager.panels[note.title].inbox
                == old(controller.manager.panels[note.title].inbox)
                   + (if !SidecarSaves(host) || old(controller.manager.panels[note.title].disposed) then []
                      else [Update(None, None, tags, true, None)])
      ensures host.log == old(host.log) + (if SidecarSaves(host) then ListEvents() else [])
    {
      saved := Relabel(note, tags);
      if saved {
        PushTags(note.title, tags);
      }
    }

    /** The note takes the tags and the label that goes with them, and the
        store records them and is saved. */
    method Relabel(note: NoteItem, tags: seq<string>) returns (saved: bool)
      requires Valid()
      modifies note`tags, note`labelText, host`files, tagManager`tags
      ensures Valid()
      ensures saved == SidecarSaves(host)
      ensures note.tags == tags && note.labelText == Label(note.title, tags)
      ensures tagManager.tags == old(tagManager.tags)[note.title := EncodeList(tags)]
      ensures host.files == WithSidecar(old(host.files), host.settings, host.faulty, tagManager.tags, tagManager.metadata)
    {
      note.tags := tags;
      note.labelText := Label(note.title, tags);
      saved := tagManager.ChangeTag(note.title, EncodeList(tags));
    }

    /** The open editor of `title`, if any, is told its tags while keeping
        its text, and the list is refreshed. */
    method PushTags(title: string, tags: seq<string>)
      requires Valid()
      modifies host`log, (if title in controller.manager.panels then {controller.manager.panels[title]} else {})`inbox
      ensures old(controller.Valid()) ==> controller.Valid()
      ensures title in controller.manager.panels ==>
                controller.manager.panels[title].inbox
                == old(controller.manager.panels[title].inbox)
                   + (if old(controller.manager.panels[title].disposed) then [] else [Update(None, None, tags, true, None)])
      ensures host.log == old(host.log) + ListEvents()
    {
      ghost var m := controller.manager;
      assert title in m.panels ==> m.panels[title] in m.panels.Values;
      controller.UpdateNoteTags(title, tags);
      Refresh();
    }

    /** `setFilter`: a missing or empty text clears the filter; the list is
        refreshed with it. */
    method SetFilter(text: Option<string>)
      requires view != null ==> view.host == host
      modifies this`filterText, host`log
      ensures filterText == text.GetOr("")
      ensures text.None? ==> filterText == ""
      ensures host.log == old(host.log) + ListEvents()
    {
      filterText := text.GetOr("");
      Refresh();
    }

    /** `getNoteByTitle`: the first note with that title; `None` stands for
        the not-found error. */
    function GetNoteByTitle(title: string): (r: Option<NoteItem>)
      reads this`notes, notes`title
      ensures r.None? <==> forall i :: 0 <= i < |notes| ==> notes[i].title != title
      ensures r.Some? ==> exists k :: 0 <= k < |notes| && notes[k] == r.value && notes[k].title == title
                                     && forall i :: 0 <= i < k ==> notes[i].title != title
    {
      match FindIndex(notes, title)
      case None => None
      case Some(k) => Some(notes[k])
    }

    /** `togglePin`: the note takes the pin and the store records it; once
        the store is saved the list is refreshed, while a failure (a
        metadata entry that cannot hold a field, or a failed write) throws
        out of the operation. */
    method TogglePin(note: NoteItem, pinned: bool)
      requires Valid()
      modifies note`pinned, host`files, host`log, tagManager`metadata
      ensures Valid() && (old(controller.Valid()) ==> controller.Valid())
      ensures note.pinned == Some(pinned)
      ensures WithPinned(old(tagManager.metadata), note.title, pinned).None? ==>
                tagManager.metadata == old(tagManager.metadata) && host.files == old(host.files)
                && host.log == old(host.log)
      ensures WithPinned(old(tagManager.metadata), note.title, pinned).Some? ==>
                && tagManager.metadata == WithPinned(old(tagManager.metadata), note.title, pinned).value
                && host.files == WithSidecar(old(host.files), host.settings, host.faulty, tagManager.tags, tagManager.metadata)
                && host.log == old(host.log) + (if SidecarSaves(host) then ListEvents() else [])
    {
      note.pinned := Some(pinned);
      var saved := tagManager.SetPinned(note.title, pinned);
      if saved {
        Refresh();
      }
    }
  }
}
