/** The older, self-contained variant of the tag store and the catalog in
    src/main.js. Its store keeps tags only, in the flat sidecar format
    `{title: [tags]}`; its catalog has no duplicate-title check and no
    filter, closes every open editor when it reloads, and tells a tree view
    that it changed instead of posting rows. Its path helpers and its editor
    controller are the same code as the current ones (modules Config and
    Controller). */
module Legacy {
  import opened Options
  import opened Json
  import opened Text
  import opened Host
  import opened Config
  import opened Items
  import opened Tags
  import opened Webview
  import opened Controller
  import opened Provider

  /** The outcome of reading the flat sidecar: the tag map, and whether an
      empty document is written back. */
  datatype FlatLoaded = FlatLoaded(tags: TagMap, rewrite: bool)

  /** The legacy `initializeTags` on what the read gave (`None`: the read
      failed; `Text`: the content is not JSON): every object is taken as
      the tag map itself. */
  function LoadFlat(read: Option<Content>): (r: FlatLoaded)
    ensures r.rewrite <==> !(read.Some? && read.value.Doc? && IsObject(read.value.doc))
    ensures r.rewrite ==> r.tags == map[]
  {
    match read
    case Some(Doc(v)) => if IsObject(v) then FlatLoaded(Entries(v), false) else FlatLoaded(map[], true)
    case _ => FlatLoaded(map[], true)
  }

  /** Saving the flat document and loading it again gives the tag map
      back, whatever it holds. */
  lemma FlatLoadSave(tags: TagMap)
    ensures LoadFlat(Some(Doc(Obj(tags)))) == FlatLoaded(tags, false)
  {
  }

  /** The current loader reads a flat document as the legacy loader does,
      with no pins, unless a note titled `tags` has a truthy entry. */
  lemma LoadReadsFlat(t: TagMap)
    requires "tags" !in t || !Truthy(t["tags"])
    ensures Load(Some(Doc(Obj(t)))).tags == LoadFlat(Some(Doc(Obj(t)))).tags
    ensures Load(Some(Doc(Obj(t)))).metadata == map[]
  {
  }

  /** The legacy loader reads a structured document as two notes named
      `tags` and `metadata`: the formats are compatible in one direction
      only. */
  lemma LoadFlatMisreadsDocument(tags: TagMap, md: MetaMap)
    ensures LoadFlat(Some(Doc(Document(tags, md)))).tags.Keys == {"tags", "metadata"}
  {
  }

  /** The note files, once the legacy store has saved `tags`: the sidecar
      holds the flat map, unless the notes directory is unknown or the
      write fails. */
  function FlatSaved(files: map<string, Content>, s: Settings, faulty: set<string>, tags: TagMap): (r: map<string, Content>)
    ensures forall p :: EndsWith(p, ".md") ==> (p in r <==> p in files) && (p in r ==> r[p] == files[p])
    ensures SidecarPath(s).Some? && SidecarPath(s).value !in faulty ==>
              r == files[SidecarPath(s).value := Doc(Obj(tags))]
  {
    match SidecarPath(s)
    case None => files
    case Some(p) => if p in faulty then files else files[p := Doc(Obj(tags))]
  }

  /** The label the legacy catalog gives a note after a rename or a tag
      edit: title, one space, formatted tags. It never equals the label
      the constructor gives, which has two spaces. */
  function RebuiltLabel(title: string, tags: seq<string>): (r: string)
    ensures |r| + 1 == |Label(title, tags)|
    ensures r != Label(title, tags)
  {
    title + " " + FormatTags(tags)
  }

  /** The rebuilt label still names the note's own file. */
  lemma FileNameOfRebuiltLabel(title: string, tags: seq<string>)
    ensures FileName(RebuiltLabel(title, tags)) == FileName(title)
  {
    var f := FormatTags(tags);
    assert RebuiltLabel(title, tags) == title + (" " + f);
    BeforeFirstConcat(title, " " + f, '[');
    if '[' !in title {
      BeforeFirstConcat(" ", f, '[');
      assert BeforeFirst(f, '[') == [];
      assert " " + [] == " ";
      BeforeFirstNoSep(title, '[');
      TrimAppendSpaces(title, " ");
      assert BeforeFirst(RebuiltLabel(title, tags), '[') == title + " ";
    }
  }

  /** The legacy tag store: one map from title to tags. */
  class FlatTagManager {
    const host: Host
    var tags: TagMap

    constructor (host: Host)
      ensures this.host == host && tags == map[]
    {
      this.host := host;
      tags := map[];
    }

    /** `saveTags`: the map is written as the flat document. */
    method SaveTags() returns (ok: bool)
      modifies host`files
      ensures ok <==> SidecarPath(host.settings).Some? && SidecarPath(host.settings).value !in host.faulty
      ensures host.files == FlatSaved(old(host.files), host.settings, host.faulty, tags)
    {
      match SidecarPath(host.settings)
      case None =>
        ok := false;
      case Some(path) =>
        ok := host.WriteFile(path, Doc(Obj(tags)));
    }

    /** `initializeTags`: any object read is the map; otherwise the map is
        emptied and `{}` written back. */
    method InitializeTags() returns (ok: bool)
      modifies this`tags, host`files
      ensures SidecarPath(host.settings).None? ==> !ok && tags == old(tags) && host.files == old(host.files)
      ensures SidecarPath(host.settings).Some? ==>
                var l := LoadFlat(old(host.Lookup(SidecarPath(host.settings).value)));
                && tags == l.tags
                && (ok <==> !l.rewrite || SidecarPath(host.settings).value !in host.faulty)
                && host.files == if l.rewrite then FlatSaved(old(host.files), host.settings, host.faulty, map[])
                                 else old(host.files)
    {
      match SidecarPath(host.settings)
      case None =>
        ok := false;
      case Some(path) =>
        var read := host.ReadFile(path);
        var l := LoadFlat(read);
        tags := l.tags;
        ok := true;
        if l.rewrite {
          ok := SaveTags();
        }
    }

    /** `changeTag`: the value is stored, wrapped in a list unless it is
        one. */
    method ChangeTag(key: string, value: Json) returns (ok: bool)
      modifies this`tags, host`files
      ensures tags == old(tags)[key := Wrap(value)]
      ensures ok <==> SidecarPath(host.settings).Some? && SidecarPath(host.settings).value !in host.faulty
      ensures host.files == FlatSaved(old(host.files), host.settings, host.faulty, tags)
    {
      tags := tags[key := Wrap(value)];
      ok := SaveTags();
    }

    /** `renameTag`: the same map change as the current store's. */
    method RenameTag(oldKey: string, newKey: string) returns (ok: bool)
      modifies this`tags, host`files
      ensures tags == Renamed(old(tags), oldKey, newKey)
      ensures ok <==> SidecarPath(host.settings).Some? && SidecarPath(host.settings).value !in host.faulty
      ensures host.files == FlatSaved(old(host.files), host.settings, host.faulty, tags)
    {
      tags := Renamed(tags, oldKey, newKey);
      ok := SaveTags();
    }

    /** `deleteTag`. */
    method DeleteTag(key: string) returns (ok: bool)
      modifies this`tags, host`files
      ensures tags == old(tags) - {key}
      ensures ok <==> SidecarPath(host.settings).Some? && SidecarPath(host.settings).value !in host.faulty
      ensures host.files == FlatSaved(old(host.files), host.settings, host.faulty, tags)
    {
      tags := tags - {key};
      ok := SaveTags();
    }
  }

  /** The legacy catalog. */
  class LegacyNotesProvider {
    const host: Host
    const controller: PanelController
    const tagManager: FlatTagManager
    var notes: seq<NoteItem>

    /** Everything acts on the one host. */
    predicate Valid() {
      && controller.host == host
      && controller.manager.host == host
      && tagManager.host == host
    }

    /** The JavaScript constructor also starts `initialize` without waiting
        for it; here `Initialize` is a step of its own. */
    constructor (host: Host)
      ensures this.host == host && Valid() && controller.Valid()
      ensures fresh(controller) && fresh(controller.manager) && fresh(tagManager)
      ensures notes == [] && controller.manager.panels == map[] && tagManager.tags == map[]
    {
      this.host := host;
      controller := new PanelController(host);
      tagManager := new FlatTagManager(host);
      notes := [];
    }

    /** `refresh`: the tree view is told that it changed. */
    method Refresh()
      modifies host`log
      ensures host.log == old(host.log) + [TreeChanged]
    {
      host.Emit(TreeChanged);
    }

    /** The legacy store cannot be initialised: the notes directory is
        unknown, or the store needs rewriting and the write fails. */
    predicate FlatStoreFails()
      reads host`files
    {
      || SidecarPath(host.settings).None?
      || (LoadFlat(host.Lookup(SidecarPath(host.settings).value)).rewrite && SidecarPath(host.settings).value in host.faulty)
    }

    /** `initialize`: the store is loaded, then the notes; a failure of the
        store is reported and stops it. */
    method Initialize()
      requires Valid() && controller.Valid()
      modifies this`notes, host`files, host`log, tagManager`tags,
               controller.manager`panels, controller.manager`notePaths, controller.manager`order,
               controller.manager.panels.Values`disposed
      ensures controller.Valid()
      ensures SidecarPath(host.settings).Some? ==>
                tagManager.tags == LoadFlat(old(host.Lookup(SidecarPath(host.settings).value))).tags
      ensures old(FlatStoreFails()) ==>
                && notes == old(notes) && host.files == old(host.files)
                && controller.manager.panels == old(controller.manager.panels)
                && host.log == old(host.log) + [Shown(Error, InitFailed)]
      ensures !old(FlatStoreFails()) ==>
                && controller.manager.panels == map[]
                && (NotesPath(host.settings).value in host.faulty ==> notes == [])
                && (NotesPath(host.settings).value !in host.faulty ==>
                      Catalog(notes, tagManager.tags, host.files, NotesPath(host.settings).value))
    {
      var ok := tagManager.InitializeTags();
      if !ok {
        host.Show(Error, InitFailed);
        return;
      }
      LoadExistingNotes();
    }

    /** `loadExistingNotes`: every open editor is closed, whether or not its
        file still exists, then the list is rebuilt from the `.md` files of
        the notes directory; an unknown or unlistable directory is reported
        and leaves the list empty. */
    method LoadExistingNotes()
      requires Valid() && controller.Valid()
      modifies this`notes, host`log, controller.manager`panels, controller.manager`notePaths, controller.manager`order,
               controller.manager.panels.Values`disposed
      ensures controller.Valid()
      ensures controller.manager.panels == map[] && controller.manager.notePaths == map[]
      ensures forall k :: k in old(controller.manager.panels) ==> old(controller.manager.panels)[k].disposed
      ensures NotesPath(host.settings).None? || NotesPath(host.settings).value in host.faulty ==>
                notes == [] && host.log == old(host.log) + [Shown(Error, LoadFailed)]
      ensures NotesPath(host.settings).Some? && NotesPath(host.settings).value !in host.faulty ==>
                && Catalog(notes, tagManager.tags, host.files, NotesPath(host.settings).value)
                && (forall n :: n in notes ==> fresh(n))
                && host.log == old(host.log) + [TreeChanged]
    {
      CloseAll();
      notes := [];
      match NotesPath(host.settings)
      case None =>
        host.Show(Error, LoadFailed);
      case Some(dir) =>
        var listing := host.ReadDirectory(dir);
        match listing
        case None =>
          host.Show(Error, LoadFailed);
        case Some(names) =>
          notes := NotesFor(MdTitles(names), tagManager.tags);
          Refresh();
          CatalogOfListing(notes, names, tagManager.tags, host.files, dir);
    }

    /** Every open editor is closed, in the order they were opened. */
    method CloseAll()
      requires controller.Valid()
      modifies controller.manager`panels, controller.manager`notePaths, controller.manager`order,
               controller.manager.panels.Values`disposed
      ensures controller.Valid()
      ensures controller.manager.panels == map[] && controller.manager.notePaths == map[]
      ensures forall k :: k in old(controller.manager.panels) ==> old(controller.manager.panels)[k].disposed
    {
      controller.ClosePanels(controller.manager.order);
      assert controller.manager.panels.Keys == {};
      assert controller.manager.notePaths.Keys == {};
    }

    /** `addNote`: there is no duplicate check, so a title already listed
        is listed twice once its (emptied) file is written. A failed
        creation is reported and changes nothing. */
    method AddNote(title: string)
      requires Valid()
      modifies this`notes, host`files, host`log, controller.manager`panels, controller.manager`notePaths, controller.manager`order,
               controller.manager.panels.Values`inbox, controller.manager.panels.Values`revealCount
      ensures old(controller.Valid()) ==> controller.Valid()
      ensures !Creatable(host, title) ==>
                && notes == old(notes) && host.files == old(host.files)
                && controller.manager.panels == old(controller.manager.panels)
                && host.log == old(host.log) + [Shown(Error, CreateFailed)]
      ensures Creatable(host, title) ==>
                && host.files == old(host.files)[NoteUri(host.settings, title).value := Text("")]
                && |notes| == |old(notes)| + 1 && notes[..|old(notes)|] == old(notes)
                && fresh(notes[|old(notes)|])
                && notes[|old(notes)|].title == title && notes[|old(notes)|].tags == []
                && notes[|old(notes)|].labelText == Label(title, [])
                && (host.settings.openNoteRightNow ==> title in controller.manager.panels)
                && (!host.settings.openNoteRightNow ==> controller.manager.panels == old(controller.manager.panels))
                && host.log == old(host.log) + [TreeChanged]
      ensures Creatable(host, title) && title in old(TitlesOf(notes)) ==> !Distinct(notes)
    {
      match NoteUri(host.settings, title)
      case None =>
        host.Show(Error, CreateFailed);
      case Some(uri) =>
        var written := host.WriteFile(uri, Text(""));
        if !written {
          host.Show(Error, CreateFailed);
          return;
        }
        ListCreated(title, uri);
    }

    /** A note whose empty file has just been written joins the list, and
        its editor opens when the settings ask for it. */
    method ListCreated(title: string, uri: string)
      requires Valid() && NoteUri(host.settings, title) == Some(uri) && host.ReadTextOf(uri).Some?
      modifies this`notes, host`log, controller.manager`panels, controller.manager`notePaths, controller.manager`order,
               controller.manager.panels.Values`inbox, controller.manager.panels.Values`revealCount
      ensures old(controller.Valid()) ==> controller.Valid()
      ensures |notes| == |old(notes)| + 1 && notes[..|old(notes)|] == old(notes)
      ensures fresh(notes[|old(notes)|])
      ensures notes[|old(notes)|].title == title && notes[|old(notes)|].tags == []
      ensures notes[|old(notes)|].labelText == Label(title, [])
      ensures host.settings.openNoteRightNow ==> title in controller.manager.panels
      ensures !host.settings.openNoteRightNow ==> controller.manager.panels == old(controller.manager.panels)
      ensures host.log == old(host.log) + [TreeChanged]
      ensures title in old(TitlesOf(notes)) ==> !Distinct(notes)
    {
      var note := AppendNote(title);
      if host.settings.openNoteRightNow {
        ghost var m := controller.manager;
        assert note.title in m.panels ==> m.panels[note.title] in m.panels.Values;
        var _ := controller.ShowPanel(note);
      }
    }

    /** A new untagged note at the end of the list, which is refreshed; a
        title already listed is then listed twice. */
    method AppendNote(title: string) returns (note: NoteItem)
      modifies this`notes, host`log
      ensures fresh(note)
      ensures notes == old(notes) + [note]
      ensures note.title == title && note.tags == [] && note.labelText == Label(title, []) && note.pinned == None
      ensures host.log == old(host.log) + [TreeChanged]
      ensures title in old(TitlesOf(notes)) ==> !Distinct(notes)
    {
      TitlesOfSpec(notes);
      ghost var k := if title in TitlesOf(notes) then FirstIndex(TitlesOf(notes), title) else 0;
      note := new NoteItem(title, []);
      notes := notes + [note];
      Refresh();
      if k < |notes| - 1 && TitleAt(notes, k) == title {
        assert TitleAt(notes, k) == TitleAt(notes, |notes| - 1);
      }
    }

    /** `deleteNote`: the same order as the current catalog's: the editor
        is closed, the tags dropped (a failure is only a warning), the file
        deleted (a failure is reported and keeps the note), then the note
        leaves the list. */
    method DeleteNote(note: NoteItem)
      requires Valid()
      modifies this`notes, host`files, host`log, tagManager`tags,
               controller.manager`panels, controller.manager`notePaths, controller.manager`order,
               controller.manager.panels.Values`disposed
      ensures old(controller.Valid()) ==> controller.Valid()
      ensures NoteUri(host.settings, note.title).None? ==>
                && notes == old(notes) && host.files == old(host.files) && tagManager.tags == old(tagManager.tags)
                && controller.manager.panels == old(controller.manager.panels)
                && host.log == old(host.log) + [Shown(Error, DeleteFailed)]
      ensures NoteUri(host.settings, note.title).Some? ==>
                var uri := NoteUri(host.settings, note.title).value;
                var removed := old(host.Readable(uri));
                && controller.manager.panels == old(controller.manager.panels) - {note.title}
                && tagManager.tags == old(tagManager.tags) - {note.title}
                && host.files == FlatSaved(old(host.files), host.settings, host.faulty, tagManager.tags)
                                 - (if removed then {uri} else {})
                && notes == (if removed then Without(old(notes), note) else old(notes))
                && host.log == old(host.log)
                               + (if SidecarSaves(host) then [] else [Shown(Warning, TagDeleteFailed)])
                               + (if !removed then [Shown(Error, FileDeleteFailed)]
                                  else if note in old(notes) then [TreeChanged] else [])
      ensures NoteUri(host.settings, note.title).Some? && old(note.title in controller.manager.panels) ==>
                old(controller.manager.panels[note.title]).disposed
    {
      match NoteUri(host.settings, note.title)
      case None =>
        host.Show(Error, DeleteFailed);
      case Some(uri) =>
        CloseAndRemove(note, uri);
    }

    /** The editor is closed, then the note removed as `RemoveNote` says. */
    method CloseAndRemove(note: NoteItem, uri: string)
      requires Valid() && NoteUri(host.settings, note.title) == Some(uri)
      modifies this`notes, host`files, host`log, tagManager`tags,
               controller.manager`panels, controller.manager`notePaths, controller.manager`order,
               controller.manager.panels.Values`disposed
      ensures old(controller.Valid()) ==> controller.Valid()
      ensures controller.manager.panels == old(controller.manager.panels) - {note.title}
      ensures old(note.title in controller.manager.panels) ==> old(controller.manager.panels[note.title]).disposed
      ensures tagManager.tags == old(tagManager.tags) - {note.title}
      ensures host.files == FlatSaved(old(host.files), host.settings, host.faulty, tagManager.tags)
                            - (if old(host.Readable(uri)) then {uri} else {})
      ensures notes == (if old(host.Readable(uri)) then Without(old(notes), note) else old(notes))
      ensures host.log == old(host.log)
                          + (if SidecarSaves(host) then [] else [Shown(Warning, TagDeleteFailed)])
                          + (if !old(host.Readable(uri)) then [Shown(Error, FileDeleteFailed)]
                             else if note in old(notes) then [TreeChanged] else [])
    {
      ghost var m := controller.manager;
      assert note.title in m.panels ==> m.panels[note.title] in m.panels.Values;
      var _ := controller.ClosePanel(note.title);
      RemoveNote(note, uri);
    }

    /** `deleteNote` once the editor is closed: tags, then file, then list. */
    method RemoveNote(note: NoteItem, uri: string)
      requires Valid() && NoteUri(host.settings, note.title) == Some(uri)
      modifies this`notes, host`files, host`log, tagManager`tags
      ensures tagManager.tags == old(tagManager.tags) - {note.title}
      ensures host.files == FlatSaved(old(host.files), host.settings, host.faulty, tagManager.tags)
                            - (if old(host.Readable(uri)) then {uri} else {})
      ensures notes == (if old(host.Readable(uri)) then Without(old(notes), note) else old(notes))
      ensures host.log == old(host.log)
                          + (if SidecarSaves(host) then [] else [Shown(Warning, TagDeleteFailed)])
                          + (if !old(host.Readable(uri)) then [Shown(Error, FileDeleteFailed)]
                             else if note in old(notes) then [TreeChanged] else [])
    {
      var tagsSaved := tagManager.DeleteTag(note.title);
      if !tagsSaved {
        host.Show(Warning, TagDeleteFailed);
      }
      assert host.Readable(uri) == old(host.Readable(uri));
      var removed := host.Delete(uri);
      if !removed {
        host.Show(Error, FileDeleteFailed);
        return;
      }
      if note in notes {
        notes := Without(notes, note);
        Refresh();
      }
    }

    /** `renameNote` with the title the input box gave (`None`: cancelled)
        passes its checks and moves the note's file. There is no check that
        the title is free. */
    predicate Renames(note: NoteItem, input: Option<string>)
      reads note`title, host`files
    {
      && NotesPath(host.settings).Some?
      && input.Some? && input.value != "" && input.value != note.title
      && host.Readable(NoteUri(host.settings, note.title).value)
      && NoteUri(host.settings, input.value).value !in host.faulty
    }

    /** `renameNote`: an unknown notes directory (the path lookup before
        the prompt throws), a cancelled, empty or unchanged title do
        nothing; a failed read or write is reported and changes nothing.
        Otherwise the file moves, the tag entry follows, the note is
        retitled and relabelled with one space, its editor re-keyed, and
        the tree refreshed. */
    method RenameNote(note: NoteItem, input: Option<string>)
      requires Valid()
      modifies note`title, note`labelText, host`files, host`log, tagManager`tags,
               controller.manager`panels, controller.manager`notePaths, controller.manager`order,
               controller.manager.panels.Values`caption, controller.manager.panels.Values`inbox
      ensures old(controller.Valid()) ==> controller.Valid()
      ensures note.title == if old(Renames(note, input)) then input.value else old(note.title)
      ensures !old(Renames(note, input)) ==>
                && host.files == old(host.files) && tagManager.tags == old(tagManager.tags)
                && controller.manager.panels == old(controller.manager.panels)
                && controller.manager.notePaths == old(controller.manager.notePaths)
                && host.log == old(host.log)
                               + (if NotesPath(host.settings).Some? && input.Some? && input.value != ""
                                     && input.value != old(note.title)
                                  then [Shown(Error, RenameFailed)] else [])
      ensures old(Renames(note, input)) ==>
                var oldUri := NoteUri(host.settings, old(note.title)).value;
                var newUri := NoteUri(host.settings, input.value).value;
                && note.labelText == RebuiltLabel(input.value, note.tags)
                && tagManager.tags == Renamed(old(tagManager.tags), old(note.title), input.value)
                && host.files == FlatSaved(Moved(old(host.files), oldUri, newUri), host.settings, host.faulty, tagManager.tags)
                && host.log == old(host.log) + [TreeChanged]
                && (old(note.title) !in old(controller.manager.panels) ==>
                      controller.manager.panels == old(controller.manager.panels)
                      && controller.manager.notePaths == old(controller.manager.notePaths)
                      && controller.manager.order == old(controller.manager.order))
                && (old(note.title) in old(controller.manager.panels) ==>
                      var p := old(controller.manager.panels[note.title]);
                      && controller.manager.panels == (old(controller.manager.panels) - {old(note.title)})[input.value := p]
                      && controller.manager.notePaths
                         == (old(controller.manager.notePaths) - {old(note.title)})[input.value := newUri]
                      && controller.manager.order
                         == SetKey(DeleteKey(old(controller.manager.order), old(note.title)), input.value)
                      && p.caption == Caption(input.value)
                      && p.inbox == old(p.inbox) + (if old(p.disposed) then [] else [Update(Some(input.value), None, note.tags, true, None)]))
    {
      match NoteUri(host.settings, note.title)
      case None =>
      case Some(oldUri) =>
        if input.None? || input.value == "" || input.value == note.title {
          return;
        }
        var newTitle := input.value;
        var newUri := NoteUri(host.settings, newTitle).value;
        var moved := MoveFile(host, oldUri, newUri);
        if !moved {
          host.Show(Error, RenameFailed);
          return;
        }
        Retitle(note, newTitle, newUri);
    }

    /** The rest of `renameNote` once the file has moved; the store's save
        is not awaited, so its failure stops nothing. */
    method Retitle(note: NoteItem, newTitle: string, newUri: string)
      requires Valid()
      modifies note`title, note`labelText, host`files, host`log, tagManager`tags,
               controller.manager`panels, controller.manager`notePaths, controller.manager`order,
               controller.manager.panels.Values`caption, controller.manager.panels.Values`inbox
      ensures old(controller.Valid()) ==> controller.Valid()
      ensures note.title == newTitle && note.labelText == RebuiltLabel(newTitle, note.tags)
      ensures tagManager.tags == Renamed(old(tagManager.tags), old(note.title), newTitle)
      ensures host.files == FlatSaved(old(host.files), host.settings, host.faulty, tagManager.tags)
      ensures old(note.title) !in old(controller.manager.panels) ==>
                controller.manager.panels == old(controller.manager.panels)
                && controller.manager.notePaths == old(controller.manager.notePaths)
                && controller.manager.order == old(controller.manager.order)
      ensures old(note.title) in old(controller.manager.panels) ==>
                var p := old(controller.manager.panels[note.title]);
                && controller.manager.panels == (old(controller.manager.panels) - {old(note.title)})[newTitle := p]
                && controller.manager.notePaths
                   == (old(controller.manager.notePaths) - {old(note.title)})[newTitle := newUri]
                && controller.manager.order == SetKey(DeleteKey(old(controller.manager.order), old(note.title)), newTitle)
                && p.caption == Caption(newTitle)
                && p.inbox == old(p.inbox) + (if old(p.disposed) then [] else [Update(Some(newTitle), None, note.tags, true, None)])
      ensures host.log == old(host.log) + [TreeChanged]
    {
      var oldTitle := note.title;
      MoveTitle(note, newTitle);
      Rekey(oldTitle, newTitle, note.tags, newUri);
    }

    /** The tag entry follows the note, which takes the new title and the
        one-space label. */
    method MoveTitle(note: NoteItem, newTitle: string)
      requires Valid()
      modifies note`title, note`labelText, host`files, tagManager`tags
      ensures Valid()
      ensures note.title == newTitle && note.labelText == RebuiltLabel(newTitle, note.tags)
      ensures tagManager.tags == Renamed(old(tagManager.tags), old(note.title), newTitle)
      ensures host.files == FlatSaved(old(host.files), host.settings, host.faulty, tagManager.tags)
    {
      var _ := tagManager.RenameTag(note.title, newTitle);
      note.title := newTitle;
      note.labelText := RebuiltLabel(newTitle, note.tags);
    }

    /** The open editor, if any, moves to the new title and path and is told
        the new title; then the tree is refreshed. */
    method Rekey(oldTitle: string, newTitle: string, tags: seq<string>, newUri: string)
      requires Valid()
      modifies host`log, controller.manager`panels, controller.manager`notePaths, controller.manager`order,
               controller.manager.panels.Values`caption, controller.manager.panels.Values`inbox
      ensures old(controller.Valid()) ==> controller.Valid()
      ensures oldTitle !in old(controller.manager.panels) ==>
                controller.manager.panels == old(controller.manager.panels)
                && controller.manager.notePaths == old(controller.manager.notePaths)
                && controller.manager.order == old(controller.manager.order)
      ensures oldTitle in old(controller.manager.panels) ==>
                var p := old(controller.manager.panels[oldTitle]);
                && controller.manager.panels == (old(controller.manager.panels) - {oldTitle})[newTitle := p]
                && controller.manager.notePaths == (old(controller.manager.notePaths) - {oldTitle})[newTitle := newUri]
                && controller.manager.order == SetKey(DeleteKey(old(controller.manager.order), oldTitle), newTitle)
                && p.caption == Caption(newTitle)
                && p.inbox == old(p.inbox) + (if old(p.disposed) then [] else [Update(Some(newTitle), None, tags, true, None)])
      ensures host.log == old(host.log) + [TreeChanged]
    {
      ghost var m := controller.manager;
      assert oldTitle in m.panels ==> m.panels[oldTitle] in m.panels.Values;
      controller.UpdateNoteTitle(oldTitle, newTitle, tags, newUri);
      Refresh();
    }

    /** `editTags` with the text the input box gave (`None`: cancelled): a
        cancelled input does nothing; otherwise the tags are normalised as
        in the current catalog, the label rebuilt with one space, the store
        updated (its save is not awaited, so a failure stops nothing), the
        open editor told the tags, and the tree refreshed. */
    method EditTags(note: NoteItem, input: Option<string>)
      requires Valid()
      modifies note`tags, note`labelText, host`files, host`log, tagManager`tags
      modifies (if note.title in controller.manager.panels then {controller.manager.panels[note.title]} else {})`inbox
      ensures old(controller.Valid()) ==> controller.Valid()
      ensures input.None? ==>
                && note.tags == old(note.tags) && note.labelText == old(note.labelText)
                && host.files == old(host.files) && host.log == old(host.log)
                && tagManager.tags == old(tagManager.tags)
                && (note.title in controller.manager.panels ==>
                      controller.manager.panels[note.title].inbox == old(controller.manager.panels[note.title].inbox))
      ensures input.Some? ==>
                && note.tags == NormaliseTags(input.value) && note.labelText == RebuiltLabel(note.title, note.tags)
                && tagManager.tags == old(tagManager.tags)[note.title := EncodeList(note.tags)]
                && host.files == FlatSaved(old(host.files), host.settings, host.faulty, tagManager.tags)
                && host.log == old(host.log) + [TreeChanged]
                && (note.title in controller.manager.panels ==>
                      controller.manager.panels[note.title].inbox
                      == old(controller.manager.panels[note.title].inbox)
                         + (if old(controller.manager.panels[note.title].disposed) then []
                            else [Update(None, None, note.tags, true, None)]))
    {
      if input.None? {
        return;
      }
      Retag(note, NormaliseTags(input.value));
    }

    /** `editTags` once the input is normalised to `tags`. */
    method Retag(note: NoteItem, tags: seq<string>)
      requires Valid()
      modifies note`tags, note`labelText, host`files, host`log, tagManager`tags
      modifies (if note.title in controller.manager.panels then {controller.manager.panels[note.title]} else {})`inbox
      ensures old(controller.Valid()) ==> controller.Valid()
      ensures note.tags == tags && note.labelText == RebuiltLabel(note.title, tags)
      ensures tagManager.tags == old(tagManager.tags)[note.title := EncodeList(tags)]
      ensures host.files == FlatSaved(old(host.files), host.settings, host.faulty, tagManager.tags)
      ensures host.log == old(host.log) + [TreeChanged]
      ensures note.title in controller.manager.panels ==>
                controller.manager.panels[note.title].inbox
                == old(controller.manager.panels[note.title].inbox)
                   + (if old(controller.manager.panels[note.title].disposed) then []
                      else [Update(None, None, tags, true, None)])
    {
      note.tags := tags;
      note.labelText := RebuiltLabel(note.title, tags);
      var _ := tagManager.ChangeTag(note.title, EncodeList(tags));
      controller.UpdateNoteTags(note.title, tags);
      Refresh();
    }
  }
}
