/** What the sidebar list sends back (src/notesView.js, the message
    handler of `resolveWebviewView`): each message names a note by title,
    the first note with that title is acted on, and the list is refreshed
    afterwards. A message naming no note does nothing. */
module Dispatch {
  import opened Options
  import opened Host
  import opened Config
  import opened Items
  import opened Tags
  import opened ListView
  import opened Provider

  /** A message of the list. A field the message may lack (`text`,
      `newTitle`, `tags`) is `None` when it is absent. */
  datatype ListMessage =
    | Filter(text: Option<string>)
    | Open(title: string)
    | Delete(title: string)
    | Rename(oldTitle: string, newTitle: Option<string>)
    | EditTags(title: string, tags: Option<string>)
    | Add(title: string)
    | Other

  /** What the view's own `refresh` sends for the catalog as it is now. */
  function ViewEvents(v: NotesViewProvider, p: NotesProvider): (r: seq<Event>)
    reads v`resolved, p`notes, p`filterText, p.notes`title, p.notes`tags
    ensures |r| <= 1 && (r != [] <==> v.resolved)
  {
    if v.resolved then [ListUpdate(Visible(RowsOf(p.notes), p.filterText), p.filterText)] else []
  }

  /** The handler: each message goes to the catalog operation it names. */
  method Handle(v: NotesViewProvider, p: NotesProvider, m: ListMessage)
    requires p.Valid() && v.host == p.host
    modifies p`filterText, p`notes, p.notes`title, p.notes`labelText, p.notes`tags,
             p.host`files, p.host`log, p.tagManager`tags,
             p.controller.manager`panels, p.controller.manager`notePaths, p.controller.manager`order,
             p.controller.manager.panels.Values`caption, p.controller.manager.panels.Values`inbox,
             p.controller.manager.panels.Values`revealCount, p.controller.manager.panels.Values`disposed
    ensures p.Valid() && (old(p.controller.Valid()) ==> p.controller.Valid())
    ensures m.Other? ==> p.host.log == old(p.host.log) && p.notes == old(p.notes)
  {
    match m
    case Filter(text) => OnFilter(v, p, text);
    case Open(title) => OnOpen(p, title);
    case Delete(title) => OnDelete(v, p, title);
    case Rename(oldTitle, newTitle) => OnRename(v, p, oldTitle, newTitle);
    case EditTags(title, tags) => OnEditTags(v, p, title, tags);
    case Add(title) => OnAdd(v, p, title);
    case Other =>
  }

  /** `filter`: the filter is set (the catalog refreshes) and the view
      refreshes once more. */
  method OnFilter(v: NotesViewProvider, p: NotesProvider, text: Option<string>)
    requires p.Valid() && v.host == p.host
    modifies p`filterText, p.host`log
    ensures p.filterText == text.GetOr("")
    ensures p.host.log == old(p.host.log) + p.ListEvents() + ViewEvents(v, p)
  {
    p.SetFilter(text);
    v.Refresh(p.notes, p.filterText);
  }

  /** `openNote`: the note's editor is shown; there is no refresh. */
  method OnOpen(p: NotesProvider, title: string)
    requires p.Valid()
    modifies p.controller.manager`panels, p.controller.manager`notePaths, p.controller.manager`order, p.host`log,
             p.controller.manager.panels.Values`inbox, p.controller.manager.panels.Values`revealCount
    ensures p.Valid() && (old(p.controller.Valid()) ==> p.controller.Valid())
    ensures p.GetNoteByTitle(title).None? ==>
              p.controller.manager.panels == old(p.controller.manager.panels) && p.host.log == old(p.host.log)
    ensures p.GetNoteByTitle(title).Some? && NotesPath(p.host.settings).Some? ==> title in p.controller.manager.panels
  {
    match p.GetNoteByTitle(title)
    case None =>
    case Some(n) =>
      ghost var mgr := p.controller.manager;
      assert n.title in mgr.panels ==> mgr.panels[n.title] in mgr.panels.Values;
      var _ := p.controller.ShowPanel(n);
  }

  /** `deleteNote`: the note is deleted and the view refreshed. */
  method OnDelete(v: NotesViewProvider, p: NotesProvider, title: string)
    requires p.Valid() && v.host == p.host
    modifies p`notes, p.host`files, p.host`log, p.tagManager`tags,
             p.controller.manager`panels, p.controller.manager`notePaths, p.controller.manager`order,
             p.controller.manager.panels.Values`disposed
    ensures p.Valid() && (old(p.controller.Valid()) ==> p.controller.Valid())
    ensures old(p.GetNoteByTitle(title)).None? ==>
              && p.notes == old(p.notes) && p.host.files == old(p.host.files) && p.host.log == old(p.host.log)
              && p.tagManager.tags == old(p.tagManager.tags)
              && p.controller.manager.panels == old(p.controller.manager.panels)
    ensures old(p.GetNoteByTitle(title)).Some? && NotesPath(p.host.settings).Some? ==>
              && title !in p.controller.manager.panels
              && (title in old(p.controller.manager.panels) ==> old(p.controller.manager.panels[title]).disposed)
              && title !in p.tagManager.tags
              && (old(p.host.Readable(NoteUri(p.host.settings, title).value))
                  <==> p.notes == Without(old(p.notes), old(p.GetNoteByTitle(title)).value))
  {
    match p.GetNoteByTitle(title)
    case None =>
    case Some(n) =>
      ghost var before := p.notes;
      assert n in before;
      p.DeleteNote(n);
      v.Refresh(p.notes, p.filterText);
      assert |Without(before, n)| != |before|;
  }

  /** `renameNote`: only with a note under `oldTitle` and a non-empty new
      title; then the note is renamed and the view refreshed, unless the
      rename threw (the notes directory is unknown), which skips the
      refresh. */
  method OnRename(v: NotesViewProvider, p: NotesProvider, oldTitle: string, newTitle: Option<string>)
    requires p.Valid() && v.host == p.host
    modifies p.notes`title, p.notes`labelText, p.host`files, p.host`log, p.tagManager`tags,
             p.controller.manager`panels, p.controller.manager`notePaths, p.controller.manager`order,
             p.controller.manager.panels.Values`caption, p.controller.manager.panels.Values`inbox
    ensures p.Valid() && (old(p.controller.Valid()) ==> p.controller.Valid())
    ensures old(p.GetNoteByTitle(oldTitle)).None? || newTitle.None? || newTitle == Some("") ==>
              && TitlesOf(p.notes) == old(TitlesOf(p.notes))
              && p.host.files == old(p.host.files) && p.host.log == old(p.host.log)
              && p.tagManager.tags == old(p.tagManager.tags)
              && p.controller.manager.panels == old(p.controller.manager.panels)
    ensures old(p.GetNoteByTitle(oldTitle)).Some? && newTitle.Some? && old(p.Renames(p.GetNoteByTitle(oldTitle).value, newTitle.value)) ==>
              old(p.GetNoteByTitle(oldTitle)).value.title == newTitle.value
    ensures old(p.GetNoteByTitle(oldTitle)).Some? && newTitle.Some? && newTitle.value != "" ==>
              var t := newTitle.value;
              var n := old(p.GetNoteByTitle(oldTitle)).value;
              p.host.log == old(p.host.log)
                            + (if t == oldTitle then []
                               else if old(p.TakenByOther(t, n)) then [Shown(Warning, DuplicateTitle(t))]
                               else if NotesPath(p.host.settings).None? then []
                               else if old(p.Renames(n, t)) then p.ListEvents()
                               else [Shown(Error, RenameFailed)])
                            + (if t != oldTitle && !old(p.TakenByOther(t, n)) && NotesPath(p.host.settings).None? then []
                               else ViewEvents(v, p))
  {
    match p.GetNoteByTitle(oldTitle)
    case None =>
    case Some(n) =>
      if newTitle.Some? && newTitle.value != "" {
        RenameThenRefresh(v, p, n, newTitle.value);
      }
  }

  /** `editTags`: only with a note under `title` and a tag text present;
      then the note's tags are edited and the view refreshed, unless the
      save of the tag store threw, which skips the refresh. */
  method OnEditTags(v: NotesViewProvider, p: NotesProvider, title: string, tags: Option<string>)
    requires p.Valid() && v.host == p.host
    modifies p.notes`tags, p.notes`labelText, p.host`files, p.host`log, p.tagManager`tags,
             p.controller.manager.panels.Values`inbox
    ensures p.Valid() && (old(p.controller.Valid()) ==> p.controller.Valid())
    ensures old(p.GetNoteByTitle(title)).None? || tags.None? ==>
              && p.host.files == old(p.host.files) && p.host.log == old(p.host.log)
              && p.tagManager.tags == old(p.tagManager.tags)
    ensures old(p.GetNoteByTitle(title)).Some? && tags.Some? ==>
              && old(p.GetNoteByTitle(title)).value.tags == NormaliseTags(tags.value)
              && title in p.tagManager.tags && p.tagManager.tags[title] == EncodeList(NormaliseTags(tags.value))
              && p.host.log == old(p.host.log) + (if SidecarSaves(p.host) then p.ListEvents() else [])
                                 + (if SidecarSaves(p.host) then ViewEvents(v, p) else [])
  {
    match p.GetNoteByTitle(title)
    case None =>
    case Some(n) =>
      if tags.Some? {
        EditThenRefresh(v, p, n, tags.value);
      }
  }

  /** The note's tags are edited; the view refreshes unless the save
      threw. */
  method EditThenRefresh(v: NotesViewProvider, p: NotesProvider, n: NoteItem, text: string)
    requires p.Valid() && v.host == p.host && n in p.notes
    modifies p.notes`tags, p.notes`labelText, p.host`files, p.host`log, p.tagManager`tags,
             p.controller.manager.panels.Values`inbox
    ensures p.Valid() && (old(p.controller.Valid()) ==> p.controller.Valid())
    ensures n.tags == NormaliseTags(text)
    ensures p.tagManager.tags == old(p.tagManager.tags)[n.title := EncodeList(n.tags)]
    ensures p.host.log == old(p.host.log) + (if SidecarSaves(p.host) then p.ListEvents() else [])
                          + (if SidecarSaves(p.host) then ViewEvents(v, p) else [])
  {
    var saved := p.EditTags(n, text);
    RefreshIf(v, p, saved);
  }

  /** The note is renamed; the view refreshes unless the rename threw. */
  method RenameThenRefresh(v: NotesViewProvider, p: NotesProvider, n: NoteItem, t: string)
    requires p.Valid() && v.host == p.host && n in p.notes && t != ""
    modifies p.notes`title, p.notes`labelText, p.host`files, p.host`log, p.tagManager`tags,
             p.controller.manager`panels, p.controller.manager`notePaths, p.controller.manager`order,
             p.controller.manager.panels.Values`caption, p.controller.manager.panels.Values`inbox
    ensures p.Valid() && (old(p.controller.Valid()) ==> p.controller.Valid())
    ensures n.title == if old(p.Renames(n, t)) then t else old(n.title)
    ensures !old(p.Renames(n, t)) ==>
              p.host.files == old(p.host.files) && p.tagManager.tags == old(p.tagManager.tags)
              && p.controller.manager.panels == old(p.controller.manager.panels)
    ensures p.host.log == old(p.host.log)
                          + (if t == old(n.title) then []
                             else if old(p.TakenByOther(t, n)) then [Shown(Warning, DuplicateTitle(t))]
                             else if NotesPath(p.host.settings).None? then []
                             else if old(p.Renames(n, t)) then p.ListEvents()
                             else [Shown(Error, RenameFailed)])
                          + (if t != old(n.title) && !old(p.TakenByOther(t, n)) && NotesPath(p.host.settings).None? then []
                             else ViewEvents(v, p))
  {
    var completed := p.RenameNote(n, t);
    RefreshIf(v, p, completed);
  }

  /** The view's `refresh`, when the operation before it completed. */
  method RefreshIf(v: NotesViewProvider, p: NotesProvider, completed: bool)
    requires v.host == p.host
    modifies p.host`log
    ensures p.host.log == old(p.host.log) + (if completed then ViewEvents(v, p) else [])
    ensures p.ListEvents() == old(p.ListEvents())
  {
    if completed {
      v.Refresh(p.notes, p.filterText);
    }
  }

  /** `addNote`: the catalog adds the note and the view refreshes. */
  method OnAdd(v: NotesViewProvider, p: NotesProvider, title: string)
    requires p.Valid() && v.host == p.host
    modifies p`notes, p.host`files, p.host`log,
             p.controller.manager`panels, p.controller.manager`notePaths, p.controller.manager`order,
             p.controller.manager.panels.Values`inbox, p.controller.manager.panels.Values`revealCount
    ensures p.Valid() && (old(p.controller.Valid()) ==> p.controller.Valid())
    ensures title in old(TitlesOf(p.notes)) ==> p.notes == old(p.notes) && p.host.files == old(p.host.files)
    ensures title !in old(TitlesOf(p.notes)) && Creatable(p.host, title) ==>
              && |p.notes| == |old(p.notes)| + 1 && p.notes[..|old(p.notes)|] == old(p.notes)
              && p.notes[|old(p.notes)|].title == title && p.notes[|old(p.notes)|].tags == []
  {
    p.AddNote(title);
    v.Refresh(p.notes, p.filterText);
  }
}
