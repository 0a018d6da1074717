/** The editor controller (src/controllers/PanelController.js): it owns
    the panel registry and forwards to it, deriving a note's file from its
    title. */
module Controller {
  import opened Options
  import opened Host
  import opened Config
  import opened Items
  import opened Webview

  class PanelController {
    const host: Host
    const manager: PanelManager

    ghost predicate Valid()
      reads manager`panels, manager`notePaths, manager`order, manager.panels.Values`disposed
    {
      manager.host == host && manager.Valid()
    }

    constructor (host: Host)
      ensures this.host == host && manager.host == host && Valid() && fresh(manager)
      ensures manager.panels == map[] && manager.notePaths == map[]
    {
      this.host := host;
      manager := new PanelManager(host);
    }

    /** `showPanel`: opens or reveals the note's editor on the file its
        title names; fails, changing nothing, when the notes directory is
        unknown. */
    method ShowPanel(note: NoteItem) returns (ok: bool)
      requires manager.host == host
      modifies manager`panels, manager`notePaths, manager`order, host`log
      modifies (if note.title in manager.panels then {manager.panels[note.title]} else {})`inbox
      modifies (if note.title in manager.panels then {manager.panels[note.title]} else {})`revealCount
      ensures old(Valid()) ==> Valid()
      ensures ok == NoteUri(host.settings, note.title).Some?
      ensures !ok ==> manager.panels == old(manager.panels) && manager.notePaths == old(manager.notePaths)
                      && manager.order == old(manager.order) && host.log == old(host.log)
      ensures ok ==> note.title in manager.panels
      ensures ok && old(note.title in manager.panels) ==>
                && manager.panels == old(manager.panels) && manager.notePaths == old(manager.notePaths)
                && manager.order == old(manager.order) && host.log == old(host.log)
                && manager.panels[note.title].revealCount == old(manager.panels[note.title].revealCount) + 1
                && manager.panels[note.title].inbox
                   == old(manager.panels[note.title].inbox)
                      + (if old(manager.panels[note.title].disposed) then [] else [Update(None, None, note.tags, false, None)])
      ensures ok && old(note.title !in manager.panels) ==>
                && fresh(manager.panels[note.title])
                && manager.panels == old(manager.panels)[note.title := manager.panels[note.title]]
                && manager.order == SetKey(old(manager.order), note.title)
                && manager.notePaths == old(manager.notePaths)[note.title := NoteUri(host.settings, note.title).value]
                && manager.panels[note.title].caption == Caption(note.title)
                && manager.panels[note.title].inbox
                   == manager.Opening(note.title, old(host.ReadTextOf(NoteUri(host.settings, note.title).value)), note.tags)
                && host.log == old(host.log)
                               + (if old(host.ReadTextOf(NoteUri(host.settings, note.title).value)).Some? then []
                                  else [Shown(Error, ReadNoteFailed)])
    {
      match NoteUri(host.settings, note.title)
      case None =>
        ok := false;
      case Some(uri) =>
        manager.CreateOrShow(note.title, uri, note.tags);
        ok := true;
    }

    /** `closePanel`: uses only the title and passes the registry's answer
        back. */
    method ClosePanel(title: string) returns (closed: bool)
      modifies manager`panels, manager`notePaths, manager`order, (if title in manager.panels then {manager.panels[title]} else {})`disposed
      ensures old(Valid()) ==> Valid()
      ensures closed == old(title in manager.panels)
      ensures closed ==> old(manager.panels[title]).disposed
      ensures manager.panels == old(manager.panels) - {title}
      ensures manager.notePaths == if closed then old(manager.notePaths) - {title} else old(manager.notePaths)
      ensures manager.order == if closed then DeleteKey(old(manager.order), title) else old(manager.order)
    {
      closed := manager.ClosePanel(title);
    }

    /** `closePanel` for each title in turn: each registered one is
        disposed and leaves the registry. */
    method ClosePanels(titles: seq<string>)
      modifies manager`panels, manager`notePaths, manager`order, manager.panels.Values`disposed
      ensures old(Valid()) ==> Valid()
      ensures forall k :: k in manager.panels <==> k in old(manager.panels) && k !in titles
      ensures forall k :: k in manager.panels ==> manager.panels[k] == old(manager.panels)[k]
      ensures forall k :: k in manager.notePaths <==>
                k in old(manager.notePaths) && (k !in titles || k !in old(manager.panels))
      ensures forall k :: k in manager.notePaths ==> manager.notePaths[k] == old(manager.notePaths)[k]
      ensures forall k :: k in old(manager.panels) && k in titles ==> old(manager.panels)[k].disposed
    {
      manager.CloseEach(titles);
    }

    /** `updateNoteTitle`, forwarded unchanged. */
    method UpdateNoteTitle(oldTitle: string, newTitle: string, tags: seq<string>, newPath: string)
      modifies manager`panels, manager`notePaths, manager`order
      modifies (if oldTitle in manager.panels then {manager.panels[oldTitle]} else {})`caption
      modifies (if oldTitle in manager.panels then {manager.panels[oldTitle]} else {})`inbox
      ensures old(Valid()) ==> Valid()
      ensures old(oldTitle !in manager.panels) ==>
                manager.panels == old(manager.panels) && manager.notePaths == old(manager.notePaths)
                && manager.order == old(manager.order)
      ensures old(oldTitle in manager.panels) ==>
                var p := old(manager.panels[oldTitle]);
                && manager.panels == (old(manager.panels) - {oldTitle})[newTitle := p]
                && manager.notePaths == (old(manager.notePaths) - {oldTitle})[newTitle := newPath]
                && manager.order == SetKey(DeleteKey(old(manager.order), oldTitle), newTitle)
                && p.caption == Caption(newTitle)
                && p.inbox == old(p.inbox) + (if old(p.disposed) then [] else [Update(Some(newTitle), None, tags, true, None)])
    {
      manager.UpdateNoteTitle(oldTitle, newTitle, tags, newPath);
    }

    /** `updateNoteTags`, forwarded unchanged. */
    method UpdateNoteTags(title: string, tags: seq<string>)
      modifies (if title in manager.panels then {manager.panels[title]} else {})`inbox
      ensures old(Valid()) ==> Valid()
      ensures title in manager.panels ==>
                manager.panels[title].inbox == old(manager.panels[title].inbox)
                                               + (if old(manager.panels[title].disposed) then [] else [Update(None, None, tags, true, None)])
    {
      manager.UpdateNoteTags(title, tags);
    }
  }
}
