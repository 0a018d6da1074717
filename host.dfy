/** What the notes core sees of the editor host: a file system reduced to a
    map from path to content, the user-visible messages and list updates as
    an appended log, the webview panels it creates, and the extension's
    settings. Nothing here is part of the extension; it is the stage the
    extension acts on. */
module Host {
  import opened Options
  import opened Json
  import opened Text

  /** A file's content. `Doc` is the sidecar as the tag store reads or
      writes it: text that parses as JSON, given by its parsed value.
      `Text` is any other file; a note file is always `Text`. */
  datatype Content = Text(text: string) | Doc(doc: Json)

  /** The configuration keys the core reads (`enotes.notesPath`,
      `enotes.openNoteRightNow`, `enotes.defaultEditMode`) and the workspace
      folders, `None` when no workspace is open. An empty `notesPath` is an
      unset one. */
  datatype Settings = Settings(
    notesPath: string,
    workspaceFolders: Option<seq<string>>,
    openNoteRightNow: bool,
    defaultEditMode: Option<string>)

  datatype Severity = Warning | Error

  /** The messages the core shows the user. */
  datatype Notice =
    | DuplicateTitle(title: string)
    | PanelClosedFileGone(title: string)
    | InitFailed
    | LoadFailed
    | CreateFailed
    | TagDeleteFailed
    | FileDeleteFailed
    | DeleteFailed
    | RenameFailed
    | ReadNoteFailed
    | SaveNoteFailed
    | ClosePanelsFailed

  /** One row of the sidebar list: `{title, tags}`. */
  datatype Row = Row(title: string, tags: seq<string>)

  datatype Event =
    | Shown(severity: Severity, notice: Notice)
    | ListUpdate(rows: seq<Row>, filterText: string)
    | TreeChanged

  /** The `update` message an editor panel receives. An absent field is
      `None`; `keepContent` is false when the field is absent. */
  datatype PanelMessage = Update(
    noteTitle: Option<string>,
    content: Option<string>,
    tags: seq<string>,
    keepContent: bool,
    defaultEditMode: Option<string>)

  /** A webview panel as the host keeps it: its caption, whether it was
      disposed, the messages posted to it and how often it was revealed. */
  class Panel {
    var caption: string
    var disposed: bool
    var inbox: seq<PanelMessage>
    var revealCount: nat

    constructor (caption: string)
      ensures this.caption == caption && !disposed && inbox == [] && revealCount == 0
    {
      this.caption := caption;
      disposed := false;
      inbox := [];
      revealCount := 0;
    }

    /** `webview.postMessage`: a disposed panel drops the message. */
    method Post(m: PanelMessage)
      modifies this`inbox
      ensures inbox == if disposed then old(inbox) else old(inbox) + [m]
    {
      if !disposed {
        inbox := inbox + [m];
      }
    }

    method Reveal()
      modifies this`revealCount
      ensures revealCount == old(revealCount) + 1
    {
      revealCount := revealCount + 1;
    }

    method SetCaption(caption: string)
      modifies this`caption
      ensures this.caption == caption
    {
      this.caption := caption;
    }

    method Dispose()
      modifies this`disposed
      ensures disposed
    {
      disposed := true;
    }
  }

  /** `dir + "/" + name` is the path of a file directly inside `dir`. */
  predicate IsChild(dir: string, p: string) {
    |p| > |dir| + 1 && p[..|dir| + 1] == dir + "/" && '/' !in p[|dir| + 1..]
  }

  /** The names of the files directly inside `dir`. */
  function ChildNames(files: map<string, Content>, dir: string): set<string> {
    set p | p in files && IsChild(dir, p) :: p[|dir| + 1..]
  }

  /** `name` is the name of a file directly inside `dir`. */
  predicate InDir(files: map<string, Content>, dir: string, name: string) {
    name != [] && '/' !in name && dir + "/" + name in files
  }

  /** The names listed for `dir` are exactly the names of its files. */
  lemma ChildNamesInDir(files: map<string, Content>, dir: string)
    ensures forall name :: name in ChildNames(files, dir) <==> InDir(files, dir, name)
  {
    forall name | InDir(files, dir, name) ensures name in ChildNames(files, dir) {
      var p := dir + "/" + name;
      assert p[..|dir| + 1] == dir + "/" && p[|dir| + 1..] == name;
    }
    forall name | name in ChildNames(files, dir) ensures InDir(files, dir, name) {
      var p :| p in files && IsChild(dir, p) && p[|dir| + 1..] == name;
      assert p == p[..|dir| + 1] + p[|dir| + 1..];
    }
  }

  class Host {
    var files: map<string, Content>
    /** Paths on which every file operation fails. */
    const faulty: set<string>
    var log: seq<Event>
    const settings: Settings

    constructor (files: map<string, Content>, faulty: set<string>, settings: Settings)
      ensures this.files == files && this.faulty == faulty && this.settings == settings
      ensures log == []
    {
      this.files := files;
      this.faulty := faulty;
      this.settings := settings;
      log := [];
    }

    /** A read, a stat or a delete of `path` succeeds. */
    predicate Readable(path: string)
      reads this`files
    {
      path in files && path !in faulty
    }

    /** What a read of `path` gives now. */
    function Lookup(path: string): (r: Option<Content>)
      reads this`files
      ensures r.Some? <==> Readable(path)
      ensures r.Some? ==> r.value == files[path]
    {
      if Readable(path) then Some(files[path]) else None
    }

    /** `workspace.fs.readFile`. */
    method ReadFile(path: string) returns (r: Option<Content>)
      ensures r == Lookup(path)
    {
      r := Lookup(path);
    }

    /** `fs.readFileSync(path, 'utf-8')`; a JSON document is not read as
        text in this model. */
    method ReadText(path: string) returns (r: Option<string>)
      ensures r == ReadTextOf(path)
    {
      r := ReadTextOf(path);
    }

    /** What a text read of `path` gives now. */
    function ReadTextOf(path: string): (r: Option<string>)
      reads this`files
      ensures r.Some? <==> Readable(path) && files[path].Text?
      ensures r.Some? ==> r.value == files[path].text
    {
      if Readable(path) && files[path].Text? then Some(files[path].text) else None
    }

    /** `workspace.fs.writeFile` and `fs.writeFileSync`: create or replace. */
    method WriteFile(path: string, c: Content) returns (ok: bool)
      modifies this`files
      ensures ok == (path !in faulty)
      ensures files == if ok then old(files)[path := c] else old(files)
    {
      ok := path !in faulty;
      if ok {
        files := files[path := c];
      }
    }

    /** `workspace.fs.delete`: fails on a missing file. */
    method Delete(path: string) returns (ok: bool)
      modifies this`files
      ensures ok == old(Readable(path))
      ensures files == if ok then old(files) - {path} else old(files)
    {
      ok := Readable(path);
      if ok {
        files := files - {path};
      }
    }

    /** `workspace.fs.stat` succeeds. */
    method Stat(path: string) returns (found: bool)
      ensures found == Readable(path)
    {
      found := Readable(path);
    }

    /** `workspace.fs.readDirectory`: the names of the files directly inside
        `dir`, each once, in an order the host chooses. */
    method ReadDirectory(dir: string) returns (r: Option<seq<string>>)
      ensures r.Some? <==> dir !in faulty
      ensures r.Some? ==> NoDups(r.value)
      ensures r.Some? ==> forall n :: n in r.value <==> InDir(files, dir, n)
    {
      ChildNamesInDir(files, dir);
      if dir in faulty {
        return None;
      }
      var names: seq<string> := [];
      var left := ChildNames(files, dir);
      while left != {}
        invariant NoDups(names)
        invariant forall n :: n in names ==> n !in left
        invariant forall n :: n in ChildNames(files, dir) <==> n in names || n in left
        decreases |left|
      {
        var n :| n in left;
        names := names + [n];
        left := left - {n};
      }
      r := Some(names);
    }

    /** `showWarningMessage` / `showErrorMessage`. */
    method Show(severity: Severity, notice: Notice)
      modifies this`log
      ensures log == old(log) + [Shown(severity, notice)]
    {
      log := log + [Shown(severity, notice)];
    }

    /** Posting a message to the sidebar list, or firing a tree change. */
    method Emit(e: Event)
      modifies this`log
      ensures log == old(log) + [e]
    {
      log := log + [e];
    }
  }
}
