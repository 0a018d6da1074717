/** Where notes live (src/utils/config.js; src/main.js has identical copies):
    the notes directory chosen from the settings, and the file of a note
    derived from its title. The directory creation that `getNotesPath` also
    performs is not part of this model. */
module Config {
  import opened Options
  import opened Text
  import opened Host

  /** `getNotesPath`: the configured directory when it is set, otherwise
      `.vscode/notes` in the first workspace folder; `None` stands for the
      error thrown when there is no workspace folder. */
  function NotesPath(s: Settings): (r: Option<string>)
    ensures s.notesPath != "" ==> r == Some(s.notesPath)
    ensures s.notesPath == "" ==>
              (r.Some? <==> s.workspaceFolders.Some? && s.workspaceFolders.value != [])
    ensures s.notesPath == "" && r.Some? ==> r.value == s.workspaceFolders.value[0] + "/.vscode/notes"
  {
    if s.notesPath != "" then Some(s.notesPath)
    else if s.workspaceFolders.Some? && s.workspaceFolders.value != [] then
      Some(s.workspaceFolders.value[0] + "/.vscode/notes")
    else None
  }

  /** The file name (without `.md`) of a note: the title up to its first `[`,
      trimmed. */
  function FileName(title: string): (r: string)
    ensures '[' !in r && Trimmed(r)
    ensures '/' !in title ==> '/' !in r
  {
    var head := BeforeFirst(title, '[');
    var r := Trim(head);
    assert forall i :: 0 <= i < |r| ==> r[i] == head[LeadingSpaces(head) + i];
    assert forall i :: 0 <= i < |head| ==> head[i] == title[i];
    r
  }

  /** A name that is already trimmed and free of `[` is its own file name. */
  lemma FileNameOfName(name: string)
    requires '[' !in name && Trimmed(name)
    ensures FileName(name) == name
  {
    BeforeFirstConcat(name, "", '[');
    assert name + "" == name;
    TrimUnique(name, 0, |name|);
    assert name[0..|name|] == name;
  }

  /** Whatever follows a title after spaces and a `[` does not change its
      file name. */
  lemma FileNameIgnoresBracketSuffix(title: string, sp: string, rest: string)
    requires AllSpace(sp)
    ensures FileName(title + sp + "[" + rest) == FileName(title)
  {
    assert title + sp + "[" + rest == title + (sp + ("[" + rest));
    BeforeFirstConcat(title, sp + ("[" + rest), '[');
    if '[' !in title {
      assert '[' !in sp;
      BeforeFirstConcat(sp, "[" + rest, '[');
      assert sp + BeforeFirst("[" + rest, '[') == sp;
      BeforeFirstConcat(title, "", '[');
      assert title + "" == title;
      TrimAppendSpaces(title, sp);
    }
  }

  /** `getNoteUri`: the note's file in the notes directory. */
  function NoteUri(s: Settings, title: string): (r: Option<string>)
    ensures r.Some? <==> NotesPath(s).Some?
    ensures r.Some? ==> NotesPath(s).value + "/" <= r.value
    ensures r.Some? && '/' !in title ==> IsChild(NotesPath(s).value, r.value)
    ensures r.Some? ==> EndsWith(r.value, ".md")
  {
    match NotesPath(s)
    case None => None
    case Some(dir) =>
      var name := FileName(title) + ".md";
      assert '/' !in title ==> '/' !in name by {
        assert forall i :: 0 <= i < |FileName(title)| ==> name[i] == FileName(title)[i];
      }
      assert (dir + "/" + name)[..|dir| + 1] == dir + "/";
      assert (dir + "/" + name)[|dir| + 1..] == name;
      Some(dir + "/" + name)
  }

  /** `${notesPath}/tags.json`, the sidecar holding tags and pins. */
  function SidecarPath(s: Settings): (r: Option<string>)
    ensures r.Some? <==> NotesPath(s).Some?
    ensures r.Some? ==> !EndsWith(r.value, ".md")
  {
    match NotesPath(s)
    case None => None
    case Some(dir) =>
      var p := dir + "/tags.json";
      assert p[|p| - 3..] == "son";
      Some(p)
  }

  /** A note listed from the directory as `name.md`, with a name that has
      no `[` and no surrounding whitespace, is opened, renamed and deleted
      through that same file. */
  lemma NoteUriOfListedName(s: Settings, name: string)
    requires NotesPath(s).Some?
    requires '[' !in name && Trimmed(name)
    ensures NoteUri(s, name) == Some(NotesPath(s).value + "/" + name + ".md")
  {
    FileNameOfName(name);
    var dir := NotesPath(s).value;
    assert dir + "/" + (name + ".md") == dir + "/" + name + ".md";
  }

  /** A file listed as `<name> [<rest>].md` is titled `<name> [<rest>]`,
      and that title maps to `<name>.md`, another file: opening, renaming
      or deleting the listed note acts on `<name>.md`. */
  lemma ListedBracketNameMissesFile(s: Settings, name: string, rest: string)
    requires NotesPath(s).Some?
    requires '[' !in name && Trimmed(name)
    ensures NoteUri(s, name + " [" + rest) == Some(NotesPath(s).value + "/" + name + ".md")
    ensures NoteUri(s, name + " [" + rest).value != NotesPath(s).value + "/" + (name + " [" + rest) + ".md"
  {
    assert name + " [" + rest == name + " " + "[" + rest;
    FileNameIgnoresBracketSuffix(name, " ", rest);
    NoteUriOfListedName(s, name);
    var dir := NotesPath(s).value;
    assert |dir + "/" + name + ".md"| < |dir + "/" + (name + " [" + rest) + ".md"|;
  }

  /** A save of the tag store on `host` succeeds: the notes directory is
      known and the write to the sidecar does not fail. */
  predicate SidecarSaves(host: Host) {
    SidecarPath(host.settings).Some? && SidecarPath(host.settings).value !in host.faulty
  }

  /** A note can be created on `host` under `title`: its file has a path
      and the write to it succeeds. */
  predicate Creatable(host: Host, title: string) {
    NoteUri(host.settings, title).Some? && NoteUri(host.settings, title).value !in host.faulty
  }
}
