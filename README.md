# Enotes catalog, tag store and editor registry in Dafny

Enotes is a VS Code extension that keeps Markdown notes in one directory.
Each note is one file, `<notes directory>/<name>.md`. A sidecar file,
`tags.json`, sits beside the notes and records each note's tags and its
pinned flag. This project models the state manager at the core of the
extension and proves properties of it. The state manager has four parts:

- **The tag store** (`Tags.TagManager`). It holds two maps: title to tags
  (`tags`) and title to metadata (`metadata`). It writes them to the
  sidecar in the structured form `{tags, metadata}`. It also reads the
  older flat form `{title: [tags]}`.
- **The catalog** (`Provider.NotesProvider`). It holds the ordered list of
  note items and the filter text of the sidebar. It adds, deletes, renames
  and retags notes, and rebuilds the list from the directory listing.
- **The editor registry** (`Webview.PanelManager`). It keeps at most one
  editor panel per title, in two maps keyed by title: `panels` and
  `notePaths`. The controller (`Controller.PanelController`) forwards
  show, close, retitle and retag requests to it.
- **The sidebar list** (`ListView.NotesViewProvider`). It shows the notes
  that pass the filter. Its message handler is in `Dispatch`.

`src/main.js` holds an older, self-contained variant of the catalog and
the tag store. `Legacy` models it as a second instance.

The host is modelled in module `Host`:

- The file system is a map from path to content. A `Doc` entry is the
  sidecar as the tag store reads or writes it: a file whose text parses as
  JSON, given by its parsed value. A `Text` entry is any other file, and a
  note file is always one, whatever its text.
- A set of `faulty` paths makes every operation on them fail: writes,
  reads, deletes and directory listings. A read, a stat or a delete also
  fails when the path is absent.
- A directory listing gives the files directly inside the directory.
- Everything the extension shows or sends is appended to a `log`: error and
  warning messages, list updates, tree changes.
- Editor panels are small objects. Each records its caption, whether it is
  disposed, how often it was revealed, and the messages posted to it.
- The settings (notes path, workspace folders, open-on-create,
  default edit mode) are a fixed record.

Every operation runs to completion before the next one starts. A call the
source does not await is applied whole at once, including any sidecar save it makes. Its
failure stops nothing.

Modules follow the source files:

| module | file |
|---|---|
| `Options`, `Json`, `Text`, `Host` | values and the host |
| `Config` | src/utils/config.js |
| `Items` | src/models/NoteItem.js |
| `Tags` | src/services/TagManager.js |
| `Webview` | src/webview.js |
| `Controller` | src/controllers/PanelController.js |
| `ListView` | src/notesView.js (the refresh projection) |
| `Provider` | src/providers/NotesProvider.js |
| `Dispatch` | src/notesView.js (the message handler) |
| `Legacy` | src/main.js |

## Model

| member | source | states |
|---|---|---|
| Config.NotesPath | src/utils/config.js:16-30 | A non-empty configured path is used as is. Otherwise the result is `<first workspace folder>/.vscode/notes`. There is no path exactly when there is no workspace folder. |
| Config.FileName | src/utils/config.js:38 | The file name derived from a title contains no `[` and has no leading or trailing whitespace. It contains no `/` unless the title does. |
| Config.FileNameOfName | src/utils/config.js:38 | A name with no `[` and no surrounding whitespace is its own file name. |
| Config.FileNameIgnoresBracketSuffix | src/utils/config.js:38 | Titles that agree up to whitespace and a first `[` name the same file. |
| Config.ListedBracketNameMissesFile | src/providers/NotesProvider.js:62-65 | A listed file `<name> [<rest>].md` gives a title whose note path is `<dir>/<name>.md`, not the listed file. |
| Config.NoteUri | src/utils/config.js:37-41 | A note path exists exactly when the notes directory is known. It lies directly in that directory when the title has no `/`, and it ends in `.md`. |
| Config.SidecarPath | src/services/TagManager.js:18-19 | The sidecar path exists exactly when the notes directory is known. It never ends in `.md`, so it is never a note's file. |
| Config.NoteUriOfListedName | src/providers/NotesProvider.js:62-68 | For a listed name with no `[` and no surrounding whitespace, the note path is exactly `<dir>/<name>.md`. |
| Items.FormatTags | src/models/NoteItem.js:22-24 | The result is empty exactly for no tags. Otherwise it is bracketed. |
| Items.Label | src/models/NoteItem.js:13 | A label starts with the title and two spaces. An untagged label is exactly that. |
| Items.FileNameOfLabel | src/models/NoteItem.js:13 | A label names the same file as its title. |
| Items.NoteItem.constructor | src/models/NoteItem.js:7-20 | The title, tooltip and tags are set, and the label is `Label(title, tags)`. `pinned` is left unset (no fourth parameter). The command opens the item itself. |
| Items.TitlesOfSpec | src/providers/NotesProvider.js:93 | The i-th title of the list is the i-th note's title. |
| Items.RowsOfSpec | src/notesView.js:90 | The rows posted carry exactly each note's title and tags, in list order. |
| Items.FindIndex | src/notesView.js:39 | The result is the first index whose title matches, or none when no title matches. |
| Items.Find | src/notesView.js:39 | The result is the note at the first occurrence of the title, or none when the title is not listed. |
| Items.FindDistinct | src/providers/NotesProvider.js:93-96 | With unique titles, looking up any listed note's title finds that very note. |
| Items.DistinctSnoc | src/providers/NotesProvider.js:93-104 | Appending a note whose title is not listed keeps titles unique. |
| Json.IsObject | src/services/TagManager.js:24 | A value of type object (an object or an array) is truthy. |
| Text.Trim | src/utils/config.js:38 | The result has no surrounding whitespace and is a contiguous part of the input. |
| Text.TrimUnique | src/providers/NotesProvider.js:193 | Any whitespace-only prefix and suffix around a trimmed middle are exactly what trim removes. |
| Text.TrimAppendSpaces | src/utils/config.js:38 | Trailing whitespace does not change the trimmed result. |
| Text.Split | src/providers/NotesProvider.js:192 | There is at least one piece, and no piece contains the separator. |
| Text.JoinSplit | src/providers/NotesProvider.js:192 | Joining the pieces with the separator gives back the input. |
| Text.BeforeFirstIsFirstPiece | src/utils/config.js:38 | The text before the first `[` is the first piece of the split. |
| Text.IncludesIff | src/notesView.js:84 | `includes` holds exactly when the text occurs at some position. |
| Text.DedupeSpec | src/providers/NotesProvider.js:196 | Removing duplicates through a set gives no duplicates and the same members, in first-occurrence order. |
| Text.DedupeNoDups | src/providers/NotesProvider.js:196 | A list without duplicates is unchanged. |
| Tags.EncodeList | src/services/TagManager.js:76 | A tag list is stored as an array of the same length. |
| Tags.DecodeEncode | src/services/TagManager.js:113-115 | Decoding a stored tag list gives it back. |
| Tags.GetTagsIn | src/services/TagManager.js:113-115 | A title with no entry, or with a falsy entry, has no tags. An entry that is not an array gives no tags. The legacy `getTags` (src/main.js:192-194) is the same read on the flat map. |
| Tags.TagManager.GetTags | src/services/TagManager.js:113-115 | A title with no entry has no tags. The store is only read. |
| Tags.Wrap | src/services/TagManager.js:73-75 | The value stored is an array. An array is kept as it is. Anything else becomes a one-element array. |
| Tags.Renamed | src/services/TagManager.js:86-96 | A truthy entry (any array, even an empty one) moves to the new key, and the old key is removed. Otherwise the new key gets `[]`. Every other key is unchanged. |
| Tags.RenameMovesTags | src/services/TagManager.js:86-96 | After a rename, the new title has the old title's tags and the old title has none. |
| Tags.Pinned | src/services/TagManager.js:122-125 | A note is pinned exactly when its metadata is an object whose `pinned` field is `true`. |
| Tags.WithPinned | src/services/TagManager.js:133-138 | The flag is set on the note's metadata. The metadata's other fields and every other note's metadata are kept. The update fails when the existing entry is a truthy non-object, where the assignment throws in strict mode. |
| Tags.Document | src/services/TagManager.js:57-62 | The saved document has exactly the fields `tags` and `metadata`. |
| Tags.Load | src/services/TagManager.js:17-46 | An object with a truthy `tags` field is structured. Any other object is flat, with no metadata. A non-object, a failed read or an unparsable file gives empty maps, and an empty document is written back. |
| Tags.LoadSave | src/services/TagManager.js:57-62 | Saving and loading gives back both maps. |
| Tags.LoadWithoutMetadata | src/services/TagManager.js:24-28 | An object with a truthy `tags` field and a missing or falsy `metadata` field is read as structured, with empty metadata. |
| Tags.LoadFlatIff | src/services/TagManager.js:24-32 | A flat map is read as flat exactly when it has no truthy entry named `tags`. |
| Tags.ChangeThenGet | src/services/TagManager.js:72-77 | After `changeTag`, the key's tags are the list stored, and every other key's tags are unchanged. |
| Tags.TagManager.constructor | src/services/TagManager.js:8-11 | Both maps start empty. |
| Tags.TagManager.SaveTags | src/services/TagManager.js:52-64 | The structured document is written to the sidecar. The save fails, changing nothing, when the directory is unknown or the write fails. |
| Tags.TagManager.InitializeTags | src/services/TagManager.js:17-46 | Both maps are set to `Load` of what was read. The rewrite happens only when needed. An unknown directory fails before the read. |
| Tags.TagManager.ChangeTag | src/services/TagManager.js:72-78 | The wrapped value is stored under the key. The metadata map is unchanged. The save outcome is reported. |
| Tags.TagManager.RenameTag | src/services/TagManager.js:86-96 | `tags` becomes `Renamed`, and the metadata is unchanged. |
| Tags.TagManager.DeleteTag | src/services/TagManager.js:103-106 | Only the tags entry is removed. The metadata entry survives. |
| Tags.TagManager.GetPinned | src/services/TagManager.js:122-125 | A note reads as pinned only if it has a metadata entry. |
| Tags.TagManager.SetPinned | src/services/TagManager.js:133-138 | The metadata becomes `WithPinned`, and the tags are unchanged. |
| Webview.SetKey | src/webview.js:186 | Setting a key keeps the insertion order of a JS Map. An existing key keeps its place, and a new one goes last. |
| Webview.DeleteKey | src/webview.js:198 | Deleting a key removes exactly that key. Without duplicates, the result has none. An absent key changes nothing. |
| Webview.DeleteKeyAppend | src/webview.js:198 | Deleting a key from a concatenation deletes it from each part, so the other keys keep their order. |
| Webview.DeleteKeyAt | src/webview.js:198 | Without duplicates, deleting the key at position i leaves the keys before and after it, in order. |
| Webview.InjectiveRekey | src/webview.js:218-219 | Re-keying keeps one title per panel. |
| Webview.RegisteredAdd | src/webview.js:186 | Registering a new panel keeps `panels`, `notePaths` and the key order in step. |
| Webview.RegisteredRemove | src/webview.js:198-199 | Removing a title keeps the two maps in step. |
| Webview.RegisteredRekey | src/webview.js:218-222 | Re-keying keeps the two maps in step. |
| Webview.PanelManager.CreateOrShow | src/webview.js:89-187 | For a registered title: no second panel, the maps are unchanged, the panel is revealed, and it is posted `{update, tags}` only. For a new title: a fresh panel and its path are registered under the title. The panel's first message carries the title, the content, the tags and the default edit mode. A read failure is reported, and the panel is still registered. The two maps stay in step. |
| Webview.PanelManager.Opening | src/webview.js:127-139 | The first message exists exactly when the note could be read. It carries the title and the content, and it does not keep old content. |
| Webview.PanelManager.ClosePanel | src/webview.js:194-203 | A registered title's panel is disposed and the title removed from both maps and the key order, and the result is true. Otherwise the result is false and nothing changes. The two maps stay in step. |
| Webview.PanelManager.CloseEach | src/main.js:265-268 | Closing a list of titles disposes the panel of each one registered and removes exactly those titles. The rest keep their panels and paths. |
| Webview.PanelManager.UpdateNoteTitle | src/webview.js:212-231 | An unregistered title is a no-op. Otherwise the same panel moves to the new key with the new path, and its caption changes. It is posted an update with the new title, the tags and `keepContent`, and no content. |
| Webview.PanelManager.UpdateNoteTags | src/webview.js:238-247 | A registered panel is posted `{update, tags, keepContent}`. The maps are unchanged. |
| Webview.PanelManager.HandleSave | src/webview.js:145-157 | A save writes to the path registered under the message's title at arrival. A missing path, or a failed write, is reported and nothing is written. |
| Webview.PanelManager.OnDidDispose | src/webview.js:177-181 | Closing an editor removes every key that still maps to it, so the maps stay in step after a rename. This is the corrected handler; see Findings. |
| Webview.DisposedAsWritten | src/webview.js:177-181 | The handler as written removes the title captured at creation. |
| Webview.DisposeAfterRenameKeepsPanel | src/webview.js:177-181 | After a rename from `a` to `b`, closing the editor as written leaves `b` registered to the closed panel. The corrected handler leaves nothing. |
| Webview.DisposedFixed | src/webview.js:177-181 | The corrected handler removes exactly the keys mapping to the closed panel. |
| Webview.DisposedFixedForgets | src/webview.js:177-181 | After the corrected handler the panel is no longer registered, and the two maps keep equal keys. |
| Webview.ClosedAsWritten | src/webview.js:177-181 | `closePanel` as written removes the title and also the title captured when the closed panel was created. |
| Webview.ClosedFixed | src/webview.js:194-203 | `closePanel` with the corrected handler removes the title. |
| Webview.ClosedFixedRemovesOnly | src/webview.js:194-203 | With one title per panel, the corrected close removes that title and nothing else. |
| Webview.CloseAfterRenameDropsReopened | src/webview.js:177-181 | Open `a`, rename it to `b`, open a new `a`, close `b`: as written both entries go, while the corrected close keeps the new `a`. |
| Controller.PanelController.ShowPanel | src/controllers/PanelController.js:16-19 | The registry is asked to show the note under its title, with the path derived from the title and with its tags. An open editor is revealed once more and, unless disposed, posted `{update, tags}`, with the maps, the key order and the log unchanged. For a new title a fresh panel is registered, the other titles keep their panels, the title goes last in the key order, and the panel gets its path, caption and first message; a read failure is reported. With no notes directory the call fails and nothing changes. |
| Controller.PanelController.ClosePanel | src/controllers/PanelController.js:26-28 | Only the title is used, and the registry's result is returned unchanged. A registered title's panel is disposed and the title leaves both maps and the key order. |
| Controller.PanelController.ClosePanels | src/main.js:265-268 | Each listed title is closed in turn: its panel is disposed, and exactly the listed titles leave the registry. |
| Controller.PanelController.UpdateNoteTitle | src/controllers/PanelController.js:37-39 | The four arguments are forwarded. An open editor moves to the new title and path and takes the new title's place in the key order (last unless the new title is already registered), its caption changes, and it is told the new title with `keepContent`. An unregistered title changes nothing. |
| Controller.PanelController.UpdateNoteTags | src/controllers/PanelController.js:46-48 | The two arguments are forwarded. |
| ListView.Filtered | src/notesView.js:81-86 | The filtered list is no longer than the list. |
| ListView.FilteredMembers | src/notesView.js:81-86 | A row is kept exactly when it is listed and its lower-cased title contains the lower-cased filter. |
| ListView.FilteredAppend | src/notesView.js:81-86 | Filtering keeps list order. |
| ListView.Visible | src/notesView.js:78-86 | An empty filter shows every note in list order. |
| ListView.VisibleMembers | src/notesView.js:81-86 | A non-empty filter shows exactly the matching rows. |
| ListView.VisibleIff | src/notesView.js:81-86 | A row is shown exactly when the lower-cased filter occurs in its lower-cased title. |
| ListView.EmptyFilterMatchesAll | src/notesView.js:78-86 | The empty text matches every title, so filtering by it changes nothing. |
| ListView.NotesViewProvider.Refresh | src/notesView.js:76-94 | Before a view exists, nothing is sent. Afterwards the visible `{title, tags}` rows are sent, with the filter echoed. The notes are only read. |
| ListView.NotesViewProvider.Resolve | src/notesView.js:14-74 | Resolving the view sends it the current rows. |
| ListView.NotesViewProvider.OnDidChangeVisibility | src/notesView.js:25-29 | The view is refreshed only when it becomes visible. |
| Dispatch.ViewEvents | src/notesView.js:76-94 | The view's refresh sends one update once the view exists, and nothing before. |
| Dispatch.Handle | src/notesView.js:32-70 | Every message keeps the catalog's invariants (unique titles), and a registry whose maps were in step stays in step. An unknown command does nothing. |
| Dispatch.OnFilter | src/notesView.js:34-37 | The filter is set, a missing text becoming `''`, and both refreshes are sent. |
| Dispatch.OnOpen | src/notesView.js:38-43 | With no note of that title nothing happens. Otherwise its editor is shown. |
| Dispatch.OnDelete | src/notesView.js:44-50 | With no note of that title nothing happens. Otherwise its editor is disposed and leaves the registry, and its tags are dropped. The note leaves the list exactly when its file could be deleted. |
| Dispatch.OnRename | src/notesView.js:51-57 | With no note of the old title, or a missing or empty new title, nothing changes. Otherwise a rename that can go ahead retitles that note. The log is the rename's own log followed by the view's refresh, and the refresh is skipped when the rename fails for want of a notes directory. |
| Dispatch.OnEditTags | src/notesView.js:58-64 | With no note of that title, or a missing tag text, nothing changes. Otherwise the note gets the normalised tags, and the store records them. The list and the view are refreshed exactly when the sidecar save succeeds. |
| Dispatch.OnAdd | src/notesView.js:65-68 | A listed title changes nothing. A new creatable title is appended, untagged. |
| Provider.TrimAll | src/providers/NotesProvider.js:193 | Each piece is trimmed, in place. |
| Provider.NonEmpty | src/providers/NotesProvider.js:194 | Exactly the non-empty pieces are kept, and the result is no longer than the input. |
| Provider.NonEmptyAppend | src/providers/NotesProvider.js:194 | Filtering a concatenation filters each part, so the kept pieces stay in order. |
| Provider.NonEmptyFirstIndex | src/providers/NotesProvider.js:194 | Two kept pieces appear in the filtered list in the order of their first occurrence among all the pieces. |
| Provider.NormaliseOrder | src/providers/NotesProvider.js:192-196 | After dropping empty pieces and duplicates, the tags keep the order of their first occurrence among the pieces. |
| Provider.NormaliseExample | src/providers/NotesProvider.js:192-196 | `" a, b ,,a "` normalises to `["a", "b"]`. |
| Provider.NormaliseTags | src/providers/NotesProvider.js:192-196 | The tags are exactly the non-empty trimmed comma pieces, without duplicates, in the order of their first occurrence. Each is non-empty, trimmed and free of commas. |
| Provider.NormaliseJoined | src/providers/NotesProvider.js:192-196 | Tags shown joined by `, ` normalise back to themselves. |
| Provider.NormaliseIdempotent | src/providers/NotesProvider.js:192-196 | Normalising the joined normal form changes nothing. |
| Provider.MdTitles | src/providers/NotesProvider.js:62-65 | The titles are exactly the listed `.md` names with the extension removed. |
| Provider.MdTitlesNoDups | src/providers/NotesProvider.js:62-65 | Distinct file names give distinct titles. |
| Provider.StaleTitlesMembers | src/providers/NotesProvider.js:45-54 | The titles closed on reload are exactly the open ones whose file is gone. |
| Provider.StaleTitlesSnoc | src/providers/NotesProvider.js:46-54 | The stale titles are found one open editor at a time, in order. |
| Provider.GoneWarningsSpec | src/providers/NotesProvider.js:52 | One warning is shown per closed editor, naming its title. |
| Provider.MovedAsWritten | src/providers/NotesProvider.js:171-174 | The move as written (read, write, delete) always ends with the old path absent. |
| Provider.SameFileRenameLosesNote | src/providers/NotesProvider.js:170-178 | Renaming `t` to `t [x]` maps both titles to one file, and the move as written deletes it. |
| Provider.Moved | src/providers/NotesProvider.js:171-174 | The corrected move: the new path holds the old content, and the old path is gone unless it is the new one. Every other path is unchanged. |
| Provider.MoveFile | src/providers/NotesProvider.js:171-174 | The move succeeds exactly when the old file can be read and the new path written. It then changes the files as `Moved` does, and otherwise changes nothing. |
| Provider.WithSidecar | src/services/TagManager.js:52-64 | A store save never touches a note file. |
| Provider.Without | src/providers/NotesProvider.js:140-143 | Removing a listed item drops its first occurrence and keeps the others in order, so the list is one shorter. An unlisted item changes nothing. |
| Provider.WithoutDistinct | src/providers/NotesProvider.js:140-143 | Removing a note keeps titles unique. |
| Provider.CatalogOfListing | src/providers/NotesProvider.js:62-69 | Building one item per `.md` name, untagged except for its stored tags, gives the catalog of that directory. |
| Provider.NotesFor | src/providers/NotesProvider.js:62-69 | One fresh item per title, in order, with the title's stored tags and a two-space label. |
| Provider.NotesProvider.constructor | src/providers/NotesProvider.js:11-18 | The catalog starts empty with an empty filter, no view and no registered editors. |
| Provider.NotesProvider.Refresh | src/providers/NotesProvider.js:80-84 | The list is refreshed only through a view, once one exists. |
| Provider.NotesProvider.Initialize | src/providers/NotesProvider.js:24-36 | The first call loads the store and then the notes. A store failure is reported and stops it. Later calls do nothing. |
| Provider.NotesProvider.LoadExistingNotes | src/providers/NotesProvider.js:42-75 | Exactly the editors whose file is gone are disposed and leave the registry, with one warning each. The others keep their panel and path. The registry stays in step. The filter is reset. The list becomes the catalog of the directory. An unknown or unlistable directory is reported, and the list is left empty. |
| Provider.NotesProvider.CloseStalePanels | src/providers/NotesProvider.js:45-54 | Exactly the open editors whose file is gone are disposed, removed from the registry and warned about, in opening order. The others keep their panel and path. |
| Provider.NotesProvider.FindStale | src/providers/NotesProvider.js:45-50 | The loop finds the stale titles in opening order. |
| Provider.NotesProvider.AddNote | src/providers/NotesProvider.js:91-114 | A listed title is warned about, and neither the list nor the files change. Otherwise an empty file is written, and exactly one untagged item is appended at the end. The editor opens if the settings say so. A failure is reported and changes nothing. Titles stay unique. |
| Provider.NotesProvider.DeleteNote | src/providers/NotesProvider.js:121-149 | The editor is disposed and leaves the registry first. A tag-store failure is only a warning. A file-delete failure is reported, and the list keeps the note. Otherwise exactly that note leaves the list. An unknown directory is reported and changes nothing. |
| Provider.NotesProvider.RemoveNote | src/providers/NotesProvider.js:127-144 | The tags are dropped, then the file is deleted, then the note is unlisted, each with its own failure handling. |
| Provider.NotesProvider.RenameNote | src/providers/NotesProvider.js:157-183 | An empty or unchanged title does nothing. A title another note has is warned about and changes nothing. An unknown notes directory rejects, and the result says the rename did not complete. A failed read or write is reported and changes nothing. Otherwise the file moves (the corrected `Moved`) and the tag entry follows. The note takes the title with a two-space label. Its open editor is re-keyed to the new path, takes the new title's place in the key order (last unless the new title is already registered), takes the new caption and is told the new title with `keepContent`, and the list is refreshed. Titles stay unique, and the registry stays in step. |
| Provider.NotesProvider.Retitle | src/providers/NotesProvider.js:175-179 | After the move: the tags are renamed and the note is retitled. The editor is re-keyed, takes the new title's place in the key order (last unless the new title is already registered), takes the new caption and is told the new title with `keepContent`. The list is refreshed. |
| Provider.NotesProvider.Rekey | src/providers/NotesProvider.js:178-179 | The open editor, if any, moves to the new title with the new path, takes the new title's place in the key order (last unless the new title is already registered), takes the new caption and is told the new title with `keepContent`. Otherwise the registry is unchanged. The list is refreshed. |
| Provider.NotesProvider.EditTags | src/providers/NotesProvider.js:191-203 | The note's tags become the normalised input, and the store records them. The result is whether the sidecar save succeeded. The open editor is told the tags and the list refreshed if and only if the save succeeded. Otherwise the editor's inbox and the log are unchanged. |
| Provider.NotesProvider.Retag | src/providers/NotesProvider.js:196-202 | The given tags and their two-space label are set, and the store records them. The result is whether the save succeeded. The editor is told and the list refreshed only when the save succeeds. |
| Provider.NotesProvider.SetFilter | src/providers/NotesProvider.js:209-212 | The filter becomes the text, or `''` when it is missing, and the list is refreshed. |
| Provider.NotesProvider.GetNoteByTitle | src/providers/NotesProvider.js:219-225 | The result is the first note with that title, or none (the source throws) when no note has it. |
| Provider.NotesProvider.TogglePin | src/providers/NotesProvider.js:232-236 | The note's flag is set. The store's metadata becomes `WithPinned`. The list is refreshed only if the save succeeded. |
| Legacy.LoadFlat | src/main.js:106-126 | Any object read is taken as the flat tag map. A non-object, a failed read or an unparsable file gives an empty map, and `{}` is written back. |
| Legacy.FlatLoadSave | src/main.js:132-142 | Saving the flat map and loading it gives it back. |
| Legacy.LoadReadsFlat | src/services/TagManager.js:24-32 | The current loader reads a flat file as the legacy one does, unless a note named `tags` has a truthy entry. |
| Legacy.LoadFlatMisreadsDocument | src/main.js:113-114 | The legacy loader reads a structured file as two notes, `tags` and `metadata`. |
| Legacy.FlatSaved | src/main.js:132-142 | A legacy save writes the flat map to the sidecar and touches no note file. |
| Legacy.RebuiltLabel | src/main.js:415 | The label rebuilt after a rename or a tag edit has one space. It never equals the two-space label the constructor gives (src/main.js:207). |
| Legacy.FileNameOfRebuiltLabel | src/main.js:415 | The one-space label still names the note's file. |
| Legacy.FlatTagManager.SaveTags | src/main.js:132-142 | The flat map is written to the sidecar. The save fails when the directory is unknown or the write fails. |
| Legacy.FlatTagManager.InitializeTags | src/main.js:106-126 | The map becomes `LoadFlat` of what was read. `{}` is written only when needed. |
| Legacy.FlatTagManager.ChangeTag | src/main.js:150-157 | The wrapped value is stored, and the flat map is saved. |
| Legacy.FlatTagManager.RenameTag | src/main.js:165-175 | The map becomes `Renamed`, the same change as in the current store. |
| Legacy.FlatTagManager.DeleteTag | src/main.js:182-185 | Only that key is removed. |
| Legacy.LegacyNotesProvider.Initialize | src/main.js:249-256 | The flat store is loaded, then the notes. A store failure is reported and stops it. |
| Legacy.LegacyNotesProvider.LoadExistingNotes | src/main.js:262-290 | Every open editor is disposed unconditionally, and the registry ends empty. The list becomes the catalog of the directory. A failure is reported and leaves it empty. |
| Legacy.LegacyNotesProvider.CloseAll | src/main.js:265-268 | After closing the editors in opening order, every one is disposed, and no editor or path is registered. |
| Legacy.LegacyNotesProvider.AddNote | src/main.js:321-344 | There is no duplicate check. The file is written empty and one item is appended. A title already listed becomes listed twice. A failure is reported and changes nothing. The registry stays in step. |
| Legacy.LegacyNotesProvider.AppendNote | src/main.js:331-333 | One untagged item is appended. If its title was listed, titles are no longer unique. |
| Legacy.LegacyNotesProvider.ListCreated | src/main.js:331-339 | After the empty file is written: one untagged item is appended, the editor opens if the settings say so, and the tree is refreshed. A listed title becomes listed twice. |
| Legacy.LegacyNotesProvider.DeleteNote | src/main.js:351-383 | Same order as the current catalog: the editor is disposed and leaves the registry, then tags (failure tolerated), file (failure reported, list kept), list. An unknown directory is reported and changes nothing. |
| Legacy.LegacyNotesProvider.CloseAndRemove | src/main.js:356-378 | The editor is disposed and leaves the registry, then the note is removed as `RemoveNote` says. |
| Legacy.LegacyNotesProvider.RenameNote | src/main.js:390-422 | An unknown directory, or a cancelled, empty or unchanged title, does nothing. There is no check that the title is free. A failed read or write is reported. Otherwise the file moves, the tag entry follows, and the note is retitled with the one-space label. Its open editor is re-keyed to the new path, takes the new title's place in the key order (last unless the new title is already registered), takes the new caption and is told the new title with `keepContent`. |
| Legacy.LegacyNotesProvider.Retitle | src/main.js:412-418 | After the move: the tags are renamed (the save is not awaited), and the note is retitled and relabelled. The editor is re-keyed, takes the new title's place in the key order (last unless the new title is already registered), takes the new caption and is told the new title. The tree is refreshed. |
| Legacy.LegacyNotesProvider.Rekey | src/main.js:417-418 | The open editor, if any, moves to the new title with the new path, takes the new title's place in the key order (last unless the new title is already registered), takes the new caption and is told the new title. Otherwise the registry is unchanged. The tree is refreshed. |
| Legacy.LegacyNotesProvider.EditTags | src/main.js:429-454 | A cancelled input changes nothing: tags, label, store, files, log and the editor's messages stay as they were. Otherwise the tags are normalised as in the current catalog, and the label is rebuilt with one space. The store records the tags, and a failed save stops nothing. The editor is told the tags, and the tree is refreshed. |
| Legacy.LegacyNotesProvider.Retag | src/main.js:443-452 | The tags are set, the one-space label is rebuilt, the store records them whatever the save's outcome, the open editor is told the tags, and the tree is refreshed. |

## Left out

- Host calls are abstracted: `workspace.fs`, `showInputBox`, the message boxes, `createWebviewPanel`, `reveal` and `postMessage`. The files are a map with a set of failing paths, and everything shown or sent is an appended log. The values an input box returns are parameters.
- `getConfig` is a fixed settings record. The directory creation in `getNotesPath` (src/utils/config.js:28) is not modelled: the directory is taken to exist.
- JSON text encoding and decoding, and `TextEncoder`/`TextDecoder`, are not modelled. The sidecar is stored as a parsed value, and a `Text` entry at its path stands for a file that does not parse.
- `Json.Entries` gives no entries for an array or a string. JavaScript's `Object.entries` gives index keys for both. A sidecar holding an array, or a truthy string or array in its `tags` or `metadata` field, is therefore read differently.
- `Tags.GetTagsIn` reads an entry that is not an array as no tags, and an array as its string items. The source returns the raw value. A string entry makes `formatTags` throw, so the reload fails, and `[1, "a"]` shows as `[1, a]`. Only an ill-formed sidecar is affected.
- `Tags.TagManager.GetTags` inherits `Tags.GetTagsIn`'s reading of ill-formed entries.
- `Tags.WithPinned` keeps an array entry unchanged, so the note reads as unpinned. The source sets a `pinned` property on the array in memory, and `getPinned` returns it until the next reload. `JSON.stringify` drops that property, so the saved sidecar agrees with the model.
- `Tags.TagManager.SetPinned` inherits `Tags.WithPinned`'s array case.
- `Host.Host.ReadTextOf` gives no text for a `Doc` entry, so a note path holding one reads as a failure. The model writes notes only as `Text` entries, and the tag stores write a `Doc` only at the sidecar path, which never ends in `.md` (`Config.SidecarPath`). Only a starting file system with a `Doc` at a note path is affected. The source would read that note's text.
- `Host.Host.ReadDirectory` lists only files. `workspace.fs.readDirectory` also lists subdirectories, so in the source a directory named `x.md` inside the notes directory becomes a note `x` (src/providers/NotesProvider.js:62-65, src/main.js:278-281). The model has no directories.
- Case folding is ASCII only (`Text.ToLower`). Full Unicode `toLowerCase` is not modelled.
- Async interleaving is not modelled. Every operation runs to completion, and an un-awaited call (`renameTag` at src/providers/NotesProvider.js:175, `changeTag` at src/main.js:447, `showPanel` on creation) is applied at once with its failure ignored.
- The HTML of the editors and of the sidebar (`getHtmlContent`, `_getHtmlContent`), Markdown preview through `marked`, the `togglePreview` command, the editor column and the icons are not modelled. They are UI, or foreign code.
- `showNewNoteInput` (src/notesView.js:96-100) only asks the view to show its input field, which the log does not record.
- Command registration and activation are not modelled: `activate`/`deactivate` in src/main.js and src/commands/index.js.
- The legacy `getTreeItem` and `getChildren` (src/main.js:304-314) return their argument and the list unchanged, and the legacy `NoteItem.content` (src/main.js:224-228) only reads the note's file. None of them changes state.
- The legacy constructor starts `initialize` without awaiting it (src/main.js:242). `Legacy.LegacyNotesProvider.Initialize` is a separate step.
- The legacy `PanelController`, `getNotesPath` and `getNoteUri` (src/main.js:18-92) are textually the same as the current ones. They are modelled once, in `Controller` and `Config`.
- A `closePanel` in the source cannot throw here, so the warning at src/main.js:269-271 is never shown.
- Error and warning texts are notices (`Host.Notice`), not strings.
- The current `initialize` (src/providers/NotesProvider.js:24-36) shares one promise between callers. The model keeps only an `initialized` flag, so a second call does nothing.
- `Tags.TagManager.GetPinned`: the contract states only that a pinned note has a metadata entry. The exact condition is stated by `Tags.Pinned`, which its body calls.
- `Webview.PanelManager.OnDidDispose` models the corrected handler. The handler as written is modelled on values by `Webview.DisposedAsWritten`; see Findings.
- `Provider.NotesProvider.RenameNote` and `Legacy.LegacyNotesProvider.RenameNote` move the file with the corrected `Provider.Moved`. The move as written is `Provider.MovedAsWritten`; see Findings.
- `Provider.MoveFile` skips the delete when the old and new paths coincide. That is the corrected move (`Provider.Moved`). The move as written is `Provider.MovedAsWritten`; see Findings.
- `Config.NoteUriOfListedName` is stated only for names with no `[` and no surrounding whitespace. For a listed file such as `Plan [draft].md` or ` Plan.md`, the title maps to another file (`Config.ListedBracketNameMissesFile`). Opening, deleting and renaming such a note then act on that file. The model follows the source here.
- `Webview.PanelManager.ClosePanel` handles the dispose event it raises with the corrected handler, which removes only the closed title. The handler as written also removes the title the panel was created under (`Webview.ClosedAsWritten`); see Findings.

The model follows the code where the code and its documentation disagree:

- `NoteItem` has no `pinned` parameter, so the `pinned` argument passed when the list is rebuilt is dropped. Items are listed with `pinned` unset until `togglePin` sets it.
- `editTags` awaits `changeTag`, so a failed save stops the operation before the editor is told and the list refreshed.

## Findings

| source | as written | input that shows it | evidently intended | confidence | as-written member | corrected member |
|---|---|---|---|---|---|---|
| src/providers/NotesProvider.js:170-178 | A rename reads the old file, writes the new path, then deletes the old path. | Rename `Plan` to `Plan [x]`: both titles map to `Plan.md`. The content is written back to `Plan.md`, which is then deleted, so the renamed note has no file. | A move whose old and new paths coincide keeps the file. | not executed | Provider.SameFileRenameLosesNote | Provider.Moved |
| src/main.js:402-418 | The legacy rename does the same read, write and delete. | Rename `Plan` to ` Plan` (a leading space) or to `Plan [x]`: the file `Plan.md` is deleted. | As above. | not executed | Provider.SameFileRenameLosesNote | Provider.MoveFile |
| src/webview.js:177-181 | The close handler removes the title captured when the editor was created. | Open `a`, rename it to `b` (the editor is re-keyed to `b`), then close the editor: `b` stays registered to the closed panel, and a later open of `b` reveals the closed panel instead of creating one. | The close handler removes the editor under its current title. | not executed | Webview.DisposeAfterRenameKeepsPanel | Webview.DisposedFixedForgets |
| src/webview.js:177-181 | `closePanel` disposes the panel, whose close handler then also removes the title captured at creation. | Open `a`, rename it to `b`, open a new note `a`, then `closePanel("b")`: the new `a` is dropped from the registry while its panel stays open, and a later open of `a` creates a second panel. In the legacy `closeAll` loop (src/main.js:265-268), `closePanel("a")` then returns false and that panel is never disposed. | Closing a title removes that title only. | not executed | Webview.CloseAfterRenameDropsReopened | Webview.ClosedFixedRemovesOnly |
| src/main.js:321-333 | The legacy `addNote` has no duplicate check. | With a note `Plan` whose file holds text, `addNote("Plan")` overwrites `Plan.md` with nothing and lists `Plan` twice. | A listed title is refused, as in src/providers/NotesProvider.js:93-96. | not executed | Legacy.LegacyNotesProvider.AppendNote | Provider.NotesProvider.AddNote |
