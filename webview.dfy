/** The registry of open note editors (src/webview.js,
    `WebviewPanelManager`): at most one panel per note title, and the file
    each open note is saved to, both keyed by title. */
module Webview {
  import opened Options
  import opened Text
  import opened Host

  /** The key order of a JavaScript `Map` after `set(k, …)`: a new key goes
      last, an existing key keeps its place. */
  function SetKey(keys: seq<string>, k: string): (r: seq<string>)
    ensures forall x :: x in r <==> x in keys || x == k
    ensures NoDups(keys) ==> NoDups(r)
    ensures keys <= r
  {
    if k in keys then keys else keys + [k]
  }

  /** The key order after `delete(k)`: the others in their order. */
  function DeleteKey(keys: seq<string>, k: string): (r: seq<string>)
    ensures forall x :: x in r <==> x in keys && x != k
    ensures NoDups(keys) ==> NoDups(r)
    ensures k !in keys ==> r == keys
  {
    if keys == [] then []
    else
      var rest := DeleteKey(keys[1..], k);
      assert NoDups(keys) ==> NoDups(keys[1..]) && keys[0] !in rest;
      (if keys[0] == k then [] else [keys[0]]) + rest
  }

  /** Deleting from a concatenation deletes from each part: the keys that
      remain keep their relative order. */
  lemma {:induction false} DeleteKeyAppend(a: seq<string>, b: seq<string>, k: string)
    ensures DeleteKey(a + b, k) == DeleteKey(a, k) + DeleteKey(b, k)
  {
    if a != [] {
      assert (a + b)[0] == a[0] && (a + b)[1..] == a[1..] + b;
      DeleteKeyAppend(a[1..], b, k);
    } else {
      assert a + b == b;
    }
  }

  /** With each key listed once, deleting the key at position `i` is
      cutting that position out. */
  lemma {:induction false} DeleteKeyAt(keys: seq<string>, i: nat)
    requires NoDups(keys) && i < |keys|
    ensures DeleteKey(keys, keys[i]) == keys[..i] + keys[i + 1..]
  {
    var k := keys[i];
    var rest := keys[1..];
    assert NoDups(rest) by {
      forall a, b | 0 <= a < b < |rest| ensures rest[a] != rest[b] {
        assert rest[a] == keys[a + 1] && rest[b] == keys[b + 1];
      }
    }
    if i == 0 {
      assert k !in rest by {
        forall j | 0 <= j < |rest| ensures rest[j] != k {
          assert rest[j] == keys[j + 1];
        }
      }
      assert DeleteKey(keys, k) == DeleteKey(rest, k);
    } else {
      assert keys[0] != k;
      assert rest[i - 1] == k;
      DeleteKeyAt(rest, i - 1);
      assert DeleteKey(keys, k) == [keys[0]] + DeleteKey(rest, k);
      assert [keys[0]] + (rest[..i - 1] + rest[i..]) == keys[..i] + keys[i + 1..];
    }
  }

  /** No two titles hold the same panel. */
  predicate Injective(m: map<string, Panel>) {
    forall a, b :: a in m && b in m && a != b ==> m[a] != m[b]
  }

  lemma InjectiveAdd(m: map<string, Panel>, k: string, v: Panel)
    requires Injective(m) && k !in m && v !in m.Values
    ensures Injective(m[k := v])
  {
  }

  lemma InjectiveRekey(m: map<string, Panel>, oldKey: string, newKey: string)
    requires Injective(m) && oldKey in m
    ensures Injective((m - {oldKey})[newKey := m[oldKey]])
  {
    var r := (m - {oldKey})[newKey := m[oldKey]];
    forall a, b | a in r && b in r && a != b ensures r[a] != r[b] {
      if a == newKey {
        assert r[b] == m[b] && b != oldKey;
      } else if b == newKey {
        assert r[a] == m[a] && a != oldKey;
      }
    }
  }

  /** Both maps have the same titles, `order` lists them once each, and
      no panel is registered twice. */
  ghost predicate Registered(panels: map<string, Panel>, notePaths: map<string, string>, order: seq<string>) {
    && panels.Keys == notePaths.Keys
    && (forall k :: k in order <==> k in panels)
    && NoDups(order)
    && Injective(panels)
  }

  lemma RegisteredAdd(panels: map<string, Panel>, notePaths: map<string, string>, order: seq<string>,
                      k: string, v: Panel, path: string)
    requires k !in panels && v !in panels.Values
    ensures Registered(panels, notePaths, order) ==> Registered(panels[k := v], notePaths[k := path], SetKey(order, k))
  {
    if Registered(panels, notePaths, order) {
      InjectiveAdd(panels, k, v);
    }
  }

  lemma RegisteredRemove(panels: map<string, Panel>, notePaths: map<string, string>, order: seq<string>, k: string)
    ensures Registered(panels, notePaths, order) ==> Registered(panels - {k}, notePaths - {k}, DeleteKey(order, k))
  {
  }

  lemma RegisteredRekey(panels: map<string, Panel>, notePaths: map<string, string>, order: seq<string>,
                        oldKey: string, newKey: string, path: string)
    requires oldKey in panels
    ensures Registered(panels, notePaths, order) ==>
              Registered((panels - {oldKey})[newKey := panels[oldKey]], (notePaths - {oldKey})[newKey := path],
                         SetKey(DeleteKey(order, oldKey), newKey))
  {
    if Registered(panels, notePaths, order) {
      InjectiveRekey(panels, oldKey, newKey);
    }
  }

  /** No panel in `m` has been disposed. */
  ghost predicate AllOpen(m: map<string, Panel>)
    reads m.Values`disposed
  {
    forall k :: k in m ==> !m[k].disposed
  }

  lemma AllOpenAdd(m: map<string, Panel>, k: string, v: Panel)
    ensures AllOpen(m) && !v.disposed ==> AllOpen(m[k := v])
  {
  }

  lemma AllOpenRemove(m: map<string, Panel>, k: string)
    ensures AllOpen(m) ==> AllOpen(m - {k})
  {
  }

  lemma AllOpenRekey(m: map<string, Panel>, oldKey: string, newKey: string)
    requires oldKey in m
    ensures AllOpen(m) ==> AllOpen((m - {oldKey})[newKey := m[oldKey]])
  {
  }

  /** The caption of a note's editor. */
  function Caption(title: string): string {
    "Note: " + title
  }

  class PanelManager {
    const host: Host
    var panels: map<string, Panel>
    var notePaths: map<string, string>
    /** The keys of `panels` in the order the `Map` iterates them. */
    var order: seq<string>

    /** The registry is consistent and every registered panel is open. */
    ghost predicate Valid()
      reads this`panels, this`notePaths, this`order, panels.Values`disposed
    {
      && Registered(panels, notePaths, order)
      && AllOpen(panels)
    }

    constructor (host: Host)
      ensures this.host == host && Valid()
      ensures panels == map[] && notePaths == map[] && order == []
    {
      this.host := host;
      panels := map[];
      notePaths := map[];
      order := [];
    }

    /** `createOrShow`: an open note's panel is revealed and told its tags;
        otherwise a new panel is opened, its path recorded, the file read
        and sent to it (a failed read is only reported), and the panel
        registered. */
    method CreateOrShow(title: string, path: string, tags: seq<string>)
      modifies this`panels, this`notePaths, this`order, host`log
      modifies (if title in panels then {panels[title]} else {})`inbox
      modifies (if title in panels then {panels[title]} else {})`revealCount
      ensures old(Valid()) ==> Valid()
      ensures old(title in panels) ==>
                && panels == old(panels) && notePaths == old(notePaths) && order == old(order)
                && panels[title].inbox == old(panels[title].inbox)
                                          + (if old(panels[title].disposed) then [] else [Update(None, None, tags, false, None)])
                && panels[title].revealCount == old(panels[title].revealCount) + 1
                && host.log == old(host.log)
      ensures old(title !in panels) ==>
                && title in panels && fresh(panels[title])
                && panels == old(panels)[title := panels[title]]
                && notePaths == old(notePaths)[title := path]
                && order == SetKey(old(order), title)
                && panels[title].caption == Caption(title)
                && panels[title].inbox == Opening(title, old(host.ReadTextOf(path)), tags)
                && host.log == old(host.log) + (if old(host.ReadTextOf(path)).Some? then [] else [Shown(Error, ReadNoteFailed)])
    {
      if title in panels {
        ShowExisting(title, tags);
      } else {
        OpenNew(title, path, tags);
      }
    }

    /** What a new panel is sent: the note's title, text and tags and the
        default edit mode, or nothing when the file could not be read. */
    function Opening(title: string, text: Option<string>, tags: seq<string>): (r: seq<PanelMessage>)
      ensures text.None? <==> r == []
      ensures text.Some? ==> |r| == 1 && r[0].noteTitle == Some(title) && r[0].content == text
                             && r[0].tags == tags && !r[0].keepContent
    {
      if text.Some? then [Update(Some(title), text, tags, false, host.settings.defaultEditMode)] else []
    }

    method ShowExisting(title: string, tags: seq<string>)
      requires title in panels
      modifies {panels[title]}`inbox, {panels[title]}`revealCount
      ensures old(Valid()) ==> Valid()
      ensures panels[title].inbox == old(panels[title].inbox)
                                     + (if old(panels[title].disposed) then [] else [Update(None, None, tags, false, None)])
      ensures panels[title].revealCount == old(panels[title].revealCount) + 1
    {
      var p := panels[title];
      p.Reveal();
      p.Post(Update(None, None, tags, false, None));
    }

    method OpenNew(title: string, path: string, tags: seq<string>)
      requires title !in panels
      modifies this`panels, this`notePaths, this`order, host`log
      ensures old(Valid()) ==> Valid()
      ensures title in panels && fresh(panels[title])
      ensures panels == old(panels)[title := panels[title]]
      ensures notePaths == old(notePaths)[title := path]
      ensures order == SetKey(old(order), title)
      ensures panels[title].caption == Caption(title)
      ensures panels[title].inbox == Opening(title, old(host.ReadTextOf(path)), tags)
      ensures host.log == old(host.log) + (if old(host.ReadTextOf(path)).Some? then [] else [Shown(Error, ReadNoteFailed)])
    {
      var p := NewPanel(title, path, tags);
      Register(title, p, path);
    }

    /** A new panel captioned for the note, sent the note's file or, when it
        cannot be read, nothing (the failure is reported). */
    method NewPanel(title: string, path: string, tags: seq<string>) returns (p: Panel)
      modifies host`log
      ensures fresh(p) && !p.disposed
      ensures p.caption == Caption(title)
      ensures p.inbox == Opening(title, old(host.ReadTextOf(path)), tags)
      ensures host.log == old(host.log) + (if old(host.ReadTextOf(path)).Some? then [] else [Shown(Error, ReadNoteFailed)])
    {
      p := new Panel(Caption(title));
      var text := host.ReadText(path);
      if text.Some? {
        p.Post(Update(Some(title), Some(text.value), tags, false, host.settings.defaultEditMode));
      } else {
        host.Show(Error, ReadNoteFailed);
      }
    }

    /** The new panel and its path are recorded under the title. Nothing
        reads `notePaths` while the file is read, so recording the path here
        rather than before the read changes nothing. */
    method Register(title: string, p: Panel, path: string)
      requires title !in panels && p !in panels.Values && !p.disposed
      modifies this`panels, this`notePaths, this`order
      ensures old(Valid()) ==> Valid()
      ensures panels == old(panels)[title := p]
      ensures notePaths == old(notePaths)[title := path]
      ensures order == SetKey(old(order), title)
    {
      RegisteredAdd(panels, notePaths, order, title, p, path);
      AllOpenAdd(panels, title, p);
      panels := panels[title := p];
      notePaths := notePaths[title := path];
      order := SetKey(order, title);
    }

    /** `closePanel`: disposes and forgets the note's panel; false when the
        note has none. The dispose event this raises is handled here as the
        corrected handler does (`OnDidDispose`), which removes nothing
        beyond this entry; the handler as written also removes the title the
        panel was created under (`ClosedAsWritten`). */
    method ClosePanel(title: string) returns (closed: bool)
      modifies this`panels, this`notePaths, this`order, (if title in panels then {panels[title]} else {})`disposed
      ensures old(Valid()) ==> Valid()
      ensures closed == old(title in panels)
      ensures closed ==> old(panels[title]).disposed
      ensures panels == old(panels) - {title}
      ensures notePaths == if closed then old(notePaths) - {title} else old(notePaths)
      ensures order == if closed then DeleteKey(old(order), title) else old(order)
    {
      if title !in panels {
        return false;
      }
      RegisteredRemove(panels, notePaths, order, title);
      panels[title].Dispose();
      panels := panels - {title};
      notePaths := notePaths - {title};
      order := DeleteKey(order, title);
      closed := true;
    }

    /** `closePanel` for each title in turn, as the catalog's reload does
        for the editors it closes. */
    method CloseEach(titles: seq<string>)
      modifies this`panels, this`notePaths, this`order, panels.Values`disposed
      ensures old(Valid()) ==> Valid()
      ensures forall k :: k in panels <==> k in old(panels) && k !in titles
      ensures forall k :: k in panels ==> panels[k] == old(panels)[k]
      ensures forall k :: k in notePaths <==> k in old(notePaths) && (k !in titles || k !in old(panels))
      ensures forall k :: k in notePaths ==> notePaths[k] == old(notePaths)[k]
      ensures forall k :: k in old(panels) && k in titles ==> old(panels)[k].disposed
    {
      var i := 0;
      while i < |titles|
        invariant 0 <= i <= |titles|
        invariant old(Valid()) ==> Valid()
        invariant forall k :: k in panels <==> k in old(panels) && k !in titles[..i]
        invariant forall k :: k in panels ==> panels[k] == old(panels)[k]
        invariant forall k :: k in notePaths <==> k in old(notePaths) && (k !in titles[..i] || k !in old(panels))
        invariant forall k :: k in notePaths ==> notePaths[k] == old(notePaths)[k]
        invariant forall k :: k in old(panels) && k in titles[..i] ==> old(panels)[k].disposed
      {
        assert titles[..i + 1] == titles[..i] + [titles[i]];
        var _ := ClosePanel(titles[i]);
        i := i + 1;
      }
      assert titles[..i] == titles;
    }

    /** `updateNoteTitle`: the note's panel is re-captioned, re-keyed under
        the new title with the new path, and told its new title and tags
        while keeping its unsaved content. */
    method UpdateNoteTitle(oldTitle: string, newTitle: string, tags: seq<string>, newPath: string)
      modifies this`panels, this`notePaths, this`order
      modifies (if oldTitle in panels then {panels[oldTitle]} else {})`caption
      modifies (if oldTitle in panels then {panels[oldTitle]} else {})`inbox
      ensures old(Valid()) ==> Valid()
      ensures old(oldTitle !in panels) ==>
                panels == old(panels) && notePaths == old(notePaths) && order == old(order)
      ensures old(oldTitle in panels) ==>
                var p := old(panels[oldTitle]);
                && panels == (old(panels) - {oldTitle})[newTitle := p]
                && notePaths == (old(notePaths) - {oldTitle})[newTitle := newPath]
                && order == SetKey(DeleteKey(old(order), oldTitle), newTitle)
                && p.caption == Caption(newTitle)
                && p.inbox == old(p.inbox) + (if old(p.disposed) then [] else [Update(Some(newTitle), None, tags, true, None)])
    {
      if oldTitle !in panels {
        return;
      }
      var p := panels[oldTitle];
      p.SetCaption(Caption(newTitle));
      Rekey(oldTitle, newTitle, newPath);
      p.Post(Update(Some(newTitle), None, tags, true, None));
    }

    method Rekey(oldTitle: string, newTitle: string, newPath: string)
      requires oldTitle in panels
      modifies this`panels, this`notePaths, this`order
      ensures old(Valid()) ==> Valid()
      ensures panels == (old(panels) - {oldTitle})[newTitle := old(panels[oldTitle])]
      ensures notePaths == (old(notePaths) - {oldTitle})[newTitle := newPath]
      ensures order == SetKey(DeleteKey(old(order), oldTitle), newTitle)
    {
      RegisteredRekey(panels, notePaths, order, oldTitle, newTitle, newPath);
      AllOpenRekey(panels, oldTitle, newTitle);
      panels := (panels - {oldTitle})[newTitle := panels[oldTitle]];
      order := SetKey(DeleteKey(order, oldTitle), newTitle);
      notePaths := (notePaths - {oldTitle})[newTitle := newPath];
    }

    /** `updateNoteTags`: an open note's panel is told its new tags and keeps
        its content. */
    method UpdateNoteTags(title: string, tags: seq<string>)
      modifies (if title in panels then {panels[title]} else {})`inbox
      ensures old(Valid()) ==> Valid()
      ensures title in panels ==>
                panels[title].inbox == old(panels[title].inbox)
                                       + (if old(panels[title].disposed) then [] else [Update(None, None, tags, true, None)])
    {
      if title in panels {
        panels[title].Post(Update(None, None, tags, true, None));
      }
    }

    /** The `save` message of an editor: the content goes to the path
        recorded for the title the message names, looked up when it
        arrives; no (or an empty) path, or a failed write, is reported. */
    method HandleSave(noteTitle: string, content: string)
      modifies host`files, host`log
      ensures var ok := noteTitle in notePaths && notePaths[noteTitle] != ""
                        && notePaths[noteTitle] !in host.faulty;
              && host.files == (if ok then old(host.files)[notePaths[noteTitle] := Text(content)] else old(host.files))
              && host.log == old(host.log) + (if ok then [] else [Shown(Error, SaveNoteFailed)])
    {
      var ok := false;
      if noteTitle in notePaths && notePaths[noteTitle] != "" {
        ok := host.WriteFile(notePaths[noteTitle], Text(content));
      }
      if !ok {
        host.Show(Error, SaveNoteFailed);
      }
    }

    /** The user closes a panel: the host disposes it and the dispose
        handler forgets the entry that holds this panel, whatever title it
        is registered under by now. The handler only reads the maps, so
        the order of the two steps does not matter. */
    method OnDidDispose(p: Panel)
      requires Valid()
      modifies this`panels, this`notePaths, this`order, p`disposed
      ensures Valid()
      ensures p.disposed
      ensures p !in panels.Values
      ensures forall k :: k in panels <==> k in old(panels) && old(panels)[k] != p
      ensures forall k :: k in panels ==> panels[k] == old(panels)[k] && notePaths[k] == old(notePaths)[k]
    {
      if k :| k in panels && panels[k] == p {
        Forget(k);
      }
      p.Dispose();
    }

    /** The entry under `k` leaves both maps and the key order. */
    method Forget(k: string)
      modifies this`panels, this`notePaths, this`order
      ensures old(Valid()) ==> Valid()
      ensures panels == old(panels) - {k}
      ensures notePaths == old(notePaths) - {k}
      ensures order == DeleteKey(old(order), k)
    {
      RegisteredRemove(panels, notePaths, order, k);
      AllOpenRemove(panels, k);
      panels := panels - {k};
      notePaths := notePaths - {k};
      order := DeleteKey(order, k);
    }
  }

  /** The registry as the dispose handler of src/webview.js sees it: panels by
      number, and the title each handler captured when its panel was
      created. */
  datatype Registry = Registry(
    panels: map<string, nat>,
    notePaths: map<string, string>,
    captured: map<nat, string>)

  function Created(r: Registry, title: string, path: string, id: nat): (s: Registry)
    ensures title in s.panels && s.panels[title] == id
    ensures id in s.captured && s.captured[id] == title
  {
    Registry(r.panels[title := id], r.notePaths[title := path], r.captured[id := title])
  }

  function Retitled(r: Registry, oldTitle: string, newTitle: string, path: string): (s: Registry)
    ensures oldTitle in r.panels ==> newTitle in s.panels && s.panels[newTitle] == r.panels[oldTitle]
    ensures s.captured == r.captured
  {
    if oldTitle in r.panels then
      Registry((r.panels - {oldTitle})[newTitle := r.panels[oldTitle]],
               (r.notePaths - {oldTitle})[newTitle := path],
               r.captured)
    else r
  }

  /** The dispose handler as written: it deletes the entries under the
      title captured at creation. */
  function DisposedAsWritten(r: Registry, id: nat): (s: Registry)
    ensures id in r.captured ==> r.captured[id] !in s.panels
  {
    if id in r.captured then
      Registry(r.panels - {r.captured[id]}, r.notePaths - {r.captured[id]}, r.captured)
    else r
  }

  /** The dispose handler as intended: it deletes the entry holding the
      disposed panel. */
  function DisposedFixed(r: Registry, id: nat): (s: Registry)
    ensures forall k :: k in s.panels <==> k in r.panels && r.panels[k] != id
    ensures forall k :: k in s.panels ==> s.panels[k] == r.panels[k]
  {
    var gone := set k | k in r.panels && r.panels[k] == id;
    Registry(r.panels - gone, r.notePaths - gone, r.captured)
  }

  /** A note opened as `a`, renamed to `b` and then closed by the user stays
      registered under `b` with its (disposed) panel; showing `b` again then
      reveals the disposed panel instead of opening a new one. */
  lemma DisposeAfterRenameKeepsPanel()
    ensures var r := Retitled(Created(Registry(map[], map[], map[]), "a", "/n/a.md", 0), "a", "b", "/n/b.md");
            && DisposedAsWritten(r, 0).panels == map["b" := 0]
            && DisposedFixed(r, 0).panels == map[]
  {
    var r := Retitled(Created(Registry(map[], map[], map[]), "a", "/n/a.md", 0), "a", "b", "/n/b.md");
    assert r.panels == map["b" := 0];
    assert DisposedAsWritten(r, 0).panels == map["b" := 0] - {"a"};
    assert DisposedFixed(r, 0).panels.Keys == {};
  }

  /** `closePanel` on the registry as written: the panel is disposed, so
      its handler first removes the title it captured, then the entry
      under `title` goes. */
  function ClosedAsWritten(r: Registry, title: string): (s: Registry)
    ensures title !in s.panels
    ensures title in r.panels && r.panels[title] in r.captured ==> r.captured[r.panels[title]] !in s.panels
  {
    if title in r.panels then
      var d := DisposedAsWritten(r, r.panels[title]);
      Registry(d.panels - {title}, d.notePaths - {title}, d.captured)
    else r
  }

  /** `closePanel` with the corrected handler. */
  function ClosedFixed(r: Registry, title: string): (s: Registry)
    ensures title !in s.panels
  {
    if title in r.panels then
      var d := DisposedFixed(r, r.panels[title]);
      Registry(d.panels - {title}, d.notePaths - {title}, d.captured)
    else r
  }

  /** With one title per panel, closing with the corrected handler removes
      exactly the closed title's entry. */
  lemma ClosedFixedRemovesOnly(r: Registry, title: string)
    requires forall a, b :: a in r.panels && b in r.panels && a != b ==> r.panels[a] != r.panels[b]
    ensures ClosedFixed(r, title).panels == r.panels - {title}
  {
  }

  /** Open `a`, rename it to `b`, open a new note `a`, then close `b` from
      code: the handler as written also removes the new `a`, whose panel
      stays open but unregistered; the corrected handler keeps it. */
  lemma CloseAfterRenameDropsReopened()
    ensures var r := Created(Retitled(Created(Registry(map[], map[], map[]), "a", "/n/a.md", 0), "a", "b", "/n/b.md"),
                             "a", "/n/a.md", 1);
            && ClosedAsWritten(r, "b").panels == map[]
            && ClosedFixed(r, "b").panels == map["a" := 1]
  {
    var r := Created(Retitled(Created(Registry(map[], map[], map[]), "a", "/n/a.md", 0), "a", "b", "/n/b.md"),
                     "a", "/n/a.md", 1);
    assert r.panels == map["b" := 0, "a" := 1];
    assert r.captured == map[0 := "a", 1 := "a"];
    assert ClosedAsWritten(r, "b").panels.Keys == {};
    assert DisposedFixed(r, 0).panels == map["a" := 1];
    assert ClosedFixed(r, "b").panels == map["a" := 1] - {"b"};
  }

  /** Whatever renames happened, the intended handler leaves no entry that
      holds the disposed panel, and keeps both maps on the same titles. */
  lemma DisposedFixedForgets(r: Registry, id: nat)
    requires r.panels.Keys == r.notePaths.Keys
    ensures id !in DisposedFixed(r, id).panels.Values
    ensures DisposedFixed(r, id).panels.Keys == DisposedFixed(r, id).notePaths.Keys
  {
  }
}
