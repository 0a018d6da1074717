/** The tag and pin store (src/services/TagManager.js): two maps keyed by
    note title, kept in the `tags.json` sidecar of the notes directory. The
    maps hold parsed JSON values, as the loaded document may hold anything;
    the catalog only ever stores arrays of strings and `{pinned}` objects. */
module Tags {
  import opened Options
  import opened Json
  import opened Host
  import opened Config

  type TagMap = map<string, Json>
  type MetaMap = map<string, Json>

  /** A list of tags as the JSON array it is stored as. */
  function EncodeList(xs: seq<string>): (r: Json)
    ensures r.Arr? && |r.items| == |xs|
  {
    if xs == [] then Arr([]) else Arr([Str(xs[0])] + EncodeList(xs[1..]).items)
  }

  /** The string items of a JSON array, in order. */
  function StringsOf(items: seq<Json>): (r: seq<string>)
    ensures |r| <= |items|
    ensures (forall i :: 0 <= i < |items| ==> items[i].Str?) ==> |r| == |items|
  {
    if items == [] then []
    else (if items[0].Str? then [items[0].s] else []) + StringsOf(items[1..])
  }

  /** The tags a stored value stands for: the strings of an array. */
  function DecodeList(v: Json): (r: seq<string>)
    ensures !v.Arr? ==> r == []
  {
    if v.Arr? then StringsOf(v.items) else []
  }

  /** Storing a tag list and reading it back gives the same list. */
  lemma {:induction false} DecodeEncode(xs: seq<string>)
    ensures DecodeList(EncodeList(xs)) == xs
  {
    if xs != [] {
      DecodeEncode(xs[1..]);
      assert EncodeList(xs).items[1..] == EncodeList(xs[1..]).items;
    }
  }

  /** `this.tags.get(title) || []`, read as a tag list. */
  function GetTagsIn(m: TagMap, title: string): (r: seq<string>)
    ensures title !in m ==> r == []
    ensures title in m && !Truthy(m[title]) ==> r == []
  {
    if title in m && Truthy(m[title]) then DecodeList(m[title]) else []
  }

  /** `changeTag`'s argument: an array is stored as it is, anything else
      as a one-element array. */
  function Wrap(value: Json): (r: Json)
    ensures r.Arr?
    ensures value.Arr? ==> r == value
    ensures !value.Arr? ==> r.items == [value]
  {
    if value.Arr? then value else Arr([value])
  }

  /** `renameTag` on the map: a present, truthy entry moves to the new key
      and the old key goes (so renaming a key to itself drops its entry);
      otherwise the new key gets an empty list. */
  function Renamed(m: TagMap, oldKey: string, newKey: string): (r: TagMap)
    ensures oldKey in m && Truthy(m[oldKey]) && oldKey != newKey ==>
              oldKey !in r && newKey in r && r[newKey] == m[oldKey]
    ensures oldKey in m && Truthy(m[oldKey]) && oldKey == newKey ==> oldKey !in r
    ensures !(oldKey in m && Truthy(m[oldKey])) ==> newKey in r && r[newKey] == Arr([])
    ensures forall k :: k != oldKey && k != newKey ==> (k in r <==> k in m)
    ensures forall k :: k != oldKey && k != newKey && k in m ==> r[k] == m[k]
  {
    if oldKey in m && Truthy(m[oldKey]) then m[newKey := m[oldKey]] - {oldKey}
    else m[newKey := Arr([])]
  }

  /** After a rename to a different key the tags read under the new key are
      those read under the old key before, and the old key reads as
      untagged. */
  lemma RenameMovesTags(m: TagMap, oldKey: string, newKey: string)
    requires oldKey != newKey
    ensures GetTagsIn(Renamed(m, oldKey, newKey), newKey) == GetTagsIn(m, oldKey)
    ensures GetTagsIn(Renamed(m, oldKey, newKey), oldKey) == []
  {
    if !(oldKey in m && Truthy(m[oldKey])) {
      assert Renamed(m, oldKey, newKey)[newKey] == Arr([]);
      assert StringsOf([]) == [];
    }
  }

  /** `getPinned`: the entry is truthy and its `pinned` is exactly `true`. */
  function Pinned(md: MetaMap, title: string): (r: bool)
    ensures r <==> title in md && md[title].Obj? && "pinned" in md[title].fields
                   && md[title].fields["pinned"] == Bool(true)
  {
    title in md && Truthy(md[title]) && Get(md[title], "pinned") == Some(Bool(true))
  }

  /** `setPinned` on the map: `metadata.get(title) || {}` gets `pinned`.
      Writing a property of a truthy string, number or boolean throws (class
      code is strict), which is `None`; an array keeps the property only in
      memory and `JSON.stringify` drops it, so it is stored unchanged. */
  function WithPinned(md: MetaMap, title: string, pinned: bool): (r: Option<MetaMap>)
    ensures r.None? <==> title in md && Truthy(md[title]) && !IsObject(md[title])
    ensures r.Some? ==> title in r.value
    ensures r.Some? ==> forall k :: k != title ==> (k in r.value <==> k in md)
    ensures r.Some? ==> forall k :: k != title && k in md ==> r.value[k] == md[k]
    ensures r.Some? && !(title in md && md[title].Arr?) ==> Pinned(r.value, title) == pinned
    ensures r.Some? && title in md && md[title].Obj? ==>
              r.value[title].Obj?
              && forall f :: f != "pinned" && f in md[title].fields ==>
                   f in r.value[title].fields && r.value[title].fields[f] == md[title].fields[f]
  {
    var meta := if title in md && Truthy(md[title]) then md[title] else Obj(map[]);
    match meta
    case Obj(f) => Some(md[title := Obj(f["pinned" := Bool(pinned)])])
    case Arr(_) => Some(md[title := meta])
    case _ => None
  }

  /** The structured sidecar document `{tags, metadata}`. */
  function Document(tags: TagMap, md: MetaMap): (r: Json)
    ensures r.Obj? && r.fields.Keys == {"tags", "metadata"}
  {
    Obj(map["tags" := Obj(tags), "metadata" := Obj(md)])
  }

  /** The outcome of reading the sidecar: the two maps, and whether an empty
      structured document is written back. */
  datatype Loaded = Loaded(tags: TagMap, metadata: MetaMap, rewrite: bool)

  /** The format detection of `initializeTags`, on what the read gave
      (`None`: the read failed; `Text`: the content is not JSON). */
  function Load(read: Option<Content>): (r: Loaded)
    ensures r.rewrite <==> !(read.Some? && read.value.Doc? && IsObject(read.value.doc))
    ensures r.rewrite ==> r.tags == map[] && r.metadata == map[]
    ensures !r.rewrite && read.value.doc.Obj? && "tags" !in read.value.doc.fields ==>
              r.tags == read.value.doc.fields && r.metadata == map[]
  {
    match read
    case Some(Doc(v)) =>
      if IsObject(v) then
        var tv := Get(v, "tags");
        if tv.Some? && Truthy(tv.value) then
          Loaded(Entries(tv.value), Entries(OrElse(Get(v, "metadata"), Obj(map[]))), false)
        else
          Loaded(Entries(v), map[], false)
      else Loaded(map[], map[], true)
    case _ => Loaded(map[], map[], true)
  }

  /** Saving and loading again gives back both maps, whatever they hold. */
  lemma LoadSave(tags: TagMap, md: MetaMap)
    ensures Load(Some(Doc(Document(tags, md)))) == Loaded(tags, md, false)
  {
    var d := Document(tags, md);
    assert Get(d, "tags") == Some(Obj(tags));
    assert Get(d, "metadata") == Some(Obj(md));
  }

  /** A structured document whose `metadata` is missing or falsy loads its
      tags with empty metadata, and needs no rewrite. */
  lemma LoadWithoutMetadata(tags: TagMap, md: Json)
    requires !Truthy(md)
    ensures Load(Some(Doc(Obj(map["tags" := Obj(tags)])))) == Loaded(tags, map[], false)
    ensures Load(Some(Doc(Obj(map["tags" := Obj(tags), "metadata" := md])))) == Loaded(tags, map[], false)
  {
    var d := Obj(map["tags" := Obj(tags), "metadata" := md]);
    assert Get(d, "tags") == Some(Obj(tags));
    assert Get(d, "metadata") == Some(md);
    var e := Obj(map["tags" := Obj(tags)]);
    assert Get(e, "tags") == Some(Obj(tags));
    assert Get(e, "metadata") == None;
  }

  /** A flat document from before the structured format is read as the tag
      map exactly when it has no truthy `tags` entry; a note titled `tags`
      makes it be read as a structured document. */
  lemma LoadFlatIff(t: TagMap)
    ensures Load(Some(Doc(Obj(t)))) == Loaded(t, map[], false)
            <==> "tags" !in t || !Truthy(t["tags"])
  {
    if "tags" in t && Truthy(t["tags"]) {
      assert t["tags"] != Obj(t);
      assert Entries(t["tags"]) != t;
    }
  }

  class TagManager {
    const host: Host
    var tags: TagMap
    var metadata: MetaMap

    constructor (host: Host)
      ensures this.host == host && tags == map[] && metadata == map[]
    {
      this.host := host;
      tags := map[];
      metadata := map[];
    }

    /** `saveTags`: writes both maps as the structured document; fails when
        the notes directory is unknown or the write fails. */
    method SaveTags() returns (ok: bool)
      modifies host`files
      ensures ok <==> SidecarPath(host.settings).Some? && SidecarPath(host.settings).value !in host.faulty
      ensures ok ==> host.files == old(host.files)[SidecarPath(host.settings).value := Doc(Document(tags, metadata))]
      ensures !ok ==> host.files == old(host.files)
    {
      match SidecarPath(host.settings)
      case None =>
        ok := false;
      case Some(path) =>
        ok := host.WriteFile(path, Doc(Document(tags, metadata)));
    }

    /** `initializeTags`: loads the sidecar by its format, and writes an
        empty structured document back when it is missing, unreadable, not
        JSON or not an object. */
    method InitializeTags() returns (ok: bool)
      modifies this`tags, this`metadata, host`files
      ensures SidecarPath(host.settings).None? ==>
                !ok && tags == old(tags) && metadata == old(metadata) && host.files == old(host.files)
      ensures SidecarPath(host.settings).Some? ==>
                var path := SidecarPath(host.settings).value;
                var l := Load(old(host.Lookup(path)));
                && tags == l.tags && metadata == l.metadata
                && (ok <==> !l.rewrite || path !in host.faulty)
                && host.files == if l.rewrite && ok
                                 then old(host.files)[path := Doc(Document(map[], map[]))]
                                 else old(host.files)
    {
      match SidecarPath(host.settings)
      case None =>
        ok := false;
      case Some(path) =>
        var read := host.ReadFile(path);
        var l := Load(read);
        tags := l.tags;
        metadata := l.metadata;
        ok := true;
        if l.rewrite {
          ok := SaveTags();
        }
    }

    /** `changeTag`: stores the value, wrapped in a list unless it is one. */
    method ChangeTag(key: string, value: Json) returns (ok: bool)
      modifies this`tags, host`files
      ensures tags == old(tags)[key := Wrap(value)]
      ensures ok <==> SidecarPath(host.settings).Some? && SidecarPath(host.settings).value !in host.faulty
      ensures ok ==> host.files == old(host.files)[SidecarPath(host.settings).value := Doc(Document(tags, metadata))]
      ensures !ok ==> host.files == old(host.files)
    {
      tags := tags[key := Wrap(value)];
      ok := SaveTags();
    }

    /** `renameTag`. */
    method RenameTag(oldKey: string, newKey: string) returns (ok: bool)
      modifies this`tags, host`files
      ensures tags == Renamed(old(tags), oldKey, newKey)
      ensures ok <==> SidecarPath(host.settings).Some? && SidecarPath(host.settings).value !in host.faulty
      ensures ok ==> host.files == old(host.files)[SidecarPath(host.settings).value := Doc(Document(tags, metadata))]
      ensures !ok ==> host.files == old(host.files)
    {
      tags := Renamed(tags, oldKey, newKey);
      ok := SaveTags();
    }

    /** `deleteTag`: drops the tags of `key` only; its metadata stays. */
    method DeleteTag(key: string) returns (ok: bool)
      modifies this`tags, host`files
      ensures tags == old(tags) - {key}
      ensures ok <==> SidecarPath(host.settings).Some? && SidecarPath(host.settings).value !in host.faulty
      ensures ok ==> host.files == old(host.files)[SidecarPath(host.settings).value := Doc(Document(tags, metadata))]
      ensures !ok ==> host.files == old(host.files)
    {
      tags := tags - {key};
      ok := SaveTags();
    }

    /** `getTags`. */
    function GetTags(title: string): (r: seq<string>)
      reads this`tags
      ensures title !in tags ==> r == []
    {
      GetTagsIn(tags, title)
    }

    /** `getPinned`. */
    function GetPinned(title: string): (r: bool)
      reads this`metadata
      ensures r ==> title in metadata
    {
      Pinned(metadata, title)
    }

    /** `setPinned`: sets `pinned` on the title's metadata object, keeping
        its other fields; a throw leaves everything as it was. */
    method SetPinned(title: string, pinned: bool) returns (ok: bool)
      modifies this`metadata, host`files
      ensures WithPinned(old(metadata), title, pinned).None? ==>
                !ok && metadata == old(metadata) && host.files == old(host.files)
      ensures WithPinned(old(metadata), title, pinned).Some? ==>
                && metadata == WithPinned(old(metadata), title, pinned).value
                && (ok <==> SidecarPath(host.settings).Some? && SidecarPath(host.settings).value !in host.faulty)
                && host.files == if ok
                                 then old(host.files)[SidecarPath(host.settings).value := Doc(Document(tags, metadata))]
                                 else old(host.files)
    {
      match WithPinned(metadata, title, pinned)
      case None =>
        ok := false;
      case Some(m) =>
        metadata := m;
        ok := SaveTags();
    }
  }

  /** Storing a list under a title makes that title read as the list, and
      leaves every other title reading as before. */
  lemma ChangeThenGet(m: TagMap, key: string, xs: seq<string>, other: string)
    requires other != key
    ensures GetTagsIn(m[key := Wrap(EncodeList(xs))], key) == xs
    ensures GetTagsIn(m[key := Wrap(EncodeList(xs))], other) == GetTagsIn(m, other)
  {
    DecodeEncode(xs);
  }
}
