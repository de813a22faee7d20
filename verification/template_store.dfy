/** The template store (src/templates.rs): two files per template, as a map from names to templates. */
module TemplateStore {
  import opened Text
  import opened Ordering

  datatype Format = Ignition | Kickstart | CloudConfig
  datatype Mode = Oneshot | Forever

  /** The metadata file beside each template. */
  datatype Meta = Meta(mode: Mode, createdAt: string, updatedAt: string)

  /** The clock is read once for the creation time and once for the time of the update. */
  datatype Readings = Readings(first: string, second: string)

  /** A file is plain text or printed metadata; parsing the print gives the metadata back. */
  datatype File = Plain(text: string) | MetaJson(meta: Meta)

  /** Image type and file name. */
  type Key = (string, string)
  type Files = map<Key, File>

  datatype Template = Template(content: string, meta: Meta)
  datatype Loaded = Loaded(imageType: string, name: string, format: Format, template: Template)
  datatype Summary = Summary(imageType: string, name: string, format: Format, mode: Mode)
  datatype BundleEntry = BundleEntry(imageType: string, name: string, format: Format, mode: Mode, content: string)
  datatype Bundle = Bundle(version: nat, exportedAt: string, templates: seq<BundleEntry>)

  const META: string := ".meta.json"

  predicate IsMetaName(name: string) {
    EndsWith(name, META)
  }

  function MetaName(name: string): string {
    name + META
  }

  function BaseName(name: string): string
    requires IsMetaName(name)
  {
    name[..|name| - |META|]
  }

  function FromFilename(name: string): Format {
    if EndsWith(name, ".ign.json") then Ignition
    else if EndsWith(name, ".ks") then Kickstart
    else CloudConfig
  }

  // ----- The operations on files -----

  function ReadMeta(files: Files, key: Key): Option<Meta> {
    var m := (key.0, MetaName(key.1));
    if m in files && files[m].MetaJson? then Some(files[m].meta) else None
  }

  function PutFiles(files: Files, key: Key, mode: Mode, content: string, now: Readings): Files {
    var existing := ReadMeta(files, key);
    var meta := Meta(mode, if existing.Some? then existing.value.createdAt else now.first, now.second);
    files[key := Plain(content)][(key.0, MetaName(key.1)) := MetaJson(meta)]
  }

  function DeleteFiles(files: Files, key: Key): Files {
    if key !in files then files else files - {key} - {(key.0, MetaName(key.1))}
  }

  /** The names that `get` tries: as given, then with each known extension. */
  function Candidates(name: string): seq<string> {
    [name, name + ".ign.json", name + ".ks", name + ".yaml"]
  }

  // ----- The map the store stands for -----

  /** Every template has its metadata, and metadata files belong to templates. */
  ghost predicate Paired(files: Files) {
    forall k :: k in files ==>
      if IsMetaName(k.1)
      then files[k].MetaJson? && !IsMetaName(BaseName(k.1)) && (k.0, BaseName(k.1)) in files
      else files[k].Plain? && (k.0, MetaName(k.1)) in files
  }

  function TemplateAt(files: Files, k: Key): Option<Template> {
    if k in files && !IsMetaName(k.1) && files[k].Plain? && ReadMeta(files, k).Some?
    then Some(Template(files[k].text, ReadMeta(files, k).value))
    else None
  }

  function Templates(files: Files): map<Key, Template> {
    map k | k in files && TemplateAt(files, k).Some? :: TemplateAt(files, k).value
  }

  function Updated(ts: map<Key, Template>, key: Key, mode: Mode, content: string, now: Readings): map<Key, Template> {
    ts[key := Template(content, Meta(mode, if key in ts then ts[key].meta.createdAt else now.first, now.second))]
  }

  lemma MetaNameShape(name: string)
    ensures IsMetaName(MetaName(name)) && BaseName(MetaName(name)) == name
  {
  }

  lemma MetaNameInjective(a: string, b: string)
    ensures MetaName(a) == MetaName(b) ==> a == b
  {
    MetaNameShape(a);
    MetaNameShape(b);
  }

  lemma BaseNameShape(name: string)
    requires IsMetaName(name)
    ensures MetaName(BaseName(name)) == name
  {
  }

  lemma PairedTemplates(files: Files, key: Key)
    requires Paired(files) && !IsMetaName(key.1)
    ensures key in Templates(files) <==> key in files
    ensures key in files ==> files[key] == Plain(Templates(files)[key].content)
                             && ReadMeta(files, key) == Some(Templates(files)[key].meta)
    ensures key !in files ==> ReadMeta(files, key).None?
  {
    MetaNameShape(key.1);
  }

  lemma PutAt(files: Files, key: Key, mode: Mode, content: string, now: Readings, k: Key)
    requires !IsMetaName(key.1)
    ensures var existing := ReadMeta(files, key);
      TemplateAt(PutFiles(files, key, mode, content, now), k) ==
      if k == key
      then Some(Template(content, Meta(mode, if existing.Some? then existing.value.createdAt else now.first, now.second)))
      else TemplateAt(files, k)
  {
    MetaNameShape(key.1);
    MetaNameShape(k.1);
    MetaNameInjective(key.1, k.1);
  }

  lemma PutPaired(files: Files, key: Key, mode: Mode, content: string, now: Readings)
    requires Paired(files) && !IsMetaName(key.1)
    ensures Paired(PutFiles(files, key, mode, content, now))
  {
    var after := PutFiles(files, key, mode, content, now);
    MetaNameShape(key.1);
    forall k | k in after
      ensures if IsMetaName(k.1)
              then after[k].MetaJson? && !IsMetaName(BaseName(k.1)) && (k.0, BaseName(k.1)) in after
              else after[k].Plain? && (k.0, MetaName(k.1)) in after
    {
    }
  }

  /** On names of templates, `put` updates the map, and keeps the creation time of a template it replaces. */
  lemma PutRefines(files: Files, key: Key, mode: Mode, content: string, now: Readings)
    requires Paired(files) && !IsMetaName(key.1)
    ensures Paired(PutFiles(files, key, mode, content, now))
    ensures Templates(PutFiles(files, key, mode, content, now)) == Updated(Templates(files), key, mode, content, now)
  {
    PutPaired(files, key, mode, content, now);
    PairedTemplates(files, key);
    var after, expected := Templates(PutFiles(files, key, mode, content, now)),
                           Updated(Templates(files), key, mode, content, now);
    forall k ensures At(after, k) == At(expected, k) {
      PutAt(files, key, mode, content, now, k);
    }
    SameMap(after, expected);
  }

  lemma SameMap<K, V>(a: map<K, V>, b: map<K, V>)
    requires forall k :: At(a, k) == At(b, k)
    ensures a == b
  {
    forall k ensures k in a <==> k in b { var _ := At(a, k); }
    forall k | k in a ensures a[k] == b[k] { var _ := At(a, k); }
  }

  lemma DeleteAt(files: Files, key: Key, k: Key)
    requires !IsMetaName(key.1)
    ensures TemplateAt(DeleteFiles(files, key), k) == if k == key then None else TemplateAt(files, k)
  {
    MetaNameShape(key.1);
    MetaNameShape(k.1);
    MetaNameInjective(key.1, k.1);
  }

  lemma DeletePaired(files: Files, key: Key)
    requires Paired(files) && !IsMetaName(key.1)
    ensures Paired(DeleteFiles(files, key))
  {
    var after := DeleteFiles(files, key);
    forall k | k in after
      ensures if IsMetaName(k.1)
              then after[k].MetaJson? && !IsMetaName(BaseName(k.1)) && (k.0, BaseName(k.1)) in after
              else after[k].Plain? && (k.0, MetaName(k.1)) in after
    {
      MetaNameShape(k.1);
      MetaNameInjective(key.1, k.1);
      if IsMetaName(k.1) { BaseNameShape(k.1); }
    }
  }

  lemma DeleteRefines(files: Files, key: Key)
    requires Paired(files) && !IsMetaName(key.1)
    ensures Paired(DeleteFiles(files, key))
    ensures Templates(DeleteFiles(files, key)) == Templates(files) - {key}
  {
    DeletePaired(files, key);
    var after, expected := Templates(DeleteFiles(files, key)), Templates(files) - {key};
    forall k ensures At(after, k) == At(expected, k) {
      DeleteAt(files, key, k);
    }
    SameMap(after, expected);
  }

  /** The restriction on names is exact: a name with the metadata suffix breaks the pairing. */
  lemma PutPairsExactly(files: Files, key: Key, mode: Mode, content: string, now: Readings)
    requires Paired(files)
    ensures Paired(PutFiles(files, key, mode, content, now)) <==> !IsMetaName(key.1)
  {
    if IsMetaName(key.1) {
      assert PutFiles(files, key, mode, content, now)[key] == Plain(content);
    } else {
      PutRefines(files, key, mode, content, now);
    }
  }

  lemma DeletePairsExactly(files: Files, key: Key)
    requires Paired(files)
    ensures Paired(DeleteFiles(files, key)) <==> !IsMetaName(key.1) || key !in files
  {
    if IsMetaName(key.1) && key in files {
      var base := (key.0, BaseName(key.1));
      BaseNameShape(key.1);
      assert base in DeleteFiles(files, key);
    } else if key in files {
      DeleteRefines(files, key);
    }
  }

  // ----- Runs -----

  datatype Op =
    | PutOp(key: Key, mode: Mode, content: string, now: Readings)
    | DeleteOp(key: Key)

  function RunFiles(files: Files, ops: seq<Op>): Files {
    if ops == [] then files
    else
      var before := RunFiles(files, ops[..|ops| - 1]);
      match ops[|ops| - 1]
      case PutOp(k, mode, content, now) => PutFiles(before, k, mode, content, now)
      case DeleteOp(k) => DeleteFiles(before, k)
  }

  function RunTemplates(ts: map<Key, Template>, ops: seq<Op>): map<Key, Template> {
    if ops == [] then ts
    else
      var before := RunTemplates(ts, ops[..|ops| - 1]);
      match ops[|ops| - 1]
      case PutOp(k, mode, content, now) => Updated(before, k, mode, content, now)
      case DeleteOp(k) => before - {k}
  }

  /** Over every run the files stand for the map. */
  lemma {:induction false} RunRefines(files: Files, ops: seq<Op>)
    requires Paired(files) && forall i :: 0 <= i < |ops| ==> !IsMetaName(ops[i].key.1)
    ensures Paired(RunFiles(files, ops))
    ensures Templates(RunFiles(files, ops)) == RunTemplates(Templates(files), ops)
  {
    if ops != [] {
      var n := |ops| - 1;
      RunRefines(files, ops[..n]);
      var before := RunFiles(files, ops[..n]);
      match ops[n]
      case PutOp(k, mode, content, now) => PutRefines(before, k, mode, content, now);
      case DeleteOp(k) => DeleteRefines(before, k);
    }
  }

  // ----- Listings -----

  predicate KeyLe(a: Key, b: Key) {
    Lt(a.0, b.0) || (a.0 == b.0 && Le(a.1, b.1))
  }

  lemma KeyOrder()
    ensures TotalOrder(KeyLe)
  {
    StringOrder();
  }

  ghost function Keys(ts: map<Key, Template>): (r: seq<Key>)
    ensures Elems(r) == ts.Keys && NoDuplicates(r) && Sorted(r, KeyLe)
  {
    KeyOrder();
    var r := SortedSeq(ts.Keys, KeyLe);
    StrictlySortedSplit(r, KeyLe);
    r
  }

  function SummaryOf(key: Key, t: Template): Summary {
    Summary(key.0, key.1, FromFilename(key.1), t.meta.mode)
  }

  function EntryOf(key: Key, t: Template): BundleEntry {
    BundleEntry(key.0, key.1, FromFilename(key.1), t.meta.mode, t.content)
  }

  /** The listing by image type and name. */
  ghost function Listing(ts: map<Key, Template>): seq<Summary> {
    var keys := Keys(ts);
    seq(|keys|, i requires 0 <= i < |keys| => assert keys[i] in Elems(keys); SummaryOf(keys[i], ts[keys[i]]))
  }

  ghost function Export(ts: map<Key, Template>): seq<BundleEntry> {
    var keys := Keys(ts);
    seq(|keys|, i requires 0 <= i < |keys| => assert keys[i] in Elems(keys); EntryOf(keys[i], ts[keys[i]]))
  }

  // ----- Backup and restore -----

  function RestoreFiles(files: Files, entries: seq<BundleEntry>, nows: seq<Readings>): Files
    requires |entries| == |nows|
  {
    if entries == [] then files
    else
      var n := |entries| - 1;
      var e := entries[n];
      PutFiles(RestoreFiles(files, entries[..n], nows[..n]), (e.imageType, e.name), e.mode, e.content, nows[n])
  }

  /** What a bundle carries: content and mode. */
  function Payload(ts: map<Key, Template>): map<Key, (string, Mode)> {
    map k | k in ts :: (ts[k].content, ts[k].meta.mode)
  }

  function EntryKey(e: BundleEntry): Key {
    (e.imageType, e.name)
  }

  function Carried(entries: seq<BundleEntry>): map<Key, (string, Mode)> {
    if entries == [] then map[]
    else
      var n := |entries| - 1;
      Carried(entries[..n])[EntryKey(entries[n]) := (entries[n].content, entries[n].mode)]
  }

  lemma PayloadPut(ts: map<Key, Template>, key: Key, mode: Mode, content: string, now: Readings)
    ensures Payload(Updated(ts, key, mode, content, now)) == Payload(ts)[key := (content, mode)]
  {
  }

  lemma OverlayOne<K, V>(a: map<K, V>, b: map<K, V>, k: K, v: V)
    ensures (a + b)[k := v] == a + b[k := v]
  {
  }

  /** Restoring overlays the bundle on the store; a later entry wins over an earlier one. */
  lemma {:induction false} RestoreOverlays(files: Files, entries: seq<BundleEntry>, nows: seq<Readings>)
    requires Paired(files) && |entries| == |nows|
    requires forall i :: 0 <= i < |entries| ==> !IsMetaName(entries[i].name)
    ensures Paired(RestoreFiles(files, entries, nows))
    ensures Payload(Templates(RestoreFiles(files, entries, nows))) == Payload(Templates(files)) + Carried(entries)
  {
    if entries != [] {
      var n := |entries| - 1;
      RestoreOverlays(files, entries[..n], nows[..n]);
      var before, e := RestoreFiles(files, entries[..n], nows[..n]), entries[n];
      PutRefines(before, EntryKey(e), e.mode, e.content, nows[n]);
      PayloadPut(Templates(before), EntryKey(e), e.mode, e.content, nows[n]);
      OverlayOne(Payload(Templates(files)), Carried(entries[..n]), EntryKey(e), (e.content, e.mode));
    }
  }

  lemma {:induction false} CarriedKeys(entries: seq<BundleEntry>, i: nat)
    requires i < |entries| && forall j :: i < j < |entries| ==> EntryKey(entries[j]) != EntryKey(entries[i])
    ensures EntryKey(entries[i]) in Carried(entries)
    ensures Carried(entries)[EntryKey(entries[i])] == (entries[i].content, entries[i].mode)
  {
    var n := |entries| - 1;
    if i < n { CarriedKeys(entries[..n], i); }
  }

  lemma {:induction false} CarriedOnly(entries: seq<BundleEntry>, k: Key)
    requires k in Carried(entries)
    ensures exists i :: 0 <= i < |entries| && EntryKey(entries[i]) == k
  {
    var n := |entries| - 1;
    if k != EntryKey(entries[n]) {
      CarriedOnly(entries[..n], k);
      var i :| 0 <= i < n && EntryKey(entries[..n][i]) == k;
      assert EntryKey(entries[i]) == k;
    }
  }

  /** An export carries the whole payload. */
  lemma ExportCarries(ts: map<Key, Template>)
    ensures Carried(Export(ts)) == Payload(ts)
  {
    var keys, entries := Keys(ts), Export(ts);
    forall i | 0 <= i < |keys| ensures EntryKey(entries[i]) == keys[i] {
    }
    forall k | k in ts ensures k in Carried(entries) && Carried(entries)[k] == Payload(ts)[k] {
      assert k in Elems(keys);
      var i :| 0 <= i < |keys| && keys[i] == k;
      CarriedKeys(entries, i);
    }
    forall k | k in Carried(entries) ensures k in ts {
      CarriedOnly(entries, k);
      var i :| 0 <= i < |entries| && EntryKey(entries[i]) == k;
      assert keys[i] in Elems(keys);
    }
  }

  /** Listings and exports depend on the payload alone. */
  lemma SamePayload(a: map<Key, Template>, b: map<Key, Template>)
    requires Payload(a) == Payload(b)
    ensures Listing(a) == Listing(b) && Export(a) == Export(b)
  {
    assert a.Keys == Payload(a).Keys == b.Keys;
    var keys := Keys(a);
    forall i | 0 <= i < |keys| ensures a[keys[i]].content == b[keys[i]].content && a[keys[i]].meta.mode == b[keys[i]].meta.mode {
      assert keys[i] in Elems(keys);
      assert Payload(a)[keys[i]] == Payload(b)[keys[i]];
    }
  }

  lemma ExportNames(files: Files)
    requires Paired(files)
    ensures forall i :: 0 <= i < |Export(Templates(files))| ==> !IsMetaName(Export(Templates(files))[i].name)
  {
    var keys := Keys(Templates(files));
    assert forall i :: 0 <= i < |keys| ==> keys[i] in Elems(keys);
  }

  /** A backup restored on any store overlays it; on an empty store it gives back the listing, the contents and
      the modes, and a second backup carries the same entries. */
  lemma BackupRestore(source: Files, target: Files, nows: seq<Readings>)
    requires Paired(source) && Paired(target) && |nows| == |Export(Templates(source))|
    ensures var r := RestoreFiles(target, Export(Templates(source)), nows);
      && Paired(r)
      && Payload(Templates(r)) == Payload(Templates(target)) + Payload(Templates(source))
      && (target == map[] ==> Listing(Templates(r)) == Listing(Templates(source))
                              && Export(Templates(r)) == Export(Templates(source)))
  {
    ExportNames(source);
    RestoreOverlays(target, Export(Templates(source)), nows);
    ExportCarries(Templates(source));
    if target == map[] {
      FullOverlay(source, target, RestoreFiles(target, Export(Templates(source)), nows));
    }
  }

  lemma FullOverlay(source: Files, target: Files, r: Files)
    requires target == map[] && Payload(Templates(r)) == Payload(Templates(target)) + Payload(Templates(source))
    ensures Listing(Templates(r)) == Listing(Templates(source)) && Export(Templates(r)) == Export(Templates(source))
  {
    assert Payload(Templates(target)) == map[];
    assert Payload(Templates(r)) == Payload(Templates(source));
    SamePayload(Templates(r), Templates(source));
  }

  // ----- What the listings say -----

  /** The format is told by the extension. */
  lemma FormatExactly(name: string)
    ensures FromFilename(name) == Ignition <==> exists x: string :: name == x + ".ign.json"
    ensures FromFilename(name) == Kickstart <==> exists x: string :: name == x + ".ks"
  {
    forall suffix: string, x: string | name == x + suffix ensures EndsWith(name, suffix) {
      assert name[|name| - |suffix|..] == suffix;
    }
    if EndsWith(name, ".ign.json") {
      assert name == name[..|name| - 9] + ".ign.json";
      assert name[|name| - 1] == 'n';
    }
    if EndsWith(name, ".ks") {
      assert name == name[..|name| - 3] + ".ks";
      assert name[|name| - 1] == 's';
    }
  }

  predicate ListedBefore(type1: string, name1: string, type2: string, name2: string) {
    Lt(type1, type2) || (type1 == type2 && Lt(name1, name2))
  }

  /** The listing has one item for each template, with its mode and format, by image type and then by name. */
  lemma ListingExactly(ts: map<Key, Template>)
    ensures var r := Listing(ts);
      && (forall i, j :: 0 <= i < j < |r| ==> ListedBefore(r[i].imageType, r[i].name, r[j].imageType, r[j].name))
      && (forall s :: s in r ==> (s.imageType, s.name) in ts && s.mode == ts[(s.imageType, s.name)].meta.mode
                                 && s.format == FromFilename(s.name))
      && (forall t, n :: (t, n) in ts ==> exists s :: s in r && s.imageType == t && s.name == n)
  {
    var keys, r := Keys(ts), Listing(ts);
    forall i | 0 <= i < |r| ensures keys[i] in ts && r[i] == SummaryOf(keys[i], ts[keys[i]]) {
      assert keys[i] in Elems(keys);
    }
    forall t, n | (t, n) in ts ensures exists s :: s in r && s.imageType == t && s.name == n {
      var i := IndexOfKey(keys, (t, n));
      assert r[i] in r;
    }
  }

  lemma IndexOfKey(keys: seq<Key>, k: Key) returns (i: nat)
    requires k in Elems(keys)
    ensures i < |keys| && keys[i] == k
  {
    i :| 0 <= i < |keys| && keys[i] == k;
  }

  /** An export carries each template's content as well, in the same order. */
  lemma ExportExactly(ts: map<Key, Template>)
    ensures var r, l := Export(ts), Listing(ts);
      && |r| == |l|
      && forall i :: 0 <= i < |r| ==>
           && r[i].imageType == l[i].imageType && r[i].name == l[i].name && r[i].format == l[i].format
           && r[i].mode == l[i].mode && (r[i].imageType, r[i].name) in ts
           && r[i].content == ts[(r[i].imageType, r[i].name)].content
  {
    var keys := Keys(ts);
    assert forall i :: 0 <= i < |keys| ==> keys[i] in Elems(keys);
  }

  /** `put` writes two files, the text and the metadata beside it, and no others. */
  lemma PutWrites(files: Files, t: string, n: string, mode: Mode, content: string, now: Readings)
    ensures var r := PutFiles(files, (t, n), mode, content, now);
      && r.Keys == files.Keys + {(t, n), (t, n + ".meta.json")}
      && (forall k :: k in files && k != (t, n) && k != (t, n + ".meta.json") ==> r[k] == files[k])
      && r[(t, n)] == Plain(content) && r[(t, n + ".meta.json")].MetaJson?
      && var m := r[(t, n + ".meta.json")].meta;
      && m.mode == mode && m.updatedAt == now.second
      && ((t, n + ".meta.json") in files && files[(t, n + ".meta.json")].MetaJson? ==>
            m.createdAt == files[(t, n + ".meta.json")].meta.createdAt)
      && ((t, n + ".meta.json") !in files ==> m.createdAt == now.first)
  {
    assert n + ".meta.json" != n;
  }

  /** `delete` removes those two files, and no others. */
  lemma DeleteRemoves(files: Files, t: string, n: string)
    ensures DeleteFiles(files, (t, n)) ==
            if (t, n) in files then files - {(t, n), (t, n + ".meta.json")} else files
  {
  }

  // ----- The store -----

  /** The printed metadata file, for a reader that takes it for a template. */
  function PrintMeta(meta: Meta): string {
    "{\n  \"mode\": \"" + (if meta.mode.Oneshot? then "oneshot" else "forever")
    + "\",\n  \"created_at\": \"" + meta.createdAt + "\",\n  \"updated_at\": \"" + meta.updatedAt + "\"\n}"
  }

  function Body(file: File): string {
    if file.Plain? then file.text else PrintMeta(file.meta)
  }

  /** The first of the names that exists. */
  function Resolve(files: Files, imageType: string, names: seq<string>): Option<string> {
    if names == [] then None
    else if (imageType, names[0]) in files then Some(names[0])
    else Resolve(files, imageType, names[1..])
  }

  function MetaOr(files: Files, key: Key, now: Readings): Meta {
    var m := ReadMeta(files, key);
    if m.Some? then m.value else Meta(Forever, now.first, now.second)
  }

  function LoadedFrom(files: Files, imageType: string, name: string, now: Readings): Loaded
    requires (imageType, name) in files
  {
    Loaded(imageType, name, FromFilename(name),
           Template(Body(files[(imageType, name)]), MetaOr(files, (imageType, name), now)))
  }

  function GetFrom(files: Files, imageType: string, name: string, now: Readings): Option<Loaded> {
    var found := Resolve(files, imageType, Candidates(name));
    if found.None? then None
    else
      ResolvedExists(files, imageType, Candidates(name));
      Some(LoadedFrom(files, imageType, found.value, now))
  }

  lemma ResolvedExists(files: Files, imageType: string, names: seq<string>)
    ensures Resolve(files, imageType, names).Some? ==>
              (imageType, Resolve(files, imageType, names).value) in files
              && Resolve(files, imageType, names).value in names
  {
  }

  /** On names of templates, `get` reads the map: the name itself if it is there, else the name with the first
      extension that is. */
  lemma GetRefines(files: Files, imageType: string, name: string, now: Readings)
    requires Paired(files) && !IsMetaName(name)
    ensures var ts := Templates(files);
      GetFrom(files, imageType, name, now) ==
      if (imageType, name) in ts then Some(Loaded(imageType, name, FromFilename(name), ts[(imageType, name)]))
      else if (imageType, name + ".ign.json") in ts
      then Some(Loaded(imageType, name + ".ign.json", Ignition, ts[(imageType, name + ".ign.json")]))
      else if (imageType, name + ".ks") in ts
      then Some(Loaded(imageType, name + ".ks", Kickstart, ts[(imageType, name + ".ks")]))
      else if (imageType, name + ".yaml") in ts
      then Some(Loaded(imageType, name + ".yaml", CloudConfig, ts[(imageType, name + ".yaml")]))
      else None
  {
    ExtensionFormats(name);
    LoadedIsTemplate(files, imageType, name, now);
    LoadedIsTemplate(files, imageType, name + ".ign.json", now);
    LoadedIsTemplate(files, imageType, name + ".ks", now);
    LoadedIsTemplate(files, imageType, name + ".yaml", now);
    ResolveFour(files, imageType, name, name + ".ign.json", name + ".ks", name + ".yaml");
  }

  lemma LoadedIsTemplate(files: Files, imageType: string, name: string, now: Readings)
    requires Paired(files) && !IsMetaName(name)
    ensures (imageType, name) in files <==> (imageType, name) in Templates(files)
    ensures (imageType, name) in files ==>
              LoadedFrom(files, imageType, name, now) ==
              Loaded(imageType, name, FromFilename(name), Templates(files)[(imageType, name)])
  {
    PairedTemplates(files, (imageType, name));
  }

  lemma ResolveFour(files: Files, t: string, a: string, b: string, c: string, d: string)
    ensures Resolve(files, t, [a, b, c, d]) ==
            if (t, a) in files then Some(a)
            else if (t, b) in files then Some(b)
            else if (t, c) in files then Some(c)
            else if (t, d) in files then Some(d)
            else None
  {
    assert Resolve(files, t, [c, d]) == if (t, c) in files then Some(c) else if (t, d) in files then Some(d) else None by {
      assert [c, d][1..] == [d] && [d][1..] == [];
      assert Resolve(files, t, [d]) == if (t, d) in files then Some(d) else None;
    }
    assert [a, b, c, d][1..] == [b, c, d] && [b, c, d][1..] == [c, d];
    assert Resolve(files, t, [b, c, d]) == if (t, b) in files then Some(b) else Resolve(files, t, [c, d]);
  }

  lemma ExtensionFormats(name: string)
    ensures FromFilename(name + ".ign.json") == Ignition && FromFilename(name + ".ks") == Kickstart
    ensures FromFilename(name + ".yaml") == CloudConfig
    ensures !IsMetaName(name + ".ign.json") && !IsMetaName(name + ".ks") && !IsMetaName(name + ".yaml")
  {
    HasSuffix(name, ".ign.json");
    HasSuffix(name, ".ks");
    SuffixDiffers(name, ".ign.json", META, 6);
    SuffixDiffers(name, ".ks", META, 1);
    SuffixDiffers(name, ".ks", ".ign.json", 1);
    SuffixDiffers(name, ".yaml", META, 1);
    SuffixDiffers(name, ".yaml", ".ign.json", 1);
    SuffixDiffers(name, ".yaml", ".ks", 1);
  }

  lemma HasSuffix(name: string, suffix: string)
    ensures EndsWith(name + suffix, suffix)
  {
  }

  /** Suffixes that differ in the k-th character from the end exclude each other. */
  lemma SuffixDiffers(name: string, suffix: string, other: string, k: nat)
    requires 0 < k <= |suffix| && k <= |other| && suffix[|suffix| - k] != other[|other| - k]
    ensures !EndsWith(name + suffix, other)
  {
    var s := name + suffix;
    assert s[|s| - k] == suffix[|suffix| - k];
    if |other| <= |s| { assert s[|s| - |other|..][|other| - k] == s[|s| - k]; }
  }

  /** A template without a metadata file is loaded for every boot, with the time of the request. */
  lemma WithoutMetadata(files: Files, t: string, n: string, now: Readings)
    requires (t, n) in files && files[(t, n)].Plain? && (t, n + ".meta.json") !in files
    ensures GetFrom(files, t, n, now) ==
            Some(Loaded(t, n, FromFilename(n), Template(files[(t, n)].text, Meta(Forever, now.first, now.second))))
  {
  }

  /** The keys found in any order, sorted, are the listing's. */
  lemma SortedKeys(files: Files, keys: seq<Key>)
    requires Paired(files) && NoDuplicates(keys)
    requires Elems(keys) == set k | k in files && !IsMetaName(k.1)
    ensures Sort(keys, KeyLe) == Keys(Templates(files))
  {
    KeyOrder();
    forall k: Key | !IsMetaName(k.1) ensures k in Templates(files) <==> k in files { PairedTemplates(files, k); }
    assert Elems(keys) == Templates(files).Keys;
    SortCorrect(keys, KeyLe);
    SortDistinct(keys, KeyLe);
    StrictlySortedSplit(Sort(keys, KeyLe), KeyLe);
    StrictlySortedSplit(Keys(Templates(files)), KeyLe);
    StrictlySortedUnique(Sort(keys, KeyLe), Keys(Templates(files)), KeyLe);
  }

  lemma {:induction false} SortDistinct<T(!new)>(s: seq<T>, le: (T, T) -> bool)
    requires NoDuplicates(s) && TotalOrder(le)
    ensures NoDuplicates(Sort(s, le))
  {
    if s != [] {
      SortDistinct(s[1..], le);
      SortCorrect(s[1..], le);
      assert s == [s[0]] + s[1..];
      assert s[0] !in Elems(Sort(s[1..], le));
      InsertSortedDistinct(s[0], Sort(s[1..], le), le);
    }
  }

  class Store {
    var files: Files

    constructor ()
      ensures Paired(files) && Templates(files) == map[]
    {
      files := map[];
    }

    /** `put`, with the clock readings it takes. */
    method Put(imageType: string, name: string, mode: Mode, content: string, now: Readings) returns (r: Loaded)
      modifies this
      ensures files == PutFiles(old(files), (imageType, name), mode, content, now)
      ensures (imageType, name) in files && r == LoadedFrom(files, imageType, name, now)
      ensures old(Paired(files)) && !IsMetaName(name) ==>
                && Paired(files)
                && Templates(files) == Updated(old(Templates(files)), (imageType, name), mode, content, now)
    {
      var existing := ReadMeta(files, (imageType, name));
      var createdAt := if existing.Some? then existing.value.createdAt else now.first;
      var meta := Meta(mode, createdAt, now.second);
      if Paired(files) && !IsMetaName(name) { PutRefines(files, (imageType, name), mode, content, now); }
      files := files[(imageType, name) := Plain(content)];
      files := files[(imageType, MetaName(name)) := MetaJson(meta)];
      r := Loaded(imageType, name, FromFilename(name), Template(content, meta));
    }

    /** `delete`. */
    method Delete(imageType: string, name: string) returns (existed: bool)
      modifies this
      ensures files == DeleteFiles(old(files), (imageType, name))
      ensures existed <==> (imageType, name) in old(files)
      ensures old(Paired(files)) && !IsMetaName(name) ==>
                Paired(files) && Templates(files) == old(Templates(files)) - {(imageType, name)}
    {
      if Paired(files) && !IsMetaName(name) { DeleteRefines(files, (imageType, name)); }
      if (imageType, name) !in files {
        return false;
      }
      files := files - {(imageType, name)};
      files := files - {(imageType, MetaName(name))};
      existed := true;
    }

    /** `get`: the loop over the known extensions stops at the first that exists. */
    method Get(imageType: string, name: string, now: Readings) returns (r: Option<Loaded>)
      ensures r == GetFrom(files, imageType, name, now)
    {
      var names := Candidates(name);
      for i := 0 to |names|
        invariant Resolve(files, imageType, names) == Resolve(files, imageType, names[i..])
      {
        assert names[i..][1..] == names[i + 1..];
        if (imageType, names[i]) in files {
          return Some(LoadedFrom(files, imageType, names[i], now));
        }
      }
      r := None;
    }

    /** `list_all`: the directories are read in any order, then sorted. */
    method ListAll() returns (r: seq<Summary>)
      ensures Paired(files) ==> r == Listing(Templates(files))
    {
      var keys: seq<Key> := [];
      var pending := files.Keys;
      while pending != {}
        invariant pending <= files.Keys && NoDuplicates(keys)
        invariant Elems(keys) == set k | k in files && k !in pending && !IsMetaName(k.1)
        decreases pending
      {
        var k: Key :| k in pending;
        ghost var before := keys;
        assert k !in Elems(keys);
        pending := pending - {k};
        if !IsMetaName(k.1) {
          keys := keys + [k];
        }
        assert Elems(keys) == Elems(before) + (if IsMetaName(k.1) then {} else {k});
      }
      if Paired(files) { SortedKeys(files, keys); }
      r := Summarize(Sort(keys, KeyLe));
      if Paired(files) { SummariesAre(files, r); }
    }

    method Summarize(keys: seq<Key>) returns (r: seq<Summary>)
      ensures |r| == |keys|
      ensures forall j :: 0 <= j < |r| ==>
        r[j] == Summary(keys[j].0, keys[j].1, FromFilename(keys[j].1), MetaOr(files, keys[j], Readings("", "")).mode)
    {
      r := [];
      for i := 0 to |keys|
        invariant |r| == i
        invariant forall j :: 0 <= j < i ==>
          r[j] == Summary(keys[j].0, keys[j].1, FromFilename(keys[j].1), MetaOr(files, keys[j], Readings("", "")).mode)
      {
        r := r + [Summary(keys[i].0, keys[i].1, FromFilename(keys[i].1), MetaOr(files, keys[i], Readings("", "")).mode)];
      }
    }

    /** `backup`. */
    method Backup(now: string) returns (bundle: Bundle)
      ensures Paired(files) ==> bundle == Bundle(1, now, Export(Templates(files)))
    {
      var summaries := ListAll();
      var entries := CollectEntries(summaries, Readings(now, now));
      if Paired(files) { ListingLoads(files, Readings(now, now)); }
      bundle := Bundle(1, now, entries);
    }

    method CollectEntries(summaries: seq<Summary>, now: Readings) returns (entries: seq<BundleEntry>)
      ensures entries == Collected(summaries, LoadBy(files, now))
    {
      ghost var load := LoadBy(files, now);
      entries := [];
      for i := 0 to |summaries|
        invariant entries == Collected(summaries[..i], load)
      {
        assert summaries[..i + 1][..i] == summaries[..i];
        var tpl := Get(summaries[i].imageType, summaries[i].name, now);
        assert load(summaries[i]) == LoadEntry(files, summaries[i], now);
        if tpl.Some? {
          entries := entries + [EntryOfLoaded(tpl.value)];
        }
      }
      assert summaries[..|summaries|] == summaries;
    }

    /** `restore`, with the clock readings of each entry. */
    method Restore(entries: seq<BundleEntry>, nows: seq<Readings>) returns (count: nat)
      requires |nows| == |entries|
      modifies this
      ensures files == RestoreFiles(old(files), entries, nows) && count == |entries|
    {
      count := 0;
      for i := 0 to |entries|
        invariant count == i && files == RestoreFiles(old(files), entries[..i], nows[..i])
      {
        assert entries[..i + 1][..i] == entries[..i] && nows[..i + 1][..i] == nows[..i];
        var _ := Put(entries[i].imageType, entries[i].name, entries[i].mode, entries[i].content, nows[i]);
        count := count + 1;
      }
      assert entries[..|entries|] == entries && nows[..|nows|] == nows;
    }
  }

  lemma SummariesAre(files: Files, r: seq<Summary>)
    requires Paired(files)
    requires var keys := Keys(Templates(files));
      |r| == |keys| && forall j :: 0 <= j < |r| ==>
        r[j] == Summary(keys[j].0, keys[j].1, FromFilename(keys[j].1), MetaOr(files, keys[j], Readings("", "")).mode)
    ensures r == Listing(Templates(files))
  {
    var keys := Keys(Templates(files));
    forall j | 0 <= j < |r| ensures r[j] == Listing(Templates(files))[j] {
      assert keys[j] in Elems(keys);
      PairedTemplates(files, keys[j]);
    }
  }

  function EntryOfLoaded(t: Loaded): BundleEntry {
    BundleEntry(t.imageType, t.name, t.format, t.template.meta.mode, t.template.content)
  }

  function LoadEntry(files: Files, s: Summary, now: Readings): seq<BundleEntry> {
    var t := GetFrom(files, s.imageType, s.name, now);
    if t.Some? then [EntryOfLoaded(t.value)] else []
  }

  ghost function LoadBy(files: Files, now: Readings): Summary -> seq<BundleEntry> {
    s => LoadEntry(files, s, now)
  }

  /** The entries that loading each item of a listing contributes. */
  function Collected(summaries: seq<Summary>, load: Summary -> seq<BundleEntry>): seq<BundleEntry> {
    if |summaries| == 0 then []
    else Collected(summaries[..|summaries| - 1], load) + load(summaries[|summaries| - 1])
  }

  lemma {:induction false} CollectedOne(summaries: seq<Summary>, entries: seq<BundleEntry>,
                                        load: Summary -> seq<BundleEntry>)
    requires |summaries| == |entries| && forall i :: 0 <= i < |summaries| ==> load(summaries[i]) == [entries[i]]
    ensures Collected(summaries, load) == entries
  {
    if summaries != [] {
      var n := |summaries| - 1;
      CollectedOne(summaries[..n], entries[..n], load);
      assert entries == entries[..n] + [entries[n]];
    }
  }

  /** The name in the listing exists as it is, so `get` finds that very template. */
  lemma EntryAt(files: Files, i: nat, now: Readings)
    requires Paired(files) && i < |Listing(Templates(files))|
    ensures LoadEntry(files, Listing(Templates(files))[i], now) == [Export(Templates(files))[i]]
  {
    var keys := Keys(Templates(files));
    assert keys[i] in Elems(keys);
    GetRefines(files, keys[i].0, keys[i].1, now);
  }

  lemma ListingLoads(files: Files, now: Readings)
    requires Paired(files)
    ensures Collected(Listing(Templates(files)), LoadBy(files, now)) == Export(Templates(files))
  {
    var load := LoadBy(files, now);
    var summaries, entries := Listing(Templates(files)), Export(Templates(files));
    forall i | 0 <= i < |summaries| ensures load(summaries[i]) == [entries[i]] {
      EntryAt(files, i, now);
    }
    CollectedOne(summaries, entries, load);
  }
}
