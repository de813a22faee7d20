/** Merging identity into an Ignition config (src/provision.rs). */
module Ignition {
  import opened Text
  import opened Ordering
  import opened Model
  import opened Percent

  datatype Json =
    | Null
    | Bool(b: bool)
    | Num(n: int)
    | Str(s: string)
    | Arr(items: seq<Json>)
    | Obj(fields: map<string, Json>)

  /** A merge ends with a value, or in one of the unwraps on a value that is not an object. */
  datatype Outcome = Merged(config: Json) | Panic

  datatype IgnitionUser = IgnitionUser(name: string, uid: Option<U32>, groups: Option<seq<string>>,
                                       shell: Option<string>, sshAuthorizedKeys: seq<string>,
                                       passwordHash: Option<string>)

  const KEYS: string := "sshAuthorizedKeys"
  const HOSTNAME_PATH: string := "/etc/hostname"

  // ----- Identity users -----

  function ParseUid(uid: string): Option<U32> {
    var n := ParseUnsigned(uid, 0x1_0000_0000);
    if n.Some? && n.value < 0x1_0000_0000 then Some(n.value) else None
  }

  function SystemUser(pk: PublicKeyEntry): IgnitionUser {
    IgnitionUser(pk.sshUser, None, None, None, pk.keys, None)
  }

  /** Appends the keys that are not there yet. */
  function AddKeys(keys: seq<string>, more: seq<string>): seq<string>
    decreases |more|
  {
    if more == [] then keys
    else AddKeys(if more[0] in keys then keys else keys + [more[0]], more[1..])
  }

  /** A system user who is an identity user as well. */
  function Completed(u: IgnitionUser, cc: CloudConfigUser): IgnitionUser {
    u.(sshAuthorizedKeys := AddKeys(u.sshAuthorizedKeys, cc.sshAuthorizedKeys),
       uid := ParseUid(cc.uid),
       groups := if cc.groups != [] then Some(cc.groups) else u.groups,
       shell := Some(cc.shell))
  }

  function NewUser(cc: CloudConfigUser): IgnitionUser {
    var groups := if cc.sudo.Some? && "wheel" !in cc.groups then cc.groups + ["wheel"] else cc.groups;
    IgnitionUser(cc.name, ParseUid(cc.uid), if groups == [] then None else Some(groups), Some(cc.shell),
                 cc.sshAuthorizedKeys, Some(""))
  }

  function IndexOf(users: seq<IgnitionUser>, name: string): (i: nat)
    ensures i <= |users| && forall j :: 0 <= j < i ==> users[j].name != name
    ensures i < |users| ==> users[i].name == name
  {
    if users == [] || users[0].name == name then 0 else 1 + IndexOf(users[1..], name)
  }

  function AddCloudUser(users: seq<IgnitionUser>, cc: CloudConfigUser): seq<IgnitionUser> {
    var i := IndexOf(users, cc.name);
    if i < |users| then users[i := Completed(users[i], cc)] else users + [NewUser(cc)]
  }

  function AddCloudUsers(users: seq<IgnitionUser>, ccs: seq<CloudConfigUser>): seq<IgnitionUser> {
    if ccs == [] then users else AddCloudUser(AddCloudUsers(users, ccs[..|ccs| - 1]), ccs[|ccs| - 1])
  }

  function SystemUsers(pks: seq<PublicKeyEntry>): seq<IgnitionUser> {
    seq(|pks|, i requires 0 <= i < |pks| => SystemUser(pks[i]))
  }

  function UserNames(users: seq<IgnitionUser>): set<string> {
    set u | u in users :: u.name
  }

  /** What `build_ignition_users` computes. */
  function IgnitionUsers(meta: HostMetadata): seq<IgnitionUser> {
    AddCloudUsers(SystemUsers(meta.publicKeys), meta.cloudUsers)
  }

  method MergeKeyLists(keys: seq<string>, more: seq<string>) returns (r: seq<string>)
    ensures r == AddKeys(keys, more)
  {
    r := keys;
    for i := 0 to |more|
      invariant AddKeys(r, more[i..]) == AddKeys(keys, more)
    {
      assert more[i..][1..] == more[i + 1..];
      if more[i] !in r {
        r := r + [more[i]];
      }
    }
  }

  /** `iter_mut().find` by name. */
  method FindUser(users: seq<IgnitionUser>, name: string) returns (k: nat)
    requires name in UserNames(users)
    ensures k == IndexOf(users, name) && k < |users|
  {
    k := 0;
    while users[k].name != name
      invariant k < |users| && name in UserNames(users[k..])
      invariant IndexOf(users, name) == k + IndexOf(users[k..], name)
      decreases |users| - k
    {
      assert users[k..] == [users[k]] + users[k + 1..];
      k := k + 1;
    }
  }

  lemma AbsentName(users: seq<IgnitionUser>, name: string)
    requires name !in UserNames(users)
    ensures IndexOf(users, name) == |users|
  {
    assert forall i :: 0 <= i < |users| ==> users[i] in users;
  }

  method CompleteUser(u: IgnitionUser, cc: CloudConfigUser) returns (r: IgnitionUser)
    ensures r == Completed(u, cc)
  {
    var keys := MergeKeyLists(u.sshAuthorizedKeys, cc.sshAuthorizedKeys);
    r := u.(sshAuthorizedKeys := keys, uid := ParseUid(cc.uid));
    if cc.groups != [] {
      r := r.(groups := Some(cc.groups));
    }
    r := r.(shell := Some(cc.shell));
  }

  /** The body of the loop over identity users. */
  method PlaceUser(users: seq<IgnitionUser>, seen: set<string>, cc: CloudConfigUser)
    returns (users': seq<IgnitionUser>, seen': set<string>)
    requires seen == UserNames(users)
    ensures users' == AddCloudUser(users, cc) && seen' == UserNames(users')
  {
    if cc.name in seen {
      var k := FindUser(users, cc.name);
      var completed := CompleteUser(users[k], cc);
      users', seen' := users[k := completed], seen;
      SameNames(users, users');
    } else {
      AbsentName(users, cc.name);
      users', seen' := users + [NewUser(cc)], seen + {cc.name};
    }
  }

  /** `build_ignition_users`: two loops over a growing vector and a set of names seen. */
  method BuildIgnitionUsers(meta: HostMetadata) returns (users: seq<IgnitionUser>)
    ensures users == IgnitionUsers(meta)
  {
    users := [];
    var seen: set<string> := {};
    for i := 0 to |meta.publicKeys|
      invariant users == SystemUsers(meta.publicKeys[..i])
      invariant seen == UserNames(users)
    {
      seen := seen + {meta.publicKeys[i].sshUser};
      users := users + [SystemUser(meta.publicKeys[i])];
    }
    assert meta.publicKeys[..|meta.publicKeys|] == meta.publicKeys;
    for i := 0 to |meta.cloudUsers|
      invariant users == AddCloudUsers(SystemUsers(meta.publicKeys), meta.cloudUsers[..i])
      invariant seen == UserNames(users)
    {
      assert meta.cloudUsers[..i + 1][..i] == meta.cloudUsers[..i];
      users, seen := PlaceUser(users, seen, meta.cloudUsers[i]);
    }
    assert meta.cloudUsers[..|meta.cloudUsers|] == meta.cloudUsers;
  }

  lemma SameNames(a: seq<IgnitionUser>, b: seq<IgnitionUser>)
    requires |a| == |b| && forall i :: 0 <= i < |a| ==> a[i].name == b[i].name
    ensures UserNames(a) == UserNames(b)
  {
    forall i | 0 <= i < |a| ensures a[i].name in UserNames(b) && b[i].name in UserNames(a) {
      assert a[i] in a && b[i] in b;
    }
  }

  // ----- JSON access -----

  function Field(j: Json, key: string): Option<Json> {
    if j.Obj? && key in j.fields then Some(j.fields[key]) else None
  }

  /** `get(key).and_then(as_str)`. */
  function StringField(j: Json, key: string): Option<string> {
    var v := Field(j, key);
    if v.Some? && v.value.Str? then Some(v.value.s) else None
  }

  function Name(j: Json): Option<string> {
    StringField(j, "name")
  }

  /** The fields of an object that may be absent, for `entry(key).or_insert_with({})`. */
  function FieldsAt(fields: map<string, Json>, key: string): map<string, Json> {
    if key in fields && fields[key].Obj? then fields[key].fields else map[]
  }

  function ListAt(fields: map<string, Json>, key: string): Json {
    if key in fields then fields[key] else Arr([])
  }

  function Strings(items: seq<Json>): set<string> {
    set j | j in items && j.Str? :: j.s
  }

  function JsonStrings(strings: seq<string>): seq<Json> {
    seq(|strings|, i requires 0 <= i < |strings| => Str(strings[i]))
  }

  function With(fields: map<string, Json>, key: string, value: Option<Json>): map<string, Json> {
    if value.Some? then fields[key := value.value] else fields
  }

  /** The serialized user; absent options are skipped. */
  function ToValue(u: IgnitionUser): Json {
    var f0: map<string, Json> := map["name" := Str(u.name)];
    var f1 := With(f0, "uid", if u.uid.Some? then Some(Num(u.uid.value)) else None);
    var f2 := With(f1, "groups", if u.groups.Some? then Some(Arr(JsonStrings(u.groups.value))) else None);
    var f3 := With(f2, "shell", if u.shell.Some? then Some(Str(u.shell.value)) else None);
    var f4 := With(f3, KEYS, Some(Arr(JsonStrings(u.sshAuthorizedKeys))));
    var f5 := With(f4, "passwordHash", if u.passwordHash.Some? then Some(Str(u.passwordHash.value)) else None);
    Obj(f5)
  }

  // ----- Merging users -----

  /** The keys that `merge_ssh_keys` appends: those not among the existing strings. */
  function NewKeys(keys: seq<string>, existing: set<string>): seq<Json> {
    if keys == [] then []
    else (if keys[0] !in existing then [Str(keys[0])] else []) + NewKeys(keys[1..], existing)
  }

  /** `merge_ssh_keys`. */
  function MergeKeys(user: Json, keys: seq<string>): Json
    requires user.Obj?
  {
    var list := ListAt(user.fields, KEYS);
    Obj(user.fields[KEYS := if list.Arr? then Arr(list.items + NewKeys(keys, Strings(list.items))) else list])
  }

  function MergeInto(user: Json, u: IgnitionUser): Json {
    if Name(user) == Some(u.name) then MergeKeys(user, u.sshAuthorizedKeys) else user
  }

  function MergeIntoAll(items: seq<Json>, u: IgnitionUser): seq<Json> {
    seq(|items|, i requires 0 <= i < |items| => MergeInto(items[i], u))
  }

  function Names(items: seq<Json>): set<string> {
    set j | j in items && Name(j).Some? :: Name(j).value
  }

  function MergeUser(items: seq<Json>, u: IgnitionUser, existing: set<string>): seq<Json> {
    if u.name in existing then MergeIntoAll(items, u) else items + [ToValue(u)]
  }

  function MergeUsers(items: seq<Json>, users: seq<IgnitionUser>, existing: set<string>): seq<Json> {
    if users == [] then items
    else MergeUser(MergeUsers(items, users[..|users| - 1], existing), users[|users| - 1], existing)
  }

  function MergedUserList(list: Json, users: seq<IgnitionUser>): Json {
    if list.Arr? then Arr(MergeUsers(list.items, users, Names(list.items))) else list
  }

  // ----- Files -----

  function HostnameFile(hostname: string): Json {
    Obj(map["path" := Str(HOSTNAME_PATH), "mode" := Num(420), "overwrite" := Bool(true),
            "contents" := Obj(map["source" := Str("data:," + Encode(hostname))])])
  }

  predicate HasHostname(files: seq<Json>) {
    exists f :: f in files && StringField(f, "path") == Some(HOSTNAME_PATH)
  }

  function EnsureHostname(list: Json, hostname: string): Json {
    if !list.Arr? || HasHostname(list.items) then list else Arr(list.items + [HostnameFile(hostname)])
  }

  /** Contents given inline become a data URI; an inline value that is not a string is dropped. */
  function NormalizeContents(contents: map<string, Json>): map<string, Json> {
    if "inline" !in contents then contents
    else
      var rest := contents - {"inline"};
      if contents["inline"].Str? then rest["source" := Str("data:," + Encode(contents["inline"].s))] else rest
  }

  function NormalizeFile(file: Json): Json {
    var contents := Field(file, "contents");
    if contents.Some? && contents.value.Obj?
    then Obj(file.fields["contents" := Obj(NormalizeContents(contents.value.fields))])
    else file
  }

  function NormalizeFiles(files: seq<Json>): seq<Json> {
    seq(|files|, i requires 0 <= i < |files| => NormalizeFile(files[i]))
  }

  function MergedFileList(list: Json, hostname: string): Json {
    var files := EnsureHostname(list, hostname);
    if files.Arr? then Arr(NormalizeFiles(files.items)) else files
  }

  // ----- The whole merge -----

  predicate ObjectAt(fields: map<string, Json>, key: string) {
    key in fields ==> fields[key].Obj?
  }

  /** A base without `ignition` gets one, if it can take a field: an object, or null. */
  function Versioned(base: Json): Option<map<string, Json>> {
    if Field(base, "ignition").Some? then Some(base.fields)
    else if base.Obj? || base.Null? then
      var fields: map<string, Json> := if base.Obj? then base.fields else map[];
      Some(fields["ignition" := Obj(map["version" := Str("3.4.0")])])
    else None
  }

  function WithUsers(fields: map<string, Json>, users: seq<IgnitionUser>): map<string, Json> {
    var passwd := FieldsAt(fields, "passwd");
    fields["passwd" := Obj(passwd["users" := MergedUserList(ListAt(passwd, "users"), users)])]
  }

  function WithFiles(fields: map<string, Json>, hostname: string): map<string, Json> {
    var storage := FieldsAt(fields, "storage");
    fields["storage" := Obj(storage["files" := MergedFileList(ListAt(storage, "files"), hostname)])]
  }

  /** `merge_ignition`, up to the printing of the result. */
  function MergeIgnition(base: Json, users: seq<IgnitionUser>, hostname: string): Outcome {
    var fields := Versioned(base);
    if fields.None? || !ObjectAt(fields.value, "passwd") || !ObjectAt(fields.value, "storage") then Panic
    else Merged(Obj(WithFiles(WithUsers(fields.value, users), hostname)))
  }

  // ----- The loops -----

  method MergeSshKeys(existing: Json, newKeys: seq<string>) returns (r: Json)
    requires existing.Obj?
    ensures r == MergeKeys(existing, newKeys)
  {
    var list := ListAt(existing.fields, KEYS);
    if list.Arr? {
      var toAdd := [];
      for i := 0 to |newKeys|
        invariant toAdd + NewKeys(newKeys[i..], Strings(list.items)) == NewKeys(newKeys, Strings(list.items))
      {
        assert newKeys[i..][1..] == newKeys[i + 1..];
        if newKeys[i] !in Strings(list.items) {
          toAdd := toAdd + [Str(newKeys[i])];
        }
      }
      assert toAdd == NewKeys(newKeys, Strings(list.items));
      list := Arr(list.items + toAdd);
    }
    r := Obj(existing.fields[KEYS := list]);
  }

  /** The nested loops of the merge over the `users` array. */
  method MergeUserArray(items: seq<Json>, identityUsers: seq<IgnitionUser>) returns (arr: seq<Json>)
    ensures arr == MergeUsers(items, identityUsers, Names(items))
  {
    var existingUsers := Names(items);
    arr := items;
    for i := 0 to |identityUsers|
      invariant arr == MergeUsers(items, identityUsers[..i], existingUsers)
    {
      var u := identityUsers[i];
      ghost var before := arr;
      assert identityUsers[..i + 1][..i] == identityUsers[..i];
      if u.name in existingUsers {
        for k := 0 to |arr|
          invariant |arr| == |before|
          invariant forall j :: 0 <= j < |arr| ==> arr[j] == if j < k then MergeInto(before[j], u) else before[j]
        {
          if Name(arr[k]) == Some(u.name) {
            var merged := MergeSshKeys(arr[k], u.sshAuthorizedKeys);
            arr := arr[k := merged];
          }
        }
        assert arr == MergeIntoAll(before, u);
      } else {
        arr := arr + [ToValue(u)];
      }
    }
    assert identityUsers[..|identityUsers|] == identityUsers;
  }

  method NormalizeFileContents(files: seq<Json>) returns (r: seq<Json>)
    ensures r == NormalizeFiles(files)
  {
    r := files;
    for i := 0 to |files|
      invariant |r| == |files|
      invariant forall j :: 0 <= j < |r| ==> r[j] == if j < i then NormalizeFile(files[j]) else files[j]
    {
      var contents := Field(r[i], "contents");
      if contents.Some? && contents.value.Obj? {
        var obj := contents.value.fields;
        if "inline" in obj {
          var inlineVal := obj["inline"];
          obj := obj - {"inline"};
          if inlineVal.Str? {
            var encoded := UrlEncode(inlineVal.s);
            obj := obj["source" := Str("data:," + encoded)];
          }
        }
        r := r[i := Obj(r[i].fields["contents" := Obj(obj)])];
      }
    }
  }

  method EnsureHostnameFile(files: Json, fqdn: string) returns (r: Json)
    ensures r == EnsureHostname(files, fqdn)
  {
    r := files;
    if files.Arr? {
      if exists f :: f in files.items && StringField(f, "path") == Some(HOSTNAME_PATH) {
        return;
      }
      var encoded := UrlEncode(fqdn);
      r := Arr(files.items + [Obj(map["path" := Str(HOSTNAME_PATH), "mode" := Num(420), "overwrite" := Bool(true),
                                      "contents" := Obj(map["source" := Str("data:," + encoded)])])]);
    }
  }

  /** `merge_ignition`. */
  method MergeIgnitionConfig(base: Json, meta: HostMetadata) returns (r: Outcome)
    ensures r == MergeIgnition(base, IgnitionUsers(meta), meta.hostname)
  {
    var versioned := Versioned(base);
    if versioned.None? {
      return Panic;
    }
    var config := versioned.value;
    var identityUsers := BuildIgnitionUsers(meta);
    if "passwd" in config && !config["passwd"].Obj? {
      return Panic;
    }
    var passwd := FieldsAt(config, "passwd");
    var users := ListAt(passwd, "users");
    if users.Arr? {
      var arr := MergeUserArray(users.items, identityUsers);
      users := Arr(arr);
    }
    config := config["passwd" := Obj(passwd["users" := users])];
    if "storage" in config && !config["storage"].Obj? {
      return Panic;
    }
    var storage := FieldsAt(config, "storage");
    var files := EnsureHostnameFile(ListAt(storage, "files"), meta.hostname);
    if files.Arr? {
      var normalized := NormalizeFileContents(files.items);
      files := Arr(normalized);
    }
    config := config["storage" := Obj(storage["files" := files])];
    r := Merged(Obj(config));
  }
}
