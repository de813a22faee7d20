/** What the merged Ignition config says about users and the host name, value by value. */
module IgnitionUsersLaws {
  import opened Text
  import opened Ordering
  import opened Model
  import opened Percent
  import opened Ignition
  import opened IgnitionLaws

  // ----- The list of identity users -----

  predicate DistinctUsers(ccs: seq<CloudConfigUser>) {
    forall i, j :: 0 <= i < j < |ccs| ==> ccs[i].name != ccs[j].name
  }

  predicate IsSshUser(meta: HostMetadata, name: string) {
    exists e :: e in meta.publicKeys && e.sshUser == name
  }

  predicate IsLoginUser(meta: HostMetadata, name: string) {
    exists c :: c in meta.cloudUsers && c.name == name
  }

  function GroupList(u: IgnitionUser): seq<string> {
    if u.groups.Some? then u.groups.value else []
  }

  /** The number a text stands for, if it is one of 32 bits. */
  predicate UidOf(uid: Option<U32>, text: string) {
    var n := ParseUnsigned(text, 0x1_0000_0000);
    if n.Some? then uid.Some? && uid.value == n.value else uid.None?
  }

  /** A login user who is no ssh user: sudo means the group wheel; no login with a password. */
  ghost predicate NewAccount(u: IgnitionUser, c: CloudConfigUser) {
    && u.name == c.name && UidOf(u.uid, c.uid) && u.shell == Some(c.shell) && u.passwordHash == Some("")
    && u.sshAuthorizedKeys == c.sshAuthorizedKeys
    && c.groups <= GroupList(u) && (u.groups.Some? <==> GroupList(u) != [])
    && forall g :: g in GroupList(u) <==> g in c.groups || (g == "wheel" && c.sudo.Some?)
  }

  /** A login user who is an ssh user as well. */
  predicate CompletedAccount(u: IgnitionUser, c: CloudConfigUser, e: PublicKeyEntry) {
    && u.name == c.name && UidOf(u.uid, c.uid) && u.shell == Some(c.shell) && u.passwordHash == None
    && u.groups == (if c.groups == [] then None else Some(c.groups))
    && e.keys <= u.sshAuthorizedKeys && Elems(u.sshAuthorizedKeys) == Elems(e.keys) + Elems(c.sshAuthorizedKeys)
  }

  /** An ssh user alone: nothing but keys. */
  predicate KeysOnly(u: IgnitionUser, e: PublicKeyEntry) {
    u == IgnitionUser(e.sshUser, None, None, None, e.keys, None)
  }

  /** The list has one user for each ssh user, in order, and for each further login user. */
  ghost predicate UsersRight(users: seq<IgnitionUser>, meta: HostMetadata) {
    && DistinctNames(users)
    && |meta.publicKeys| <= |users|
    && (forall i :: 0 <= i < |meta.publicKeys| ==> users[i].name == meta.publicKeys[i].sshUser)
    && (forall c :: c in meta.cloudUsers ==> exists u :: u in users && u.name == c.name)
    && (forall u, c :: u in users && c in meta.cloudUsers && u.name == c.name && !IsSshUser(meta, c.name) ==>
          NewAccount(u, c))
    && (forall u, c, e ::
          u in users && c in meta.cloudUsers && e in meta.publicKeys && u.name == c.name == e.sshUser ==>
            CompletedAccount(u, c, e))
    && (forall u, e :: u in users && e in meta.publicKeys && u.name == e.sshUser && !IsLoginUser(meta, u.name) ==>
          KeysOnly(u, e))
    && (forall u :: u in users ==> IsSshUser(meta, u.name) || IsLoginUser(meta, u.name))
  }

  function EntryFor(entries: seq<PublicKeyEntry>, name: string): Option<PublicKeyEntry> {
    if entries == [] then None
    else if entries[0].sshUser == name then Some(entries[0])
    else EntryFor(entries[1..], name)
  }

  function UserFor(ccs: seq<CloudConfigUser>, name: string): Option<CloudConfigUser> {
    if ccs == [] then None
    else if ccs[|ccs| - 1].name == name then Some(ccs[|ccs| - 1])
    else UserFor(ccs[..|ccs| - 1], name)
  }

  lemma {:induction false} EntryForIs(entries: seq<PublicKeyEntry>, e: PublicKeyEntry)
    requires DistinctAccounts(entries) && e in entries
    ensures EntryFor(entries, e.sshUser) == Some(e)
  {
    if entries[0] != e {
      var i :| 0 <= i < |entries| && entries[i] == e;
      assert entries[1..][i - 1] == e;
      EntryForIs(entries[1..], e);
    }
  }

  lemma {:induction false} EntryForNone(entries: seq<PublicKeyEntry>, name: string)
    ensures EntryFor(entries, name).None? <==> forall e :: e in entries ==> e.sshUser != name
    ensures EntryFor(entries, name).Some? ==>
              EntryFor(entries, name).value in entries && EntryFor(entries, name).value.sshUser == name
  {
    if entries != [] {
      EntryForNone(entries[1..], name);
      assert entries == [entries[0]] + entries[1..];
    }
  }

  lemma {:induction false} UserForIs(ccs: seq<CloudConfigUser>, c: CloudConfigUser)
    requires DistinctUsers(ccs) && c in ccs
    ensures UserFor(ccs, c.name) == Some(c)
  {
    var n := |ccs| - 1;
    if ccs[n] != c {
      var i :| 0 <= i < |ccs| && ccs[i] == c;
      assert ccs[..n][i] == c;
      UserForIs(ccs[..n], c);
    }
  }

  lemma {:induction false} UserForNone(ccs: seq<CloudConfigUser>, name: string)
    ensures UserFor(ccs, name).None? <==> forall c :: c in ccs ==> c.name != name
    ensures UserFor(ccs, name).Some? ==> UserFor(ccs, name).value in ccs && UserFor(ccs, name).value.name == name
  {
    if ccs != [] {
      var n := |ccs| - 1;
      UserForNone(ccs[..n], name);
      assert ccs == ccs[..n] + [ccs[n]];
    }
  }

  /** What is known of a user when these login users have been placed. */
  ghost predicate UserRight(u: IgnitionUser, e: Option<PublicKeyEntry>, c: Option<CloudConfigUser>) {
    match (e, c)
    case (None, None) => false
    case (None, Some(cc)) => NewAccount(u, cc)
    case (Some(pk), Some(cc)) => CompletedAccount(u, cc, pk)
    case (Some(pk), None) => KeysOnly(u, pk)
  }

  lemma {:induction false} AddKeysPrefix(keys: seq<string>, more: seq<string>)
    ensures keys <= AddKeys(keys, more)
    decreases |more|
  {
    if more != [] { AddKeysPrefix(if more[0] in keys then keys else keys + [more[0]], more[1..]); }
  }

  lemma NewUserRight(c: CloudConfigUser)
    ensures NewAccount(NewUser(c), c)
  {
  }

  lemma CompletedRight(u: IgnitionUser, c: CloudConfigUser, e: PublicKeyEntry)
    requires KeysOnly(u, e) && u.name == c.name
    ensures CompletedAccount(Completed(u, c), c, e)
  {
    AddKeysElems(u.sshAuthorizedKeys, c.sshAuthorizedKeys);
    AddKeysPrefix(u.sshAuthorizedKeys, c.sshAuthorizedKeys);
  }

  /** Each user of the list, by induction over the login users placed. */
  lemma {:induction false} PlacedRight(entries: seq<PublicKeyEntry>, ccs: seq<CloudConfigUser>, u: IgnitionUser)
    requires DistinctAccounts(entries) && DistinctUsers(ccs) && u in AddCloudUsers(SystemUsers(entries), ccs)
    ensures UserRight(u, EntryFor(entries, u.name), UserFor(ccs, u.name))
    decreases |ccs|, 1
  {
    if ccs == [] {
      var i :| 0 <= i < |entries| && SystemUsers(entries)[i] == u;
      EntryForIs(entries, entries[i]);
    } else {
      var n := |ccs| - 1;
      var prior := AddCloudUsers(SystemUsers(entries), ccs[..n]);
      AddCloudUsersDistinct(SystemUsers(entries), ccs[..n]);
      var before := NextPlaced(entries, ccs, prior, u);
      LastPlacedRight(entries, ccs, prior, u, before);
    }
  }

  /** The user as it was before the last login user was placed, if it was there. */
  lemma NextPlaced(entries: seq<PublicKeyEntry>, ccs: seq<CloudConfigUser>, prior: seq<IgnitionUser>, u: IgnitionUser)
    returns (before: Option<IgnitionUser>)
    requires ccs != [] && DistinctAccounts(entries) && DistinctUsers(ccs)
    requires prior == AddCloudUsers(SystemUsers(entries), ccs[..|ccs| - 1]) && DistinctNames(prior)
    requires u in AddCloudUser(prior, ccs[|ccs| - 1])
    ensures before.Some? ==> before.value in prior && before.value.name == u.name
                             && UserRight(before.value, EntryFor(entries, u.name), UserFor(ccs[..|ccs| - 1], u.name))
                             && u == if u.name == ccs[|ccs| - 1].name then Completed(before.value, ccs[|ccs| - 1])
                                     else before.value
    ensures before.None? ==> u == NewUser(ccs[|ccs| - 1]) && EntryFor(entries, u.name).None?
    decreases |ccs|, 0
  {
    var n := |ccs| - 1;
    var cc := ccs[n];
    var i := IndexOf(prior, cc.name);
    if i < |prior| {
      var k :| 0 <= k < |prior| && prior[i := Completed(prior[i], cc)][k] == u;
      before := Some(prior[k]);
      PlacedRight(entries, ccs[..n], prior[k]);
    } else if u in prior {
      before := Some(u);
      PlacedRight(entries, ccs[..n], u);
    } else {
      before := None;
      AbsentAccount(entries, ccs[..n], cc.name);
      EntryForNone(entries, cc.name);
    }
  }

  lemma LastPlacedRight(entries: seq<PublicKeyEntry>, ccs: seq<CloudConfigUser>, prior: seq<IgnitionUser>,
                        u: IgnitionUser, before: Option<IgnitionUser>)
    requires ccs != [] && DistinctUsers(ccs)
    requires before.Some? ==> before.value.name == u.name
                              && UserRight(before.value, EntryFor(entries, u.name), UserFor(ccs[..|ccs| - 1], u.name))
                              && u == if u.name == ccs[|ccs| - 1].name then Completed(before.value, ccs[|ccs| - 1])
                                      else before.value
    requires before.None? ==> u == NewUser(ccs[|ccs| - 1]) && EntryFor(entries, u.name).None?
    ensures UserRight(u, EntryFor(entries, u.name), UserFor(ccs, u.name))
  {
    var n := |ccs| - 1;
    var cc := ccs[n];
    UserForNone(ccs[..n], cc.name);
    if u.name == cc.name {
      assert UserFor(ccs[..n], u.name).None?;
      if before.Some? {
        CompletedRight(before.value, cc, EntryFor(entries, u.name).value);
      } else {
        NewUserRight(cc);
      }
    }
  }

  lemma {:induction false} PlacedOrder(users: seq<IgnitionUser>, ccs: seq<CloudConfigUser>)
    ensures var r := AddCloudUsers(users, ccs);
      |users| <= |r| && forall i :: 0 <= i < |users| ==> r[i].name == users[i].name
  {
    if ccs != [] { PlacedOrder(users, ccs[..|ccs| - 1]); }
  }

  lemma {:induction false} PlacedAll(users: seq<IgnitionUser>, ccs: seq<CloudConfigUser>, c: CloudConfigUser)
    requires c in ccs
    ensures exists u :: u in AddCloudUsers(users, ccs) && u.name == c.name
  {
    var n := |ccs| - 1;
    var prior := AddCloudUsers(users, ccs[..n]);
    var r := AddCloudUser(prior, ccs[n]);
    PlacedOrder(prior, [ccs[n]]);
    assert [ccs[n]][..0] == [] && AddCloudUsers(prior, []) == prior;
    if c == ccs[n] {
      var i := IndexOf(prior, c.name);
      assert r[i].name == c.name && r[i] in r;
    } else {
      assert ccs == ccs[..n] + [ccs[n]];
      PlacedAll(users, ccs[..n], c);
      var u :| u in prior && u.name == c.name;
      var k :| 0 <= k < |prior| && prior[k] == u;
      assert r[k].name == c.name && r[k] in r;
    }
  }

  /** The identity users, value by value, for metadata with distinct names. */
  lemma IdentityUsersExactly(meta: HostMetadata)
    requires DistinctAccounts(meta.publicKeys) && DistinctUsers(meta.cloudUsers)
    ensures UsersRight(IgnitionUsers(meta), meta)
  {
    var users := IgnitionUsers(meta);
    AddCloudUsersDistinct(SystemUsers(meta.publicKeys), meta.cloudUsers);
    PlacedOrder(SystemUsers(meta.publicKeys), meta.cloudUsers);
    forall c | c in meta.cloudUsers ensures exists u :: u in users && u.name == c.name {
      PlacedAll(SystemUsers(meta.publicKeys), meta.cloudUsers, c);
    }
    forall u | u in users
      ensures UserRight(u, EntryFor(meta.publicKeys, u.name), UserFor(meta.cloudUsers, u.name))
      ensures EntryFor(meta.publicKeys, u.name).None? <==> !IsSshUser(meta, u.name)
      ensures UserFor(meta.cloudUsers, u.name).None? <==> !IsLoginUser(meta, u.name)
    {
      PlacedRight(meta.publicKeys, meta.cloudUsers, u);
      EntryForNone(meta.publicKeys, u.name);
      UserForNone(meta.cloudUsers, u.name);
    }
    forall e | e in meta.publicKeys ensures EntryFor(meta.publicKeys, e.sshUser) == Some(e) {
      EntryForIs(meta.publicKeys, e);
    }
    forall c | c in meta.cloudUsers ensures UserFor(meta.cloudUsers, c.name) == Some(c) {
      UserForIs(meta.cloudUsers, c);
    }
  }

  // ----- The JSON entries of new users -----

  predicate IsText(x: Json, key: string, text: string) {
    x.Obj? && key in x.fields && x.fields[key] == Str(text)
  }

  predicate IsTextList(x: Json, key: string, texts: seq<string>) {
    && x.Obj? && key in x.fields && x.fields[key].Arr? && |x.fields[key].items| == |texts|
    && forall i :: 0 <= i < |texts| ==> x.fields[key].items[i] == Str(texts[i])
  }

  /** The entry shows the user, and leaves out what the user does not have. */
  predicate Shows(x: Json, u: IgnitionUser) {
    && IsText(x, "name", u.name) && IsTextList(x, "sshAuthorizedKeys", u.sshAuthorizedKeys)
    && (if u.uid.Some? then "uid" in x.fields && x.fields["uid"] == Num(u.uid.value) else "uid" !in x.fields)
    && (if u.groups.Some? then IsTextList(x, "groups", u.groups.value) else "groups" !in x.fields)
    && (if u.shell.Some? then IsText(x, "shell", u.shell.value) else "shell" !in x.fields)
    && (if u.passwordHash.Some? then IsText(x, "passwordHash", u.passwordHash.value) else "passwordHash" !in x.fields)
    && x.fields.Keys <= {"name", "sshAuthorizedKeys", "uid", "groups", "shell", "passwordHash"}
  }

  lemma ToValueShows(u: IgnitionUser)
    ensures Shows(ToValue(u), u)
  {
  }

  lemma {:induction false} PushedHas(users: seq<IgnitionUser>, existing: set<string>, u: IgnitionUser)
    requires u in users && u.name !in existing
    ensures ToValue(u) in Pushed(users, existing)
  {
    var n := |users| - 1;
    if u != users[n] {
      assert users == users[..n] + [users[n]];
      PushedHas(users[..n], existing, u);
    }
  }

  /** Nobody in the base has the name. */
  predicate NoNamesake(items: seq<Json>, name: string) {
    forall x :: x in items ==> !IsText(x, "name", name)
  }

  lemma NoNamesakeIs(items: seq<Json>, name: string)
    requires NoNamesake(items, name)
    ensures name !in Names(items)
  {
    if name in Names(items) {
      var x :| x in items && Name(x) == Some(name);
      assert IsText(x, "name", name);
    }
  }

  lemma NewUserPushed(items: seq<Json>, users: seq<IgnitionUser>, u: IgnitionUser) returns (x: Json)
    requires DistinctNames(users) && u in users && NoNamesake(items, u.name)
    ensures x in MergeUsers(items, users, Names(items)) && Shows(x, u)
  {
    x := ToValue(u);
    MergeUsersClosed(items, users);
    NoNamesakeIs(items, u.name);
    PushedHas(users, Names(items), u);
    ToValueShows(u);
  }

  /** A login user with a new name, as the merged list shows it. */
  ghost predicate ShowsLogin(x: Json, c: CloudConfigUser) {
    && IsText(x, "name", c.name) && IsText(x, "shell", c.shell) && IsText(x, "passwordHash", "")
    && IsTextList(x, "sshAuthorizedKeys", c.sshAuthorizedKeys)
    && (var n := ParseUnsigned(c.uid, 0x1_0000_0000);
        if n.Some? then "uid" in x.fields && x.fields["uid"] == Num(n.value) else "uid" !in x.fields)
    && exists groups :: ShowsGroups(x, c, groups)
  }

  ghost predicate ShowsGroups(x: Json, c: CloudConfigUser, groups: seq<string>) {
    && x.Obj? && c.groups <= groups
    && (forall g :: g in groups <==> g in c.groups || (g == "wheel" && c.sudo.Some?))
    && if groups == [] then "groups" !in x.fields else IsTextList(x, "groups", groups)
  }

  /** From metadata to config: the entry of a login user who is neither an ssh user nor in the base. */
  lemma NewLoginServed(items: seq<Json>, meta: HostMetadata, c: CloudConfigUser)
    requires DistinctAccounts(meta.publicKeys) && DistinctUsers(meta.cloudUsers)
    requires c in meta.cloudUsers && !IsSshUser(meta, c.name) && NoNamesake(items, c.name)
    ensures exists x :: x in MergeUsers(items, IgnitionUsers(meta), Names(items)) && ShowsLogin(x, c)
  {
    var users := IgnitionUsers(meta);
    IdentityUsersExactly(meta);
    var u :| u in users && u.name == c.name;
    var x := NewUserPushed(items, users, u);
    ShownLogin(x, u, c);
  }

  lemma ShownLogin(x: Json, u: IgnitionUser, c: CloudConfigUser)
    requires Shows(x, u) && NewAccount(u, c)
    ensures ShowsLogin(x, c)
  {
    assert ShowsGroups(x, c, GroupList(u));
  }

  // ----- The config around the lists -----

  /** The merge panics exactly on a base that is neither an object nor null, or whose `passwd` or `storage` is there
      and not an object. */
  lemma MergePanicsExactly(base: Json, users: seq<IgnitionUser>, hostname: string)
    ensures MergeIgnition(base, users, hostname).Panic? <==>
            || !(base.Obj? || base.Null?)
            || (base.Obj? && "passwd" in base.fields && !base.fields["passwd"].Obj?)
            || (base.Obj? && "storage" in base.fields && !base.fields["storage"].Obj?)
  {
  }

  /** The array under two keys; empty if one of them is missing. */
  function ArrayUnder(base: Json, outer: string, inner: string): Option<seq<Json>> {
    if base.Obj? && outer in base.fields && base.fields[outer].Obj? && inner in base.fields[outer].fields then
      if base.fields[outer].fields[inner].Arr? then Some(base.fields[outer].fields[inner].items) else None
    else Some([])
  }

  /** Where the merged lists are, and the version that a base without one gets. */
  lemma MergedShape(base: Json, users: seq<IgnitionUser>, hostname: string)
    requires MergeIgnition(base, users, hostname).Merged?
    ensures var c := MergeIgnition(base, users, hostname).config;
      && c.Obj? && {"ignition", "passwd", "storage"} <= c.fields.Keys
      && (!(base.Obj? && "ignition" in base.fields) ==> c.fields["ignition"] == Obj(map["version" := Str("3.4.0")]))
      && c.fields["passwd"].Obj? && "users" in c.fields["passwd"].fields
      && c.fields["storage"].Obj? && "files" in c.fields["storage"].fields
      && var items, files := ArrayUnder(base, "passwd", "users"), ArrayUnder(base, "storage", "files");
      && (items.Some? ==>
            c.fields["passwd"].fields["users"] == Arr(MergeUsers(items.value, users, Names(items.value))))
      && (files.Some? ==>
            c.fields["storage"].fields["files"] == MergedFileList(Arr(files.value), hostname))
  {
    var f0 := Versioned(base).value;
    var f1 := WithUsers(f0, users);
    assert ListAt(FieldsAt(f1, "storage"), "files") == ListAt(FieldsAt(f0, "storage"), "files");
  }

  /** The host name file: where, with which mode, and a source that decodes to the name. */
  lemma HostnameFileExactly(files: seq<Json>, hostname: string)
    requires forall f :: f in files ==> !IsText(f, "path", "/etc/hostname")
    ensures var r := MergedFileList(Arr(files), hostname);
      && r.Arr? && |r.items| == |files| + 1
      && var f := r.items[|files|];
      && IsText(f, "path", "/etc/hostname") && f.fields.Keys == {"path", "mode", "overwrite", "contents"}
      && f.fields["mode"] == Num(420) && f.fields["overwrite"] == Bool(true)
      && f.fields["contents"].Obj? && f.fields["contents"].fields.Keys == {"source"}
      && f.fields["contents"].fields["source"].Str?
      && var source := f.fields["contents"].fields["source"].s;
      && "data:," <= source && Decode(source[|"data:,"|..]) == hostname
  {
    assert forall f :: f in files && StringField(f, "path") == Some(HOSTNAME_PATH) ==> IsText(f, "path", "/etc/hostname");
    FilesConserved(files, hostname);
    DataTextOfEncoded(hostname);
  }
}
