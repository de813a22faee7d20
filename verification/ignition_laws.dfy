/** What merging identity into an Ignition config guarantees. */
module IgnitionLaws {
  import opened Text
  import opened Ordering
  import opened Model
  import opened Percent
  import opened Ignition
  import opened Resolve

  // ----- Key lists -----

  lemma StringsAppend(a: seq<Json>, b: seq<Json>)
    ensures Strings(a + b) == Strings(a) + Strings(b)
  {
    assert forall j :: j in a + b <==> j in a || j in b;
  }

  lemma {:induction false} NewKeysStrings(keys: seq<string>, existing: set<string>)
    ensures Strings(NewKeys(keys, existing)) == Elems(keys) - existing
  {
    if keys != [] {
      NewKeysStrings(keys[1..], existing);
      var head: seq<Json> := if keys[0] !in existing then [Str(keys[0])] else [];
      StringsAppend(head, NewKeys(keys[1..], existing));
      assert keys == [keys[0]] + keys[1..];
      if keys[0] !in existing { assert Strings(head) == {keys[0]} by { assert Str(keys[0]) in head; } }
    }
  }

  lemma {:induction false} NoNewKeys(keys: seq<string>, existing: set<string>)
    requires Elems(keys) <= existing
    ensures NewKeys(keys, existing) == []
  {
    if keys != [] {
      assert keys[0] in Elems(keys);
      assert Elems(keys[1..]) <= Elems(keys);
      NoNewKeys(keys[1..], existing);
    }
  }

  lemma JsonStringsAre(strings: seq<string>)
    ensures Strings(JsonStrings(strings)) == Elems(strings)
  {
    var items := JsonStrings(strings);
    forall i | 0 <= i < |strings| ensures strings[i] in Strings(items) {
      assert items[i] in items;
    }
  }

  /** The user has a key list, which holds all these keys if it is an array. */
  predicate Saturated(user: Json, keys: seq<string>) {
    user.Obj? && KEYS in user.fields
    && (user.fields[KEYS].Arr? ==> Elems(keys) <= Strings(user.fields[KEYS].items))
  }

  lemma MergeKeysSaturates(user: Json, keys: seq<string>)
    requires user.Obj?
    ensures Saturated(MergeKeys(user, keys), keys) && Name(MergeKeys(user, keys)) == Name(user)
  {
    var list := ListAt(user.fields, KEYS);
    if list.Arr? {
      NewKeysStrings(keys, Strings(list.items));
      StringsAppend(list.items, NewKeys(keys, Strings(list.items)));
    }
  }

  lemma MergeKeysKeeps(user: Json, keys: seq<string>, more: seq<string>)
    requires Saturated(user, keys)
    ensures Saturated(MergeKeys(user, more), keys)
  {
    var list := ListAt(user.fields, KEYS);
    if list.Arr? { StringsAppend(list.items, NewKeys(more, Strings(list.items))); }
  }

  lemma SaturatedStays(user: Json, keys: seq<string>)
    requires Saturated(user, keys)
    ensures MergeKeys(user, keys) == user
  {
    var list := user.fields[KEYS];
    if list.Arr? {
      NoNewKeys(keys, Strings(list.items));
      assert list.items + [] == list.items;
    }
    assert user.fields[KEYS := list] == user.fields;
  }

  lemma NewEntry(u: IgnitionUser)
    ensures Name(ToValue(u)) == Some(u.name) && KEYS in ToValue(u).fields
    ensures ToValue(u).fields[KEYS] == Arr(JsonStrings(u.sshAuthorizedKeys))
    ensures Strings(ToValue(u).fields[KEYS].items) == Elems(u.sshAuthorizedKeys)
  {
    JsonStringsAre(u.sshAuthorizedKeys);
  }

  // ----- Idempotence -----

  /** Identity users of one name carry the same set of keys. */
  predicate Agreeing(users: seq<IgnitionUser>) {
    forall i, j :: 0 <= i < |users| && 0 <= j < |users| && users[i].name == users[j].name
                   ==> Elems(users[i].sshAuthorizedKeys) == Elems(users[j].sshAuthorizedKeys)
  }

  /** After the first users are merged: whoever bears the name of one of them has his keys, and entries with
      new names are those that were pushed. */
  predicate MergedSoFar(items: seq<Json>, users: seq<IgnitionUser>, existing: set<string>) {
    && (forall x, u :: x in items && u in users && Name(x) == Some(u.name) ==> Saturated(x, u.sshAuthorizedKeys))
    && (forall x :: x in items && Name(x).Some? && Name(x).value !in existing ==>
          exists u :: u in users && x == ToValue(u))
  }

  lemma MergeIntoProps(x: Json, u: IgnitionUser)
    ensures Name(MergeInto(x, u)) == Name(x)
    ensures Name(x) == Some(u.name) ==> Saturated(MergeInto(x, u), u.sshAuthorizedKeys)
    ensures forall keys :: Saturated(x, keys) ==> Saturated(MergeInto(x, u), keys)
  {
    if Name(x) == Some(u.name) {
      MergeKeysSaturates(x, u.sshAuthorizedKeys);
      forall keys | Saturated(x, keys) ensures Saturated(MergeInto(x, u), keys) {
        MergeKeysKeeps(x, keys, u.sshAuthorizedKeys);
      }
    }
  }

  lemma MergeIntoAllStep(items: seq<Json>, users: seq<IgnitionUser>, u: IgnitionUser, existing: set<string>)
    requires MergedSoFar(items, users, existing) && u.name in existing
    ensures MergedSoFar(MergeIntoAll(items, u), users + [u], existing)
  {
    var r := MergeIntoAll(items, u);
    forall x | x in r
      ensures exists y :: y in items && x == MergeInto(y, u)
    {
      var i :| 0 <= i < |r| && r[i] == x;
      assert items[i] in items;
    }
    forall x, v | x in r && v in users + [u] && Name(x) == Some(v.name)
      ensures Saturated(x, v.sshAuthorizedKeys)
    {
      var y :| y in items && x == MergeInto(y, u);
      MergeIntoProps(y, u);
    }
    forall x | x in r && Name(x).Some? && Name(x).value !in existing
      ensures exists v :: v in users + [u] && x == ToValue(v)
    {
      var y :| y in items && x == MergeInto(y, u);
      MergeIntoProps(y, u);
      var v :| v in users && y == ToValue(v);
      assert v in users + [u];
    }
  }

  lemma PushStep(items: seq<Json>, users: seq<IgnitionUser>, u: IgnitionUser, existing: set<string>)
    requires MergedSoFar(items, users, existing) && u.name !in existing && Agreeing(users + [u])
    ensures MergedSoFar(items + [ToValue(u)], users + [u], existing)
  {
    var all := users + [u];
    NewEntry(u);
    assert all[|users|] == u && u in all;
    forall v | v in users ensures v in all && (v.name == u.name ==> Elems(v.sshAuthorizedKeys) == Elems(u.sshAuthorizedKeys)) {
      var i :| 0 <= i < |users| && users[i] == v;
      assert all[i] == v;
    }
    forall x, v | x in items + [ToValue(u)] && v in all && Name(x) == Some(v.name)
      ensures Saturated(x, v.sshAuthorizedKeys)
    {
      if x in items && v == u {
        var w :| w in users && x == ToValue(w);
        NewEntry(w);
      }
    }
  }

  lemma {:induction false} MergeUsersSaturates(items: seq<Json>, users: seq<IgnitionUser>, existing: set<string>)
    requires Agreeing(users) && Names(items) <= existing
    ensures MergedSoFar(MergeUsers(items, users, existing), users, existing)
  {
    if users == [] {
      forall x | x in items && Name(x).Some? ensures Name(x).value in existing {
        assert Name(x).value in Names(items);
      }
    } else {
      var n := |users| - 1;
      assert users == users[..n] + [users[n]];
      MergeUsersSaturates(items, users[..n], existing);
      if users[n].name in existing {
        MergeIntoAllStep(MergeUsers(items, users[..n], existing), users[..n], users[n], existing);
      } else {
        PushStep(MergeUsers(items, users[..n], existing), users[..n], users[n], existing);
      }
    }
  }

  lemma NamesOfMerged(items: seq<Json>, u: IgnitionUser)
    ensures Names(MergeIntoAll(items, u)) == Names(items)
  {
    var r := MergeIntoAll(items, u);
    forall i | 0 <= i < |items| ensures Name(r[i]) == Name(items[i]) && r[i] in r && items[i] in items {
      MergeIntoProps(items[i], u);
    }
  }

  lemma NamesOfPushed(items: seq<Json>, u: IgnitionUser)
    ensures Names(items + [ToValue(u)]) == Names(items) + {u.name}
  {
    NewEntry(u);
    assert forall j :: j in items + [ToValue(u)] <==> j in items || j == ToValue(u);
  }

  lemma UserNamesLast(users: seq<IgnitionUser>)
    requires users != []
    ensures UserNames(users) == UserNames(users[..|users| - 1]) + {users[|users| - 1].name}
  {
    assert users == users[..|users| - 1] + [users[|users| - 1]];
  }

  /** Nobody is forgotten: all names, old and new, are in the result. */
  lemma {:induction false} MergeUsersNames(items: seq<Json>, users: seq<IgnitionUser>, existing: set<string>)
    requires existing <= Names(items)
    ensures Names(MergeUsers(items, users, existing)) == Names(items) + UserNames(users)
  {
    if users != [] {
      var n := |users| - 1;
      var before := MergeUsers(items, users[..n], existing);
      MergeUsersNames(items, users[..n], existing);
      UserNamesLast(users);
      if users[n].name in existing {
        NamesOfMerged(before, users[n]);
      } else {
        NamesOfPushed(before, users[n]);
      }
    }
  }

  /** Users whose keys are all there already change nothing. */
  lemma {:induction false} SecondMergeStays(items: seq<Json>, users: seq<IgnitionUser>, existing: set<string>)
    requires UserNames(users) <= existing
    requires forall x, u :: x in items && u in users && Name(x) == Some(u.name) ==> Saturated(x, u.sshAuthorizedKeys)
    ensures MergeUsers(items, users, existing) == items
  {
    if users != [] {
      var n := |users| - 1;
      assert users == users[..n] + [users[n]];
      assert forall u :: u in users[..n] ==> u in users;
      SecondMergeStays(items, users[..n], existing);
      assert users[n] in users && users[n].name in UserNames(users);
      forall i | 0 <= i < |items| ensures MergeInto(items[i], users[n]) == items[i] {
        if Name(items[i]) == Some(users[n].name) {
          assert items[i] in items;
          SaturatedStays(items[i], users[n].sshAuthorizedKeys);
        }
      }
    }
  }

  lemma UserListIdempotent(list: Json, users: seq<IgnitionUser>)
    requires Agreeing(users)
    ensures MergedUserList(MergedUserList(list, users), users) == MergedUserList(list, users)
  {
    if list.Arr? {
      var merged := MergeUsers(list.items, users, Names(list.items));
      MergeUsersSaturates(list.items, users, Names(list.items));
      MergeUsersNames(list.items, users, Names(list.items));
      SecondMergeStays(merged, users, Names(merged));
    }
  }

  lemma NormalizeFileOnce(file: Json)
    ensures NormalizeFile(NormalizeFile(file)) == NormalizeFile(file)
    ensures StringField(NormalizeFile(file), "path") == StringField(file, "path")
  {
    var contents := Field(file, "contents");
    if contents.Some? && contents.value.Obj? {
      var normal := NormalizeContents(contents.value.fields);
      assert "inline" !in normal;
      var once := NormalizeFile(file);
      assert once.fields["contents" := Obj(normal)] == once.fields;
    }
  }

  lemma FileListIdempotent(list: Json, hostname: string)
    ensures MergedFileList(MergedFileList(list, hostname), hostname) == MergedFileList(list, hostname)
  {
    if list.Arr? {
      var files := EnsureHostname(list, hostname).items;
      var normal := NormalizeFiles(files);
      if !HasHostname(list.items) {
        assert files[|files| - 1] == HostnameFile(hostname);
      }
      var i :| 0 <= i < |files| && StringField(files[i], "path") == Some(HOSTNAME_PATH);
      forall k | 0 <= k < |files|
        ensures NormalizeFile(normal[k]) == normal[k]
        ensures StringField(normal[k], "path") == StringField(files[k], "path")
      {
        NormalizeFileOnce(files[k]);
      }
      assert normal[i] in normal;
      assert NormalizeFiles(normal) == normal;
    }
  }

  /** Merging the same identity into its own output changes nothing, whatever the base. */
  lemma MergeIdempotent(base: Json, users: seq<IgnitionUser>, hostname: string)
    requires Agreeing(users) && MergeIgnition(base, users, hostname).Merged?
    ensures MergeIgnition(MergeIgnition(base, users, hostname).config, users, hostname) ==
            MergeIgnition(base, users, hostname)
  {
    var f0 := Versioned(base).value;
    var f1 := WithUsers(f0, users);
    var f2 := WithFiles(f1, hostname);
    assert "ignition" in f0 && "ignition" in f2;
    assert Versioned(Obj(f2)) == Some(f2);
    UserListIdempotent(ListAt(FieldsAt(f0, "passwd"), "users"), users);
    FileListIdempotent(ListAt(FieldsAt(f1, "storage"), "files"), hostname);
    assert f2["passwd"] == f1["passwd"];
    assert FieldsAt(f2, "passwd")["users" := FieldsAt(f2, "passwd")["users"]] == FieldsAt(f2, "passwd");
    assert WithUsers(f2, users) == f2;
    assert FieldsAt(f2, "storage")["files" := FieldsAt(f2, "storage")["files"]] == FieldsAt(f2, "storage");
    assert WithFiles(f2, hostname) == f2;
  }

  // ----- Necessity -----

  lemma {:induction false} AllPushed(users: seq<IgnitionUser>)
    ensures MergeUsers([], users, {}) == seq(|users|, i requires 0 <= i < |users| => ToValue(users[i]))
  {
    if users != [] { AllPushed(users[..|users| - 1]); }
  }

  /** When all names are known, entries keep their places and names, and get the keys of their namesakes. */
  lemma {:induction false} AllMerged(items: seq<Json>, users: seq<IgnitionUser>, existing: set<string>, j: nat, i: nat)
    requires UserNames(users) <= existing && j < |items| && i < |users|
    requires Name(items[j]) == Some(users[i].name)
    ensures var r := MergeUsers(items, users, existing);
      |r| == |items| && Name(r[j]) == Name(items[j]) && Saturated(r[j], users[i].sshAuthorizedKeys)
  {
    var n := |users| - 1;
    assert users == users[..n] + [users[n]];
    assert users[n].name in UserNames(users);
    assert forall u :: u in users[..n] ==> u in users;
    KeepPlaces(items, users[..n], existing, j);
    MergeIntoProps(MergeUsers(items, users[..n], existing)[j], users[n]);
    if i < n {
      AllMerged(items, users[..n], existing, j, i);
    }
  }

  lemma {:induction false} KeepPlaces(items: seq<Json>, users: seq<IgnitionUser>, existing: set<string>, j: nat)
    requires UserNames(users) <= existing && j < |items|
    ensures var r := MergeUsers(items, users, existing); |r| == |items| && Name(r[j]) == Name(items[j])
  {
    if users != [] {
      var n := |users| - 1;
      assert users[n].name in UserNames(users);
      assert forall u :: u in users[..n] ==> u in users;
      KeepPlaces(items, users[..n], existing, j);
      MergeIntoProps(MergeUsers(items, users[..n], existing)[j], users[n]);
    }
  }

  ghost predicate IdempotentOn(base: Json, users: seq<IgnitionUser>, hostname: string) {
    var once := MergeIgnition(base, users, hostname);
    once.Merged? ==> MergeIgnition(once.config, users, hostname) == once
  }

  /** If two users of one name differ in a key, the empty list shows it: both are pushed, and the second merge
      gives each the other's keys. */
  lemma ListDisagreementShows(users: seq<IgnitionUser>)
    requires !Agreeing(users)
    ensures var once := MergeUsers([], users, {}); MergeUsers(once, users, Names(once)) != once
  {
    var a, b :| 0 <= a < |users| && 0 <= b < |users| && users[a].name == users[b].name
                && Elems(users[a].sshAuthorizedKeys) != Elems(users[b].sshAuthorizedKeys);
    var i, j := if Elems(users[a].sshAuthorizedKeys) <= Elems(users[b].sshAuthorizedKeys) then b else a,
                if Elems(users[a].sshAuthorizedKeys) <= Elems(users[b].sshAuthorizedKeys) then a else b;
    var once := MergeUsers([], users, {});
    AllPushed(users);
    assert once[j] == ToValue(users[j]);
    MergeUsersNames([], users, {});
    NewEntry(users[j]);
    AllMerged(once, users, Names(once), j, i);
    assert !Saturated(once[j], users[i].sshAuthorizedKeys);
  }

  lemma MergedUsersOf(base: Json, users: seq<IgnitionUser>, hostname: string)
    requires MergeIgnition(base, users, hostname).Merged?
    ensures var c := MergeIgnition(base, users, hostname).config;
      && Versioned(c) == Some(c.fields) && ObjectAt(c.fields, "passwd") && ObjectAt(c.fields, "storage")
      && ListAt(FieldsAt(c.fields, "passwd"), "users") ==
         MergedUserList(ListAt(FieldsAt(Versioned(base).value, "passwd"), "users"), users)
  {
    var f0 := Versioned(base).value;
    assert "ignition" in f0;
  }

  lemma DisagreementShows(users: seq<IgnitionUser>, hostname: string)
    requires !Agreeing(users)
    ensures !IdempotentOn(Obj(map[]), users, hostname)
  {
    var once := MergeUsers([], users, {});
    ListDisagreementShows(users);
    assert Names([]) == {};
    MergedUsersOf(Obj(map[]), users, hostname);
    var c := MergeIgnition(Obj(map[]), users, hostname).config;
    MergedUsersOf(c, users, hostname);
  }

  /** The merge is idempotent on all bases exactly when namesakes among the identity users agree on keys. */
  lemma MergeIdempotentExactly(users: seq<IgnitionUser>, hostname: string)
    ensures (forall base :: IdempotentOn(base, users, hostname)) <==> Agreeing(users)
  {
    if Agreeing(users) {
      forall base ensures IdempotentOn(base, users, hostname) {
        if MergeIgnition(base, users, hostname).Merged? { MergeIdempotent(base, users, hostname); }
      }
    } else {
      DisagreementShows(users, hostname);
    }
  }

  // ----- Which metadata qualifies -----

  predicate DistinctNames(users: seq<IgnitionUser>) {
    forall i, j :: 0 <= i < j < |users| ==> users[i].name != users[j].name
  }

  predicate DistinctAccounts(entries: seq<PublicKeyEntry>) {
    forall i, j :: 0 <= i < j < |entries| ==> entries[i].sshUser != entries[j].sshUser
  }

  lemma {:induction false} AddCloudUsersDistinct(users: seq<IgnitionUser>, ccs: seq<CloudConfigUser>)
    requires DistinctNames(users)
    ensures DistinctNames(AddCloudUsers(users, ccs))
  {
    if ccs != [] { AddCloudUsersDistinct(users, ccs[..|ccs| - 1]); }
  }

  lemma DistinctAgree(users: seq<IgnitionUser>)
    requires DistinctNames(users)
    ensures Agreeing(users)
  {
    forall i, j | 0 <= i < |users| && 0 <= j < |users| && users[i].name == users[j].name ensures i == j {
    }
  }

  /** Whatever the resolver produces for a host merges idempotently into every base. */
  lemma HostMergeIdempotent(ip: Ip, hostname: string, labels: Labels, identity: IdentityState, config: MetadataConfig,
                            base: Json)
    requires HostMetadataOf(ip, hostname, labels, identity, config).Some?
    ensures var m := HostMetadataOf(ip, hostname, labels, identity, config).value;
      DistinctNames(IgnitionUsers(m)) && IdempotentOn(base, IgnitionUsers(m), m.hostname)
  {
    var m := HostMetadataOf(ip, hostname, labels, identity, config).value;
    ListsOrdered(FindMatchingRules(hostname, labels, identity), identity);
    AddCloudUsersDistinct(SystemUsers(m.publicKeys), m.cloudUsers);
    DistinctAgree(IgnitionUsers(m));
    MergeIdempotentExactly(IgnitionUsers(m), m.hostname);
  }

  /** So does what it produces for a container. */
  lemma ContainerMergeIdempotent(ip: Ip, info: ContainerInfo, owner: string, identity: IdentityState,
                                 config: MetadataConfig, base: Json)
    requires ContainerMetadataOf(ip, info, owner, identity, config).Some?
    ensures var m := ContainerMetadataOf(ip, info, owner, identity, config).value;
      DistinctNames(IgnitionUsers(m)) && IdempotentOn(base, IgnitionUsers(m), m.hostname)
  {
    var m := ContainerMetadataOf(ip, info, owner, identity, config).value;
    AddCloudUsersDistinct(SystemUsers(m.publicKeys), m.cloudUsers);
    DistinctAgree(IgnitionUsers(m));
    MergeIdempotentExactly(IgnitionUsers(m), m.hostname);
  }

  /** All keys the metadata gives to a name, as an ssh user or as an identity user. */
  function AccountKeys(entries: seq<PublicKeyEntry>, ccs: seq<CloudConfigUser>, name: string): set<string> {
    (set e, k | e in entries && e.sshUser == name && k in e.keys :: k)
    + (set c, k | c in ccs && c.name == name && k in c.sshAuthorizedKeys :: k)
  }

  lemma {:induction false} AddKeysElems(keys: seq<string>, more: seq<string>)
    ensures Elems(AddKeys(keys, more)) == Elems(keys) + Elems(more)
    ensures NoDuplicates(keys) ==> NoDuplicates(AddKeys(keys, more))
    decreases |more|
  {
    if more != [] {
      AddKeysElems(if more[0] in keys then keys else keys + [more[0]], more[1..]);
      assert more == [more[0]] + more[1..];
    }
  }

  lemma AccountKeysLast(entries: seq<PublicKeyEntry>, ccs: seq<CloudConfigUser>, name: string)
    requires ccs != []
    ensures var cc := ccs[|ccs| - 1];
      AccountKeys(entries, ccs, name) ==
      AccountKeys(entries, ccs[..|ccs| - 1], name) + (if cc.name == name then Elems(cc.sshAuthorizedKeys) else {})
  {
    assert ccs == ccs[..|ccs| - 1] + [ccs[|ccs| - 1]];
  }

  /** Each identity user carries exactly the keys the metadata gives to that name. */
  lemma {:induction false} UserKeysExactly(entries: seq<PublicKeyEntry>, ccs: seq<CloudConfigUser>, u: IgnitionUser)
    requires DistinctAccounts(entries)
    requires u in AddCloudUsers(SystemUsers(entries), ccs)
    ensures Elems(u.sshAuthorizedKeys) == AccountKeys(entries, ccs, u.name)
  {
    if ccs == [] {
      var i :| 0 <= i < |entries| && SystemUsers(entries)[i] == u;
      assert entries[i] in entries;
      forall e | e in entries && e.sshUser == u.name ensures e == entries[i] {
        var k :| 0 <= k < |entries| && entries[k] == e;
      }
    } else {
      var before, cc := ccs[..|ccs| - 1], ccs[|ccs| - 1];
      var users := AddCloudUsers(SystemUsers(entries), before);
      AccountKeysLast(entries, ccs, u.name);
      AddCloudUsersDistinct(SystemUsers(entries), before);
      var i := IndexOf(users, cc.name);
      if i < |users| {
        AddKeysElems(users[i].sshAuthorizedKeys, cc.sshAuthorizedKeys);
        var k :| 0 <= k < |users| && users[i := Completed(users[i], cc)][k] == u;
        UserKeysExactly(entries, before, users[k]);
      } else if u in users {
        UserKeysExactly(entries, before, u);
      } else {
        AbsentAccount(entries, before, cc.name);
      }
    }
  }

  lemma {:induction false} AbsentAccount(entries: seq<PublicKeyEntry>, ccs: seq<CloudConfigUser>, name: string)
    requires IndexOf(AddCloudUsers(SystemUsers(entries), ccs), name) == |AddCloudUsers(SystemUsers(entries), ccs)|
    ensures AccountKeys(entries, ccs, name) == {}
    ensures forall e :: e in entries ==> e.sshUser != name
  {
    var users := AddCloudUsers(SystemUsers(entries), ccs);
    if ccs == [] {
      forall e | e in entries ensures e.sshUser != name {
        var i :| 0 <= i < |entries| && entries[i] == e;
        assert users[i].name != name;
      }
    } else {
      var before, cc := ccs[..|ccs| - 1], ccs[|ccs| - 1];
      var prior := AddCloudUsers(SystemUsers(entries), before);
      var i := IndexOf(prior, cc.name);
      if i < |prior| { assert users[i].name == cc.name; } else { assert users[|prior|].name == cc.name; }
      forall j | 0 <= j < |prior| ensures prior[j].name != name {
        assert users[j].name == prior[j].name;
      }
      assert IndexOf(prior, name) == |prior|;
      AbsentAccount(entries, before, name);
      AccountKeysLast(entries, ccs, name);
    }
  }

  // ----- Conservation -----

  /** What becomes of a base user: merged with its namesake, if there is one. */
  function MergedEntry(x: Json, users: seq<IgnitionUser>): Json {
    if Name(x).None? then x
    else
      var i := IndexOf(users, Name(x).value);
      if i < |users| then MergeInto(x, users[i]) else x
  }

  function Pushed(users: seq<IgnitionUser>, existing: set<string>): seq<Json> {
    if users == [] then []
    else
      var last := users[|users| - 1];
      Pushed(users[..|users| - 1], existing) + (if last.name in existing then [] else [ToValue(last)])
  }

  lemma {:induction false} IndexOfLast(users: seq<IgnitionUser>, name: string)
    requires users != []
    ensures var n := |users| - 1;
      IndexOf(users, name) == if IndexOf(users[..n], name) < n then IndexOf(users[..n], name)
                              else if users[n].name == name then n else |users|
  {
    if |users| > 1 && users[0].name != name {
      IndexOfLast(users[1..], name);
      assert users[1..][..|users| - 2] == users[..|users| - 1][1..];
    }
  }

  function MergedEntries(items: seq<Json>, users: seq<IgnitionUser>): seq<Json> {
    seq(|items|, i requires 0 <= i < |items| => MergedEntry(items[i], users))
  }

  lemma EntriesStep(items: seq<Json>, users: seq<IgnitionUser>, existing: set<string>)
    requires DistinctNames(users) && users != [] && existing == Names(items)
    ensures var n := |users| - 1;
      MergedEntries(items, users) ==
      if users[n].name in existing then MergeIntoAll(MergedEntries(items, users[..n]), users[n])
      else MergedEntries(items, users[..n])
  {
    var n := |users| - 1;
    forall i | 0 <= i < |items|
      ensures MergedEntry(items[i], users) ==
              if users[n].name in existing then MergeInto(MergedEntry(items[i], users[..n]), users[n])
              else MergedEntry(items[i], users[..n])
    {
      if Name(items[i]).Some? {
        IndexOfLast(users, Name(items[i]).value);
        assert items[i] in items && Name(items[i]).value in existing;
        var k := IndexOf(users[..n], Name(items[i]).value);
        if k < n { MergeIntoProps(items[i], users[k]); }
      }
    }
  }

  lemma PushedStay(users: seq<IgnitionUser>, existing: set<string>, u: IgnitionUser)
    requires u.name in existing
    ensures MergeIntoAll(Pushed(users, existing), u) == Pushed(users, existing)
  {
    forall j | 0 <= j < |Pushed(users, existing)|
      ensures MergeInto(Pushed(users, existing)[j], u) == Pushed(users, existing)[j]
    {
      PushedNames(users, existing, j);
    }
  }

  /** The nested loops, in closed form: base users keep their places and are merged one by one,
      the users with new names follow in order. */
  lemma {:induction false} MergeUsersClosed(items: seq<Json>, users: seq<IgnitionUser>)
    requires DistinctNames(users)
    ensures MergeUsers(items, users, Names(items)) == MergedEntries(items, users) + Pushed(users, Names(items))
  {
    var existing := Names(items);
    if users == [] {
      assert MergedEntries(items, users) == items;
    } else {
      var n := |users| - 1;
      MergeUsersClosed(items, users[..n]);
      EntriesStep(items, users, existing);
      var entries, pushed := MergedEntries(items, users[..n]), Pushed(users[..n], existing);
      if users[n].name in existing {
        PushedStay(users[..n], existing, users[n]);
        assert MergeIntoAll(entries + pushed, users[n]) ==
               MergeIntoAll(entries, users[n]) + MergeIntoAll(pushed, users[n]);
      }
    }
  }

  lemma {:induction false} PushedNames(users: seq<IgnitionUser>, existing: set<string>, j: nat)
    requires j < |Pushed(users, existing)|
    ensures Name(Pushed(users, existing)[j]).Some? && Name(Pushed(users, existing)[j]).value !in existing
  {
    var n := |users| - 1;
    NewEntry(users[n]);
    if j < |Pushed(users[..n], existing)| { PushedNames(users[..n], existing, j); }
  }

  lemma {:induction false} NewKeysDistinct(keys: seq<string>, existing: set<string>)
    requires NoDuplicates(keys)
    ensures NoDuplicates(NewKeys(keys, existing))
    ensures forall j :: j in NewKeys(keys, existing) ==> j.Str? && j.s in keys && j.s !in existing
  {
    if keys != [] {
      NewKeysDistinct(keys[1..], existing);
      assert keys == [keys[0]] + keys[1..];
      assert keys[0] !in keys[1..];
      assert Str(keys[0]) !in NewKeys(keys[1..], existing);
      var rest := NewKeys(keys[1..], existing);
      assert forall j :: 0 <= j < |rest| ==> rest[j] in rest;
    }
  }

  /** A merged user keeps all other fields; its keys only grow at the end, by exactly the keys that were missing,
      and stay free of duplicates. */
  lemma MergeKeysConserves(user: Json, keys: seq<string>)
    requires user.Obj?
    ensures var r := MergeKeys(user, keys);
      && r.Obj? && r.fields - {KEYS} == user.fields - {KEYS} && KEYS in r.fields
      && (!ListAt(user.fields, KEYS).Arr? ==> r == user)
      && (ListAt(user.fields, KEYS).Arr? ==>
            var before, after := ListAt(user.fields, KEYS).items, r.fields[KEYS];
            && after.Arr? && before <= after.items
            && Strings(after.items) == Strings(before) + Elems(keys)
            && (NoDuplicates(before) && NoDuplicates(keys) ==> NoDuplicates(after.items)))
  {
    var list := ListAt(user.fields, KEYS);
    if list.Arr? {
      var added := NewKeys(keys, Strings(list.items));
      NewKeysStrings(keys, Strings(list.items));
      StringsAppend(list.items, added);
      if NoDuplicates(list.items) && NoDuplicates(keys) {
        NewKeysDistinct(keys, Strings(list.items));
        forall i, j | 0 <= i < |list.items| && 0 <= j < |added| ensures list.items[i] != added[j] {
          assert added[j] in added && list.items[i] in list.items;
        }
      }
    } else {
      assert user.fields[KEYS := list] == user.fields;
    }
  }

  /** Everything outside the user list and the file list is the base's own. */
  lemma MergeConservesRest(base: Json, users: seq<IgnitionUser>, hostname: string)
    requires MergeIgnition(base, users, hostname).Merged? && base.Obj?
    ensures var c := MergeIgnition(base, users, hostname).config;
      && c.Obj? && c.fields.Keys == base.fields.Keys + {"ignition", "passwd", "storage"}
      && (forall k :: k in base.fields && k != "passwd" && k != "storage" ==> c.fields[k] == base.fields[k])
      && c.fields["passwd"].Obj? && c.fields["storage"].Obj?
      && c.fields["passwd"].fields - {"users"} == FieldsAt(base.fields, "passwd") - {"users"}
      && c.fields["storage"].fields - {"files"} == FieldsAt(base.fields, "storage") - {"files"}
  {
    var f0 := Versioned(base).value;
    var f1 := WithUsers(f0, users);
    assert FieldsAt(f0, "passwd") == FieldsAt(base.fields, "passwd");
    assert FieldsAt(f1, "storage") == FieldsAt(base.fields, "storage");
  }

  // ----- Files -----

  /** Each file keeps its place and all fields but `contents`; a host name file is there; inline text
      survives as the decoding of the data URI that replaces it. */
  lemma FilesConserved(files: seq<Json>, hostname: string)
    ensures var r := MergedFileList(Arr(files), hostname);
      && r.Arr? && |files| <= |r.items| <= |files| + 1
      && (forall i :: 0 <= i < |files| ==> r.items[i] == NormalizeFile(files[i]))
      && HasHostname(r.items)
      && (!HasHostname(files) ==> r.items[|files|] == HostnameFile(hostname))
  {
    var merged := EnsureHostname(Arr(files), hostname).items;
    var normal := NormalizeFiles(merged);
    if HasHostname(files) {
      var f :| f in files && StringField(f, "path") == Some(HOSTNAME_PATH);
      var i :| 0 <= i < |files| && files[i] == f;
      NormalizeFileOnce(f);
      assert normal[i] in normal;
    } else {
      assert merged[|files|] == HostnameFile(hostname);
      NormalizeFileOnce(HostnameFile(hostname));
      assert normal[|files|] in normal;
      var file := HostnameFile(hostname);
      assert file.fields["contents" := file.fields["contents"]] == file.fields;
    }
  }

  const DATA: string := "data:,"

  /** The text behind a data URI of this form. */
  function DataText(source: string): Option<string> {
    if DATA <= source then Some(Decode(source[|DATA|..])) else None
  }

  lemma DataTextOfEncoded(text: string)
    ensures DataText(DATA + Encode(text)) == Some(text)
  {
    DecodeEncode(text);
    assert (DATA + Encode(text))[|DATA|..] == Encode(text);
  }

  /** An inline text becomes a source that decodes to it; `inline` itself is always gone. */
  lemma InlineSurvives(file: Json)
    requires Field(file, "contents").Some? && file.fields["contents"].Obj?
    ensures var before, r := file.fields["contents"].fields, NormalizeFile(file);
      && r.Obj? && r.fields - {"contents"} == file.fields - {"contents"}
      && Field(r, "contents").Some? && r.fields["contents"].Obj?
      && var after := r.fields["contents"].fields;
      && "inline" !in after
      && after - {"source"} == before - {"inline", "source"}
      && (StringField(file.fields["contents"], "inline").Some? ==>
            StringField(r.fields["contents"], "source").Some?
            && DataText(StringField(r.fields["contents"], "source").value) ==
               StringField(file.fields["contents"], "inline"))
  {
    var before := file.fields["contents"].fields;
    if "inline" in before && before["inline"].Str? {
      DataTextOfEncoded(before["inline"].s);
    }
  }

  // ----- From the rules to the served config -----

  lemma {:induction false} AllNamesPlaced(users: seq<IgnitionUser>, ccs: seq<CloudConfigUser>, name: string)
    requires name in UserNames(users)
    ensures name in UserNames(AddCloudUsers(users, ccs))
  {
    if ccs != [] {
      var before, cc := AddCloudUsers(users, ccs[..|ccs| - 1]), ccs[|ccs| - 1];
      AllNamesPlaced(users, ccs[..|ccs| - 1], name);
      var i := IndexOf(before, cc.name);
      if i < |before| { SameNames(before, before[i := Completed(before[i], cc)]); }
    }
  }

  /** Every key the access rules grant is in the merged config, under its ssh user: whoever of that name has a
      key array holds it, and someone of that name is there. */
  lemma GrantedKeysAreServed(ip: Ip, hostname: string, labels: Labels, identity: IdentityState, config: MetadataConfig,
                             rule: HostAccess, user: string, sshUser: string, key: string, items: seq<Json>)
    requires HostMetadataOf(ip, hostname, labels, identity, config).Some?
    requires Grants(rule, user, sshUser, key, hostname, labels, identity)
    ensures var users := IgnitionUsers(HostMetadataOf(ip, hostname, labels, identity, config).value);
            var served := MergeUsers(items, users, Names(items));
      && (exists x :: x in served && Name(x) == Some(sshUser))
      && (forall x :: x in served && Name(x) == Some(sshUser) ==>
            x.Obj? && KEYS in x.fields && (x.fields[KEYS].Arr? ==> key in Strings(x.fields[KEYS].items)))
  {
    var m := HostMetadataOf(ip, hostname, labels, identity, config).value;
    var users := IgnitionUsers(m);
    KeysExactly(ip, hostname, labels, identity, config, sshUser, key);
    var e :| e in m.publicKeys && e.sshUser == sshUser && key in e.keys;
    AddCloudUsersDistinct(SystemUsers(m.publicKeys), m.cloudUsers);
    var u := ListedIsUser(m, e, key);
    ServedByMerge(items, users, u, key);
  }

  /** Whoever is listed becomes an identity user with the key. */
  lemma ListedIsUser(m: HostMetadata, e: PublicKeyEntry, key: string) returns (u: IgnitionUser)
    requires DistinctAccounts(m.publicKeys) && e in m.publicKeys && key in e.keys
    ensures u in IgnitionUsers(m) && u.name == e.sshUser && key in Elems(u.sshAuthorizedKeys)
  {
    var i :| 0 <= i < |m.publicKeys| && m.publicKeys[i] == e;
    assert SystemUsers(m.publicKeys)[i] in SystemUsers(m.publicKeys);
    AllNamesPlaced(SystemUsers(m.publicKeys), m.cloudUsers, e.sshUser);
    var users := AddCloudUsers(SystemUsers(m.publicKeys), m.cloudUsers);
    assert e.sshUser in UserNames(users);
    u :| u in users && u.name == e.sshUser;
    UserKeysExactly(m.publicKeys, m.cloudUsers, u);
  }

  lemma ServedByMerge(items: seq<Json>, users: seq<IgnitionUser>, u: IgnitionUser, key: string)
    requires DistinctNames(users) && u in users && key in Elems(u.sshAuthorizedKeys)
    ensures var served := MergeUsers(items, users, Names(items));
      && (exists x :: x in served && Name(x) == Some(u.name))
      && (forall x :: x in served && Name(x) == Some(u.name) ==>
            x.Obj? && KEYS in x.fields && (x.fields[KEYS].Arr? ==> key in Strings(x.fields[KEYS].items)))
  {
    DistinctAgree(users);
    MergeUsersSaturates(items, users, Names(items));
    MergeUsersNames(items, users, Names(items));
    assert u.name in UserNames(users);
  }
}
