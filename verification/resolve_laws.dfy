/** What resolution answers, in the words of the tables. */
module ResolveLaws {
  import opened Text
  import opened Ordering
  import opened Model
  import opened Access
  import opened Resolve

  /** The labels that a table of labels gives to a host. */
  predicate LabelsFrom(labels: Labels, hostname: string, hostLabels: map<string, map<string, string>>) {
    if hostname in hostLabels then labels == Some(hostLabels[hostname]) else labels == None
  }

  lemma TargetsIsMatches(rule: HostAccess, hostname: string, labels: Labels,
                         hostLabels: map<string, map<string, string>>, identity: IdentityState)
    requires LabelsFrom(labels, hostname, hostLabels)
    ensures Targets(rule, hostname, hostLabels, identity) <==> Matches(rule, hostname, labels, identity)
  {
    if hostname in hostLabels {
      assert forall sel :: sel in rule.hostSelectors ==>
        (SelectorMatches(sel, labels.value) <==>
         forall k :: k in sel ==> k in hostLabels[hostname] && hostLabels[hostname][k] == sel[k]);
    }
  }

  lemma NamesIsReach(rule: HostAccess, user: string, identity: IdentityState)
    ensures Names(rule, user, identity) <==> user in Reach(rule.subjects, identity)
  {
    if s :| s in rule.subjects && s.kind.UserSubject? && s.name == user {
      assert Names(rule, user, identity);
    }
    if s :| s in rule.subjects && s.kind.GroupSubject? && s.name in identity.groups && user in identity.groups[s.name] {
      assert Names(rule, user, identity);
    }
  }

  lemma EnabledIsActive(identity: IdentityState, name: string)
    ensures Enabled(identity, name) <==> Active(identity, name)
  {
  }

  lemma AdmitsIs(rule: HostAccess, user: string, hostname: string, labels: Labels,
                 hostLabels: map<string, map<string, string>>, identity: IdentityState)
    requires LabelsFrom(labels, hostname, hostLabels)
    ensures Admits(rule, user, hostname, hostLabels, identity) <==>
            rule in FindMatchingRules(hostname, labels, identity) && user in ActiveReach(rule, identity)
  {
    TargetsIsMatches(rule, hostname, labels, hostLabels, identity);
    NamesIsReach(rule, user, identity);
    EnabledIsActive(identity, user);
  }

  lemma KeysAreHeld(user: User)
    ensures CarriesKeysOf(KeysOf(user), user)
    ensures forall key :: key in KeysOf(user) <==> HoldsKey(user, key)
  {
    var keys := KeysOf(user);
    forall key | HoldsKey(user, key) ensures key in keys {
      var p :| p in user.sshPublicKeys && p.key == key;
      var i :| 0 <= i < |keys| && user.sshPublicKeys[i] == p;
      assert keys[i] == key;
    }
    forall key | key in keys ensures HoldsKey(user, key) {
      var i :| 0 <= i < |keys| && keys[i] == key;
      assert user.sshPublicKeys[i] in user.sshPublicKeys;
    }
  }

  // ----- Hosts -----

  /** A host resolves exactly when some rule with an ssh user admits someone. */
  lemma HostResolvesExactly(ip: Ip, hostname: string, labels: Labels, hostLabels: map<string, map<string, string>>,
                            identity: IdentityState, config: MetadataConfig)
    requires LabelsFrom(labels, hostname, hostLabels)
    ensures HostMetadataOf(ip, hostname, labels, identity, config).Some? <==>
            LetsSomeoneIn(hostname, hostLabels, identity)
  {
    var rules := FindMatchingRules(hostname, labels, identity);
    var granted := GrantedSshUsers(rules, identity);
    if granted != {} {
      var s :| s in granted;
      var r :| r in rules && s in r.sshUsers && ActiveReach(r, identity) != {};
      var u :| u in ActiveReach(r, identity);
      AdmitsIs(r, u, hostname, labels, hostLabels, identity);
    }
    if LetsSomeoneIn(hostname, hostLabels, identity) {
      var r, u :| Admits(r, u, hostname, hostLabels, identity) && r.sshUsers != [];
      AdmitsIs(r, u, hostname, labels, hostLabels, identity);
      assert r.sshUsers[0] in r.sshUsers;
      assert r.sshUsers[0] in granted;
    }
  }

  /** A key opens an account of the host exactly when a rule for that account admits a holder of the key. */
  lemma HostKeysExactly(ip: Ip, hostname: string, labels: Labels, hostLabels: map<string, map<string, string>>,
                        identity: IdentityState, config: MetadataConfig, sshUser: string, key: string)
    requires LabelsFrom(labels, hostname, hostLabels)
    requires HostMetadataOf(ip, hostname, labels, identity, config).Some?
    ensures OpensAccount(HostMetadataOf(ip, hostname, labels, identity, config).value.publicKeys, sshUser, key) <==>
            KeyAdmitted(sshUser, key, hostname, hostLabels, identity)
  {
    var rules := FindMatchingRules(hostname, labels, identity);
    KeyListed(rules, identity, sshUser, key);
    KeyGrantedIs(rules, hostname, labels, hostLabels, identity, sshUser, key);
    assert HostMetadataOf(ip, hostname, labels, identity, config).value.publicKeys == PublicKeys(rules, identity);
  }

  lemma KeyGrantedIs(rules: seq<HostAccess>, hostname: string, labels: Labels,
                     hostLabels: map<string, map<string, string>>, identity: IdentityState, sshUser: string, key: string)
    requires LabelsFrom(labels, hostname, hostLabels) && rules == FindMatchingRules(hostname, labels, identity)
    ensures key in GrantedKeys(rules, identity, sshUser) <==> KeyAdmitted(sshUser, key, hostname, hostLabels, identity)
  {
    if key in GrantedKeys(rules, identity, sshUser) {
      var r :| r in rules && sshUser in r.sshUsers && key in KeysOfUsers(ActiveReach(r, identity), identity);
      var u :| u in ActiveReach(r, identity) && u in identity.users && key in KeysOf(identity.users[u]);
      KeysAreHeld(identity.users[u]);
      AdmitsIs(r, u, hostname, labels, hostLabels, identity);
    }
    if KeyAdmitted(sshUser, key, hostname, hostLabels, identity) {
      var r, u :| Admits(r, u, hostname, hostLabels, identity) && sshUser in r.sshUsers
                  && HoldsKey(identity.users[u], key);
      KeysAreHeld(identity.users[u]);
      AdmitsIs(r, u, hostname, labels, hostLabels, identity);
      assert key in KeysOfUsers(ActiveReach(r, identity), identity);
    }
  }

  /** Of the rules in the order they are walked, the i-th is the first to admit the user. */
  predicate FirstToAdmit(i: nat, user: string, hostname: string, hostLabels: map<string, map<string, string>>,
                         identity: IdentityState)
  {
    && i < |identity.hostAccess| && Admits(identity.hostAccess[i], user, hostname, hostLabels, identity)
    && forall j :: 0 <= j < i ==> !Admits(identity.hostAccess[j], user, hostname, hostLabels, identity)
  }

  /** A function of a list of rules that is decided by the first rule hit. */
  lemma {:induction false} FirstHitDecides(rules: seq<HostAccess>, i: nat, hit: HostAccess -> bool,
                                           f: seq<HostAccess> -> bool)
    requires forall rs: seq<HostAccess> :: rs != [] ==> f(rs) == if hit(rs[0]) then rs[0].sudo else f(rs[1..])
    requires i < |rules| && hit(rules[i]) && forall j :: 0 <= j < i ==> !hit(rules[j])
    ensures f(rules) == rules[i].sudo
  {
    if i > 0 { FirstHitDecides(rules[1..], i - 1, hit, f); }
  }

  lemma FirstSudoNext(rules: seq<HostAccess>, user: string, hostname: string, labels: Labels, identity: IdentityState)
    requires rules != []
    ensures FirstSudo(MatchingAmong(rules, hostname, labels, identity), identity, user) ==
            if Matches(rules[0], hostname, labels, identity) && user in ActiveReach(rules[0], identity)
            then rules[0].sudo
            else FirstSudo(MatchingAmong(rules[1..], hostname, labels, identity), identity, user)
  {
    MatchingNext(rules, hostname, labels, identity);
  }

  lemma MatchingNext(rules: seq<HostAccess>, hostname: string, labels: Labels, identity: IdentityState)
    requires rules != []
    ensures var all, rest := MatchingAmong(rules, hostname, labels, identity),
                             MatchingAmong(rules[1..], hostname, labels, identity);
      if Matches(rules[0], hostname, labels, identity) then all != [] && all[0] == rules[0] && all[1..] == rest
      else all == rest
  {
  }

  predicate Hit(rule: HostAccess, user: string, hostname: string, labels: Labels, identity: IdentityState) {
    Matches(rule, hostname, labels, identity) && user in ActiveReach(rule, identity)
  }

  lemma FirstHit(i: nat, user: string, hostname: string, labels: Labels,
                 hostLabels: map<string, map<string, string>>, identity: IdentityState, hit: HostAccess -> bool)
    requires LabelsFrom(labels, hostname, hostLabels) && FirstToAdmit(i, user, hostname, hostLabels, identity)
    requires forall r :: hit(r) <==> Hit(r, user, hostname, labels, identity)
    ensures hit(identity.hostAccess[i]) && forall j :: 0 <= j < i ==> !hit(identity.hostAccess[j])
  {
    var rules := identity.hostAccess;
    AdmitsIs(rules[i], user, hostname, labels, hostLabels, identity);
    forall j | 0 <= j < i ensures !hit(rules[j]) {
      AdmitsIs(rules[j], user, hostname, labels, hostLabels, identity);
    }
  }

  lemma SudoByFirstHit(user: string, hostname: string, labels: Labels, identity: IdentityState,
                       hit: HostAccess -> bool, f: seq<HostAccess> -> bool)
    requires forall r :: hit(r) <==> Hit(r, user, hostname, labels, identity)
    requires forall rs: seq<HostAccess> ::
               f(rs) == FirstSudo(MatchingAmong(rs, hostname, labels, identity), identity, user)
    ensures forall rs: seq<HostAccess> :: rs != [] ==> f(rs) == if hit(rs[0]) then rs[0].sudo else f(rs[1..])
  {
    forall rs: seq<HostAccess> | rs != [] ensures f(rs) == if hit(rs[0]) then rs[0].sudo else f(rs[1..]) {
      FirstSudoNext(rs, user, hostname, labels, identity);
    }
  }

  lemma SudoOfFirstHit(rules: seq<HostAccess>, i: nat, user: string, hostname: string, labels: Labels,
                       identity: IdentityState, hit: HostAccess -> bool)
    requires forall r :: hit(r) <==> Hit(r, user, hostname, labels, identity)
    requires i < |rules| && hit(rules[i]) && forall j :: 0 <= j < i ==> !hit(rules[j])
    ensures FirstSudo(MatchingAmong(rules, hostname, labels, identity), identity, user) == rules[i].sudo
  {
    var f := (rs: seq<HostAccess>) => FirstSudo(MatchingAmong(rs, hostname, labels, identity), identity, user);
    SudoByFirstHit(user, hostname, labels, identity, hit, f);
    FirstHitDecides(rules, i, hit, f);
  }

  lemma FirstSudoIs(i: nat, user: string, hostname: string, labels: Labels,
                    hostLabels: map<string, map<string, string>>, identity: IdentityState)
    requires LabelsFrom(labels, hostname, hostLabels) && FirstToAdmit(i, user, hostname, hostLabels, identity)
    ensures FirstSudo(FindMatchingRules(hostname, labels, identity), identity, user) == identity.hostAccess[i].sudo
  {
    var hit := (r: HostAccess) => Hit(r, user, hostname, labels, identity);
    FirstHit(i, user, hostname, labels, hostLabels, identity, hit);
    SudoOfFirstHit(identity.hostAccess, i, user, hostname, labels, identity, hit);
  }

  /** Exactly the users admitted have accounts, each as the identity table has it, and with sudo by the first rule that
      admits the user. */
  ghost predicate AccountsRight(users: seq<CloudConfigUser>, hostname: string,
                                hostLabels: map<string, map<string, string>>, identity: IdentityState)
  {
    && (forall u :: HasAccount(users, u) <==> Admitted(u, hostname, hostLabels, identity))
    && (forall c :: c in users ==> AccountOf(c, identity))
    && (forall c, i: nat :: c in users && FirstToAdmit(i, c.name, hostname, hostLabels, identity) ==>
          SudoBy(c, identity.hostAccess[i]))
  }

  predicate SudoBy(c: CloudConfigUser, rule: HostAccess) {
    c.sudo == if rule.sudo then Some("ALL=(ALL) NOPASSWD:ALL") else None
  }

  lemma CloudUserIsAccount(name: string, identity: IdentityState, sudo: bool)
    requires name in identity.users
    ensures var c := CloudUser(name, identity, sudo);
      c.name == name && AccountOf(c, identity)
      && c.sudo == if sudo then Some("ALL=(ALL) NOPASSWD:ALL") else None
  {
    KeysAreHeld(identity.users[name]);
    ParsePrinted(identity.users[name].uid, 0x1_0000_0000);
  }

  lemma UserListed(rules: seq<HostAccess>, identity: IdentityState, u: string)
    ensures HasAccount(CloudUsers(rules, identity), u) <==> u in ReachedUsers(rules, identity)
  {
    var names, users := SortedStrings(ReachedUsers(rules, identity)), CloudUsers(rules, identity);
    if u in ReachedUsers(rules, identity) {
      assert u in Elems(names);
      var i :| 0 <= i < |names| && names[i] == u;
      assert users[i] in users && users[i].name == u;
    }
    if c :| c in users && c.name == u {
      var i :| 0 <= i < |users| && users[i] == c;
      assert names[i] in Elems(names) && users[i].name == names[i];
    }
  }

  lemma UserIsCloudUser(rules: seq<HostAccess>, identity: IdentityState, c: CloudConfigUser)
    requires c in CloudUsers(rules, identity)
    ensures c.name in identity.users && c == CloudUser(c.name, identity, FirstSudo(rules, identity, c.name))
  {
    var names, users := SortedStrings(ReachedUsers(rules, identity)), CloudUsers(rules, identity);
    var i :| 0 <= i < |users| && users[i] == c;
    assert names[i] in Elems(names);
  }

  lemma AdmittedIsReached(rules: seq<HostAccess>, u: string, hostname: string, labels: Labels,
                          hostLabels: map<string, map<string, string>>, identity: IdentityState)
    requires LabelsFrom(labels, hostname, hostLabels) && rules == FindMatchingRules(hostname, labels, identity)
    ensures Admitted(u, hostname, hostLabels, identity) <==> u in ReachedUsers(rules, identity)
  {
    if Admitted(u, hostname, hostLabels, identity) {
      var r :| Admits(r, u, hostname, hostLabels, identity);
      AdmitsIs(r, u, hostname, labels, hostLabels, identity);
    }
    if u in ReachedUsers(rules, identity) {
      var r :| r in rules && u in ActiveReach(r, identity);
      AdmitsIs(r, u, hostname, labels, hostLabels, identity);
    }
  }

  lemma AccountIs(rules: seq<HostAccess>, c: CloudConfigUser, identity: IdentityState)
    requires c in CloudUsers(rules, identity)
    ensures AccountOf(c, identity)
    ensures c.sudo == if FirstSudo(rules, identity, c.name) then Some("ALL=(ALL) NOPASSWD:ALL") else None
  {
    UserIsCloudUser(rules, identity, c);
    CloudUserIsAccount(c.name, identity, FirstSudo(rules, identity, c.name));
  }

  /** The login accounts of a host, exactly: who has one, with which uid, groups, shell, keys and sudo. */
  lemma HostAccountsExactly(ip: Ip, hostname: string, labels: Labels, hostLabels: map<string, map<string, string>>,
                            identity: IdentityState, config: MetadataConfig)
    requires LabelsFrom(labels, hostname, hostLabels)
    requires HostMetadataOf(ip, hostname, labels, identity, config).Some?
    ensures AccountsRight(HostMetadataOf(ip, hostname, labels, identity, config).value.cloudUsers, hostname, hostLabels,
                          identity)
  {
    var rules := FindMatchingRules(hostname, labels, identity);
    UsersRight(rules, CloudUsers(rules, identity), hostname, labels, hostLabels, identity);
    assert HostMetadataOf(ip, hostname, labels, identity, config).value.cloudUsers == CloudUsers(rules, identity);
  }

  lemma UsersRight(rules: seq<HostAccess>, users: seq<CloudConfigUser>, hostname: string, labels: Labels,
                   hostLabels: map<string, map<string, string>>, identity: IdentityState)
    requires LabelsFrom(labels, hostname, hostLabels) && rules == FindMatchingRules(hostname, labels, identity)
    requires users == CloudUsers(rules, identity)
    ensures AccountsRight(users, hostname, hostLabels, identity)
  {
    forall u ensures HasAccount(users, u) <==> Admitted(u, hostname, hostLabels, identity) {
      UserListed(rules, identity, u);
      AdmittedIsReached(rules, u, hostname, labels, hostLabels, identity);
    }
    forall c | c in users ensures AccountOf(c, identity) {
      AccountIs(rules, c, identity);
    }
    forall c, i: nat | c in users && FirstToAdmit(i, c.name, hostname, hostLabels, identity)
      ensures SudoBy(c, identity.hostAccess[i])
    {
      AccountIs(rules, c, identity);
      FirstSudoIs(i, c.name, hostname, labels, hostLabels, identity);
    }
  }

  /** The full name is the name with the domain suffix behind it. */
  predicate NamedWith(fullName: string, name: string, suffix: string) {
    |fullName| == |name| + |suffix| && fullName[..|name|] == name && fullName[|name|..] == suffix
  }

  /** The scalar answers about a host. */
  lemma HostNamesExactly(ip: Ip, hostname: string, labels: Labels, identity: IdentityState, config: MetadataConfig)
    requires HostMetadataOf(ip, hostname, labels, identity, config).Some?
    ensures var m := HostMetadataOf(ip, hostname, labels, identity, config).value;
      && m.instanceId == hostname && m.localHostname == hostname && NamedWith(m.hostname, hostname, config.domainSuffix)
      && m.localIpv4 == ip && m.availabilityZone == config.availabilityZone
  {
    SuffixBehind(hostname, config.domainSuffix);
  }

  lemma SuffixBehind(name: string, suffix: string)
    ensures NamedWith(name + suffix, name, suffix)
  {
  }

  // ----- Containers -----

  /** Whose keys open which accounts of a container: the owner's, for the owner, root, and admin unless the owner is
      root. */
  ghost predicate KeysOwnedBy(entries: seq<PublicKeyEntry>, owner: string, user: User) {
    && (forall n :: HasEntry(entries, n) <==> n == owner || n == "root" || (n == "admin" && owner != "root"))
    && (forall e :: e in entries ==> CarriesKeysOf(e.keys, user))
    && entries != [] && entries[0].sshUser == owner
  }

  /** Who gets a login account in a container: the owner as the identity table has it, and root. */
  ghost predicate UsersOwnedBy(users: seq<CloudConfigUser>, owner: string, identity: IdentityState)
    requires owner in identity.users
  {
    && (forall n :: HasAccount(users, n) <==> n == owner || n == "root")
    && (forall c :: c in users ==>
          c.sudo == Some("ALL=(ALL) NOPASSWD:ALL") && CarriesKeysOf(c.sshAuthorizedKeys, identity.users[owner]))
    && (forall c :: c in users && c.name == owner && owner != "root" ==> AccountOf(c, identity))
    && (forall c :: c in users && c.name == "root" ==> c.uid == "0" && c.groups == [] && c.shell == "/bin/bash")
  }

  lemma AccountListed(owner: string, keys: seq<string>, n: string)
    ensures HasEntry(SameKeysFor(ContainerAccounts(owner), keys), n) <==>
            n == owner || n == "root" || (n == "admin" && owner != "root")
  {
    var names := ContainerAccounts(owner);
    var entries := SameKeysFor(names, keys);
    assert n in names <==> n == owner || n == "root" || (n == "admin" && owner != "root");
    if n in names {
      var i :| 0 <= i < |names| && names[i] == n;
      assert entries[i] in entries && entries[i].sshUser == n;
    }
    if e :| e in entries && e.sshUser == n {
      var i :| 0 <= i < |entries| && entries[i] == e;
      assert names[i] == n;
    }
  }

  lemma OwnerKeys(owner: string, user: User)
    ensures KeysOwnedBy(SameKeysFor(ContainerAccounts(owner), KeysOf(user)), owner, user)
  {
    var entries := SameKeysFor(ContainerAccounts(owner), KeysOf(user));
    forall n
      ensures HasEntry(entries, n) <==> n == owner || n == "root" || (n == "admin" && owner != "root")
    {
      AccountListed(owner, KeysOf(user), n);
    }
    KeysAreHeld(user);
  }

  lemma OwnerAccounts(owner: string, identity: IdentityState)
    requires owner in identity.users
    ensures UsersOwnedBy(ContainerUsers(owner, identity), owner, identity)
  {
    var users := ContainerUsers(owner, identity);
    KeysAreHeld(identity.users[owner]);
    CloudUserIsAccount(owner, identity, true);
    assert users[|users| - 1].name == "root" && users[0].name == owner && users[|users| - 1] in users && users[0] in users;
  }

  /** The answer about a container, and who owns what in it. */
  ghost predicate ContainerRight(m: HostMetadata, ip: Ip, info: ContainerInfo, owner: string, identity: IdentityState,
                                 config: MetadataConfig)
    requires owner in identity.users
  {
    && KeysOwnedBy(m.publicKeys, owner, identity.users[owner]) && UsersOwnedBy(m.cloudUsers, owner, identity)
    && m.instanceId == info.namespace + "/" + info.podName && m.localHostname == info.hostname
    && NamedWith(m.hostname, info.hostname, config.domainSuffix)
    && m.localIpv4 == ip && m.availabilityZone == config.availabilityZone
  }

  predicate HasKeys(user: User) {
    user.sshPublicKeys != []
  }

  /** A container resolves exactly when its owner is enabled and has a key; then the keys are the owner's. */
  lemma ContainerExactly(ip: Ip, info: ContainerInfo, owner: string, identity: IdentityState, config: MetadataConfig)
    ensures ContainerMetadataOf(ip, info, owner, identity, config).Some? <==>
            Enabled(identity, owner) && HasKeys(identity.users[owner])
    ensures ContainerMetadataOf(ip, info, owner, identity, config).Some? ==>
            ContainerRight(ContainerMetadataOf(ip, info, owner, identity, config).value, ip, info, owner, identity, config)
  {
    EnabledIsActive(identity, owner);
    if ContainerMetadataOf(ip, info, owner, identity, config).Some? {
      OwnerKeys(owner, identity.users[owner]);
      OwnerAccounts(owner, identity);
      SuffixBehind(info.hostname, config.domainSuffix);
    }
  }
}
