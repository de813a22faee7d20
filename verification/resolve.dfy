/** Host and container resolution (src/resolve.rs): who may log in where, with which keys. */
module Resolve {
  import opened Text
  import opened Ordering
  import opened Model

  type Labels = Option<map<string, string>>

  // ----- Step 1: matching rules -----

  predicate SelectorMatches(selector: map<string, string>, labels: map<string, string>) {
    forall k :: k in selector ==> k in labels && labels[k] == selector[k]
  }

  predicate Matches(rule: HostAccess, hostname: string, labels: Labels, identity: IdentityState) {
    || hostname in rule.hosts
    || "*" in rule.hosts
    || (exists g :: g in rule.hostGroups && g in identity.hostGroups && hostname in identity.hostGroups[g])
    || (labels.Some? && exists sel :: sel in rule.hostSelectors && SelectorMatches(sel, labels.value))
  }

  function MatchingAmong(rules: seq<HostAccess>, hostname: string, labels: Labels, identity: IdentityState)
    : (r: seq<HostAccess>)
    ensures forall x :: x in r <==> x in rules && Matches(x, hostname, labels, identity)
  {
    if rules == [] then []
    else
      (if Matches(rules[0], hostname, labels, identity) then [rules[0]] else [])
      + MatchingAmong(rules[1..], hostname, labels, identity)
  }

  /** `find_matching_rules`, in the order the rules are walked. */
  function FindMatchingRules(hostname: string, labels: Labels, identity: IdentityState): seq<HostAccess> {
    MatchingAmong(identity.hostAccess, hostname, labels, identity)
  }

  // ----- Step 2: subjects -----

  /** The usernames a list of subjects stands for, groups replaced by their members. */
  function Reach(subjects: seq<Subject>, identity: IdentityState): set<string> {
    (set s | s in subjects && s.kind.UserSubject? :: s.name)
    + (set s, m | s in subjects && s.kind.GroupSubject? && s.name in identity.groups
                  && m in identity.groups[s.name] :: m)
  }

  /** `expand_subjects`: every username once. */
  method ExpandSubjects(subjects: seq<Subject>, identity: IdentityState) returns (usernames: seq<string>)
    ensures NoDuplicates(usernames) && Elems(usernames) == Reach(subjects, identity)
  {
    usernames := [];
    var seen: set<string> := {};
    for i := 0 to |subjects|
      invariant NoDuplicates(usernames) && Elems(usernames) == seen
      invariant seen == Reach(subjects[..i], identity)
    {
      var subject := subjects[i];
      ghost var before := seen;
      assert forall s :: s in subjects[..i + 1] <==> s in subjects[..i] || s == subject;
      match subject.kind {
        case UserSubject =>
          if subject.name !in seen {
            seen := seen + {subject.name};
            usernames := usernames + [subject.name];
          }
          assert seen == before + {subject.name};
        case GroupSubject =>
          if subject.name in identity.groups {
            var members := identity.groups[subject.name];
            for j := 0 to |members|
              invariant NoDuplicates(usernames) && Elems(usernames) == seen
              invariant seen == before + Elems(members[..j])
            {
              ElemsPrefix(members, j);
              if members[j] !in seen {
                seen := seen + {members[j]};
                usernames := usernames + [members[j]];
              }
            }
            assert members[..|members|] == members;
            assert seen == before + Elems(members);
          }
      }
    }
    assert subjects[..|subjects|] == subjects;
  }

  // ----- Step 3: what the matching rules grant, as sets -----

  function ActiveAmong(names: set<string>, identity: IdentityState): set<string> {
    set u | u in names && Active(identity, u)
  }

  /** The enabled, known users a rule reaches. */
  function ActiveReach(rule: HostAccess, identity: IdentityState): set<string> {
    ActiveAmong(Reach(rule.subjects, identity), identity)
  }

  function KeysOfUsers(users: set<string>, identity: IdentityState): set<string> {
    set u, k | u in users && u in identity.users && k in KeysOf(identity.users[u]) :: k
  }

  /** The ssh users granted to at least one active user. */
  function GrantedSshUsers(rules: seq<HostAccess>, identity: IdentityState): set<string> {
    set r, s | r in rules && s in r.sshUsers && ActiveReach(r, identity) != {} :: s
  }

  /** The keys that open the account `sshUser`. */
  function GrantedKeys(rules: seq<HostAccess>, identity: IdentityState, sshUser: string): set<string> {
    set r, k | r in rules && sshUser in r.sshUsers && k in KeysOfUsers(ActiveReach(r, identity), identity) :: k
  }

  function ReachedUsers(rules: seq<HostAccess>, identity: IdentityState): set<string> {
    set r, u | r in rules && u in ActiveReach(r, identity) :: u
  }

  /** Sudo of the first rule visited that reaches the user. */
  function FirstSudo(rules: seq<HostAccess>, identity: IdentityState, user: string): bool {
    if rules == [] then false
    else if user in ActiveReach(rules[0], identity) then rules[0].sudo
    else FirstSudo(rules[1..], identity, user)
  }

  function CloudUser(name: string, identity: IdentityState, sudo: bool): CloudConfigUser
    requires name in identity.users
  {
    var user := identity.users[name];
    CloudConfigUser(name, Print(user.uid, 10), user.groups, user.shell,
                    if sudo then Some(SUDO_ALL) else None, KeysOf(user))
  }

  ghost function PublicKeyOf(rules: seq<HostAccess>, identity: IdentityState, sshUser: string): PublicKeyEntry {
    PublicKeyEntry(sshUser, SortedStrings(GrantedKeys(rules, identity, sshUser)))
  }

  ghost function PublicKeys(rules: seq<HostAccess>, identity: IdentityState): seq<PublicKeyEntry> {
    var names := SortedStrings(GrantedSshUsers(rules, identity));
    seq(|names|, i requires 0 <= i < |names| => PublicKeyOf(rules, identity, names[i]))
  }

  ghost function CloudUsers(rules: seq<HostAccess>, identity: IdentityState): seq<CloudConfigUser> {
    var names := SortedStrings(ReachedUsers(rules, identity));
    seq(|names|, i requires 0 <= i < |names| =>
          assert names[i] in Elems(names);
          CloudUser(names[i], identity, FirstSudo(rules, identity, names[i])))
  }

  /** The answer when the rules are walked in the order `rules`. */
  ghost function ResolvedInOrder(rules: seq<HostAccess>, ip: Ip, hostname: string, labels: Labels,
                                 identity: IdentityState, config: MetadataConfig): Option<HostMetadata>
  {
    var matching := MatchingAmong(rules, hostname, labels, identity);
    if GrantedSshUsers(matching, identity) == {} then None
    else Some(HostMetadata(hostname, hostname + config.domainSuffix, hostname, ip, config.availabilityZone,
                           PublicKeys(matching, identity), CloudUsers(matching, identity)))
  }

  /** What `resolve_host` should answer, stated with sets. */
  ghost function HostMetadataOf(ip: Ip, hostname: string, labels: Labels, identity: IdentityState,
                                config: MetadataConfig): Option<HostMetadata>
  {
    ResolvedInOrder(identity.hostAccess, ip, hostname, labels, identity, config)
  }

  // ----- The accumulating loops -----

  function KeysAt(m: map<string, seq<string>>, sshUser: string): seq<string> {
    if sshUser in m then m[sshUser] else []
  }

  /** `keys` is `keys0` with the set `added` granted to each of the ssh users. */
  ghost predicate Extended(keys0: map<string, seq<string>>, keys: map<string, seq<string>>,
                           sshUsers: seq<string>, added: set<string>, any: bool)
  {
    && keys.Keys == keys0.Keys + (if any then Elems(sshUsers) else {})
    && forall s {:trigger KeysAt(keys, s)} ::
         Elems(KeysAt(keys, s)) == Elems(KeysAt(keys0, s)) + (if s in sshUsers then added else {})
  }

  lemma ExtendedTwice(keys0: map<string, seq<string>>, keys1: map<string, seq<string>>,
                      keys2: map<string, seq<string>>, sshUsers: seq<string>,
                      added1: set<string>, any1: bool, added2: set<string>, any2: bool)
    requires Extended(keys0, keys1, sshUsers, added1, any1) && Extended(keys1, keys2, sshUsers, added2, any2)
    ensures Extended(keys0, keys2, sshUsers, added1 + added2, any1 || any2)
  {
    forall s ensures Elems(KeysAt(keys2, s)) ==
                     Elems(KeysAt(keys0, s)) + (if s in sshUsers then added1 + added2 else {})
    {
      var _ := KeysAt(keys1, s);
    }
  }

  /** The innermost loop: the user's keys are appended to every ssh user of the rule. */
  method ExtendKeys(keysBySshUser: map<string, seq<string>>, sshUsers: seq<string>, userKeys: seq<string>)
    returns (r: map<string, seq<string>>)
    ensures Extended(keysBySshUser, r, sshUsers, Elems(userKeys), true)
  {
    r := keysBySshUser;
    for i := 0 to |sshUsers|
      invariant Extended(keysBySshUser, r, sshUsers[..i], Elems(userKeys), true)
    {
      ElemsPrefix(sshUsers, i);
      var before := KeysAt(r, sshUsers[i]);
      ghost var r0 := r;
      r := r[sshUsers[i] := before + userKeys];
      assert Extended(r0, r, [sshUsers[i]], Elems(userKeys), true) by {
        assert Elems(before + userKeys) == Elems(before) + Elems(userKeys);
      }
      forall s ensures Elems(KeysAt(r, s)) ==
                       Elems(KeysAt(keysBySshUser, s)) + (if s in sshUsers[..i + 1] then Elems(userKeys) else {})
      {
        assert s in sshUsers[..i + 1] <==> s in Elems(sshUsers[..i + 1]);
        assert s in sshUsers[..i] <==> s in Elems(sshUsers[..i]);
        var _ := KeysAt(r0, s);
      }
    }
    assert sshUsers[..|sshUsers|] == sshUsers;
  }

  /** `users` adds to `users0` an entry for each of the users `added`, but keeps the entries it had. */
  ghost predicate Entered(users0: map<string, CloudConfigUser>, users: map<string, CloudConfigUser>,
                          added: set<string>, identity: IdentityState, sudo: bool)
  {
    && added <= identity.users.Keys
    && users.Keys == users0.Keys + added
    && forall u :: u in users ==> users[u] == if u in users0 then users0[u] else CloudUser(u, identity, sudo)
  }

  lemma EnteredTwice(users0: map<string, CloudConfigUser>, users1: map<string, CloudConfigUser>,
                     users2: map<string, CloudConfigUser>, added1: set<string>, added2: set<string>,
                     identity: IdentityState, sudo: bool)
    requires Entered(users0, users1, added1, identity, sudo) && Entered(users1, users2, added2, identity, sudo)
    ensures Entered(users0, users2, added1 + added2, identity, sudo)
  {
  }

  /** The body of the loop over users, for a user that is known and enabled. */
  method GrantUser(rule: HostAccess, username: string, identity: IdentityState,
                   keys0: map<string, seq<string>>, users0: map<string, CloudConfigUser>, seen0: set<string>)
    returns (keys: map<string, seq<string>>, users: map<string, CloudConfigUser>, seen: set<string>)
    requires username in identity.users && seen0 == users0.Keys
    ensures Extended(keys0, keys, rule.sshUsers, KeysOfUsers({username}, identity), true)
    ensures Entered(users0, users, {username}, identity, rule.sudo) && seen == users.Keys
  {
    users, seen := users0, seen0;
    var userKeys := KeysOf(identity.users[username]);
    keys := ExtendKeys(keys0, rule.sshUsers, userKeys);
    assert KeysOfUsers({username}, identity) == Elems(userKeys);
    if username !in seen {
      seen := seen + {username};
      users := users[username := CloudUser(username, identity, rule.sudo)];
    }
  }

  /** The loop over the users one rule expands to. */
  method GrantRule(rule: HostAccess, expanded: seq<string>, identity: IdentityState,
                   keys0: map<string, seq<string>>, users0: map<string, CloudConfigUser>, seen0: set<string>)
    returns (keys: map<string, seq<string>>, users: map<string, CloudConfigUser>, seen: set<string>)
    requires users0.Keys == seen0
    ensures var reached := ActiveAmong(Elems(expanded), identity);
      && Extended(keys0, keys, rule.sshUsers, KeysOfUsers(reached, identity), reached != {})
      && Entered(users0, users, reached, identity, rule.sudo)
      && seen == users.Keys
  {
    keys, users, seen := keys0, users0, seen0;
    ghost var done: set<string> := {};
    for i := 0 to |expanded|
      invariant done == ActiveAmong(Elems(expanded[..i]), identity)
      invariant Extended(keys0, keys, rule.sshUsers, KeysOfUsers(done, identity), done != {})
      invariant Entered(users0, users, done, identity, rule.sudo)
      invariant seen == users.Keys
    {
      var username := expanded[i];
      ElemsPrefix(expanded, i);
      ActiveAmongAdd(Elems(expanded[..i]), username, identity);
      if username !in identity.users {
        continue;
      }
      var user := identity.users[username];
      if user.enabled.Some? && !user.enabled.value {
        continue;
      }
      ghost var keys1, users1 := keys, users;
      keys, users, seen := GrantUser(rule, username, identity, keys, users, seen);
      GrantedTwice(rule, identity, done, username, keys0, keys1, keys, users0, users1, users);
      done := done + {username};
    }
    assert expanded[..|expanded|] == expanded;
  }

  lemma GrantedTwice(rule: HostAccess, identity: IdentityState, done: set<string>, username: string,
                     keys0: map<string, seq<string>>, keys1: map<string, seq<string>>, keys2: map<string, seq<string>>,
                     users0: map<string, CloudConfigUser>, users1: map<string, CloudConfigUser>,
                     users2: map<string, CloudConfigUser>)
    requires Extended(keys0, keys1, rule.sshUsers, KeysOfUsers(done, identity), done != {})
    requires Extended(keys1, keys2, rule.sshUsers, KeysOfUsers({username}, identity), true)
    requires Entered(users0, users1, done, identity, rule.sudo)
    requires Entered(users1, users2, {username}, identity, rule.sudo)
    ensures Extended(keys0, keys2, rule.sshUsers, KeysOfUsers(done + {username}, identity), done + {username} != {})
    ensures Entered(users0, users2, done + {username}, identity, rule.sudo)
  {
    KeysOfUsersUnion(done, {username}, identity);
    ExtendedTwice(keys0, keys1, keys2, rule.sshUsers, KeysOfUsers(done, identity), done != {},
                  KeysOfUsers({username}, identity), true);
    EnteredTwice(users0, users1, users2, done, {username}, identity, rule.sudo);
  }

  lemma ActiveAmongAdd(names: set<string>, u: string, identity: IdentityState)
    ensures ActiveAmong(names + {u}, identity) ==
            ActiveAmong(names, identity) + (if Active(identity, u) then {u} else {})
  {
  }

  lemma KeysOfUsersUnion(a: set<string>, b: set<string>, identity: IdentityState)
    ensures KeysOfUsers(a + b, identity) == KeysOfUsers(a, identity) + KeysOfUsers(b, identity)
  {
  }

  lemma {:induction false} FirstSudoAppend(rules: seq<HostAccess>, r: HostAccess, identity: IdentityState, user: string)
    ensures FirstSudo(rules + [r], identity, user) ==
      if user in ReachedUsers(rules, identity) then FirstSudo(rules, identity, user)
      else if user in ActiveReach(r, identity) then r.sudo else false
  {
    if rules == [] {
      assert (rules + [r])[1..] == [];
    } else {
      FirstSudoAppend(rules[1..], r, identity, user);
      assert (rules + [r])[1..] == rules[1..] + [r];
      assert rules == [rules[0]] + rules[1..];
    }
  }

  /** The two maps hold what the rules grant. */
  ghost predicate Collected(rules: seq<HostAccess>, identity: IdentityState,
                            keys: map<string, seq<string>>, users: map<string, CloudConfigUser>)
  {
    && keys.Keys == GrantedSshUsers(rules, identity)
    && (forall s {:trigger KeysAt(keys, s)} :: Elems(KeysAt(keys, s)) == GrantedKeys(rules, identity, s))
    && users.Keys == ReachedUsers(rules, identity)
    && forall u :: u in users ==>
                     u in identity.users && users[u] == CloudUser(u, identity, FirstSudo(rules, identity, u))
  }

  lemma GrantsAppend(rules: seq<HostAccess>, r: HostAccess, identity: IdentityState)
    ensures GrantedSshUsers(rules + [r], identity) ==
            GrantedSshUsers(rules, identity) + (if ActiveReach(r, identity) != {} then Elems(r.sshUsers) else {})
    ensures ReachedUsers(rules + [r], identity) == ReachedUsers(rules, identity) + ActiveReach(r, identity)
  {
    assert forall x :: x in rules + [r] <==> x in rules || x == r;
  }

  lemma KeysAppend(rules: seq<HostAccess>, r: HostAccess, identity: IdentityState, s: string)
    ensures GrantedKeys(rules + [r], identity, s) ==
            GrantedKeys(rules, identity, s)
            + (if s in r.sshUsers then KeysOfUsers(ActiveReach(r, identity), identity) else {})
  {
    assert forall x :: x in rules + [r] <==> x in rules || x == r;
  }

  lemma CollectedStep(rules: seq<HostAccess>, r: HostAccess, identity: IdentityState,
                      keys0: map<string, seq<string>>, users0: map<string, CloudConfigUser>,
                      keys: map<string, seq<string>>, users: map<string, CloudConfigUser>)
    requires Collected(rules, identity, keys0, users0)
    requires Extended(keys0, keys, r.sshUsers, KeysOfUsers(ActiveReach(r, identity), identity),
                      ActiveReach(r, identity) != {})
    requires Entered(users0, users, ActiveReach(r, identity), identity, r.sudo)
    ensures Collected(rules + [r], identity, keys, users)
  {
    GrantsAppend(rules, r, identity);
    forall s ensures Elems(KeysAt(keys, s)) == GrantedKeys(rules + [r], identity, s) {
      KeysAppend(rules, r, identity, s);
      var _ := KeysAt(keys0, s);
    }
    forall u | u in users
      ensures u in identity.users && users[u] == CloudUser(u, identity, FirstSudo(rules + [r], identity, u))
    {
      FirstSudoAppend(rules, r, identity, u);
    }
  }

  /** The loop over `values_mut` that sorts and dedups each key list. */
  method SortValues(keys: map<string, seq<string>>) returns (sorted: map<string, seq<string>>)
    ensures sorted.Keys == keys.Keys
    ensures forall s :: s in sorted ==> sorted[s] == SortedStrings(Elems(keys[s]))
  {
    sorted := map[];
    var pending := keys.Keys;
    while pending != {}
      invariant pending <= keys.Keys && sorted.Keys == keys.Keys - pending
      invariant forall s :: s in sorted ==> sorted[s] == SortedStrings(Elems(keys[s]))
      decreases pending
    {
      var s :| s in pending;
      SortDedupStrings(keys[s]);
      sorted := sorted[s := Dedup(Sort(keys[s], Le))];
      pending := pending - {s};
    }
  }

  /** Sort and dedup each key list, then list them by ssh user. */
  method PublicKeyEntries(ghost rules: seq<HostAccess>, ghost identity: IdentityState,
                          keys: map<string, seq<string>>, ghost users: map<string, CloudConfigUser>)
    returns (publicKeys: seq<PublicKeyEntry>)
    requires Collected(rules, identity, keys, users)
    ensures publicKeys == PublicKeys(rules, identity)
  {
    var sorted := SortValues(keys);
    publicKeys := ListEntries(sorted);
    ListedAreKeys(rules, identity, keys, users, sorted, publicKeys);
  }

  method ListEntries(sorted: map<string, seq<string>>) returns (publicKeys: seq<PublicKeyEntry>)
    ensures var names := SortedStrings(sorted.Keys);
      |publicKeys| == |names| && forall i :: 0 <= i < |names| ==>
        names[i] in sorted && publicKeys[i] == PublicKeyEntry(names[i], sorted[names[i]])
  {
    var sshUsers := OrderedKeys(sorted.Keys);
    assert forall i :: 0 <= i < |sshUsers| ==> sshUsers[i] in Elems(sshUsers);
    publicKeys := [];
    for i := 0 to |sshUsers|
      invariant |publicKeys| == i
      invariant forall j :: 0 <= j < i ==> publicKeys[j] == PublicKeyEntry(sshUsers[j], sorted[sshUsers[j]])
    {
      publicKeys := publicKeys + [PublicKeyEntry(sshUsers[i], sorted[sshUsers[i]])];
    }
  }

  lemma ListedAreKeys(rules: seq<HostAccess>, identity: IdentityState, keys: map<string, seq<string>>,
                      users: map<string, CloudConfigUser>, sorted: map<string, seq<string>>,
                      publicKeys: seq<PublicKeyEntry>)
    requires Collected(rules, identity, keys, users) && sorted.Keys == keys.Keys
    requires forall s :: s in sorted ==> sorted[s] == SortedStrings(Elems(keys[s]))
    requires var names := SortedStrings(sorted.Keys);
      |publicKeys| == |names| && forall i :: 0 <= i < |names| ==>
        names[i] in sorted && publicKeys[i] == PublicKeyEntry(names[i], sorted[names[i]])
    ensures publicKeys == PublicKeys(rules, identity)
  {
    EntriesAreKeys(rules, identity, keys, users, sorted);
    ListedIs(SortedStrings(sorted.Keys), sorted, publicKeys, PublicKeys(rules, identity),
             s => PublicKeyOf(rules, identity, s));
  }

  lemma EntriesAreKeys(rules: seq<HostAccess>, identity: IdentityState, keys: map<string, seq<string>>,
                       users: map<string, CloudConfigUser>, sorted: map<string, seq<string>>)
    requires Collected(rules, identity, keys, users) && sorted.Keys == keys.Keys
    requires forall s :: s in sorted ==> sorted[s] == SortedStrings(Elems(keys[s]))
    ensures forall s :: s in sorted ==> PublicKeyEntry(s, sorted[s]) == PublicKeyOf(rules, identity, s)
  {
    forall s | s in sorted ensures PublicKeyEntry(s, sorted[s]) == PublicKeyOf(rules, identity, s) {
      assert Elems(KeysAt(keys, s)) == GrantedKeys(rules, identity, s);
      ListedIsKey(rules, identity, keys, s, sorted[s]);
    }
  }

  lemma ListedIs(names: seq<string>, sorted: map<string, seq<string>>, listed: seq<PublicKeyEntry>,
                 expected: seq<PublicKeyEntry>, entry: string -> PublicKeyEntry)
    requires forall s :: s in sorted ==> PublicKeyEntry(s, sorted[s]) == entry(s)
    requires |listed| == |expected| == |names|
    requires forall i :: 0 <= i < |names| ==>
               names[i] in sorted && listed[i] == PublicKeyEntry(names[i], sorted[names[i]])
    requires forall i :: 0 <= i < |names| ==> expected[i] == entry(names[i])
    ensures listed == expected
  {
  }

  lemma ListedIsKey(rules: seq<HostAccess>, identity: IdentityState, keys: map<string, seq<string>>, s: string,
                    listed: seq<string>)
    requires s in keys && listed == SortedStrings(Elems(keys[s]))
    requires Elems(KeysAt(keys, s)) == GrantedKeys(rules, identity, s)
    ensures PublicKeyEntry(s, listed) == PublicKeyOf(rules, identity, s)
  {
  }

  method ListUsers(users: map<string, CloudConfigUser>) returns (cloudUsers: seq<CloudConfigUser>)
    ensures var names := SortedStrings(users.Keys);
      |cloudUsers| == |names| && forall i :: 0 <= i < |names| ==>
        names[i] in users && cloudUsers[i] == users[names[i]]
  {
    var names := OrderedKeys(users.Keys);
    assert forall i :: 0 <= i < |names| ==> names[i] in Elems(names);
    cloudUsers := [];
    for i := 0 to |names|
      invariant |cloudUsers| == i
      invariant forall j :: 0 <= j < i ==> cloudUsers[j] == users[names[j]]
    {
      cloudUsers := cloudUsers + [users[names[i]]];
    }
  }

  /** The account entries, listed by name. */
  method CloudUserEntries(ghost rules: seq<HostAccess>, ghost identity: IdentityState,
                          ghost keys: map<string, seq<string>>, users: map<string, CloudConfigUser>)
    returns (cloudUsers: seq<CloudConfigUser>)
    requires Collected(rules, identity, keys, users)
    ensures cloudUsers == CloudUsers(rules, identity)
  {
    cloudUsers := ListUsers(users);
    var names := SortedStrings(users.Keys);
    forall i | 0 <= i < |names|
      ensures names[i] in identity.users
              && cloudUsers[i] == CloudUser(names[i], identity, FirstSudo(rules, identity, names[i]))
    {
      assert names[i] in users;
    }
  }

  /** `resolve_host`: the nested loops compute the set description. */
  method ResolveHost(ip: Ip, hostname: string, labels: Labels, identity: IdentityState, config: MetadataConfig)
    returns (r: Option<HostMetadata>)
    ensures r == HostMetadataOf(ip, hostname, labels, identity, config)
  {
    var matchingRules := FindMatchingRules(hostname, labels, identity);
    if matchingRules == [] {
      return None;
    }
    var keysBySshUser: map<string, seq<string>> := map[];
    var cloudConfigUsers: map<string, CloudConfigUser> := map[];
    var seen: set<string> := {};
    for i := 0 to |matchingRules|
      invariant Collected(matchingRules[..i], identity, keysBySshUser, cloudConfigUsers)
      invariant seen == cloudConfigUsers.Keys
    {
      var rule := matchingRules[i];
      ghost var keys0, users0 := keysBySshUser, cloudConfigUsers;
      var expanded := ExpandSubjects(rule.subjects, identity);
      keysBySshUser, cloudConfigUsers, seen :=
        GrantRule(rule, expanded, identity, keysBySshUser, cloudConfigUsers, seen);
      assert matchingRules[..i + 1] == matchingRules[..i] + [rule];
      CollectedStep(matchingRules[..i], rule, identity, keys0, users0, keysBySshUser, cloudConfigUsers);
    }
    assert matchingRules[..|matchingRules|] == matchingRules;
    if keysBySshUser == map[] {
      return None;
    }
    assert keysBySshUser.Keys != {};
    var publicKeys := PublicKeyEntries(matchingRules, identity, keysBySshUser, cloudConfigUsers);
    var cloudUsers := CloudUserEntries(matchingRules, identity, keysBySshUser, cloudConfigUsers);
    r := Some(HostMetadata(hostname, hostname + config.domainSuffix, hostname, ip, config.availabilityZone,
                           publicKeys, cloudUsers));
  }

  // ----- Who gets in, exactly -----

  /** Some rule for the host maps an active user, who holds the key, to the ssh user. */
  ghost predicate Grants(rule: HostAccess, user: string, sshUser: string, key: string,
                         hostname: string, labels: Labels, identity: IdentityState)
  {
    && rule in identity.hostAccess && Matches(rule, hostname, labels, identity)
    && sshUser in rule.sshUsers
    && user in Reach(rule.subjects, identity) && Active(identity, user)
    && key in KeysOf(identity.users[user])
  }

  /** A host resolves exactly when a matching rule with an ssh user reaches an active user. */
  lemma ResolvesExactly(ip: Ip, hostname: string, labels: Labels, identity: IdentityState, config: MetadataConfig)
    ensures HostMetadataOf(ip, hostname, labels, identity, config).Some? <==>
            exists r, u :: r in identity.hostAccess && Matches(r, hostname, labels, identity) && r.sshUsers != []
                           && u in Reach(r.subjects, identity) && Active(identity, u)
  {
    var matching := FindMatchingRules(hostname, labels, identity);
    var granted := GrantedSshUsers(matching, identity);
    if granted != {} {
      var s :| s in granted;
      var r :| r in matching && s in r.sshUsers && ActiveReach(r, identity) != {};
      var u :| u in ActiveReach(r, identity);
    }
    if r, u :| r in identity.hostAccess && Matches(r, hostname, labels, identity) && r.sshUsers != []
               && u in Reach(r.subjects, identity) && Active(identity, u)
    {
      assert u in ActiveReach(r, identity);
      assert r in matching && r.sshUsers[0] in r.sshUsers;
      assert r.sshUsers[0] in granted;
    }
  }

  lemma KeyListed(rules: seq<HostAccess>, identity: IdentityState, sshUser: string, key: string)
    ensures (exists e :: e in PublicKeys(rules, identity) && e.sshUser == sshUser && key in e.keys)
            <==> key in GrantedKeys(rules, identity, sshUser)
  {
    var names := SortedStrings(GrantedSshUsers(rules, identity));
    var entries := PublicKeys(rules, identity);
    if e :| e in entries && e.sshUser == sshUser && key in e.keys {
      assert e == PublicKeyOf(rules, identity, sshUser);
      assert key in Elems(e.keys);
    }
    if key in GrantedKeys(rules, identity, sshUser) {
      assert sshUser in GrantedSshUsers(rules, identity);
      assert sshUser in Elems(names);
      var i :| 0 <= i < |names| && names[i] == sshUser;
      assert entries[i] == PublicKeyOf(rules, identity, sshUser);
      assert entries[i] in entries;
      assert key in Elems(entries[i].keys);
    }
  }

  lemma KeyGranted(hostname: string, labels: Labels, identity: IdentityState, sshUser: string, key: string)
    ensures key in GrantedKeys(FindMatchingRules(hostname, labels, identity), identity, sshUser)
            <==> exists r, u :: Grants(r, u, sshUser, key, hostname, labels, identity)
  {
    var matching := FindMatchingRules(hostname, labels, identity);
    if key in GrantedKeys(matching, identity, sshUser) {
      var r :| r in matching && sshUser in r.sshUsers && key in KeysOfUsers(ActiveReach(r, identity), identity);
      var u :| u in ActiveReach(r, identity) && u in identity.users && key in KeysOf(identity.users[u]);
      assert Grants(r, u, sshUser, key, hostname, labels, identity);
    }
    if r, u :| Grants(r, u, sshUser, key, hostname, labels, identity) {
      assert u in ActiveReach(r, identity);
      assert key in KeysOfUsers(ActiveReach(r, identity), identity);
      assert r in matching;
    }
  }

  /** The accounts come in strict order, and so do the keys of each. */
  predicate OrderedKeyList(entries: seq<PublicKeyEntry>) {
    && (forall i :: 0 <= i < |entries| ==> StrictlySorted(entries[i].keys, Le))
    && (forall i, j :: 0 <= i < j < |entries| ==> Lt(entries[i].sshUser, entries[j].sshUser))
  }

  predicate OrderedUserList(users: seq<CloudConfigUser>) {
    forall i, j :: 0 <= i < j < |users| ==> Lt(users[i].name, users[j].name)
  }

  lemma ListsOrdered(rules: seq<HostAccess>, identity: IdentityState)
    ensures OrderedKeyList(PublicKeys(rules, identity))
    ensures OrderedUserList(CloudUsers(rules, identity))
  {
    var entries := PublicKeys(rules, identity);
    forall i | 0 <= i < |entries| ensures StrictlySorted(entries[i].keys, Le) {
      assert entries[i] == PublicKeyOf(rules, identity, entries[i].sshUser);
    }
  }

  /** A key opens an account exactly when it is granted, and every listing is in strict order. */
  lemma KeysExactly(ip: Ip, hostname: string, labels: Labels, identity: IdentityState, config: MetadataConfig,
                    sshUser: string, key: string)
    requires HostMetadataOf(ip, hostname, labels, identity, config).Some?
    ensures var m := HostMetadataOf(ip, hostname, labels, identity, config).value;
      && ((exists e :: e in m.publicKeys && e.sshUser == sshUser && key in e.keys)
          <==> exists r, u :: Grants(r, u, sshUser, key, hostname, labels, identity))
      && OrderedKeyList(m.publicKeys) && OrderedUserList(m.cloudUsers)
  {
    var matching := FindMatchingRules(hostname, labels, identity);
    KeyListed(matching, identity, sshUser, key);
    KeyGranted(hostname, labels, identity, sshUser, key);
    ListsOrdered(matching, identity);
    var m := HostMetadataOf(ip, hostname, labels, identity, config).value;
    assert m.publicKeys == PublicKeys(matching, identity) && m.cloudUsers == CloudUsers(matching, identity);
  }

  // ----- The order of the walk -----

  function StripSudo(users: seq<CloudConfigUser>): seq<CloudConfigUser> {
    seq(|users|, i requires 0 <= i < |users| => users[i].(sudo := None))
  }

  function WithoutSudo(meta: HostMetadata): HostMetadata {
    meta.(cloudUsers := StripSudo(meta.cloudUsers))
  }

  lemma SameElems<T>(a: seq<T>, b: seq<T>)
    requires multiset(a) == multiset(b)
    ensures forall x :: x in a <==> x in b
  {
    assert forall x :: x in a <==> x in multiset(a);
    assert forall x :: x in b <==> x in multiset(b);
  }

  /** Equal members grant the same. */
  lemma SameGrants(m1: seq<HostAccess>, m2: seq<HostAccess>, identity: IdentityState)
    requires forall x :: x in m1 <==> x in m2
    ensures GrantedSshUsers(m1, identity) == GrantedSshUsers(m2, identity)
    ensures ReachedUsers(m1, identity) == ReachedUsers(m2, identity)
    ensures PublicKeys(m1, identity) == PublicKeys(m2, identity)
    ensures StripSudo(CloudUsers(m1, identity)) == StripSudo(CloudUsers(m2, identity))
  {
    assert GrantedSshUsers(m1, identity) == GrantedSshUsers(m2, identity);
    assert ReachedUsers(m1, identity) == ReachedUsers(m2, identity);
    forall s ensures PublicKeyOf(m1, identity, s) == PublicKeyOf(m2, identity, s) {
      assert GrantedKeys(m1, identity, s) == GrantedKeys(m2, identity, s);
    }
  }

  /** Walking the rules in another order can change nothing but `sudo`. */
  lemma OrderAffectsOnlySudo(rules1: seq<HostAccess>, rules2: seq<HostAccess>, ip: Ip, hostname: string,
                             labels: Labels, identity: IdentityState, config: MetadataConfig)
    requires multiset(rules1) == multiset(rules2)
    ensures var a, b := ResolvedInOrder(rules1, ip, hostname, labels, identity, config),
                        ResolvedInOrder(rules2, ip, hostname, labels, identity, config);
      && a.Some? == b.Some?
      && (a.Some? ==> WithoutSudo(a.value) == WithoutSudo(b.value))
  {
    SameElems(rules1, rules2);
    SameGrants(MatchingAmong(rules1, hostname, labels, identity), MatchingAmong(rules2, hostname, labels, identity),
               identity);
  }

  /** All the rules among these that reach one active user agree on sudo. */
  ghost predicate SudoAgrees(matching: seq<HostAccess>, identity: IdentityState) {
    forall r1, r2, u :: r1 in matching && r2 in matching && u in ActiveReach(r1, identity) && u in ActiveReach(r2, identity)
                        ==> r1.sudo == r2.sudo
  }

  lemma {:induction false} FirstSudoWitness(rules: seq<HostAccess>, identity: IdentityState, u: string)
    requires u in ReachedUsers(rules, identity)
    ensures exists r :: r in rules && u in ActiveReach(r, identity) && FirstSudo(rules, identity, u) == r.sudo
  {
    if u in ActiveReach(rules[0], identity) {
      assert rules[0] in rules;
    } else {
      assert rules == [rules[0]] + rules[1..];
      FirstSudoWitness(rules[1..], identity, u);
      var r :| r in rules[1..] && u in ActiveReach(r, identity) && FirstSudo(rules[1..], identity, u) == r.sudo;
      assert r in rules;
    }
  }

  ghost predicate OrderIrrelevant(rules: seq<HostAccess>, ip: Ip, hostname: string, labels: Labels,
                                  identity: IdentityState, config: MetadataConfig)
  {
    forall other :: multiset(other) == multiset(rules) ==>
                      ResolvedInOrder(other, ip, hostname, labels, identity, config) ==
                      ResolvedInOrder(rules, ip, hostname, labels, identity, config)
  }

  /** The answer is the same for every order of the rules exactly when no user is reached
      by two matching rules that differ on sudo (or the host does not resolve at all). */
  lemma OrderIrrelevantExactly(rules: seq<HostAccess>, ip: Ip, hostname: string, labels: Labels,
                               identity: IdentityState, config: MetadataConfig)
    ensures OrderIrrelevant(rules, ip, hostname, labels, identity, config) <==>
            || ResolvedInOrder(rules, ip, hostname, labels, identity, config).None?
            || SudoAgrees(MatchingAmong(rules, hostname, labels, identity), identity)
  {
    if ResolvedInOrder(rules, ip, hostname, labels, identity, config).None? {
      forall other | multiset(other) == multiset(rules)
        ensures ResolvedInOrder(other, ip, hostname, labels, identity, config) ==
                ResolvedInOrder(rules, ip, hostname, labels, identity, config)
      {
        OrderAffectsOnlySudo(other, rules, ip, hostname, labels, identity, config);
      }
    } else if SudoAgrees(MatchingAmong(rules, hostname, labels, identity), identity) {
      forall other | multiset(other) == multiset(rules)
        ensures ResolvedInOrder(other, ip, hostname, labels, identity, config) ==
                ResolvedInOrder(rules, ip, hostname, labels, identity, config)
      {
        SameElems(rules, other);
        AgreementSuffices(MatchingAmong(rules, hostname, labels, identity),
                          MatchingAmong(other, hostname, labels, identity), identity);
      }
    } else {
      DisagreementShows(rules, ip, hostname, labels, identity, config);
    }
  }

  lemma AgreementSuffices(m1: seq<HostAccess>, m2: seq<HostAccess>, identity: IdentityState)
    requires (forall x :: x in m1 <==> x in m2) && SudoAgrees(m1, identity)
    ensures GrantedSshUsers(m1, identity) == GrantedSshUsers(m2, identity)
    ensures PublicKeys(m1, identity) == PublicKeys(m2, identity)
    ensures CloudUsers(m1, identity) == CloudUsers(m2, identity)
  {
    SameGrants(m1, m2, identity);
    forall u | u in ReachedUsers(m1, identity)
      ensures FirstSudo(m1, identity, u) == FirstSudo(m2, identity, u)
    {
      FirstSudoWitness(m1, identity, u);
      FirstSudoWitness(m2, identity, u);
    }
    SameSudoSameUsers(m1, m2, identity);
  }

  lemma SameSudoSameUsers(m1: seq<HostAccess>, m2: seq<HostAccess>, identity: IdentityState)
    requires ReachedUsers(m1, identity) == ReachedUsers(m2, identity)
    requires forall u :: u in ReachedUsers(m1, identity) ==> FirstSudo(m1, identity, u) == FirstSudo(m2, identity, u)
    ensures CloudUsers(m1, identity) == CloudUsers(m2, identity)
  {
    var names := SortedStrings(ReachedUsers(m1, identity));
    var users1, users2 := CloudUsers(m1, identity), CloudUsers(m2, identity);
    forall i | 0 <= i < |names| ensures users1[i] == users2[i] {
      assert names[i] in Elems(names);
    }
  }

  lemma DisagreementShows(rules: seq<HostAccess>, ip: Ip, hostname: string, labels: Labels,
                          identity: IdentityState, config: MetadataConfig)
    requires ResolvedInOrder(rules, ip, hostname, labels, identity, config).Some?
    requires !SudoAgrees(MatchingAmong(rules, hostname, labels, identity), identity)
    ensures !OrderIrrelevant(rules, ip, hostname, labels, identity, config)
  {
    var matching := MatchingAmong(rules, hostname, labels, identity);
    var r1, r2, u :| r1 in matching && r2 in matching && u in ActiveReach(r1, identity) && u in ActiveReach(r2, identity)
                     && r1.sudo != r2.sudo;
    var other1 := StartWith(r1, rules);
    var other2 := StartWith(r2, rules);
    FirstDecides(other1, u, hostname, labels, identity);
    FirstDecides(other2, u, hostname, labels, identity);
    OrderAffectsOnlySudo(other1, rules, ip, hostname, labels, identity, config);
    OrderAffectsOnlySudo(other2, rules, ip, hostname, labels, identity, config);
  }

  /** The walk can start with any rule. */
  lemma StartWith(r: HostAccess, rules: seq<HostAccess>) returns (other: seq<HostAccess>)
    requires r in rules
    ensures multiset(other) == multiset(rules) && other != [] && other[0] == r
  {
    var k :| 0 <= k < |rules| && rules[k] == r;
    other := [r] + (rules[..k] + rules[k + 1..]);
    assert rules == rules[..k] + [r] + rules[k + 1..];
  }

  function SudoIn(users: seq<CloudConfigUser>, name: string): Option<string> {
    if users == [] then None
    else if users[0].name == name then users[0].sudo
    else SudoIn(users[1..], name)
  }

  lemma {:induction false} SudoInAt(users: seq<CloudConfigUser>, name: string, i: nat)
    requires i < |users| && users[i].name == name
    requires forall j :: 0 <= j < i ==> users[j].name != name
    ensures SudoIn(users, name) == users[i].sudo
  {
    if i > 0 { SudoInAt(users[1..], name, i - 1); }
  }

  /** The sudo of the rule visited first decides for the users it reaches. */
  lemma FirstDecides(rules: seq<HostAccess>, u: string, hostname: string, labels: Labels, identity: IdentityState)
    requires rules != [] && Matches(rules[0], hostname, labels, identity) && u in ActiveReach(rules[0], identity)
    ensures SudoIn(CloudUsers(MatchingAmong(rules, hostname, labels, identity), identity), u).Some? <==> rules[0].sudo
  {
    var matching := MatchingAmong(rules, hostname, labels, identity);
    assert matching[0] == rules[0];
    assert u in ReachedUsers(matching, identity);
    var names := SortedStrings(ReachedUsers(matching, identity));
    assert u in Elems(names);
    var i :| 0 <= i < |names| && names[i] == u;
    SudoInAt(CloudUsers(matching, identity), u, i);
  }

  // ----- Containers -----

  /** The accounts a namespace owner may use, the owner's own first. */
  function ContainerAccounts(owner: string): (names: seq<string>)
    ensures names != [] && names[|names| - 1] == "root" && names[0] == owner && NoDuplicates(names)
  {
    (if owner != "root" then [owner] else [])
    + (if owner != "admin" && owner != "root" then ["admin"] else [])
    + ["root"]
  }

  function SameKeysFor(names: seq<string>, keys: seq<string>): seq<PublicKeyEntry> {
    seq(|names|, i requires 0 <= i < |names| => PublicKeyEntry(names[i], keys))
  }

  function ContainerUsers(owner: string, identity: IdentityState): seq<CloudConfigUser>
    requires owner in identity.users
  {
    var root := CloudConfigUser("root", "0", [], "/bin/bash", Some(SUDO_ALL), KeysOf(identity.users[owner]));
    if owner == "root" then [root] else [CloudUser(owner, identity, true), root]
  }

  /** What `resolve_container` should answer. */
  function ContainerMetadataOf(ip: Ip, info: ContainerInfo, owner: string, identity: IdentityState,
                               config: MetadataConfig): Option<HostMetadata>
  {
    if !Active(identity, owner) || KeysOf(identity.users[owner]) == [] then None
    else
      var keys := KeysOf(identity.users[owner]);
      var names := ContainerAccounts(owner);
      Some(HostMetadata(info.namespace + "/" + info.podName, info.hostname + config.domainSuffix, info.hostname, ip,
                        config.availabilityZone, SameKeysFor(names, keys),
                        ContainerUsers(owner, identity)))
  }

  /** `resolve_container`. */
  method ResolveContainer(ip: Ip, info: ContainerInfo, owner: string, identity: IdentityState, config: MetadataConfig)
    returns (r: Option<HostMetadata>)
    ensures r == ContainerMetadataOf(ip, info, owner, identity, config)
  {
    if owner !in identity.users {
      return None;
    }
    var user := identity.users[owner];
    if user.enabled.Some? && !user.enabled.value {
      return None;
    }
    var userKeys := KeysOf(user);
    if userKeys == [] {
      return None;
    }
    var publicKeys := [];
    if owner != "root" {
      publicKeys := publicKeys + [PublicKeyEntry(owner, userKeys)];
    }
    if owner != "admin" && owner != "root" {
      publicKeys := publicKeys + [PublicKeyEntry("admin", userKeys)];
    }
    publicKeys := publicKeys + [PublicKeyEntry("root", userKeys)];
    assert publicKeys == SameKeysFor(ContainerAccounts(owner), userKeys);
    var users := [];
    if owner != "root" {
      users := users + [CloudUser(owner, identity, true)];
    }
    users := users + [CloudConfigUser("root", "0", [], "/bin/bash", Some(SUDO_ALL), userKeys)];
    assert |users| == if owner == "root" then 1 else 2;
    assert users == ContainerUsers(owner, identity);
    r := Some(HostMetadata(info.namespace + "/" + info.podName, info.hostname + config.domainSuffix, info.hostname, ip,
                           config.availabilityZone, publicKeys, users));
  }
}
