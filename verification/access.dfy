/** Who may get in where, in the words of the tables alone. */
module Access {
  import opened Text
  import opened Model

  /** The account is known, and not marked as disabled. */
  predicate Enabled(identity: IdentityState, name: string) {
    name in identity.users && identity.users[name].enabled != Some(false)
  }

  predicate HoldsKey(user: User, key: string) {
    exists p :: p in user.sshPublicKeys && p.key == key
  }

  /** The rule names the user, or a known group with the user as a member. */
  predicate Names(rule: HostAccess, user: string, identity: IdentityState) {
    exists s :: s in rule.subjects && match s.kind
      case UserSubject => s.name == user
      case GroupSubject => s.name in identity.groups && user in identity.groups[s.name]
  }

  /** The rule names the host, all hosts, a known host group with the host in it, or labels that the host has. */
  predicate Targets(rule: HostAccess, hostname: string, hostLabels: map<string, map<string, string>>,
                    identity: IdentityState)
  {
    || hostname in rule.hosts
    || "*" in rule.hosts
    || (exists g :: g in rule.hostGroups && g in identity.hostGroups && hostname in identity.hostGroups[g])
    || (exists sel :: sel in rule.hostSelectors && hostname in hostLabels
                      && forall k :: k in sel ==> k in hostLabels[hostname] && hostLabels[hostname][k] == sel[k])
  }

  /** The rule lets the enabled user into the host. */
  predicate Admits(rule: HostAccess, user: string, hostname: string, hostLabels: map<string, map<string, string>>,
                   identity: IdentityState)
  {
    && rule in identity.hostAccess && Targets(rule, hostname, hostLabels, identity)
    && Names(rule, user, identity) && Enabled(identity, user)
  }

  ghost predicate Admitted(user: string, hostname: string, hostLabels: map<string, map<string, string>>,
                           identity: IdentityState)
  {
    exists rule :: Admits(rule, user, hostname, hostLabels, identity)
  }

  /** Some rule lets someone into an account of the host. */
  ghost predicate LetsSomeoneIn(hostname: string, hostLabels: map<string, map<string, string>>, identity: IdentityState) {
    exists rule, user :: Admits(rule, user, hostname, hostLabels, identity) && rule.sshUsers != []
  }

  /** Some rule for the account lets a holder of the key in. */
  ghost predicate KeyAdmitted(sshUser: string, key: string, hostname: string,
                              hostLabels: map<string, map<string, string>>, identity: IdentityState)
  {
    exists rule, user :: Admits(rule, user, hostname, hostLabels, identity) && sshUser in rule.sshUsers
                         && HoldsKey(identity.users[user], key)
  }

  predicate HasEntry(entries: seq<PublicKeyEntry>, sshUser: string) {
    exists e :: e in entries && e.sshUser == sshUser
  }

  predicate OpensAccount(entries: seq<PublicKeyEntry>, sshUser: string, key: string) {
    exists e :: e in entries && e.sshUser == sshUser && key in e.keys
  }

  predicate HasAccount(users: seq<CloudConfigUser>, name: string) {
    exists c :: c in users && c.name == name
  }

  /** The entry's keys are those of the user, in order. */
  predicate CarriesKeysOf(keys: seq<string>, user: User) {
    |keys| == |user.sshPublicKeys| && forall i :: 0 <= i < |keys| ==> keys[i] == user.sshPublicKeys[i].key
  }

  /** The login account of a user as the identity table has it; `sudo` is looked at elsewhere. */
  predicate AccountOf(c: CloudConfigUser, identity: IdentityState) {
    c.name in identity.users
    && var user := identity.users[c.name];
    && ParseUnsigned(c.uid, 0x1_0000_0000) == Some(user.uid)
    && c.groups == user.groups && c.shell == user.shell
    && CarriesKeysOf(c.sshAuthorizedKeys, user)
  }
}
