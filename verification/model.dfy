/** The entities of the identity pipeline (src/model.rs, src/cache.rs). */
module Model {
  import opened Text

  /** An IP address, as the number it stands for. */
  type Ip = nat

  type U32 = n: nat | n < 0x1_0000_0000

  datatype SshPublicKey = SshPublicKey(name: string, key: string)

  /** An AMO user; `enabled` is the optional `status` of the resource. */
  datatype User = User(uid: U32, shell: string, sshPublicKeys: seq<SshPublicKey>,
                       groups: seq<string>, enabled: Option<bool>)

  datatype SubjectKind = UserSubject | GroupSubject
  datatype Subject = Subject(kind: SubjectKind, name: string)

  datatype HostAccess = HostAccess(subjects: seq<Subject>, hosts: seq<string>, hostGroups: seq<string>,
                                   hostSelectors: seq<map<string, string>>,
                                   sshUsers: seq<string>, sudo: bool)

  /** `hostAccess` lists the values of the hash map in the order in which it happens to be walked;
      groups and host groups are reduced to their members. */
  datatype IdentityState = IdentityState(users: map<string, User>, groups: map<string, seq<string>>,
                                         hostAccess: seq<HostAccess>, hostGroups: map<string, seq<string>>)

  datatype ContainerInfo = ContainerInfo(namespace: string, podName: string, containerName: string,
                                         hostname: string)
  datatype ContainerState = ContainerState(ipToContainer: map<Ip, ContainerInfo>,
                                           namespaceOwners: map<string, string>)

  /** The part of the BMH state that resolution reads. */
  datatype HostTable = HostTable(ipToHostname: map<Ip, string>,
                                 hostLabels: map<string, map<string, string>>)

  datatype MetadataConfig = MetadataConfig(domainSuffix: string, availabilityZone: string)

  datatype PublicKeyEntry = PublicKeyEntry(sshUser: string, keys: seq<string>)

  datatype CloudConfigUser = CloudConfigUser(name: string, uid: string, groups: seq<string>, shell: string,
                                             sudo: Option<string>, sshAuthorizedKeys: seq<string>)

  /** Precomputed metadata. `user_data` is left out: it is a print of `cloudUsers`. */
  datatype HostMetadata = HostMetadata(instanceId: string, hostname: string, localHostname: string,
                                       localIpv4: Ip, availabilityZone: string,
                                       publicKeys: seq<PublicKeyEntry>, cloudUsers: seq<CloudConfigUser>)

  const SUDO_ALL: string := "ALL=(ALL) NOPASSWD:ALL"

  function KeysOf(user: User): seq<string> {
    seq(|user.sshPublicKeys|, i requires 0 <= i < |user.sshPublicKeys| => user.sshPublicKeys[i].key)
  }

  predicate Active(identity: IdentityState, name: string) {
    name in identity.users && (identity.users[name].enabled.Some? ==> identity.users[name].enabled.value)
  }
}
