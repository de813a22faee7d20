/** What a right cache holds, in the words of the three tables. */
module CacheLaws {
  import opened Text
  import opened Model
  import opened Access
  import opened Resolve
  import opened ResolveLaws
  import opened Cache
  import RebuildProtocol

  /** The address is a container's, in a namespace whose owner is enabled and has a key. */
  ghost predicate OwnedContainer(src: Sources, ip: Ip) {
    && ip in src.containers.ipToContainer
    && src.containers.ipToContainer[ip].namespace in src.containers.namespaceOwners
    && var owner := src.containers.namespaceOwners[src.containers.ipToContainer[ip].namespace];
    && Enabled(src.identity, owner) && HasKeys(src.identity.users[owner])
  }

  /** The address is a host's, and a rule with an ssh user lets someone into that host. */
  ghost predicate AdmittingHost(src: Sources, ip: Ip) {
    && ip in src.bmh.ipToHostname
    && LetsSomeoneIn(src.bmh.ipToHostname[ip], src.bmh.hostLabels, src.identity)
  }

  /** A container's entry: the keys are those of the namespace's owner. */
  ghost predicate ContainerEntry(m: HostMetadata, src: Sources, config: MetadataConfig, ip: Ip)
    requires OwnedContainer(src, ip)
  {
    var info := src.containers.ipToContainer[ip];
    ContainerRight(m, ip, info, src.containers.namespaceOwners[info.namespace], src.identity, config)
  }

  /** A host's entry: a key opens an account exactly when a rule for that account admits a holder of the key, and the
      login accounts are those of the users admitted. */
  ghost predicate HostEntry(m: HostMetadata, src: Sources, config: MetadataConfig, ip: Ip)
    requires ip in src.bmh.ipToHostname
  {
    var hostname := src.bmh.ipToHostname[ip];
    && (forall sshUser, key ::
          OpensAccount(m.publicKeys, sshUser, key) <==>
          KeyAdmitted(sshUser, key, hostname, src.bmh.hostLabels, src.identity))
    && AccountsRight(m.cloudUsers, hostname, src.bmh.hostLabels, src.identity)
    && m.instanceId == hostname && m.localHostname == hostname && NamedWith(m.hostname, hostname, config.domainSuffix)
    && m.localIpv4 == ip && m.availabilityZone == config.availabilityZone
  }

  lemma ContainerResultIs(src: Sources, config: MetadataConfig, ip: Ip)
    ensures ContainerResult(src, config, ip).Some? <==> OwnedContainer(src, ip)
    ensures OwnedContainer(src, ip) ==> ContainerEntry(ContainerResult(src, config, ip).value, src, config, ip)
  {
    if ip in src.containers.ipToContainer {
      var info := src.containers.ipToContainer[ip];
      if info.namespace in src.containers.namespaceOwners {
        ContainerExactly(ip, info, src.containers.namespaceOwners[info.namespace], src.identity, config);
      }
    }
  }

  lemma HostResultIs(src: Sources, config: MetadataConfig, ip: Ip)
    ensures HostResult(src, config, ip).Some? <==> AdmittingHost(src, ip)
    ensures AdmittingHost(src, ip) ==> HostEntry(HostResult(src, config, ip).value, src, config, ip)
  {
    if ip in src.bmh.ipToHostname {
      var hostname := src.bmh.ipToHostname[ip];
      var labels := LabelsOf(src.bmh, hostname);
      HostResolvesExactly(ip, hostname, labels, src.bmh.hostLabels, src.identity, config);
      if AdmittingHost(src, ip) {
        HostEntryIs(src, config, ip);
      }
    }
  }

  lemma HostEntryIs(src: Sources, config: MetadataConfig, ip: Ip)
    requires HostResult(src, config, ip).Some?
    ensures HostEntry(HostResult(src, config, ip).value, src, config, ip)
  {
    var hostname := src.bmh.ipToHostname[ip];
    var labels := LabelsOf(src.bmh, hostname);
    var m := HostResult(src, config, ip).value;
    forall sshUser, key
      ensures OpensAccount(m.publicKeys, sshUser, key) <==>
              KeyAdmitted(sshUser, key, hostname, src.bmh.hostLabels, src.identity)
    {
      HostKeysExactly(ip, hostname, labels, src.bmh.hostLabels, src.identity, config, sshUser, key);
    }
    HostAccountsExactly(ip, hostname, labels, src.bmh.hostLabels, src.identity, config);
    HostNamesExactly(ip, hostname, labels, src.identity, config);
  }

  /** The cache is what the tables say: which addresses have an entry, and what it carries. A container's entry comes
      before a host's. */
  ghost predicate Serves(cache: map<Ip, HostMetadata>, src: Sources, config: MetadataConfig) {
    forall ip ::
      && (ip in cache <==> OwnedContainer(src, ip) || AdmittingHost(src, ip))
      && (OwnedContainer(src, ip) ==> ContainerEntry(cache[ip], src, config, ip))
      && (!OwnedContainer(src, ip) && AdmittingHost(src, ip) ==> HostEntry(cache[ip], src, config, ip))
  }

  lemma FreshServes(cache: map<Ip, HostMetadata>, src: Sources, config: MetadataConfig)
    requires Fresh(cache, src, config)
    ensures Serves(cache, src, config)
  {
    forall ip
      ensures ip in cache <==> OwnedContainer(src, ip) || AdmittingHost(src, ip)
      ensures OwnedContainer(src, ip) ==> ContainerEntry(cache[ip], src, config, ip)
      ensures !OwnedContainer(src, ip) && AdmittingHost(src, ip) ==> HostEntry(cache[ip], src, config, ip)
    {
      assert Lookup(cache, ip) == Spec(src, config, ip);
      ContainerResultIs(src, config, ip);
      HostResultIs(src, config, ip);
    }
  }

  /** In every run of concurrent tasks: once settled, the cache is what the tables say. */
  lemma SettledCacheServes(config: MetadataConfig, shards: nat, shardOf: Ip -> nat,
                           states: seq<RebuildProtocol.State>, actions: seq<RebuildProtocol.Action>, i: nat)
    requires forall ip :: shardOf(ip) < shards
    requires RebuildProtocol.Run(RebuildProtocol.ServiceSetup(config, shards, shardOf), states, actions)
    requires i < |states| && RebuildProtocol.Settled(states[i])
    ensures Serves(states[i].cache, states[i].src, config)
  {
    RebuildProtocol.SettledCacheIsFresh(config, shards, shardOf, states, actions, i);
    FreshServes(states[i].cache, states[i].src, config);
  }

  /** On a miss the lookup on demand answers exactly if one of the two cases holds, with the host's entry first. */
  lemma OnDemandServes(cache: map<Ip, HostMetadata>, src: Sources, config: MetadataConfig, ip: Ip)
    requires ip !in cache
    ensures var r := OnDemand(cache, src, config, ip);
      && (r.Some? <==> AdmittingHost(src, ip) || OwnedContainer(src, ip))
      && (AdmittingHost(src, ip) ==> HostEntry(r.value, src, config, ip))
      && (!AdmittingHost(src, ip) && OwnedContainer(src, ip) ==> ContainerEntry(r.value, src, config, ip))
  {
    ContainerResultIs(src, config, ip);
    HostResultIs(src, config, ip);
  }
}
