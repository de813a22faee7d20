/** The shared application state (src/cache.rs): metadata cache, on-demand lookup, IMDS tokens. */
module Cache {
  import opened Text
  import opened Model
  import opened Resolve
  import opened ImdsTokens

  /** The state under the three locks that a rebuild reads. */
  datatype Sources = Sources(identity: IdentityState, bmh: HostTable, containers: ContainerState)

  ghost function HostResult(src: Sources, config: MetadataConfig, ip: Ip): Option<HostMetadata> {
    if ip !in src.bmh.ipToHostname then None
    else
      var hostname := src.bmh.ipToHostname[ip];
      HostMetadataOf(ip, hostname, LabelsOf(src.bmh, hostname), src.identity, config)
  }

  function LabelsOf(bmh: HostTable, hostname: string): Labels {
    if hostname in bmh.hostLabels then Some(bmh.hostLabels[hostname]) else None
  }

  function ContainerResult(src: Sources, config: MetadataConfig, ip: Ip): Option<HostMetadata> {
    if ip !in src.containers.ipToContainer then None
    else
      var info := src.containers.ipToContainer[ip];
      if info.namespace !in src.containers.namespaceOwners then None
      else ContainerMetadataOf(ip, info, src.containers.namespaceOwners[info.namespace], src.identity, config)
  }

  /** What the cache should say about an address: the container wins over the host. */
  ghost function Spec(src: Sources, config: MetadataConfig, ip: Ip): Option<HostMetadata> {
    if ContainerResult(src, config, ip).Some? then ContainerResult(src, config, ip)
    else HostResult(src, config, ip)
  }

  function Lookup(cache: map<Ip, HostMetadata>, ip: Ip): Option<HostMetadata> {
    if ip in cache then Some(cache[ip]) else None
  }

  /** The cache is the table of `Spec`. */
  ghost predicate Fresh(cache: map<Ip, HostMetadata>, src: Sources, config: MetadataConfig) {
    forall ip :: Lookup(cache, ip) == Spec(src, config, ip)
  }

  /** `resolve_on_demand`: on a miss the host is asked first, then the container. */
  ghost function OnDemand(cache: map<Ip, HostMetadata>, src: Sources, config: MetadataConfig, ip: Ip)
    : Option<HostMetadata>
  {
    if ip in cache then Some(cache[ip])
    else if HostResult(src, config, ip).Some? then HostResult(src, config, ip)
    else ContainerResult(src, config, ip)
  }

  class AppState {
    var metadataCache: map<Ip, HostMetadata>
    var imdsTokens: map<string, ImdsToken>
    var tokenCounter: nat
    var identity: IdentityState
    var bmh: HostTable
    var containers: ContainerState
    const config: MetadataConfig

    ghost function Src(): Sources
      reads this
    {
      Sources(identity, bmh, containers)
    }

    /** Static identity only; nothing is cached, and nothing should be. */
    constructor (identity: IdentityState, config: MetadataConfig)
      ensures metadataCache == map[] && imdsTokens == map[] && tokenCounter == 1
      ensures this.identity == identity && this.config == config
      ensures Fresh(metadataCache, Src(), config)
    {
      this.metadataCache := map[];
      this.imdsTokens := map[];
      this.tokenCounter := 1;
      this.identity := identity;
      this.bmh := HostTable(map[], map[]);
      this.containers := ContainerState(map[], map[]);
      this.config := config;
    }

    /** `rebuild_cache` with no other rebuild in progress. */
    method RebuildCache()
      modifies this`metadataCache
      ensures Fresh(metadataCache, Src(), config)
    {
      metadataCache := map[];
      var pending := bmh.ipToHostname.Keys;
      while pending != {}
        invariant pending <= bmh.ipToHostname.Keys
        invariant forall ip :: Lookup(metadataCache, ip) ==
                               if ip in pending then None else HostResult(Src(), config, ip)
        decreases pending
      {
        var ip :| ip in pending;
        var hostname := bmh.ipToHostname[ip];
        var meta := ResolveHost(ip, hostname, LabelsOf(bmh, hostname), identity, config);
        if meta.Some? {
          metadataCache := metadataCache[ip := meta.value];
        }
        pending := pending - {ip};
      }
      pending := containers.ipToContainer.Keys;
      while pending != {}
        invariant pending <= containers.ipToContainer.Keys
        invariant forall ip :: Lookup(metadataCache, ip) ==
                               if ip in pending then HostResult(Src(), config, ip) else Spec(Src(), config, ip)
        decreases pending
      {
        var ip :| ip in pending;
        var info := containers.ipToContainer[ip];
        if info.namespace in containers.namespaceOwners {
          var meta := ResolveContainer(ip, info, containers.namespaceOwners[info.namespace], identity, config);
          if meta.Some? {
            metadataCache := metadataCache[ip := meta.value];
          }
        }
        pending := pending - {ip};
      }
    }

    /** `get_metadata`. */
    method GetMetadata(ip: Ip) returns (r: Option<HostMetadata>)
      ensures r == Lookup(metadataCache, ip)
    {
      r := if ip in metadataCache then Some(metadataCache[ip]) else None;
    }

    /** `resolve_on_demand`. */
    method ResolveOnDemand(ip: Ip) returns (r: Option<HostMetadata>)
      ensures r == OnDemand(metadataCache, Src(), config, ip)
    {
      r := GetMetadata(ip);
      if r.Some? {
        return;
      }
      if ip in bmh.ipToHostname {
        var hostname := bmh.ipToHostname[ip];
        r := ResolveHost(ip, hostname, LabelsOf(bmh, hostname), identity, config);
        if r.Some? {
          return;
        }
      }
      if ip in containers.ipToContainer {
        var info := containers.ipToContainer[ip];
        if info.namespace in containers.namespaceOwners {
          r := ResolveContainer(ip, info, containers.namespaceOwners[info.namespace], identity, config);
          return;
        }
      }
      r := None;
    }

    /** `generate_imds_token`, with its clock readings and the wrapping 64-bit counter. */
    method GenerateImdsToken(ip: Ip, ttlSecs: U32, now: nat, clock: string -> nat) returns (token: string)
      modifies this`imdsTokens, this`tokenCounter
      ensures token == TokenText(now, old(tokenCounter))
      ensures tokenCounter == (old(tokenCounter) + 1) % U64_LIMIT
      ensures imdsTokens == Prune(old(imdsTokens)[token := ImdsToken(ip, ttlSecs, now)], clock)
    {
      token := TokenText(now, tokenCounter);
      tokenCounter := (tokenCounter + 1) % U64_LIMIT;
      imdsTokens := imdsTokens[token := ImdsToken(ip, ttlSecs, now)];
      imdsTokens := map t | t in imdsTokens && !IsExpired(imdsTokens[t], clock(t)) :: imdsTokens[t];
    }

    /** A call extends the run the store has gone through. */
    method IssueInRun(ghost run: seq<Issue>, ip: Ip, ttlSecs: U32, now: nat, clock: string -> nat)
      returns (token: string, ghost extended: seq<Issue>)
      requires Bounded(run) && now < U64_LIMIT && |run| + 2 < U64_LIMIT
      requires imdsTokens == Lazy(run) && tokenCounter == |run| + 1
      modifies this`imdsTokens, this`tokenCounter
      ensures extended == run + [Issue(ip, ttlSecs, now, clock)] && Bounded(extended)
      ensures imdsTokens == Lazy(extended) && tokenCounter == |extended| + 1
      ensures token == NameOf(extended, |run|)
    {
      token := GenerateImdsToken(ip, ttlSecs, now, clock);
      extended := run + [Issue(ip, ttlSecs, now, clock)];
      assert extended[..|run|] == run;
    }

    /** `validate_imds_token`. */
    method ValidateImdsToken(token: string, now: nat) returns (ip: Option<Ip>)
      ensures ip == Validate(imdsTokens, token, now)
    {
      if token in imdsTokens && !IsExpired(imdsTokens[token], now) {
        ip := Some(imdsTokens[token].ip);
      } else {
        ip := None;
      }
    }
  }

  /** The two lookups agree on a fresh cache, though they ask host and container in opposite orders. */
  lemma OnDemandOnFreshCache(cache: map<Ip, HostMetadata>, src: Sources, config: MetadataConfig, ip: Ip)
    requires Fresh(cache, src, config)
    ensures OnDemand(cache, src, config, ip) == Lookup(cache, ip)
  {
    assert Lookup(cache, ip) == Spec(src, config, ip);
  }

  /** On a miss the two answers differ exactly where the address resolves both ways, differently. */
  lemma OnDemandDiffersExactly(cache: map<Ip, HostMetadata>, src: Sources, config: MetadataConfig, ip: Ip)
    requires ip !in cache
    ensures OnDemand(cache, src, config, ip) != Spec(src, config, ip)
            <==> HostResult(src, config, ip).Some? && ContainerResult(src, config, ip).Some?
                 && HostResult(src, config, ip) != ContainerResult(src, config, ip)
  {
  }
}
