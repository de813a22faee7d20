/** The BMH state (src/watcher/bmh.rs): refreshes, DHCP leases and watch events. */
module BmhWatcher {
  import opened Text
  import opened Model

  /** A bare metal host subject, as far as the state depends on it; `rest` is everything else. */
  datatype Host = Host(name: string, namespace: string, labels: map<string, string>, specHostname: string,
                       specIp: string, statusIp: Option<string>, rest: string)

  datatype Lease = Lease(ip: string, hostname: string)

  /** How addresses are parsed. */
  type Parser = string -> Option<Ip>

  datatype Bmh = Bmh(ipToHostname: map<Ip, string>, hostLabels: map<string, map<string, string>>,
                     hostNamespace: map<string, string>, hosts: map<string, Host>)

  const EMPTY: Bmh := Bmh(map[], map[], map[], map[])

  function HostnameOf(h: Host): string {
    if h.specHostname == "" then h.name else h.specHostname
  }

  /** The live address if there is one, else the configured one; none if empty or not an address. */
  function AddressOf(parse: Parser, h: Host): Option<Ip> {
    var text := if h.statusIp.Some? && h.statusIp.value != "" then h.statusIp.value else h.specIp;
    if text == "" then None else parse(text)
  }

  // ----- Steps -----

  /** `apply_bmh_to_state`. */
  function Apply(parse: Parser, b: Bmh, h: Host): Bmh {
    var ip, hostname := AddressOf(parse, h), HostnameOf(h);
    if ip.None? then b
    else Bmh(b.ipToHostname[ip.value := hostname], b.hostLabels[hostname := h.labels],
             b.hostNamespace[hostname := h.namespace], b.hosts[hostname := h])
  }

  function ApplyAll(parse: Parser, b: Bmh, hosts: seq<Host>): Bmh {
    if hosts == [] then b else Apply(parse, ApplyAll(parse, b, hosts[..|hosts| - 1]), hosts[|hosts| - 1])
  }

  /** The reaction to DELETED. */
  function Remove(b: Bmh, hostname: string): Bmh {
    Bmh(map ip | ip in b.ipToHostname && b.ipToHostname[ip] != hostname :: b.ipToHostname[ip],
        b.hostLabels - {hostname}, b.hostNamespace - {hostname}, b.hosts - {hostname})
  }

  function AddLease(parse: Parser, b: Bmh, l: Lease): Bmh {
    var ip := parse(l.ip);
    if l.hostname == "" || ip.None? || ip.value in b.ipToHostname then b
    else b.(ipToHostname := b.ipToHostname[ip.value := l.hostname])
  }

  function AddLeases(parse: Parser, b: Bmh, leases: seq<Lease>): Bmh {
    if leases == [] then b else AddLease(parse, AddLeases(parse, b, leases[..|leases| - 1]), leases[|leases| - 1])
  }

  /** What a list of answers delivers: requests that failed deliver nothing. */
  function Delivered<T>(answers: seq<Option<seq<T>>>): seq<T> {
    if answers == [] then []
    else
      var last := answers[|answers| - 1];
      Delivered(answers[..|answers| - 1]) + (if last.Some? then last.value else [])
  }

  lemma DeliveredNext<T>(answers: seq<Option<seq<T>>>, i: nat)
    requires i < |answers|
    ensures Delivered(answers[..i + 1]) ==
            if answers[i].Some? then Delivered(answers[..i]) + answers[i].value else Delivered(answers[..i])
  {
    assert answers[..i + 1][..i] == answers[..i];
  }

  datatype Event =
    | Refresh(discovered: Option<seq<Option<seq<Host>>>>)
    | Leases(sources: seq<Option<seq<Lease>>>)
    | Watch(eventType: string, subject: Host)

  function Step(parse: Parser, b: Bmh, e: Event): Bmh {
    match e
    case Refresh(discovered) => if discovered.None? then b else ApplyAll(parse, EMPTY, Delivered(discovered.value))
    case Leases(sources) => AddLeases(parse, b, Delivered(sources))
    case Watch(t, subject) =>
      if t == "ADDED" || t == "MODIFIED" then Apply(parse, b, subject)
      else if t == "DELETED" then Remove(b, HostnameOf(subject))
      else b
  }

  function Run(parse: Parser, b: Bmh, events: seq<Event>): Bmh {
    if events == [] then b else Step(parse, Run(parse, b, events[..|events| - 1]), events[|events| - 1])
  }

  // ----- Invariant -----

  /** The three host tables agree, and each host is filed under its own name and has an address. */
  ghost predicate Consistent(parse: Parser, b: Bmh) {
    && b.hosts.Keys == b.hostLabels.Keys == b.hostNamespace.Keys
    && forall h :: h in b.hosts ==>
         && HostnameOf(b.hosts[h]) == h && AddressOf(parse, b.hosts[h]).Some?
         && b.hostLabels[h] == b.hosts[h].labels && b.hostNamespace[h] == b.hosts[h].namespace
  }

  lemma {:induction false} ApplyAllConsistent(parse: Parser, b: Bmh, hosts: seq<Host>)
    requires Consistent(parse, b)
    ensures Consistent(parse, ApplyAll(parse, b, hosts))
  {
    if hosts != [] { ApplyAllConsistent(parse, b, hosts[..|hosts| - 1]); }
  }

  lemma {:induction false} AddLeasesKeeps(parse: Parser, b: Bmh, leases: seq<Lease>)
    ensures var r := AddLeases(parse, b, leases); r == b.(ipToHostname := r.ipToHostname)
    ensures forall ip :: ip in b.ipToHostname ==>
              ip in AddLeases(parse, b, leases).ipToHostname
              && AddLeases(parse, b, leases).ipToHostname[ip] == b.ipToHostname[ip]
  {
    if leases != [] { AddLeasesKeeps(parse, b, leases[..|leases| - 1]); }
  }

  lemma ApplyConsistent(parse: Parser, b: Bmh, h: Host)
    requires Consistent(parse, b)
    ensures Consistent(parse, Apply(parse, b, h))
  {
  }

  lemma RemoveConsistent(parse: Parser, b: Bmh, hostname: string)
    requires Consistent(parse, b)
    ensures Consistent(parse, Remove(b, hostname))
  {
  }

  lemma StepConsistent(parse: Parser, b: Bmh, e: Event)
    requires Consistent(parse, b)
    ensures Consistent(parse, Step(parse, b, e))
  {
    match e
    case Refresh(discovered) =>
      if discovered.Some? { ApplyAllConsistent(parse, EMPTY, Delivered(discovered.value)); }
    case Leases(sources) => AddLeasesKeeps(parse, b, Delivered(sources));
    case Watch(_, h) =>
      ApplyConsistent(parse, b, h);
      RemoveConsistent(parse, b, HostnameOf(h));
  }

  /** The tables agree after every run of refreshes, leases and watch events. */
  lemma {:induction false} RunConsistent(parse: Parser, events: seq<Event>)
    ensures Consistent(parse, Run(parse, EMPTY, events))
  {
    if events != [] {
      RunConsistent(parse, events[..|events| - 1]);
      StepConsistent(parse, Run(parse, EMPTY, events[..|events| - 1]), events[|events| - 1]);
    }
  }

  // ----- Deletion -----

  /** After DELETED the host is gone from all tables, and all other entries are as before. */
  lemma DeletedIsGone(parse: Parser, b: Bmh, subject: Host)
    ensures var r, h := Step(parse, b, Watch("DELETED", subject)), HostnameOf(subject);
      && h !in r.hosts && h !in r.hostLabels && h !in r.hostNamespace
      && (forall ip :: ip in r.ipToHostname <==> ip in b.ipToHostname && b.ipToHostname[ip] != h)
      && (forall ip :: ip in r.ipToHostname ==> r.ipToHostname[ip] == b.ipToHostname[ip])
      && (forall g :: g in b.hosts && g != h ==> g in r.hosts && r.hosts[g] == b.hosts[g])
  {
  }

  // ----- Which name and which address count -----

  /** A host object is filed under its spec's host name, or its own name if the spec has none. */
  predicate FiledUnder(h: Host, hostname: string) {
    (h.specHostname != "" && hostname == h.specHostname) || (h.specHostname == "" && hostname == h.name)
  }

  /** It is reached at the live address if the status has one, else at the one in the spec, if that is an address. */
  predicate ReachedAt(parse: Parser, h: Host, ip: Ip) {
    || (h.statusIp.Some? && h.statusIp.value != "" && parse(h.statusIp.value) == Some(ip))
    || ((h.statusIp.None? || h.statusIp.value == "") && h.specIp != "" && parse(h.specIp) == Some(ip))
  }

  /** An update files the host under its name at its address, with its labels and namespace, and touches nothing else;
      without an address it does nothing. */
  lemma UpdateExactly(parse: Parser, b: Bmh, subject: Host, eventType: string, hostname: string)
    requires (eventType == "ADDED" || eventType == "MODIFIED") && FiledUnder(subject, hostname)
    ensures var r := Step(parse, b, Watch(eventType, subject));
      && (forall ip :: ReachedAt(parse, subject, ip) ==>
            r == Bmh(b.ipToHostname[ip := hostname], b.hostLabels[hostname := subject.labels],
                     b.hostNamespace[hostname := subject.namespace], b.hosts[hostname := subject]))
      && ((forall ip :: !ReachedAt(parse, subject, ip)) ==> r == b)
  {
    if ip :| AddressOf(parse, subject) == Some(ip) { assert ReachedAt(parse, subject, ip); }
  }

  /** A deletion takes away what is filed under the name. */
  lemma DeletionExactly(parse: Parser, b: Bmh, subject: Host, hostname: string)
    requires FiledUnder(subject, hostname)
    ensures var r := Step(parse, b, Watch("DELETED", subject));
      && hostname !in r.hosts && hostname !in r.hostLabels && hostname !in r.hostNamespace
      && forall ip :: ip in r.ipToHostname <==> ip in b.ipToHostname && b.ipToHostname[ip] != hostname
  {
    DeletedIsGone(parse, b, subject);
  }

  // ----- A refresh forgets the past -----

  /** The last of the hosts listed that has this address. */
  function LastAt(parse: Parser, hosts: seq<Host>, ip: Ip): Option<string> {
    if hosts == [] then None
    else
      var h := hosts[|hosts| - 1];
      if AddressOf(parse, h) == Some(ip) then Some(HostnameOf(h)) else LastAt(parse, hosts[..|hosts| - 1], ip)
  }

  /** The last of the hosts listed under this name, of those with an address. */
  function LastNamed(parse: Parser, hosts: seq<Host>, hostname: string): Option<Host> {
    if hosts == [] then None
    else
      var h := hosts[|hosts| - 1];
      if AddressOf(parse, h).Some? && HostnameOf(h) == hostname then Some(h)
      else LastNamed(parse, hosts[..|hosts| - 1], hostname)
  }

  /** The first lease with a name for this address. */
  function FirstLease(parse: Parser, leases: seq<Lease>, ip: Ip): Option<string> {
    if leases == [] then None
    else if leases[0].hostname != "" && parse(leases[0].ip) == Some(ip) then Some(leases[0].hostname)
    else FirstLease(parse, leases[1..], ip)
  }

  lemma {:induction false} ApplyAllExactly(parse: Parser, hosts: seq<Host>, ip: Ip, hostname: string)
    ensures At(ApplyAll(parse, EMPTY, hosts).ipToHostname, ip) == LastAt(parse, hosts, ip)
    ensures At(ApplyAll(parse, EMPTY, hosts).hosts, hostname) == LastNamed(parse, hosts, hostname)
  {
    if hosts != [] { ApplyAllExactly(parse, hosts[..|hosts| - 1], ip, hostname); }
  }

  lemma {:induction false} FirstLeaseLast(parse: Parser, leases: seq<Lease>, ip: Ip)
    requires leases != []
    ensures var before, l := FirstLease(parse, leases[..|leases| - 1], ip), leases[|leases| - 1];
      FirstLease(parse, leases, ip) ==
      if before.Some? then before else if l.hostname != "" && parse(l.ip) == Some(ip) then Some(l.hostname) else None
  {
    if |leases| > 1 {
      FirstLeaseLast(parse, leases[1..], ip);
      assert leases[..|leases| - 1][1..] == leases[1..][..|leases| - 2];
    }
  }

  lemma {:induction false} AddLeasesExactly(parse: Parser, b: Bmh, leases: seq<Lease>, ip: Ip)
    ensures At(AddLeases(parse, b, leases).ipToHostname, ip) ==
            if ip in b.ipToHostname then Some(b.ipToHostname[ip]) else FirstLease(parse, leases, ip)
  {
    if leases != [] {
      AddLeasesExactly(parse, b, leases[..|leases| - 1], ip);
      FirstLeaseLast(parse, leases, ip);
    }
  }

  /** After a refresh whose discovery succeeded, and the leases, nothing depends on what came before: an address
      belongs to the last host listed with it, else to the first named lease; a host is the last listed under
      its name. */
  lemma RefreshForgets(parse: Parser, past: seq<Event>, lists: seq<Option<seq<Host>>>, sources: seq<Option<seq<Lease>>>,
                       ip: Ip, hostname: string)
    ensures var b := Run(parse, EMPTY, past + [Refresh(Some(lists)), Leases(sources)]);
      && At(b.ipToHostname, ip) ==
         (if LastAt(parse, Delivered(lists), ip).Some? then LastAt(parse, Delivered(lists), ip)
          else FirstLease(parse, Delivered(sources), ip))
      && At(b.hosts, hostname) == LastNamed(parse, Delivered(lists), hostname)
  {
    var run := past + [Refresh(Some(lists)), Leases(sources)];
    assert run[..|run| - 1] == past + [Refresh(Some(lists))];
    assert run[..|run| - 1][..|past|] == past;
    var listed := ApplyAll(parse, EMPTY, Delivered(lists));
    assert Run(parse, EMPTY, run[..|run| - 1]) == listed;
    ApplyAllExactly(parse, Delivered(lists), ip, hostname);
    AddLeasesExactly(parse, listed, Delivered(sources), ip);
    AddLeasesKeeps(parse, listed, Delivered(sources));
  }

  lemma {:induction false} ApplyAllAppend(parse: Parser, b: Bmh, first: seq<Host>, second: seq<Host>)
    ensures ApplyAll(parse, b, first + second) == ApplyAll(parse, ApplyAll(parse, b, first), second)
  {
    if second == [] {
      assert first + second == first;
    } else {
      var n := |second| - 1;
      ApplyAllAppend(parse, b, first, second[..n]);
      assert (first + second)[..|first + second| - 1] == first + second[..n];
    }
  }

  lemma {:induction false} AddLeasesAppend(parse: Parser, b: Bmh, first: seq<Lease>, second: seq<Lease>)
    ensures AddLeases(parse, b, first + second) == AddLeases(parse, AddLeases(parse, b, first), second)
  {
    if second == [] {
      assert first + second == first;
    } else {
      var n := |second| - 1;
      AddLeasesAppend(parse, b, first, second[..n]);
      assert (first + second)[..|first + second| - 1] == first + second[..n];
    }
  }

  // ----- A change of address -----

  function Addresses(b: Bmh, hostname: string): set<Ip> {
    set ip | ip in b.ipToHostname && b.ipToHostname[ip] == hostname
  }

  /** An update adds the address the host has now and drops none, so the host has just that one afterwards
      exactly when it had no other before. */
  lemma OneAddressExactly(parse: Parser, b: Bmh, subject: Host, eventType: string)
    requires (eventType == "ADDED" || eventType == "MODIFIED") && AddressOf(parse, subject).Some?
    ensures var r, h, ip := Step(parse, b, Watch(eventType, subject)), HostnameOf(subject), AddressOf(parse, subject).value;
      && Addresses(r, h) == Addresses(b, h) + {ip}
      && (Addresses(r, h) == {ip} <==> Addresses(b, h) <= {ip})
  {
  }

  // ----- Which host an address maps to -----

  /** In the state b the event maps the address to the host. */
  predicate Announces(parse: Parser, b: Bmh, e: Event, ip: Ip, h: string) {
    match e
    case Refresh(discovered) => discovered.Some? && LastAt(parse, Delivered(discovered.value), ip) == Some(h)
    case Leases(sources) => ip !in b.ipToHostname && FirstLease(parse, Delivered(sources), ip) == Some(h)
    case Watch(t, subject) =>
      (t == "ADDED" || t == "MODIFIED") && AddressOf(parse, subject) == Some(ip) && HostnameOf(subject) == h
  }

  /** The event ends the mapping: a refresh with successful discovery, an announcement at the address, or the
      deletion of the host. An announcement of the host at another address does not. */
  predicate Ends(parse: Parser, e: Event, ip: Ip, h: string) {
    match e
    case Refresh(discovered) => discovered.Some?
    case Leases(_) => false
    case Watch(t, subject) =>
      ((t == "ADDED" || t == "MODIFIED") && AddressOf(parse, subject) == Some(ip))
      || (t == "DELETED" && HostnameOf(subject) == h)
  }

  lemma StepMaps(parse: Parser, b: Bmh, e: Event, ip: Ip, h: string)
    ensures At(Step(parse, b, e).ipToHostname, ip) == Some(h) <==>
            Announces(parse, b, e, ip, h) || (At(b.ipToHostname, ip) == Some(h) && !Ends(parse, e, ip, h))
  {
    match e
    case Refresh(discovered) =>
      if discovered.Some? { ApplyAllExactly(parse, Delivered(discovered.value), ip, h); }
    case Leases(sources) => AddLeasesExactly(parse, b, Delivered(sources), ip);
    case Watch(_, _) =>
  }

  /** The i-th event announced the host at the address, and none since has ended that. */
  predicate Holds(parse: Parser, events: seq<Event>, ip: Ip, h: string, i: nat)
    requires i < |events|
  {
    && Announces(parse, Run(parse, EMPTY, events[..i]), events[i], ip, h)
    && forall j :: i < j < |events| ==> !Ends(parse, events[j], ip, h)
  }

  lemma HoldsLonger(parse: Parser, events: seq<Event>, ip: Ip, h: string, i: nat)
    requires i + 1 < |events|
    ensures Holds(parse, events, ip, h, i) <==>
            Holds(parse, events[..|events| - 1], ip, h, i) && !Ends(parse, events[|events| - 1], ip, h)
  {
    assert events[..|events| - 1][..i] == events[..i];
  }

  /** After every run an address maps to a host exactly when some event announced it there and none since has ended
      that. */
  lemma {:induction false} MappedExactly(parse: Parser, events: seq<Event>, ip: Ip, h: string)
    ensures At(Run(parse, EMPTY, events).ipToHostname, ip) == Some(h) <==>
            exists i :: 0 <= i < |events| && Holds(parse, events, ip, h, i)
  {
    if events != [] {
      var n := |events| - 1;
      MappedExactly(parse, events[..n], ip, h);
      StepMaps(parse, Run(parse, EMPTY, events[..n]), events[n], ip, h);
      forall i | 0 <= i < n
        ensures Holds(parse, events, ip, h, i) <==>
                Holds(parse, events[..n], ip, h, i) && !Ends(parse, events[n], ip, h)
      {
        HoldsLonger(parse, events, ip, h, i);
      }
      assert Holds(parse, events, ip, h, n) <==> Announces(parse, Run(parse, EMPTY, events[..n]), events[n], ip, h);
      if At(Run(parse, EMPTY, events[..n]).ipToHostname, ip) == Some(h) && !Ends(parse, events[n], ip, h) {
        var i :| 0 <= i < n && Holds(parse, events[..n], ip, h, i);
        assert Holds(parse, events, ip, h, i);
      }
    }
  }

  // ----- The loops -----

  class BmhState {
    const parse: Parser
    var ipToHostname: map<Ip, string>
    var hostLabels: map<string, map<string, string>>
    var hostNamespace: map<string, string>
    var hosts: map<string, Host>

    ghost function State(): Bmh
      reads this
    {
      Bmh(ipToHostname, hostLabels, hostNamespace, hosts)
    }

    constructor (parse: Parser)
      ensures this.parse == parse && State() == EMPTY
    {
      this.parse := parse;
      ipToHostname, hostLabels, hostNamespace, hosts := map[], map[], map[], map[];
    }

    /** `apply_bmh_to_state`. */
    method ApplyHost(host: Host)
      modifies this
      ensures State() == Apply(parse, old(State()), host)
    {
      var text := if host.statusIp.Some? && host.statusIp.value != "" then host.statusIp.value else host.specIp;
      var hostname := if host.specHostname == "" then host.name else host.specHostname;
      if text != "" {
        var ip := parse(text);
        if ip.Some? {
          ipToHostname := ipToHostname[ip.value := hostname];
          hostLabels := hostLabels[hostname := host.labels];
          hostNamespace := hostNamespace[hostname := host.namespace];
          hosts := hosts[hostname := host];
        }
      }
    }

    /** The listing of one namespace. */
    method ApplyList(items: seq<Host>)
      modifies this
      ensures State() == ApplyAll(parse, old(State()), items)
    {
      for j := 0 to |items|
        invariant State() == ApplyAll(parse, old(State()), items[..j])
      {
        assert items[..j + 1][..j] == items[..j];
        ApplyHost(items[j]);
      }
      assert items[..|items|] == items;
    }

    /** `load_all_bmh`: the namespaces discovered, each with its listing or a failure. */
    method LoadAllBmh(discovered: Option<seq<Option<seq<Host>>>>)
      modifies this
      ensures State() == Step(parse, old(State()), Refresh(discovered))
    {
      if discovered.None? {
        return;
      }
      ipToHostname, hostLabels, hostNamespace, hosts := map[], map[], map[], map[];
      LoadNamespaces(discovered.value);
    }

    method LoadNamespaces(namespaces: seq<Option<seq<Host>>>)
      requires State() == EMPTY
      modifies this
      ensures State() == ApplyAll(parse, EMPTY, Delivered(namespaces))
    {
      for i := 0 to |namespaces|
        invariant State() == ApplyAll(parse, EMPTY, Delivered(namespaces[..i]))
      {
        DeliveredNext(namespaces, i);
        if namespaces[i].Some? {
          ApplyAllAppend(parse, EMPTY, Delivered(namespaces[..i]), namespaces[i].value);
          ApplyList(namespaces[i].value);
        }
      }
      assert namespaces[..|namespaces|] == namespaces;
    }

    /** The leases of one source; addresses already known keep their name. */
    method AddSource(leases: seq<Lease>)
      modifies this
      ensures State() == AddLeases(parse, old(State()), leases)
    {
      for j := 0 to |leases|
        invariant State() == AddLeases(parse, old(State()), leases[..j])
      {
        assert leases[..j + 1][..j] == leases[..j];
        if leases[j].hostname == "" {
          continue;
        }
        var ip := parse(leases[j].ip);
        if ip.Some? && ip.value !in ipToHostname {
          ipToHostname := ipToHostname[ip.value := leases[j].hostname];
        }
      }
      assert leases[..|leases|] == leases;
    }

    /** `load_dhcp_leases`. */
    method LoadDhcpLeases(sources: seq<Option<seq<Lease>>>)
      modifies this
      ensures State() == Step(parse, old(State()), Leases(sources))
    {
      for i := 0 to |sources|
        invariant State() == AddLeases(parse, old(State()), Delivered(sources[..i]))
      {
        DeliveredNext(sources, i);
        if sources[i].Some? {
          AddLeasesAppend(parse, old(State()), Delivered(sources[..i]), sources[i].value);
          AddSource(sources[i].value);
        }
      }
      assert sources[..|sources|] == sources;
    }

    /** The part of `handle_watch_event` under the lock; whether a rebuild follows. */
    method HandleWatchEvent(eventType: string, subject: Host) returns (rebuild: bool)
      modifies this
      ensures State() == Step(parse, old(State()), Watch(eventType, subject))
      ensures rebuild <==> eventType in {"ADDED", "MODIFIED", "DELETED"}
    {
      var hostname := if subject.specHostname == "" then subject.name else subject.specHostname;
      if eventType == "ADDED" || eventType == "MODIFIED" {
        ApplyHost(subject);
        rebuild := true;
      } else if eventType == "DELETED" {
        ipToHostname := map ip | ip in ipToHostname && ipToHostname[ip] != hostname :: ipToHostname[ip];
        hostLabels := hostLabels - {hostname};
        hostNamespace := hostNamespace - {hostname};
        hosts := hosts - {hostname};
        rebuild := true;
      } else {
        rebuild := false;
      }
    }
  }
}
