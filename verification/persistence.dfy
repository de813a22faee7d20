/** Oneshot completion and template assignments (src/metadata/handlers.rs, src/templates.rs): a map in memory,
    saved whole to a file after every change. A save may fail and leave the old file; the service may restart. */
module Persistence {
  import opened Text
  import opened Model

  /** The map in memory and the map in the file. */
  datatype Saved<V> = Saved(mem: map<string, V>, disk: map<string, V>)

  datatype Event<V> =
    | Insert(host: string, value: V, saved: bool)
    | Remove(host: string, saved: bool)
    | Restart

  datatype Status = Ok | NoContent | NotFound | InternalServerError

  predicate Acknowledged(status: Status) {
    status.Ok? || status.NoContent?
  }

  function Step<V>(s: Saved<V>, e: Event<V>): Saved<V> {
    match e
    case Insert(h, v, saved) =>
      var mem := s.mem[h := v];
      Saved(mem, if saved then mem else s.disk)
    case Remove(h, saved) =>
      if h !in s.mem then s
      else
        var mem := s.mem - {h};
        Saved(mem, if saved then mem else s.disk)
    case Restart => Saved(s.disk, s.disk)
  }

  /** The reply; a restart has none and counts as a failure. */
  function Reply<V>(s: Saved<V>, e: Event<V>): Status {
    match e
    case Insert(_, _, saved) => if saved then Ok else InternalServerError
    case Remove(h, saved) => if h !in s.mem then NotFound else if saved then NoContent else InternalServerError
    case Restart => InternalServerError
  }

  function After<V>(s: Saved<V>, run: seq<Event<V>>): Saved<V> {
    if run == [] then s else Step(After(s, run[..|run| - 1]), run[|run| - 1])
  }

  /** An acknowledged change is on disk. */
  lemma AcknowledgedIsDurable<V>(s: Saved<V>, e: Event<V>)
    requires Acknowledged(Reply(s, e))
    ensures Step(s, e).mem == Step(s, e).disk
  {
  }

  /** Once an insertion is acknowledged the host stays, in memory and on disk, through failing saves and restarts,
      until it is removed. */
  lemma {:induction false} StaysUntilRemoved<V>(s: Saved<V>, host: string, run: seq<Event<V>>)
    requires host in s.mem && host in s.disk
    requires forall i :: 0 <= i < |run| && run[i].Remove? ==> run[i].host != host
    ensures host in After(s, run).mem && host in After(s, run).disk
  {
    if run != [] { StaysUntilRemoved(s, host, run[..|run| - 1]); }
  }

  /** Once a removal is acknowledged the host stays away until it is inserted. */
  lemma {:induction false} GoneUntilInserted<V>(s: Saved<V>, host: string, run: seq<Event<V>>)
    requires host !in s.mem && host !in s.disk
    requires forall i :: 0 <= i < |run| && run[i].Insert? ==> run[i].host != host
    ensures host !in After(s, run).mem && host !in After(s, run).disk
  {
    if run != [] { GoneUntilInserted(s, host, run[..|run| - 1]); }
  }

  predicate SomeAcknowledged<V>(s: Saved<V>, run: seq<Event<V>>) {
    exists i :: 0 <= i < |run| && Acknowledged(Reply(After(s, run[..i]), run[i]))
  }

  /** A removal whose save failed has left the host on disk. It is gone for good, that is, it would not come back
      with a restart, exactly when some later request is acknowledged. */
  lemma {:induction false} FailedRemovalRepairedExactly<V>(s: Saved<V>, host: string, run: seq<Event<V>>)
    requires host !in s.mem && host in s.disk
    requires forall i :: 0 <= i < |run| ==> !run[i].Restart? && (run[i].Insert? ==> run[i].host != host)
    ensures host !in After(s, run).mem
    ensures host !in Step(After(s, run), Restart).mem <==> SomeAcknowledged(s, run)
  {
    if run != [] {
      var n := |run| - 1;
      FailedRemovalRepairedExactly(s, host, run[..n]);
      AcknowledgedLast(s, run);
    }
  }

  lemma AcknowledgedLast<V>(s: Saved<V>, run: seq<Event<V>>)
    requires run != []
    ensures var n := |run| - 1;
      SomeAcknowledged(s, run) <==>
      SomeAcknowledged(s, run[..n]) || Acknowledged(Reply(After(s, run[..n]), run[n]))
  {
    var n := |run| - 1;
    forall i | 0 <= i < n ensures run[..n][..i] == run[..i] && run[..n][i] == run[i] {
    }
    if SomeAcknowledged(s, run[..n]) {
      var i :| 0 <= i < n && Acknowledged(Reply(After(s, run[..n][..i]), run[..n][i]));
      assert Acknowledged(Reply(After(s, run[..i]), run[i]));
    }
    if SomeAcknowledged(s, run) {
      var i :| 0 <= i < |run| && Acknowledged(Reply(After(s, run[..i]), run[i]));
      if i < n { assert Acknowledged(Reply(After(s, run[..n][..i]), run[..n][i])); }
    }
  }

  /** In particular, repeating the removal never repairs it: every retry is answered 404 and the host is back
      after a restart, however the saves would go. */
  lemma {:induction false} RetriesDoNotRepair<V>(s: Saved<V>, host: string, run: seq<Event<V>>)
    requires host !in s.mem && host in s.disk
    requires forall i :: 0 <= i < |run| ==> run[i].Remove? && run[i].host == host
    ensures After(s, run) == s && host in Step(After(s, run), Restart).mem
    ensures forall i :: 0 <= i < |run| ==> Reply(After(s, run[..i]), run[i]).NotFound?
  {
    if run != [] {
      var n := |run| - 1;
      RetriesDoNotRepair(s, host, run[..n]);
      forall i | 0 <= i < |run| ensures Reply(After(s, run[..i]), run[i]).NotFound? {
        if i < n { assert run[..n][..i] == run[..i]; }
      }
    }
  }

  // ----- Which template a host gets -----

  datatype Assignment = Assignment(imageType: string, template: string)
  datatype ConfigRule = ConfigRule(hosts: seq<string>, template: string)

  /** A reference is split at its first slash; without one the image type comes from elsewhere. */
  function ParseRef(ref: string, defaultType: string): Assignment {
    var pos := Find(ref, '/');
    if pos < |ref| then Assignment(ref[..pos], ref[pos + 1..]) else Assignment(defaultType, ref)
  }

  function FromConfig(rules: seq<ConfigRule>, hostname: string): Option<Assignment> {
    if rules == [] then None
    else if hostname in rules[0].hosts || "*" in rules[0].hosts then Some(ParseRef(rules[0].template, "default"))
    else FromConfig(rules[1..], hostname)
  }

  /** `resolve_template_ref`: the BMH object, then the REST assignment, then the configuration. */
  function TemplateRef(hostname: string, bmhTemplate: Option<string>, imageType: string,
                       assignments: map<string, Assignment>, rules: seq<ConfigRule>): Option<Assignment>
  {
    if bmhTemplate.Some? && bmhTemplate.value != "" then Some(ParseRef(bmhTemplate.value, imageType))
    else if hostname in assignments then Some(assignments[hostname])
    else FromConfig(rules, hostname)
  }

  /** The template `resolve_and_build` goes on to load, if any. */
  function ServedRef(completed: map<string, string>, hostname: string, bmhTemplate: Option<string>, imageType: string,
                     assignments: map<string, Assignment>, rules: seq<ConfigRule>): Option<Assignment>
  {
    if hostname in completed then None else TemplateRef(hostname, bmhTemplate, imageType, assignments, rules)
  }

  /** The rule is for the host, or for all. */
  predicate RuleFor(rule: ConfigRule, hostname: string) {
    hostname in rule.hosts || "*" in rule.hosts
  }

  predicate FirstRuleFor(rules: seq<ConfigRule>, i: nat, hostname: string) {
    i < |rules| && RuleFor(rules[i], hostname) && forall j :: 0 <= j < i ==> !RuleFor(rules[j], hostname)
  }

  /** What a reference with this text stands for: the parts before and behind its first slash, or the image type given
      for one without a slash. */
  predicate RefersTo(ref: string, defaultType: string, a: Assignment) {
    || ('/' !in a.imageType && ref == a.imageType + "/" + a.template)
    || ('/' !in ref && a == Assignment(defaultType, ref))
  }

  lemma ParseRefExactly(ref: string, defaultType: string, a: Assignment)
    requires RefersTo(ref, defaultType, a)
    ensures ParseRef(ref, defaultType) == a
  {
    if '/' !in a.imageType && ref == a.imageType + "/" + a.template {
      assert ref[..|a.imageType|] == a.imageType && ref[|a.imageType| + 1..] == a.template;
      FindUnique(ref, '/', |a.imageType|);
    } else {
      assert ref[..|ref|] == ref;
      FindUnique(ref, '/', |ref|);
    }
  }

  lemma {:induction false} FromConfigExactly(rules: seq<ConfigRule>, hostname: string, i: nat)
    requires i <= |rules| && (i < |rules| ==> RuleFor(rules[i], hostname))
    requires forall j :: 0 <= j < i ==> !RuleFor(rules[j], hostname)
    ensures FromConfig(rules, hostname) == if i < |rules| then Some(ParseRef(rules[i].template, "default")) else None
  {
    if i > 0 { FromConfigExactly(rules[1..], hostname, i - 1); }
  }

  /** Which template a host gets that has not completed: the host object's reference comes first, then the assignment
      of the host, then the first rule of the configuration for it; without any of them there is none. */
  lemma ServedExactly(completed: map<string, string>, hostname: string, bmhTemplate: Option<string>, imageType: string,
                      assignments: map<string, Assignment>, rules: seq<ConfigRule>)
    requires hostname !in completed
    ensures var served := ServedRef(completed, hostname, bmhTemplate, imageType, assignments, rules);
      && (forall ref, a :: bmhTemplate == Some(ref) && ref != "" && RefersTo(ref, imageType, a) ==> served == Some(a))
      && (bmhTemplate in {None, Some("")} && hostname in assignments ==> served == Some(assignments[hostname]))
      && (bmhTemplate in {None, Some("")} && hostname !in assignments ==>
            && (forall i: nat, a :: FirstRuleFor(rules, i, hostname) && RefersTo(rules[i].template, "default", a) ==>
                  served == Some(a))
            && ((forall j :: 0 <= j < |rules| ==> !RuleFor(rules[j], hostname)) ==> served == None))
  {
    forall ref, a | bmhTemplate == Some(ref) && ref != "" && RefersTo(ref, imageType, a)
      ensures ParseRef(ref, imageType) == a
    {
      ParseRefExactly(ref, imageType, a);
    }
    forall i: nat, a | FirstRuleFor(rules, i, hostname) && RefersTo(rules[i].template, "default", a)
      ensures FromConfig(rules, hostname) == Some(a)
    {
      FromConfigExactly(rules, hostname, i);
      ParseRefExactly(rules[i].template, "default", a);
    }
    if forall j :: 0 <= j < |rules| ==> !RuleFor(rules[j], hostname) { FromConfigExactly(rules, hostname, |rules|); }
  }

  /** A host acknowledged as provisioned gets no template on any later request before its reset, whatever the
      BMH object, the assignments and the configuration say then. */
  lemma ProvisionedGetsNoTemplate(s: Saved<string>, hostname: string, stamp: string, run: seq<Event<string>>,
                                  bmhTemplate: Option<string>, imageType: string,
                                  assignments: map<string, Assignment>, rules: seq<ConfigRule>)
    requires forall i :: 0 <= i < |run| && run[i].Remove? ==> run[i].host != hostname
    ensures var acked := Step(s, Insert(hostname, stamp, true));
      ServedRef(After(acked, run).mem, hostname, bmhTemplate, imageType, assignments, rules).None?
  {
    StaysUntilRemoved(Step(s, Insert(hostname, stamp, true)), hostname, run);
  }

  // ----- The handlers -----

  class Handlers {
    var ipToHostname: map<Ip, string>
    var oneshot: map<string, string>
    var oneshotFile: map<string, string>
    var assignments: map<string, Assignment>
    var assignmentsFile: map<string, Assignment>

    function Oneshot(): Saved<string>
      reads this
    {
      Saved(oneshot, oneshotFile)
    }

    function Assigned(): Saved<Assignment>
      reads this
    {
      Saved(assignments, assignmentsFile)
    }

    /** What is on disk is loaded. */
    constructor (oneshotFile: map<string, string>, assignmentsFile: map<string, Assignment>)
      ensures Oneshot() == Step(Oneshot(), Restart) && Assigned() == Step(Assigned(), Restart)
      ensures this.oneshotFile == oneshotFile && this.assignmentsFile == assignmentsFile
    {
      ipToHostname := map[];
      oneshot, this.oneshotFile := oneshotFile, oneshotFile;
      assignments, this.assignmentsFile := assignmentsFile, assignmentsFile;
    }

    /** `oneshot_provisioned`: the host is known by its address; `writes` tells whether the save succeeds. */
    method OneshotProvisioned(ip: Ip, ts: string, writes: bool) returns (status: Status)
      modifies this`oneshot, this`oneshotFile
      ensures ip !in ipToHostname ==> status.NotFound? && Oneshot() == old(Oneshot())
      ensures ip in ipToHostname ==>
                var e := Insert(ipToHostname[ip], ts, writes);
                Oneshot() == Step(old(Oneshot()), e) && status == Reply(old(Oneshot()), e)
    {
      if ip !in ipToHostname {
        return NotFound;
      }
      oneshot := oneshot[ipToHostname[ip] := ts];
      var saved := SaveOneshot(writes);
      if !saved {
        return InternalServerError;
      }
      status := Ok;
    }

    /** `oneshot_delete`. */
    method OneshotDelete(hostname: string, writes: bool) returns (status: Status)
      modifies this`oneshot, this`oneshotFile
      ensures Oneshot() == Step(old(Oneshot()), Remove(hostname, writes))
      ensures status == Reply(old(Oneshot()), Remove(hostname, writes))
    {
      if hostname !in oneshot {
        return NotFound;
      }
      oneshot := oneshot - {hostname};
      var saved := SaveOneshot(writes);
      if !saved {
        return InternalServerError;
      }
      status := NoContent;
    }

    /** `save_oneshot`: all of the map, or nothing. */
    method SaveOneshot(writes: bool) returns (saved: bool)
      modifies this`oneshotFile
      ensures saved == writes && oneshotFile == if writes then oneshot else old(oneshotFile)
    {
      if writes {
        oneshotFile := oneshot;
      }
      saved := writes;
    }

    /** `assignments_put`. */
    method AssignmentsPut(hostname: string, req: Assignment, writes: bool) returns (status: Status)
      modifies this`assignments, this`assignmentsFile
      ensures Assigned() == Step(old(Assigned()), Insert(hostname, req, writes))
      ensures status == Reply(old(Assigned()), Insert(hostname, req, writes))
    {
      assignments := assignments[hostname := req];
      var saved := SaveAssignments(writes);
      if !saved {
        return InternalServerError;
      }
      status := Ok;
    }

    /** `assignments_delete`. */
    method AssignmentsDelete(hostname: string, writes: bool) returns (status: Status)
      modifies this`assignments, this`assignmentsFile
      ensures Assigned() == Step(old(Assigned()), Remove(hostname, writes))
      ensures status == Reply(old(Assigned()), Remove(hostname, writes))
    {
      if hostname !in assignments {
        return NotFound;
      }
      assignments := assignments - {hostname};
      var saved := SaveAssignments(writes);
      if !saved {
        return InternalServerError;
      }
      status := NoContent;
    }

    /** `save_assignments`. */
    method SaveAssignments(writes: bool) returns (saved: bool)
      modifies this`assignmentsFile
      ensures saved == writes && assignmentsFile == if writes then assignments else old(assignmentsFile)
    {
      if writes {
        assignmentsFile := assignments;
      }
      saved := writes;
    }
  }
}
