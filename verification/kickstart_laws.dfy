/** What merging identity into a kickstart file guarantees, and what merging twice does. The laws are about texts:
    the second merge splits what the first one has joined. */
module KickstartLaws {
  import opened Text
  import opened LineLaws
  import opened Model
  import opened Resolve
  import opened Kickstart

  // ----- A merge that adds identity lines always makes the text longer -----

  /** Every merge with identity lines adds lines, whatever the text: no text is left as it is. */
  lemma MergeGrows(base: string, meta: HostMetadata)
    requires IdentityLines(meta) != []
    ensures LineFeeds(Merge(base, meta)) > LineFeeds(base)
  {
    var lines := Lines(base);
    var merged := MergeLines(lines, meta);
    LineFeedsEndLines(base);
    assert |Block(lines, meta)| >= 2;
    assert |merged| == |lines| + |Block(lines, meta)|;
    JoinLineFeeds(merged);
  }

  lemma UsersHaveLines(meta: HostMetadata)
    requires meta.cloudUsers != []
    ensures IdentityLines(meta) != []
  {
    assert UserLines(meta.cloudUsers) != [];
  }

  /** Metadata of a host always names a user, so merging it is never idempotent: each merge adds lines. */
  lemma HostMergeGrows(ip: Ip, hostname: string, labels: Labels, identity: IdentityState, config: MetadataConfig,
                       base: string)
    requires HostMetadataOf(ip, hostname, labels, identity, config).Some?
    ensures var m := HostMetadataOf(ip, hostname, labels, identity, config).value;
      LineFeeds(Merge(base, m)) > LineFeeds(base) && Merge(Merge(base, m), m) != Merge(base, m)
  {
    var m := HostMetadataOf(ip, hostname, labels, identity, config).value;
    HostNamesUsers(FindMatchingRules(hostname, labels, identity), identity);
    UsersHaveLines(m);
    MergeGrows(base, m);
    MergeGrows(Merge(base, m), m);
  }

  lemma HostNamesUsers(rules: seq<HostAccess>, identity: IdentityState)
    requires GrantedSshUsers(rules, identity) != {}
    ensures CloudUsers(rules, identity) != []
  {
    var s :| s in GrantedSshUsers(rules, identity);
    var r :| r in rules && s in r.sshUsers && ActiveReach(r, identity) != {};
    var u :| u in ActiveReach(r, identity);
    assert u in ReachedUsers(rules, identity);
  }

  /** So it is with the metadata of a container. */
  lemma ContainerMergeGrows(ip: Ip, info: ContainerInfo, owner: string, identity: IdentityState,
                            config: MetadataConfig, base: string)
    requires ContainerMetadataOf(ip, info, owner, identity, config).Some?
    ensures var m := ContainerMetadataOf(ip, info, owner, identity, config).value;
      LineFeeds(Merge(base, m)) > LineFeeds(base) && Merge(Merge(base, m), m) != Merge(base, m)
  {
    var m := ContainerMetadataOf(ip, info, owner, identity, config).value;
    UsersHaveLines(m);
    MergeGrows(base, m);
    MergeGrows(Merge(base, m), m);
  }

  // ----- The host name is set once -----

  predicate HostnameSet(lines: seq<string>) {
    exists l :: l in lines && SetsHostname(l)
  }

  /** A line that sets the host name does so up to the option, whatever follows. */
  lemma HostnamePrefix(l: string) returns (q: string)
    requires SetsHostname(l)
    ensures q <= l && q != "" && !EndsInCr(q) && ('\n' !in l ==> '\n' !in q)
    ensures forall other :: q <= other ==> SetsHostname(other)
  {
    var p :| 0 <= p <= |l| && "--hostname" <= l[p..];
    assert l[p..][..10] == "--hostname" && l[..7] == "network";
    var n := if p + 10 < 7 then 7 else p + 10;
    q := l[..n];
    assert q[n - 1] == l[p..][..10][9];
    forall other | q <= other ensures SetsHostname(other) {
      assert other[..7] == q[..7] && other[p..][..10] == q[p..][..10] == l[p..][..10];
      assert "--hostname" <= other[p..];
    }
  }

  /** The option of the line that a merge inserts, whatever the host name. */
  const HOSTNAME_OPTION: string := "network --hostname="

  lemma OptionSets(l: string)
    requires HOSTNAME_OPTION <= l
    ensures SetsHostname(l)
  {
    assert l[8..][..10] == HOSTNAME_OPTION[8..][..10] == "--hostname";
    assert "--hostname" <= l[8..];
    assert l[..7] == HOSTNAME_OPTION[..7] == "network";
  }

  /** A merged line that begins with the option of a host name line. */
  lemma MergedSets(lines: seq<string>, meta: HostMetadata) returns (k: nat, q: string)
    requires AllSingle(lines)
    ensures k < |MergeLines(lines, meta)| && q <= MergeLines(lines, meta)[k]
    ensures q != "" && '\n' !in q && !EndsInCr(q) && forall l :: q <= l ==> SetsHostname(l)
  {
    if i :| 0 <= i < |lines| && SetsHostname(lines[i]) {
      k := BaseLineStays(lines, meta, i);
      q := HostnamePrefix(lines[i]);
    } else {
      k, q := InsertPos(lines), HOSTNAME_OPTION;
      OptionInserted(lines, meta);
      OptionBegins();
    }
  }

  lemma OptionBegins()
    ensures HOSTNAME_OPTION != "" && '\n' !in HOSTNAME_OPTION && !EndsInCr(HOSTNAME_OPTION)
    ensures forall l :: HOSTNAME_OPTION <= l ==> SetsHostname(l)
  {
    forall l | HOSTNAME_OPTION <= l ensures SetsHostname(l) { OptionSets(l); }
  }

  lemma BaseLineStays(lines: seq<string>, meta: HostMetadata, i: nat) returns (k: nat)
    requires i < |lines|
    ensures k < |MergeLines(lines, meta)| && MergeLines(lines, meta)[k] == lines[i]
  {
    k := if i < InsertPos(lines) then i else i + |Block(lines, meta)|;
  }

  lemma OptionInserted(lines: seq<string>, meta: HostMetadata)
    requires !HostnameSet(lines)
    ensures var p, merged := InsertPos(lines), MergeLines(lines, meta);
      p < |merged| && HOSTNAME_OPTION <= merged[p]
  {
    assert MergeLines(lines, meta)[InsertPos(lines)] == Block(lines, meta)[0] == HOSTNAME_OPTION + meta.hostname;
  }

  /** After a merge the host name is set, for any base and any host name. */
  lemma MergedSetsHostname(base: string, meta: HostMetadata)
    ensures HostnameSet(Lines(Merge(base, meta)))
  {
    LinesSingle(base);
    var k, q := MergedSets(Lines(base), meta);
    var l := BeginsAgain(MergeLines(Lines(base), meta), k, q);
  }

  /** The beginning of a joined line begins a line again. */
  lemma BeginsAgain(lines: seq<string>, k: nat, q: string) returns (l: string)
    requires k < |lines| && q <= lines[k] && q != "" && '\n' !in q && !EndsInCr(q)
    ensures l in Lines(Join(lines, "\n")) && q <= l
  {
    var x, y := JoinAt(lines, k);
    assert lines[k] + y == q + (lines[k][|q|..] + y);
    l := LineBegins(x, q, lines[k][|q|..] + y);
  }

  // ----- Exactly when the merge is idempotent -----

  /** Identity contributes no line; the host name is set, or is inserted in front of a section; no line but the
      last ends in a carriage return; and the last is not empty. */
  predicate Steady(base: string, meta: HostMetadata) {
    var lines := Lines(base);
    && IdentityLines(meta) == []
    && (HostnameSet(lines) || (InsertPos(lines) < |lines| && NoCrLf(meta.hostname + "\n")))
    && Intact(lines)
  }

  /** Joining and re-reading takes nothing from the lines. */
  predicate Intact(lines: seq<string>) {
    && lines != [] && lines[|lines| - 1] != ""
    && forall i :: 0 <= i < |lines| - 1 ==> !EndsInCr(lines[i])
  }

  lemma OptionNoCrLf(hostname: string)
    ensures NoCrLf(HOSTNAME_OPTION + hostname + "\n") <==> NoCrLf(hostname + "\n")
  {
    var h, l := hostname + "\n", HOSTNAME_OPTION + hostname + "\n";
    assert l == HOSTNAME_OPTION + h;
    assert forall i :: 0 <= i < |h| ==> h[i] == l[|HOSTNAME_OPTION| + i];
    forall i | 0 <= i < |HOSTNAME_OPTION| ensures l[i] != '\n' && l[i] != '\r' {
      assert l[i] == HOSTNAME_OPTION[i];
    }
    if NoCrLf(h) {
      forall i | 0 < i < |l| && l[i] == '\n' ensures l[i - 1] != '\r' {
        if i > |HOSTNAME_OPTION| {
          assert h[i - |HOSTNAME_OPTION|] == '\n' && h[i - |HOSTNAME_OPTION| - 1] == l[i - 1];
        }
      }
    }
    if NoCrLf(l) {
      forall i | 0 < i < |h| && h[i] == '\n' ensures h[i - 1] != '\r' {
        assert l[|HOSTNAME_OPTION| + i] == '\n' && l[|HOSTNAME_OPTION| + i - 1] == h[i - 1];
      }
    }
  }

  lemma LinesSettled(lines: seq<string>)
    requires AllSingle(lines) && HostnameSet(lines)
    ensures Settled(Join(lines, "\n")) <==> Intact(lines)
  {
    SettledJoin(lines);
    forall i | 0 <= i < |lines| ensures NoCrLf(lines[i] + "\n") <==> !EndsInCr(lines[i]) {
      SingleEndsInCr(lines[i]);
    }
    SingleSettled(lines[|lines| - 1]);
    assert !SetsHostname("");
  }

  lemma SingleSettled(l: string)
    requires '\n' !in l
    ensures Settled(l)
  {
  }

  /** With a host name line and a blank line in front of line p. */
  lemma InsertedSettled(lines: seq<string>, p: nat, h: string)
    requires AllSingle(lines) && p < |lines|
    ensures Settled(Join(lines[..p] + [h, ""] + lines[p..], "\n")) <==> NoCrLf(h + "\n") && Intact(lines)
  {
    var merged := lines[..p] + [h, ""] + lines[p..];
    SettledJoin(merged);
    SingleSettled(lines[|lines| - 1]);
    assert merged[|merged| - 1] == lines[|lines| - 1];
    assert merged[p] == h && merged[p + 1] == "" && NoCrLf("" + "\n");
    forall i | 0 <= i < |lines| - 1
      ensures var k := if i < p then i else i + 2; k < |merged| - 1 && merged[k] == lines[i]
      ensures NoCrLf(lines[i] + "\n") <==> !EndsInCr(lines[i])
    {
      SingleEndsInCr(lines[i]);
    }
    forall k | 0 <= k < |merged| - 1 && k != p && k != p + 1
      ensures var i := if k < p then k else k - 2; 0 <= i < |lines| - 1 && merged[k] == lines[i]
    {
    }
  }

  lemma EndsUnsettled(lines: seq<string>)
    requires |lines| > 1 && lines[|lines| - 1] == ""
    ensures !Settled(Join(lines, "\n"))
  {
    SettledJoin(lines);
  }

  /** A host name line and a blank one inserted. */
  lemma InsertionSettled(lines: seq<string>, p: nat, h: string)
    requires AllSingle(lines) && p <= |lines|
    ensures Settled(Join(lines[..p] + [h, ""] + lines[p..], "\n")) <==>
            p < |lines| && NoCrLf(h + "\n") && Intact(lines)
  {
    if p < |lines| {
      InsertedSettled(lines, p, h);
    } else {
      EndsUnsettled(lines[..p] + [h, ""] + lines[p..]);
    }
  }

  lemma MergedSettled(lines: seq<string>, meta: HostMetadata)
    requires AllSingle(lines) && IdentityLines(meta) == []
    ensures Settled(Join(MergeLines(lines, meta), "\n")) <==>
            (HostnameSet(lines) || (InsertPos(lines) < |lines| && NoCrLf(meta.hostname + "\n"))) && Intact(lines)
  {
    if HostnameSet(lines) {
      NothingToInsert(lines, meta);
      LinesSettled(lines);
    } else {
      OnlyHostname(lines, meta);
      OptionNoCrLf(meta.hostname);
      InsertionSettled(lines, InsertPos(lines), HOSTNAME_OPTION + meta.hostname);
    }
  }

  lemma OnlyHostname(lines: seq<string>, meta: HostMetadata)
    requires IdentityLines(meta) == [] && !HostnameSet(lines)
    ensures var p := InsertPos(lines);
      MergeLines(lines, meta) == lines[..p] + [HOSTNAME_OPTION + meta.hostname, ""] + lines[p..]
  {
    var h := HOSTNAME_OPTION + meta.hostname;
    assert HostnameLines(lines, meta.hostname) + IdentityLines(meta) == [h];
    assert Block(lines, meta) == [h, ""];
  }

  lemma NothingToInsert(lines: seq<string>, meta: HostMetadata)
    requires IdentityLines(meta) == [] && HostnameSet(lines)
    ensures MergeLines(lines, meta) == lines
  {
    var p := InsertPos(lines);
    assert Block(lines, meta) == [];
    assert lines == lines[..p] + [] + lines[p..];
  }

  /** The merge is idempotent on a text exactly when the text is steady: for every text and all metadata. */
  lemma IdempotentExactly(base: string, meta: HostMetadata)
    ensures Merge(Merge(base, meta), meta) == Merge(base, meta) <==> Steady(base, meta)
  {
    var once := Merge(base, meta);
    if IdentityLines(meta) != [] {
      MergeGrows(once, meta);
    } else {
      MergedSetsHostname(base, meta);
      NothingToInsert(Lines(once), meta);
      JoinLinesExactly(once);
      LinesSingle(base);
      MergedSettled(Lines(base), meta);
    }
  }

  // ----- What merging twice does -----

  /** No value holds a line feed. */
  predicate SingleValues(meta: HostMetadata) {
    && '\n' !in meta.hostname
    && (forall e :: e in meta.publicKeys ==> '\n' !in e.sshUser && AllSingle(e.keys))
    && (forall c :: c in meta.cloudUsers ==> SingleUser(c))
  }

  predicate SingleUser(c: CloudConfigUser) {
    '\n' !in c.name && '\n' !in c.uid && '\n' !in c.shell && AllSingle(c.groups) && AllSingle(c.sshAuthorizedKeys)
  }

  lemma {:induction false} JoinSingle(parts: seq<string>)
    requires AllSingle(parts)
    ensures '\n' !in Join(parts, ",")
  {
    if |parts| > 1 { JoinSingle(parts[1..]); }
  }

  lemma AllSingleAppend(a: seq<string>, b: seq<string>)
    requires AllSingle(a) && AllSingle(b)
    ensures AllSingle(a + b)
  {
  }

  lemma KeyLinesSingle(user: string, keys: seq<string>)
    requires '\n' !in user && AllSingle(keys)
    ensures AllSingle(KeyLines(user, keys))
  {
  }

  lemma UserLineSingle(c: CloudConfigUser)
    requires SingleUser(c)
    ensures '\n' !in UserLine(c)
  {
    JoinSingle(c.groups);
  }

  lemma {:induction false} SystemLinesSingle(entries: seq<PublicKeyEntry>, ccs: seq<CloudConfigUser>)
    requires forall e :: e in entries ==> '\n' !in e.sshUser && AllSingle(e.keys)
    ensures AllSingle(SystemLines(entries, ccs))
  {
    if entries != [] {
      var n := |entries| - 1;
      assert entries[n] in entries && forall e :: e in entries[..n] ==> e in entries;
      SystemLinesSingle(entries[..n], ccs);
      KeyLinesSingle(entries[n].sshUser, entries[n].keys);
      AllSingleAppend(SystemLines(entries[..n], ccs), KeyLines(entries[n].sshUser, entries[n].keys));
    }
  }

  lemma {:induction false} UserLinesSingle(ccs: seq<CloudConfigUser>)
    requires forall c :: c in ccs ==> SingleUser(c)
    ensures AllSingle(UserLines(ccs))
  {
    if ccs != [] {
      var n := |ccs| - 1;
      var c := ccs[n];
      assert c in ccs && forall d :: d in ccs[..n] ==> d in ccs;
      UserLinesSingle(ccs[..n]);
      UserLineSingle(c);
      KeyLinesSingle(c.name, c.sshAuthorizedKeys);
      AllSingleAppend(UserLines(ccs[..n]), [UserLine(c)]);
      AllSingleAppend(UserLines(ccs[..n]) + [UserLine(c)], KeyLines(c.name, c.sshAuthorizedKeys));
    }
  }

  lemma BlockSingle(lines: seq<string>, meta: HostMetadata)
    requires SingleValues(meta)
    ensures AllSingle(Block(lines, meta))
  {
    SystemLinesSingle(meta.publicKeys, meta.cloudUsers);
    UserLinesSingle(meta.cloudUsers);
  }

  lemma {:induction false} SystemLinesPlain(entries: seq<PublicKeyEntry>, ccs: seq<CloudConfigUser>)
    ensures forall l :: l in SystemLines(entries, ccs) ==> l != "" && l[0] == 's'
  {
    if entries != [] { SystemLinesPlain(entries[..|entries| - 1], ccs); }
  }

  lemma {:induction false} UserLinesPlain(ccs: seq<CloudConfigUser>)
    ensures forall l :: l in UserLines(ccs) ==> l != "" && (l[0] == 's' || l[0] == 'u')
  {
    if ccs != [] { UserLinesPlain(ccs[..|ccs| - 1]); }
  }

  lemma BlockHasNoSection(lines: seq<string>, meta: HostMetadata)
    ensures forall i :: 0 <= i < |Block(lines, meta)| ==> !IsSection(Block(lines, meta)[i])
  {
    SystemLinesPlain(meta.publicKeys, meta.cloudUsers);
    UserLinesPlain(meta.cloudUsers);
    var block := Block(lines, meta);
    forall l | l in block ensures l == "" || l[0] != '%' {
      if l in HostnameLines(lines, meta.hostname) { assert l[0] == 'n'; }
    }
    forall i | 0 <= i < |block| ensures !IsSection(block[i]) { assert block[i] in block; }
  }

  lemma {:induction false} InsertPosIs(lines: seq<string>, p: nat)
    requires p <= |lines| && (forall i :: 0 <= i < p ==> !IsSection(lines[i]))
    requires p < |lines| ==> IsSection(lines[p])
    ensures InsertPos(lines) == p
  {
    if p > 0 { InsertPosIs(lines[1..], p - 1); }
  }

  lemma StripSection(l: string)
    ensures IsSection(StripCr(l)) <==> IsSection(l)
  {
    if IsSection(l) {
      var q := if "%packages" <= l then "%packages" else "%post";
      assert l[|q| - 1] == q[|q| - 1] && q <= StripCr(l);
    }
  }

  /** Re-reading lines without a section leaves them without one. */
  lemma NoSectionReread(lines: seq<string>)
    requires forall i :: 0 <= i < |lines| ==> !IsSection(lines[i])
    ensures forall i :: 0 <= i < |StripAll(lines)| ==> !IsSection(StripAll(lines)[i])
    ensures forall i :: 0 <= i < |Reread(lines)| ==> !IsSection(Reread(lines)[i])
  {
    forall i | 0 <= i < |lines| ensures !IsSection(StripCr(lines[i])) { StripSection(lines[i]); }
  }

  lemma SectionReread(lines: seq<string>)
    requires lines != [] && IsSection(lines[0])
    ensures Reread(lines) != [] && IsSection(Reread(lines)[0])
  {
    StripSection(lines[0]);
  }

  /** The lines of a joined text with a section in it, and where a merge inserts. */
  lemma LinesBeforeSection(front: seq<string>, back: seq<string>)
    requires AllSingle(front) && AllSingle(back) && back != [] && IsSection(back[0])
    requires forall i :: 0 <= i < |front| ==> !IsSection(front[i])
    ensures Lines(Join(front + back, "\n")) == StripAll(front) + Reread(back)
    ensures InsertPos(StripAll(front) + Reread(back)) == |front|
  {
    LinesOfJoin(front + back);
    RereadAppend(front, back);
    NoSectionReread(front);
    SectionReread(back);
    InsertPosIs(StripAll(front) + Reread(back), |front|);
  }

  lemma LinesWithoutSection(lines: seq<string>)
    requires AllSingle(lines) && forall i :: 0 <= i < |lines| ==> !IsSection(lines[i])
    ensures Lines(Join(lines, "\n")) == Reread(lines) && InsertPos(Reread(lines)) == |Reread(lines)|
  {
    LinesOfJoin(lines);
    NoSectionReread(lines);
    InsertPosIs(Reread(lines), |Reread(lines)|);
  }

  /** A block without sections inserted into lines, as they are read again. */
  lemma InsertedReread(lines: seq<string>, p: nat, block: seq<string>)
    requires AllSingle(lines) && p == InsertPos(lines)
    requires AllSingle(block) && forall i :: 0 <= i < |block| ==> !IsSection(block[i])
    ensures var front, back := if p < |lines| then StripAll(lines[..p] + block) else Reread(lines + block),
                               if p < |lines| then Reread(lines[p..]) else [];
      Lines(Join(lines[..p] + block + lines[p..], "\n")) == front + back && InsertPos(front + back) == |front|
  {
    if p < |lines| {
      LinesBeforeSection(lines[..p] + block, lines[p..]);
    } else {
      assert lines[..p] + block + lines[p..] == lines + block;
      LinesWithoutSection(lines + block);
      assert Reread(lines + block) + [] == Reread(lines + block);
    }
  }

  /** The lines of the merged text, and where the second merge inserts. */
  lemma LinesOfMerged(base: string, meta: HostMetadata)
    requires SingleValues(meta)
    ensures var lines := Lines(base);
            var p, block := InsertPos(lines), Block(lines, meta);
            var front, back := if p < |lines| then StripAll(lines[..p] + block) else Reread(lines + block),
                               if p < |lines| then Reread(lines[p..]) else [];
      Lines(Merge(base, meta)) == front + back && InsertPos(front + back) == |front|
  {
    LinesSingle(base);
    BlockSingle(Lines(base), meta);
    BlockHasNoSection(Lines(base), meta);
    InsertedReread(Lines(base), InsertPos(Lines(base)), Block(Lines(base), meta));
  }

  /** A second merge sets no host name again and inserts the identity lines once more, behind the first block.
      Everything else keeps its order, but all lines that are not the last lose a carriage return at the end, and
      the last line is lost if it is empty: behind a base without a section, that is the blank line of the first
      block. */
  lemma MergeTwice(base: string, meta: HostMetadata)
    requires SingleValues(meta)
    ensures var lines := Lines(base);
            var p, block := InsertPos(lines), Block(lines, meta);
            var again := if IdentityLines(meta) == [] then [] else IdentityLines(meta) + [""];
      Merge(Merge(base, meta), meta) ==
      Join(if p < |lines| then StripAll(lines[..p] + block) + again + Reread(lines[p..])
           else Reread(lines + block) + again, "\n")
  {
    var lines := Lines(base);
    var p, block := InsertPos(lines), Block(lines, meta);
    var again: seq<string> := if IdentityLines(meta) == [] then [] else IdentityLines(meta) + [""];
    var front, back := if p < |lines| then StripAll(lines[..p] + block) else Reread(lines + block),
                       if p < |lines| then Reread(lines[p..]) else [];
    LinesOfMerged(base, meta);
    MergedSetsHostname(base, meta);
    BlockAgain(front + back, meta);
    assert MergeLines(front + back, meta) == front + again + back by {
      assert (front + back)[..|front|] == front && (front + back)[|front|..] == back;
    }
    assert front + again + [] == front + again;
  }

  lemma BlockAgain(lines: seq<string>, meta: HostMetadata)
    requires HostnameSet(lines)
    ensures Block(lines, meta) == if IdentityLines(meta) == [] then [] else IdentityLines(meta) + [""]
  {
    assert [] + IdentityLines(meta) == IdentityLines(meta);
  }
}
