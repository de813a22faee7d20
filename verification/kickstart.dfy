/** Merging identity into a kickstart file (src/provision.rs), line by line. */
module Kickstart {
  import opened Text
  import opened Model

  predicate StartsWith(s: string, prefix: string) {
    prefix <= s
  }

  predicate IsSection(line: string) {
    StartsWith(line, "%packages") || StartsWith(line, "%post")
  }

  predicate SetsHostname(line: string) {
    StartsWith(line, "network") && Contains(line, "--hostname")
  }

  /** In front of the first %packages or %post, or at the end. */
  function InsertPos(lines: seq<string>): (p: nat)
    ensures p <= |lines| && (forall i :: 0 <= i < p ==> !IsSection(lines[i]))
    ensures p < |lines| ==> IsSection(lines[p])
  {
    if lines == [] || IsSection(lines[0]) then 0 else 1 + InsertPos(lines[1..])
  }

  function KeyLine(user: string, key: string): string {
    "sshkey --username=" + user + " \"" + key + "\""
  }

  function KeyLines(user: string, keys: seq<string>): seq<string> {
    seq(|keys|, i requires 0 <= i < |keys| => KeyLine(user, keys[i]))
  }

  function UserLine(cc: CloudConfigUser): string {
    "user --name=" + cc.name + " --uid=" + cc.uid
    + (if cc.groups == [] then "" else " --groups=" + Join(cc.groups, ",")) + "  --shell=" + cc.shell
  }

  predicate IsIdentityUser(ccs: seq<CloudConfigUser>, name: string) {
    exists c :: c in ccs && c.name == name
  }

  /** Keys of system users, for those that exist on any Linux or are created below. */
  function SystemLines(entries: seq<PublicKeyEntry>, ccs: seq<CloudConfigUser>): seq<string> {
    if entries == [] then []
    else
      var n := |entries| - 1;
      var e := entries[n];
      SystemLines(entries[..n], ccs)
      + (if e.sshUser != "root" && !IsIdentityUser(ccs, e.sshUser) then [] else KeyLines(e.sshUser, e.keys))
  }

  function UserLines(ccs: seq<CloudConfigUser>): seq<string> {
    if ccs == [] then []
    else
      var n := |ccs| - 1;
      UserLines(ccs[..n]) + [UserLine(ccs[n])] + KeyLines(ccs[n].name, ccs[n].sshAuthorizedKeys)
  }

  function HostnameLines(lines: seq<string>, hostname: string): seq<string> {
    if exists l :: l in lines && SetsHostname(l) then [] else ["network --hostname=" + hostname]
  }

  function IdentityLines(meta: HostMetadata): seq<string> {
    SystemLines(meta.publicKeys, meta.cloudUsers) + UserLines(meta.cloudUsers)
  }

  /** The inserted lines, with a blank line after them; nothing if there are none. */
  function Block(lines: seq<string>, meta: HostMetadata): seq<string> {
    var extra := HostnameLines(lines, meta.hostname) + IdentityLines(meta);
    if extra == [] then [] else extra + [""]
  }

  /** The lines of the merged file: the base's, with one block in the middle. */
  function MergeLines(lines: seq<string>, meta: HostMetadata): seq<string> {
    var p := InsertPos(lines);
    lines[..p] + Block(lines, meta) + lines[p..]
  }

  /** What `merge_kickstart` makes of a text. */
  function Merge(base: string, meta: HostMetadata): string {
    Join(MergeLines(Lines(base), meta), "\n")
  }

  /** `merge_kickstart`: the extra lines are collected, then inserted one at a time. */
  method MergeKickstart(base: string, meta: HostMetadata) returns (r: string)
    ensures r == Merge(base, meta)
  {
    var lines := Lines(base);
    var insertPos := InsertPos(lines);
    var extraLines := CollectExtraLines(lines, meta);
    var merged := lines;
    if extraLines != [] {
      merged := InsertLines(lines, insertPos, extraLines + [""]);
    }
    BlockInserted(lines, meta, merged);
    r := Join(merged, "\n");
  }

  lemma BlockInserted(lines: seq<string>, meta: HostMetadata, merged: seq<string>)
    requires var p, extra := InsertPos(lines), HostnameLines(lines, meta.hostname) + IdentityLines(meta);
      merged == if extra == [] then lines else lines[..p] + (extra + [""]) + lines[p..]
    ensures merged == MergeLines(lines, meta)
  {
    var p := InsertPos(lines);
    assert lines == lines[..p] + [] + lines[p..];
  }

  method CollectExtraLines(lines: seq<string>, meta: HostMetadata) returns (extraLines: seq<string>)
    ensures extraLines == HostnameLines(lines, meta.hostname) + IdentityLines(meta)
  {
    extraLines := HostnameLines(lines, meta.hostname);
    var system := CollectSystemLines(meta);
    var users := CollectUserLines(meta.cloudUsers);
    assert extraLines + system + users == extraLines + (system + users);
    extraLines := extraLines + system + users;
  }

  method InsertLines(base: seq<string>, pos: nat, extraLines: seq<string>) returns (lines: seq<string>)
    requires pos <= |base|
    ensures lines == base[..pos] + extraLines + base[pos..]
  {
    lines := base;
    for i := 0 to |extraLines|
      invariant lines == base[..pos] + extraLines[..i] + base[pos..]
    {
      assert lines[..pos + i] == base[..pos] + extraLines[..i];
      assert lines[pos + i..] == base[pos..];
      assert extraLines[..i + 1] == extraLines[..i] + [extraLines[i]];
      lines := lines[..pos + i] + [extraLines[i]] + lines[pos + i..];
    }
    assert extraLines[..|extraLines|] == extraLines;
  }

  method CollectSystemLines(meta: HostMetadata) returns (lines: seq<string>)
    ensures lines == SystemLines(meta.publicKeys, meta.cloudUsers)
  {
    lines := [];
    for i := 0 to |meta.publicKeys|
      invariant lines == SystemLines(meta.publicKeys[..i], meta.cloudUsers)
    {
      var pk := meta.publicKeys[i];
      assert meta.publicKeys[..i + 1][..i] == meta.publicKeys[..i];
      if pk.sshUser != "root" && !IsIdentityUser(meta.cloudUsers, pk.sshUser) {
        continue;
      }
      lines := lines + KeyLines(pk.sshUser, pk.keys);
    }
    assert meta.publicKeys[..|meta.publicKeys|] == meta.publicKeys;
  }

  method CollectUserLines(ccs: seq<CloudConfigUser>) returns (lines: seq<string>)
    ensures lines == UserLines(ccs)
  {
    lines := [];
    for i := 0 to |ccs|
      invariant lines == UserLines(ccs[..i])
    {
      assert ccs[..i + 1][..i] == ccs[..i];
      lines := lines + [UserLine(ccs[i])] + KeyLines(ccs[i].name, ccs[i].sshAuthorizedKeys);
    }
    assert ccs[..|ccs|] == ccs;
  }
}
