/** What a merged kickstart file says about users, keys and the host name, line by line. */
module KickstartUsersLaws {
  import opened Text
  import opened LineLaws
  import opened Model
  import opened Kickstart
  import opened KickstartLaws

  // ----- Where the block goes, and the host name -----

  /** The line begins a package or script section. */
  predicate BeginsSection(line: string) {
    "%packages" <= line || "%post" <= line
  }

  predicate GivesHostname(line: string) {
    "network" <= line && exists p :: 0 <= p <= |line| && "--hostname" <= line[p..]
  }

  /** The merged lines are the base's with one block in front of the first section, or at the end. The block begins
      with a host name line exactly if the base has none, ends with a blank line, and is empty if it would be just
      that. */
  lemma MergedLinesExactly(lines: seq<string>, meta: HostMetadata) returns (p: nat, block: seq<string>)
    ensures p <= |lines| && MergeLines(lines, meta) == lines[..p] + block + lines[p..]
    ensures (forall i :: 0 <= i < p ==> !BeginsSection(lines[i])) && (p < |lines| ==> BeginsSection(lines[p]))
    ensures var named := exists l :: l in lines && GivesHostname(l);
            var extra := (if named then [] else ["network --hostname=" + meta.hostname]) + IdentityLines(meta);
      block == if extra == [] then [] else extra + [""]
  {
    p, block := InsertPos(lines), Block(lines, meta);
    forall l ensures GivesHostname(l) <==> SetsHostname(l) {
    }
  }

  // ----- Key lines -----

  function KeyText(user: string, key: string): string {
    "sshkey --username=" + user + (" \"" + key + "\"")
  }

  lemma KeyTextIs(user: string, key: string)
    ensures KeyText(user, key) == KeyLine(user, key)
  {
  }

  /** A key line can be read back: the user, as long as names have no blanks, and the key. */
  lemma KeyTextReadBack(user1: string, key1: string, user2: string, key2: string)
    requires ' ' !in user1 && ' ' !in user2 && KeyText(user1, key1) == KeyText(user2, key2)
    ensures user1 == user2 && key1 == key2
  {
    var rest1, rest2 := " \"" + key1 + "\"", " \"" + key2 + "\"";
    KeyTextParts(user1, key1);
    KeyTextParts(user2, key2);
    SameBehind("sshkey --username=", user1 + rest1, user2 + rest2);
    FirstBlank(user1, rest1);
    FirstBlank(user2, rest2);
    assert user1 == (user1 + rest1)[..|user1|] && user2 == (user2 + rest2)[..|user2|];
    SameBehind(user1, rest1, rest2);
    assert key1 == rest1[2..|rest1| - 1] && key2 == rest2[2..|rest2| - 1];
  }

  lemma KeyTextParts(user: string, key: string)
    ensures KeyText(user, key) == "sshkey --username=" + (user + (" \"" + key + "\""))
  {
  }

  lemma SameBehind(front: string, a: string, b: string)
    requires front + a == front + b
    ensures a == b
  {
    assert a == (front + a)[|front|..] && b == (front + b)[|front|..];
  }

  lemma FirstBlank(user: string, rest: string)
    requires ' ' !in user && rest != "" && rest[0] == ' '
    ensures Find(user + rest, ' ') == |user|
  {
    assert (user + rest)[..|user|] == user;
    FindUnique(user + rest, ' ', |user|);
  }

  /** The metadata gives the key to an ssh user that exists: root, or a login user. */
  predicate SystemKey(entries: seq<PublicKeyEntry>, ccs: seq<CloudConfigUser>, user: string, key: string) {
    && (exists e :: e in entries && e.sshUser == user && key in e.keys)
    && (user == "root" || exists c :: c in ccs && c.name == user)
  }

  predicate LoginKey(ccs: seq<CloudConfigUser>, user: string, key: string) {
    exists c :: c in ccs && c.name == user && key in c.sshAuthorizedKeys
  }

  lemma KeyLinesHave(user: string, keys: seq<string>, l: string)
    ensures l in KeyLines(user, keys) <==> exists k :: k in keys && l == KeyText(user, k)
  {
    forall k ensures KeyText(user, k) == KeyLine(user, k) { KeyTextIs(user, k); }
    var lines := KeyLines(user, keys);
    if k :| k in keys && l == KeyText(user, k) {
      var i :| 0 <= i < |keys| && keys[i] == k;
      assert lines[i] == l;
    }
  }

  lemma KeyLinesOf(user: string, keys: seq<string>, name: string, key: string)
    requires ' ' !in user && ' ' !in name
    ensures KeyText(name, key) in KeyLines(user, keys) <==> user == name && key in keys
  {
    KeyLinesHave(user, keys, KeyText(name, key));
    forall k | KeyText(name, key) == KeyText(user, k) ensures user == name && k == key {
      KeyTextReadBack(name, key, user, k);
    }
  }

  lemma {:induction false} SystemLinesHave(entries: seq<PublicKeyEntry>, ccs: seq<CloudConfigUser>, user: string,
                                           key: string)
    requires ' ' !in user && forall e :: e in entries ==> ' ' !in e.sshUser
    ensures KeyText(user, key) in SystemLines(entries, ccs) <==> SystemKey(entries, ccs, user, key)
  {
    if entries != [] {
      var n := |entries| - 1;
      var e := entries[n];
      assert e in entries && forall d :: d in entries <==> d in entries[..n] || d == e;
      SystemLinesHave(entries[..n], ccs, user, key);
      KeyLinesOf(e.sshUser, e.keys, user, key);
    }
  }

  lemma {:induction false} UserLinesHave(ccs: seq<CloudConfigUser>, user: string, key: string)
    requires ' ' !in user && forall c :: c in ccs ==> ' ' !in c.name
    ensures KeyText(user, key) in UserLines(ccs) <==> LoginKey(ccs, user, key)
  {
    if ccs != [] {
      var n := |ccs| - 1;
      var c := ccs[n];
      assert c in ccs && forall d :: d in ccs <==> d in ccs[..n] || d == c;
      UserLinesHave(ccs[..n], user, key);
      KeyLinesOf(c.name, c.sshAuthorizedKeys, user, key);
      assert KeyText(user, key)[0] == 's' && UserLine(c)[0] == 'u';
    }
  }

  predicate BlankFree(meta: HostMetadata) {
    && (forall e :: e in meta.publicKeys ==> ' ' !in e.sshUser)
    && (forall c :: c in meta.cloudUsers ==> ' ' !in c.name)
  }

  /** A key line for a user is inserted exactly when the metadata gives the key to that name: as a login user, or as
      an ssh user that is root or a login user too. Others, who may not exist on the machine, get none. */
  lemma KeyLinesExactly(meta: HostMetadata, user: string, key: string)
    requires BlankFree(meta) && ' ' !in user
    ensures KeyText(user, key) in IdentityLines(meta) <==>
            SystemKey(meta.publicKeys, meta.cloudUsers, user, key) || LoginKey(meta.cloudUsers, user, key)
  {
    SystemLinesHave(meta.publicKeys, meta.cloudUsers, user, key);
    UserLinesHave(meta.cloudUsers, user, key);
  }

  // ----- Login lines -----

  function LoginWords(c: CloudConfigUser): (words: seq<string>) {
    ["user", "--name=" + c.name, "--uid=" + c.uid]
    + (if c.groups == [] then [] else ["--groups=" + Join(c.groups, ",")])
    + ["", "--shell=" + c.shell]
  }

  /** No value has a blank, and no group a comma. */
  predicate PlainLogin(c: CloudConfigUser) {
    ' ' !in c.name && ' ' !in c.uid && ' ' !in c.shell && AllWithout(c.groups, ' ') && AllWithout(c.groups, ',')
  }

  /** The words of the line are the account's values, each behind its option; the groups are split at commas. */
  predicate ReadsLogin(line: string, c: CloudConfigUser) {
    var words := Split(line, ' ');
    var n := |words|;
    && n == (if c.groups == [] then 5 else 6)
    && words[0] == "user" && words[1] == "--name=" + c.name && words[2] == "--uid=" + c.uid
    && words[n - 2] == "" && words[n - 1] == "--shell=" + c.shell
    && (c.groups != [] ==> "--groups=" <= words[3] && Split(words[3][9..], ',') == c.groups)
  }

  lemma {:induction false} JoinWithout(parts: seq<string>, c: char)
    requires AllWithout(parts, c) && c != ','
    ensures c !in Join(parts, ",")
  {
    if |parts| > 1 { JoinWithout(parts[1..], c); }
  }

  lemma JoinFive(a: string, b: string, c: string, d: string, e: string)
    ensures Join([a, b, c, d, e], " ") == a + " " + (b + " " + (c + " " + (d + " " + e)))
  {
    assert [a, b, c, d, e][1..] == [b, c, d, e] && [b, c, d, e][1..] == [c, d, e];
    assert [c, d, e][1..] == [d, e] && [d, e][1..] == [e];
    assert Join([d, e], " ") == d + " " + e;
    assert Join([c, d, e], " ") == c + " " + Join([d, e], " ");
    assert Join([b, c, d, e], " ") == b + " " + Join([c, d, e], " ");
  }

  lemma JoinSix(a: string, b: string, c: string, d: string, e: string, f: string)
    ensures Join([a, b, c, d, e, f], " ") == a + " " + (b + " " + (c + " " + (d + " " + (e + " " + f))))
  {
    assert [a, b, c, d, e, f][1..] == [b, c, d, e, f];
    JoinFive(b, c, d, e, f);
  }

  lemma FiveParts(w: string, o1: string, n: string, o2: string, u: string, o4: string, s: string)
    ensures (w + " " + o1) + n + (" " + o2) + u + "" + ("  " + o4) + s ==
            w + " " + (o1 + n + " " + (o2 + u + " " + ("" + " " + (o4 + s))))
  {
  }

  lemma FiveAround(name: string, uid: string, shell: string)
    ensures "user --name=" + name + " --uid=" + uid + "" + "  --shell=" + shell ==
            "user" + " " + ("--name=" + name + " " + ("--uid=" + uid + " " + ("" + " " + ("--shell=" + shell))))
  {
    FiveParts("user", "--name=", name, "--uid=", uid, "--shell=", shell);
    assert "user --name=" == "user" + " " + "--name=" && " --uid=" == " " + "--uid=" && "  --shell=" == "  " + "--shell=";
  }

  lemma SixParts(w: string, o1: string, n: string, o2: string, u: string, o3: string, g: string, o4: string, s: string)
    ensures (w + " " + o1) + n + (" " + o2) + u + ((" " + o3) + g) + ("  " + o4) + s ==
            w + " " + (o1 + n + " " + (o2 + u + " " + (o3 + g + " " + ("" + " " + (o4 + s)))))
  {
  }

  lemma SixAround(name: string, uid: string, groups: string, shell: string)
    ensures "user --name=" + name + " --uid=" + uid + (" --groups=" + groups) + "  --shell=" + shell ==
            "user" + " " + ("--name=" + name + " " + ("--uid=" + uid + " "
            + ("--groups=" + groups + " " + ("" + " " + ("--shell=" + shell)))))
  {
    SixParts("user", "--name=", name, "--uid=", uid, "--groups=", groups, "--shell=", shell);
    assert "user --name=" == "user" + " " + "--name=" && " --uid=" == " " + "--uid=";
    assert " --groups=" == " " + "--groups=" && "  --shell=" == "  " + "--shell=";
  }

  lemma LoginIsWords(c: CloudConfigUser)
    ensures UserLine(c) == Join(LoginWords(c), " ")
  {
    if c.groups == [] {
      assert LoginWords(c) == ["user", "--name=" + c.name, "--uid=" + c.uid, "", "--shell=" + c.shell];
      JoinFive("user", "--name=" + c.name, "--uid=" + c.uid, "", "--shell=" + c.shell);
      FiveAround(c.name, c.uid, c.shell);
    } else {
      var groups := "--groups=" + Join(c.groups, ",");
      assert LoginWords(c) == ["user", "--name=" + c.name, "--uid=" + c.uid, groups, "", "--shell=" + c.shell];
      JoinSix("user", "--name=" + c.name, "--uid=" + c.uid, groups, "", "--shell=" + c.shell);
      SixAround(c.name, c.uid, Join(c.groups, ","), c.shell);
    }
  }

  lemma OptionWithout(option: string, value: string, c: char)
    requires c !in option && c !in value
    ensures c !in option + value
  {
  }

  lemma LoginWordsPlain(c: CloudConfigUser)
    requires PlainLogin(c)
    ensures AllWithout(LoginWords(c), ' ')
  {
    JoinWithout(c.groups, ' ');
    OptionWithout("--name=", c.name, ' ');
    OptionWithout("--uid=", c.uid, ' ');
    OptionWithout("--groups=", Join(c.groups, ","), ' ');
    OptionWithout("--shell=", c.shell, ' ');
  }

  lemma WordsRead(line: string, words: seq<string>, groups: string, c: CloudConfigUser)
    requires Split(line, ' ') == words && words == LoginWords(c) && groups == Join(c.groups, ",")
    requires c.groups != [] ==> Split(groups, ',') == c.groups
    ensures ReadsLogin(line, c)
  {
    if c.groups != [] {
      assert words[3] == "--groups=" + groups;
      assert words[3][9..] == groups;
    }
  }

  /** A login line can be read back. */
  lemma LoginReadBack(line: string, c: CloudConfigUser)
    requires PlainLogin(c) && line == UserLine(c)
    ensures ReadsLogin(line, c)
  {
    var words := LoginWords(c);
    LoginIsWords(c);
    LoginWordsPlain(c);
    SplitJoin(words, ' ');
    if c.groups != [] { SplitJoin(c.groups, ','); }
    WordsRead(line, words, Join(c.groups, ","), c);
  }

  /** A user's line, and the keys behind it. */
  function LoginLines(c: CloudConfigUser): seq<string> {
    [UserLine(c)] + KeyLines(c.name, c.sshAuthorizedKeys)
  }

  predicate PartAt(whole: seq<string>, q: nat, part: seq<string>) {
    q + |part| <= |whole| && whole[q..q + |part|] == part
  }

  lemma PartBehind(front: seq<string>, whole: seq<string>, q: nat, part: seq<string>)
    requires PartAt(whole, q, part)
    ensures PartAt(front + whole, |front| + q, part)
  {
    assert (front + whole)[|front| + q..|front| + q + |part|] == whole[q..q + |part|];
  }

  lemma PartExtended(whole: seq<string>, back: seq<string>, q: nat, part: seq<string>)
    requires PartAt(whole, q, part)
    ensures PartAt(whole + back, q, part)
  {
    assert (whole + back)[q..q + |part|] == whole[q..q + |part|];
  }

  lemma PartLater(front: seq<string>, whole: seq<string>, back: seq<string>, q: nat, part: seq<string>)
    requires PartAt(whole, q, part)
    ensures PartAt(front + whole + back, |front| + q, part)
  {
    PartBehind(front, whole, q, part);
    PartExtended(front + whole, back, |front| + q, part);
  }

  lemma LastLogin(ccs: seq<CloudConfigUser>)
    requires ccs != []
    ensures UserLines(ccs) == UserLines(ccs[..|ccs| - 1]) + LoginLines(ccs[|ccs| - 1])
  {
  }

  /** Where a login user's lines are. */
  lemma {:induction false} LoginLinesAt(ccs: seq<CloudConfigUser>, c: CloudConfigUser) returns (p: nat)
    requires c in ccs
    ensures PartAt(UserLines(ccs), p, LoginLines(c))
  {
    var n := |ccs| - 1;
    var before := UserLines(ccs[..n]);
    LastLogin(ccs);
    if c == ccs[n] {
      p := |before|;
    } else {
      assert ccs == ccs[..n] + [ccs[n]];
      p := LoginLinesAt(ccs[..n], c);
      PartExtended(before, LoginLines(ccs[n]), p, LoginLines(c));
    }
  }

  lemma LoginInBlock(lines: seq<string>, meta: HostMetadata, c: CloudConfigUser) returns (q: nat)
    requires c in meta.cloudUsers
    ensures PartAt(Block(lines, meta), q, LoginLines(c)) && q + |LoginLines(c)| < |Block(lines, meta)|
  {
    var p := LoginLinesAt(meta.cloudUsers, c);
    var front := HostnameLines(lines, meta.hostname) + SystemLines(meta.publicKeys, meta.cloudUsers);
    q := |front| + p;
    assert Block(lines, meta) == front + UserLines(meta.cloudUsers) + [""];
    PartLater(front, UserLines(meta.cloudUsers), [""], p, LoginLines(c));
  }

  lemma StrippedPart(block: seq<string>, q: nat, part: seq<string>)
    requires PartAt(block, q, part)
    ensures PartAt(StripAll(block), q, StripAll(part))
  {
    forall i | 0 <= i < |part| ensures StripAll(block)[q + i] == StripAll(part)[i] {
      assert block[q..q + |part|][i] == block[q + i];
    }
  }

  lemma PartShorter(whole: seq<string>, n: nat, q: nat, part: seq<string>)
    requires PartAt(whole, q, part) && q + |part| <= n <= |whole|
    ensures PartAt(whole[..n], q, part)
  {
    assert whole[..n][q..q + |part|] == whole[q..q + |part|];
  }

  lemma RereadPart(block: seq<string>, q: nat, part: seq<string>)
    requires PartAt(block, q, part) && q + |part| < |block|
    ensures PartAt(Reread(block), q, StripAll(part))
  {
    var n := |block| - 1;
    PartShorter(block, n, q, part);
    StrippedPart(block[..n], q, part);
    PartExtended(StripAll(block[..n]), if block[n] == "" then [] else [block[n]], q, StripAll(part));
  }

  /** Where a part of a block is, when the block has been inserted and the lines are read again. */
  lemma PartBeforeSection(front: seq<string>, block: seq<string>, back: seq<string>, q: nat, part: seq<string>)
    requires PartAt(block, q, part)
    ensures PartAt(StripAll(front + block) + back, |front| + q, StripAll(part))
  {
    StrippedPart(block, q, part);
    StripAllAppend(front, block);
    PartLater(StripAll(front), StripAll(block), back, q, StripAll(part));
  }

  lemma PartOfSum(all: seq<string>, front: seq<string>, back: seq<string>, n: nat, q: nat, part: seq<string>)
    requires all == front + back && n == |front| && PartAt(back, q, part)
    ensures PartAt(all, n + q, part)
  {
    PartBehind(front, back, q, part);
  }

  lemma PartAtEnd(lines: seq<string>, block: seq<string>, q: nat, part: seq<string>)
    requires PartAt(block, q, part) && q + |part| < |block|
    ensures PartAt(Reread(lines + block), |lines| + q, StripAll(part))
  {
    var tail, stripped := Reread(block), StripAll(part);
    assert PartAt(tail, q, stripped) by { RereadPart(block, q, part); }
    assert Reread(lines + block) == StripAll(lines) + tail by { RereadAppend(lines, block); }
    PartOfSum(Reread(lines + block), StripAll(lines), tail, |lines|, q, stripped);
  }

  lemma PartReread(front: seq<string>, block: seq<string>, back: seq<string>, q: nat, part: seq<string>)
    requires PartAt(block, q, part) && q + |part| < |block|
    ensures PartAt(Reread(front + block + back), |front| + q, StripAll(part))
  {
    if back == [] {
      assert front + block + back == front + block;
      PartAtEnd(front, block, q, part);
    } else {
      RereadAppend(front + block, back);
      PartBeforeSection(front, block, Reread(back), q, part);
    }
  }

  lemma InsertedPart(all: seq<string>, front: seq<string>, block: seq<string>, back: seq<string>, q: nat,
                     part: seq<string>)
    requires all == front + block + back && AllSingle(all) && PartAt(block, q, part) && q + |part| < |block|
    ensures PartAt(Lines(Join(all, "\n")), |front| + q, StripAll(part))
  {
    LinesOfJoin(all);
    PartReread(front, block, back, q, part);
  }

  /** A part of the block, as it is read in the merged text. */
  lemma MergedPart(base: string, meta: HostMetadata, q: nat, part: seq<string>)
    requires SingleValues(meta)
    requires PartAt(Block(Lines(base), meta), q, part) && q + |part| < |Block(Lines(base), meta)|
    ensures PartAt(Lines(Merge(base, meta)), InsertPos(Lines(base)) + q, StripAll(part))
  {
    LinesSingle(base);
    BlockSingle(Lines(base), meta);
    var lines, p := Lines(base), InsertPos(Lines(base));
    AllSingleAppend(lines[..p], Block(lines, meta));
    AllSingleAppend(lines[..p] + Block(lines, meta), lines[p..]);
    InsertedPart(MergeLines(lines, meta), lines[..p], Block(lines, meta), lines[p..], q, part);
  }

  lemma KeyLineKept(user: string, key: string)
    ensures StripCr(KeyLine(user, key)) == KeyText(user, key)
  {
    KeyTextIs(user, key);
    var l := KeyLine(user, key);
    assert l[|l| - 1] == '"';
  }

  lemma LoginLineKept(c: CloudConfigUser)
    requires !EndsInCr(c.shell)
    ensures StripCr(UserLine(c)) == UserLine(c)
  {
    var l := UserLine(c);
    assert c.shell != "" ==> l[|l| - 1] == c.shell[|c.shell| - 1];
    assert c.shell == "" ==> l[|l| - 1] == '=';
  }

  function KeyTexts(user: string, keys: seq<string>): seq<string> {
    seq(|keys|, i requires 0 <= i < |keys| => KeyText(user, keys[i]))
  }

  lemma LoginLinesKept(c: CloudConfigUser)
    requires !EndsInCr(c.shell)
    ensures StripAll(LoginLines(c)) == [UserLine(c)] + KeyTexts(c.name, c.sshAuthorizedKeys)
  {
    LoginLineKept(c);
    forall i | 0 <= i < |c.sshAuthorizedKeys|
      ensures StripAll(LoginLines(c))[1 + i] == KeyTexts(c.name, c.sshAuthorizedKeys)[i]
    {
      KeyLineKept(c.name, c.sshAuthorizedKeys[i]);
    }
  }

  /** In the merged text each login user has a line that can be read back, and behind it the keys, in order. */
  lemma LoginsServed(base: string, meta: HostMetadata, c: CloudConfigUser) returns (p: nat, login: string)
    requires SingleValues(meta) && c in meta.cloudUsers && PlainLogin(c) && !EndsInCr(c.shell)
    ensures ReadsLogin(login, c)
    ensures PartAt(Lines(Merge(base, meta)), p, [login] + KeyTexts(c.name, c.sshAuthorizedKeys))
  {
    var q := LoginInBlock(Lines(base), meta, c);
    p, login := InsertPos(Lines(base)) + q, UserLine(c);
    LoginReadBack(login, c);
    LoginLinesKept(c);
    MergedPart(base, meta, q, LoginLines(c));
  }
}
