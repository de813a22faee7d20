/** The public-key index: printed by the server (src/metadata/handlers.rs), parsed by the agent (src/agent/main.rs). */
module KeyIndex {
  import opened Text
  import opened LineLaws
  import opened Model

  const USIZE_LIMIT: nat := 0x1_0000_0000_0000_0000

  /** Index lines from number `from` on. */
  function Listing(entries: seq<PublicKeyEntry>, from: nat): string {
    if entries == [] then ""
    else Print(from, 10) + "=" + entries[0].sshUser + "\n" + Listing(entries[1..], from + 1)
  }

  /** `public_key`: the path segment must be an index in range. */
  function PublicKey(entries: seq<PublicKeyEntry>, segment: string): Option<string> {
    var i := ParseUnsigned(segment, USIZE_LIMIT);
    if i.Some? && i.value < |entries| then Some(Join(entries[i.value].keys, "\n")) else None
  }

  /** What `authorized_keys` ends with: the keys printed (nothing, if the second request fails), or the local cache. */
  datatype Answer = Keys(text: string) | Nothing | LocalCache

  /** The lines of the index, in turn, until the user is found. */
  function Lookup(entries: seq<PublicKeyEntry>, lines: seq<string>, username: string): Answer {
    if lines == [] then LocalCache
    else
      var line := lines[0];
      var eq := Find(line, '=');
      if line == "" || eq == |line| || line[eq + 1..] != username then Lookup(entries, lines[1..], username)
      else
        var keys := PublicKey(entries, line[..eq]);
        if keys.Some? then Keys(keys.value) else Nothing
  }

  /** `authorized_keys` against the server's two answers for one list of entries. */
  function AuthorizedKeys(entries: seq<PublicKeyEntry>, username: string): Answer {
    Lookup(entries, Lines(Listing(entries, 0)), username)
  }

  /** `public_keys_index`. */
  method PublicKeysIndex(entries: seq<PublicKeyEntry>) returns (listing: string)
    ensures listing == Listing(entries, 0)
  {
    listing := "";
    for i := 0 to |entries|
      invariant listing + Listing(entries[i..], i) == Listing(entries, 0)
    {
      assert entries[i..][1..] == entries[i + 1..];
      var line := Print(i, 10) + "=" + entries[i].sshUser + "\n";
      assert listing + Listing(entries[i..], i) == (listing + line) + Listing(entries[i + 1..], i + 1);
      listing := listing + line;
    }
    assert listing + "" == listing;
  }

  /** The agent's loop over the lines, with its `continue`s and early return. */
  method FindAuthorizedKeys(entries: seq<PublicKeyEntry>, body: string, username: string) returns (r: Answer)
    ensures r == Lookup(entries, Lines(body), username)
  {
    var lines := Lines(body);
    for i := 0 to |lines|
      invariant Lookup(entries, lines, username) == Lookup(entries, lines[i..], username)
    {
      assert lines[i..][1..] == lines[i + 1..];
      var line := lines[i];
      if line == "" {
        continue;
      }
      var eq := Find(line, '=');
      if eq == |line| {
        continue;
      }
      if line[eq + 1..] != username {
        continue;
      }
      var keys := PublicKey(entries, line[..eq]);
      if keys.Some? {
        return Keys(keys.value);
      }
      return Nothing;
    }
    r := LocalCache;
  }

  // ----- The round trip -----

  /** A name that survives being a line. */
  predicate Clean(name: string) {
    '\n' !in name && (name == "" || name[|name| - 1] != '\r')
  }

  lemma {:induction false} PrintPlain(n: nat)
    ensures forall c :: c in Print(n, 10) ==> c != '\n' && c != '\r' && c != '='
  {
    if n >= 10 { PrintPlain(n / 10); }
  }

  function IndexLine(i: nat, name: string): string {
    Print(i, 10) + "=" + name
  }

  /** A line of the index is split where it was put together. */
  lemma IndexLineParts(i: nat, name: string)
    ensures var line := IndexLine(i, name);
      line != "" && Find(line, '=') == |Print(i, 10)| < |line|
      && line[..Find(line, '=')] == Print(i, 10) && line[Find(line, '=') + 1..] == name
  {
    PrintPlain(i);
    var line := IndexLine(i, name);
    assert line[..|Print(i, 10)|] == Print(i, 10);
    FindUnique(line, '=', |Print(i, 10)|);
  }

  lemma StripName(i: nat, name: string)
    ensures StripCr(IndexLine(i, name)) == IndexLine(i, StripCr(name))
  {
    PrintPlain(i);
    var line := IndexLine(i, name);
    assert line[|line| - 1] == if name == "" then '=' else name[|name| - 1];
    if name != "" { assert line[..|line| - 1] == IndexLine(i, name[..|name| - 1]); }
  }

  /** The keys of the first entry for the user, from the position on. */
  function FirstKeys(entries: seq<PublicKeyEntry>, username: string, from: nat): Answer
    requires from <= |entries|
    decreases |entries| - from
  {
    if from == |entries| then LocalCache
    else if entries[from].sshUser == username then Keys(Join(entries[from].keys, "\n"))
    else FirstKeys(entries, username, from + 1)
  }

  lemma {:induction false} LookupFrom(entries: seq<PublicKeyEntry>, username: string, from: nat)
    requires |entries| < USIZE_LIMIT && from <= |entries|
    requires forall i :: 0 <= i < |entries| ==> Clean(entries[i].sshUser)
    ensures Lookup(entries, Lines(Listing(entries[from..], from)), username) == FirstKeys(entries, username, from)
    decreases |entries| - from
  {
    if from < |entries| {
      FirstIndexLine(entries, from);
      StripName(from, entries[from].sshUser);
      IndexLineParts(from, entries[from].sshUser);
      ParsePrinted(from, USIZE_LIMIT);
      LookupFrom(entries, username, from + 1);
    }
  }

  /** The listing begins with its first entry's line. */
  lemma FirstIndexLine(entries: seq<PublicKeyEntry>, from: nat)
    requires from < |entries| && '\n' !in entries[from].sshUser
    ensures var lines := Lines(Listing(entries[from..], from));
      && lines != [] && lines[0] == StripCr(IndexLine(from, entries[from].sshUser))
      && lines[1..] == Lines(Listing(entries[from + 1..], from + 1))
  {
    var line, rest := IndexLine(from, entries[from].sshUser), Listing(entries[from + 1..], from + 1);
    assert entries[from..][1..] == entries[from + 1..];
    assert Listing(entries[from..], from) == line + "\n" + rest;
    PrintPlain(from);
    LinesOfTerminatedLine(line, rest);
  }

  /** The agent prints the keys of the first entry for the user, and falls back to its cache if there is none. */
  lemma RoundTrip(entries: seq<PublicKeyEntry>, username: string)
    requires |entries| < USIZE_LIMIT
    requires forall i :: 0 <= i < |entries| ==> Clean(entries[i].sshUser)
    ensures AuthorizedKeys(entries, username) == FirstKeys(entries, username, 0)
  {
    assert entries[0..] == entries;
    LookupFrom(entries, username, 0);
  }

  /** A name with a line feed is never found. */
  lemma {:induction false} LineFeedNotFound(entries: seq<PublicKeyEntry>, lines: seq<string>, username: string)
    requires '\n' in username && forall i :: 0 <= i < |lines| ==> '\n' !in lines[i]
    ensures Lookup(entries, lines, username).LocalCache?
  {
    if lines != [] {
      assert forall k :: 0 <= k <= |lines[0]| ==> '\n' !in lines[0][k..];
      LineFeedNotFound(entries, lines[1..], username);
    }
  }

  // ----- The condition on names is exact -----

  /** Names come back without one trailing carriage return, so a name that is none of these is not found. */
  lemma {:induction false} StrippedNotFound(entries: seq<PublicKeyEntry>, username: string, from: nat)
    requires from <= |entries|
    requires forall i :: 0 <= i < |entries| ==> '\n' !in entries[i].sshUser && StripCr(entries[i].sshUser) != username
    ensures Lookup(entries, Lines(Listing(entries[from..], from)), username).LocalCache?
    decreases |entries| - from
  {
    if from < |entries| {
      FirstIndexLine(entries, from);
      StripName(from, entries[from].sshUser);
      IndexLineParts(from, StripCr(entries[from].sshUser));
      StrippedNotFound(entries, username, from + 1);
    }
  }

  /** The longest of the names that end in a carriage return. */
  lemma {:induction false} LongestCr(entries: seq<PublicKeyEntry>, n: nat) returns (k: nat)
    requires n <= |entries| && exists i :: 0 <= i < n && EndsInCr(entries[i].sshUser)
    ensures k < n && EndsInCr(entries[k].sshUser)
    ensures forall i :: 0 <= i < n && EndsInCr(entries[i].sshUser) ==> |entries[i].sshUser| <= |entries[k].sshUser|
  {
    if exists i :: 0 <= i < n - 1 && EndsInCr(entries[i].sshUser) {
      k := LongestCr(entries, n - 1);
      if EndsInCr(entries[n - 1].sshUser) && |entries[n - 1].sshUser| > |entries[k].sshUser| { k := n - 1; }
    } else {
      k := n - 1;
    }
  }

  /** The entries are served right: whoever is listed gets the keys of the first entry of that name. */
  predicate ServedRight(entries: seq<PublicKeyEntry>) {
    forall i :: 0 <= i < |entries| ==>
      AuthorizedKeys(entries, entries[i].sshUser) == FirstKeys(entries, entries[i].sshUser, 0)
  }

  lemma {:induction false} ListedHasKeys(entries: seq<PublicKeyEntry>, i: nat, from: nat)
    requires from <= i < |entries|
    ensures FirstKeys(entries, entries[i].sshUser, from).Keys?
    decreases i - from
  {
    if entries[from].sshUser != entries[i].sshUser { ListedHasKeys(entries, i, from + 1); }
  }

  lemma UncleanShows(entries: seq<PublicKeyEntry>, i: nat) returns (k: nat)
    requires i < |entries| && !Clean(entries[i].sshUser)
    ensures k < |entries| && AuthorizedKeys(entries, entries[k].sshUser).LocalCache?
  {
    if j :| 0 <= j < |entries| && '\n' in entries[j].sshUser {
      k := j;
      forall l | 0 <= l < |Lines(Listing(entries, 0))| ensures '\n' !in Lines(Listing(entries, 0))[l] {
        LinesClean(Listing(entries, 0), l);
      }
      LineFeedNotFound(entries, Lines(Listing(entries, 0)), entries[k].sshUser);
    } else {
      k := LongestCr(entries, |entries|);
      assert entries[0..] == entries;
      StrippedNotFound(entries, entries[k].sshUser, 0);
    }
  }

  /** Every listed user is served right exactly when no name holds a line feed or ends in a carriage return. */
  lemma RoundTripExactly(entries: seq<PublicKeyEntry>)
    requires |entries| < USIZE_LIMIT
    ensures ServedRight(entries) <==> forall i :: 0 <= i < |entries| ==> Clean(entries[i].sshUser)
  {
    if i :| 0 <= i < |entries| && !Clean(entries[i].sshUser) {
      var k := UncleanShows(entries, i);
      ListedHasKeys(entries, k, 0);
    } else {
      forall i | 0 <= i < |entries|
        ensures AuthorizedKeys(entries, entries[i].sshUser) == FirstKeys(entries, entries[i].sshUser, 0)
      {
        RoundTrip(entries, entries[i].sshUser);
      }
    }
  }
}
