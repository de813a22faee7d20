/** IMDSv2 session tokens (src/cache.rs): issued with a counter, pruned lazily. */
module ImdsTokens {
  import opened Text
  import opened Model

  const U64_LIMIT: nat := 0x1_0000_0000_0000_0000

  datatype ImdsToken = ImdsToken(ip: Ip, ttlSecs: U32, createdAt: nat)

  /** Still valid in the very second in which the lifetime ends. */
  function Deadline(t: ImdsToken): nat {
    t.createdAt + t.ttlSecs
  }

  predicate IsExpired(t: ImdsToken, now: nat) {
    now > Deadline(t)
  }

  /** `cloudid-{:016x}-{:08x}`. */
  function TokenText(now: nat, counter: nat): string {
    "cloudid-" + Pad(Print(now, 16), 16) + "-" + Pad(Print(counter, 16), 8)
  }

  /** The `retain` of `generate_imds_token`. */
  function Prune(tokens: map<string, ImdsToken>, clock: string -> nat): map<string, ImdsToken> {
    map t | t in tokens && !IsExpired(tokens[t], clock(t)) :: tokens[t]
  }

  function Validate(tokens: map<string, ImdsToken>, token: string, now: nat): Option<Ip> {
    if token in tokens && !IsExpired(tokens[token], now) then Some(tokens[token].ip) else None
  }

  /** One call of `generate_imds_token`: the clock is read for the stamp, and again for each token in the store. */
  datatype Issue = Issue(ip: Ip, ttlSecs: U32, now: nat, clock: string -> nat)

  function TokenOf(e: Issue): ImdsToken {
    ImdsToken(e.ip, e.ttlSecs, e.now)
  }

  /** The name of the i-th token of a run: the counter starts at 1. */
  function NameOf(run: seq<Issue>, i: nat): string
    requires i < |run|
  {
    TokenText(run[i].now, 1 + i)
  }

  /** The store after a run, with and without the pruning. */
  function Lazy(run: seq<Issue>): map<string, ImdsToken> {
    if |run| == 0 then map[]
    else
      var last := run[|run| - 1];
      Prune(Lazy(run[..|run| - 1])[TokenText(last.now, |run|) := TokenOf(last)], last.clock)
  }

  function Keeping(run: seq<Issue>): map<string, ImdsToken> {
    if |run| == 0 then map[]
    else
      var last := run[|run| - 1];
      Keeping(run[..|run| - 1])[TokenText(last.now, |run|) := TokenOf(last)]
  }

  /** A run short enough for the counter not to wrap, with stamps that fit 64 bits. */
  predicate Bounded(run: seq<Issue>) {
    |run| + 1 < U64_LIMIT && forall i :: 0 <= i < |run| ==> run[i].now < U64_LIMIT
  }

  lemma {:induction false} PrintLength(n: nat, k: nat)
    requires n < Pow16(k) && k > 0
    ensures |Print(n, 16)| <= k
    decreases k
  {
    if n >= 16 { PrintLength(n / 16, k - 1); }
  }

  function Pow16(k: nat): nat {
    if k == 0 then 1 else 16 * Pow16(k - 1)
  }

  lemma StampWidth(now: nat)
    requires now < U64_LIMIT
    ensures |Pad(Print(now, 16), 16)| == 16
  {
    assert Pow16(4) == 0x1_0000;
    assert Pow16(8) == 0x1_0000_0000;
    assert Pow16(12) == 0x1_0000_0000_0000;
    assert Pow16(16) == U64_LIMIT;
    PrintLength(now, 16);
  }

  /** A token reads as the word, the stamp in sixteen digits and the counter in at least eight, both hexadecimal. */
  lemma TokenTextParts(now: nat, counter: nat)
    requires now < U64_LIMIT
    ensures var t := TokenText(now, counter);
      && |t| >= 33 && t[..8] == "cloudid-" && t[24] == '-'
      && AllDigits(t[8..24], 16) && Value(t[8..24], 16) == now
      && AllDigits(t[25..], 16) && Value(t[25..], 16) == counter
  {
    StampWidth(now);
    Hexadecimal(now, 16);
    Hexadecimal(counter, 8);
    FourParts("cloudid-", Pad(Print(now, 16), 16), Pad(Print(counter, 16), 8));
  }

  lemma Hexadecimal(n: nat, width: nat)
    ensures var h := Pad(Print(n, 16), width); AllDigits(h, 16) && Value(h, 16) == n
  {
    PrintValue(n, 16);
    PadValue(Print(n, 16), width, 16);
  }

  lemma FourParts(word: string, stamp: string, count: string)
    requires |word| == 8 && |stamp| == 16
    ensures var t := word + stamp + "-" + count;
      |t| == 25 + |count| && t[..8] == word && t[8..24] == stamp && t[24] == '-' && t[25..] == count
  {
  }

  /** Distinct counters or stamps give distinct tokens. */
  lemma TokenTextInjective(now1: nat, counter1: nat, now2: nat, counter2: nat)
    requires now1 < U64_LIMIT && now2 < U64_LIMIT
    requires TokenText(now1, counter1) == TokenText(now2, counter2)
    ensures now1 == now2 && counter1 == counter2
  {
    TokenTextParts(now1, counter1);
    TokenTextParts(now2, counter2);
  }

  /** All tokens of a run are distinct. */
  lemma NamesDistinct(run: seq<Issue>, i: nat, j: nat)
    requires Bounded(run) && i < j < |run|
    ensures NameOf(run, i) != NameOf(run, j)
  {
    if NameOf(run, i) == NameOf(run, j) {
      TokenTextInjective(run[i].now, 1 + i, run[j].now, 1 + j);
    }
  }

  /** No pruning since the token was issued found it expired. */
  predicate Survives(run: seq<Issue>, i: nat)
    requires i < |run|
  {
    forall j :: i <= j < |run| ==> run[j].clock(NameOf(run, i)) <= Deadline(TokenOf(run[i]))
  }

  lemma {:induction false} KeepingHolds(run: seq<Issue>, i: nat)
    requires Bounded(run) && i < |run|
    ensures NameOf(run, i) in Keeping(run) && Keeping(run)[NameOf(run, i)] == TokenOf(run[i])
  {
    var n := |run| - 1;
    if i < n {
      KeepingHolds(run[..n], i);
      NamesDistinct(run, i, n);
    }
  }

  lemma {:induction false} LazyHolds(run: seq<Issue>, i: nat)
    requires Bounded(run) && i < |run|
    ensures NameOf(run, i) in Lazy(run) <==> Survives(run, i)
    ensures Survives(run, i) ==> Lazy(run)[NameOf(run, i)] == TokenOf(run[i])
  {
    var n := |run| - 1;
    if i < n {
      LazyHolds(run[..n], i);
      NamesDistinct(run, i, n);
      assert Survives(run, i) <==> Survives(run[..n], i) && run[n].clock(NameOf(run, i)) <= Deadline(TokenOf(run[i]));
    }
  }

  lemma {:induction false} OnlyIssued(run: seq<Issue>, token: string)
    requires token in Keeping(run) || token in Lazy(run)
    ensures exists i :: 0 <= i < |run| && token == NameOf(run, i)
  {
    var n := |run| - 1;
    if token == TokenText(run[n].now, |run|) {
      assert token == NameOf(run, n);
    } else {
      OnlyIssued(run[..n], token);
      var i :| 0 <= i < n && token == NameOf(run[..n], i);
      assert token == NameOf(run, i);
    }
  }

  /** For each token: the pruning store answers as one that never prunes exactly when the token is
      expired anyway, or no pruning since its issue saw a clock past its deadline. */
  lemma PruningInvisibleExactly(run: seq<Issue>, i: nat, now: nat)
    requires Bounded(run) && i < |run|
    ensures Validate(Lazy(run), NameOf(run, i), now) == Validate(Keeping(run), NameOf(run, i), now)
            <==> IsExpired(TokenOf(run[i]), now) || Survives(run, i)
  {
    KeepingHolds(run, i);
    LazyHolds(run, i);
  }

  /** With a clock that does not go back, no request can tell that tokens are pruned. */
  lemma PruningInvisible(run: seq<Issue>, token: string, now: nat)
    requires Bounded(run)
    requires forall j, t :: 0 <= j < |run| ==> run[j].clock(t) <= now
    ensures Validate(Lazy(run), token, now) == Validate(Keeping(run), token, now)
  {
    if token in Keeping(run) || token in Lazy(run) {
      OnlyIssued(run, token);
      var i :| 0 <= i < |run| && token == NameOf(run, i);
      PruningInvisibleExactly(run, i, now);
    }
  }

  /** A token is accepted, for the address it was issued to, through its deadline and not after. */
  lemma AcceptedThroughDeadline(run: seq<Issue>, i: nat, now: nat)
    requires Bounded(run) && i < |run|
    requires forall j, t :: 0 <= j < |run| ==> run[j].clock(t) <= now
    ensures Validate(Lazy(run), NameOf(run, i), now) ==
            if now <= run[i].now + run[i].ttlSecs then Some(run[i].ip) else None
  {
    KeepingHolds(run, i);
    PruningInvisible(run, NameOf(run, i), now);
  }
}
