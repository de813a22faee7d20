/** Replacements in a row against one simultaneous substitution, for any list of variables (src/templates.rs). */
module Substitution {
  import opened Text

  /** `str::replace` for a pattern that is not empty: occurrences from left to right, not overlapping. */
  function Replace(s: string, pattern: string, value: string): string
    requires pattern != []
    decreases |s|
  {
    if s == [] then []
    else if pattern <= s then value + Replace(s[|pattern|..], pattern, value)
    else [s[0]] + Replace(s[1..], pattern, value)
  }

  datatype Binding = Binding(name: string, value: string)

  /** The placeholder of a variable. */
  function Token(name: string): (t: string)
    ensures |t| == |name| + 4
  {
    "{{" + name + "}}"
  }

  predicate NameChar(c: char) {
    'A' <= c <= 'Z' || c == '_'
  }

  /** Variable names are not empty, and made of capitals and underscores. */
  predicate GoodName(name: string) {
    name != [] && forall i :: 0 <= i < |name| ==> NameChar(name[i])
  }

  predicate GoodNames(bs: seq<Binding>) {
    && (forall i :: 0 <= i < |bs| ==> GoodName(bs[i].name))
    && (forall i, j :: 0 <= i < j < |bs| ==> bs[i].name != bs[j].name)
  }

  /** The chain: the first binding is replaced first. */
  function Chain(s: string, bs: seq<Binding>): string {
    if bs == [] then s
    else
      var last := bs[|bs| - 1];
      Replace(Chain(s, bs[..|bs| - 1]), Token(last.name), last.value)
  }

  /** The binding whose placeholder begins the string, or |bs|. */
  function TokenAt(s: string, bs: seq<Binding>): (i: nat)
    ensures i <= |bs|
    ensures i < |bs| ==> Token(bs[i].name) <= s
    ensures forall j :: 0 <= j < i ==> !(Token(bs[j].name) <= s)
  {
    if bs == [] then 0
    else
      var i := TokenAt(s, bs[..|bs| - 1]);
      if i < |bs| - 1 then i
      else if Token(bs[|bs| - 1].name) <= s then |bs| - 1 else |bs|
  }

  /** One pass over the content; inserted values are not looked at again. */
  function Simultaneous(s: string, bs: seq<Binding>): string
    decreases |s|
  {
    if s == [] then []
    else
      var i := TokenAt(s, bs);
      if i < |bs| then bs[i].value + Simultaneous(s[|Token(bs[i].name)|..], bs)
      else [s[0]] + Simultaneous(s[1..], bs)
  }

  // ----- Overlaps -----

  predicate Comparable(a: string, b: string) {
    a <= b || b <= a
  }

  /** No occurrence of `t` can touch an inserted `v`: none begins in it, and none that begins before reaches it. */
  predicate Apart(v: string, t: string) {
    && (forall p :: 0 <= p < |v| ==> !Comparable(v[p..], t))
    && (forall m :: 0 < m < |t| ==> !Comparable(v, t[m..]))
  }

  lemma DifferAt(a: string, b: string, k: nat)
    requires k < |a| && k < |b| && a[k] != b[k]
    ensures !Comparable(a, b)
  {
  }

  lemma PrefixOfConcat(v: string, rest: string, t: string)
    ensures t <= v + rest ==> Comparable(v, t)
  {
    if t <= v + rest {
      if |t| <= |v| {
        assert (v + rest)[..|t|] == v[..|t|];
      } else {
        assert (v + rest)[..|v|] == v;
      }
    }
  }

  /** A placeholder does not begin another: names hold no closing brace. */
  lemma TokenNotPrefix(a: string, b: string)
    requires GoodName(a) && GoodName(b) && a != b
    ensures !Comparable(Token(a), Token(b))
  {
    if |a| == |b| {
      var i :| 0 <= i < |a| && a[i] != b[i];
      DifferAt(Token(a), Token(b), 2 + i);
    } else {
      DifferAt(Token(a), Token(b), 2 + if |a| < |b| then |a| else |b|);
    }
  }

  /** Different placeholders never overlap. */
  lemma TokensApart(a: string, b: string)
    requires GoodName(a) && GoodName(b) && a != b
    ensures Apart(Token(a), Token(b))
  {
    var v, t := Token(a), Token(b);
    forall p | 0 <= p < |v| ensures !Comparable(v[p..], t) {
      if p == 0 {
        TokenNotPrefix(a, b);
        assert v[0..] == v;
      } else if p == 1 {
        DifferAt(v[p..], t, 1);
      } else {
        DifferAt(v[p..], t, 0);
      }
    }
    forall m | 0 < m < |t| ensures !Comparable(v, t[m..]) {
      DifferAt(v, t[m..], if m == 1 then 1 else 0);
    }
  }

  // ----- The chain is the simultaneous substitution -----

  /** Replacing passes over a piece that the pattern cannot touch. */
  lemma {:induction false} ReplaceSkips(v: string, rest: string, pattern: string, value: string)
    requires pattern != [] && forall p :: 0 <= p < |v| ==> !Comparable(v[p..], pattern)
    ensures Replace(v + rest, pattern, value) == v + Replace(rest, pattern, value)
  {
    if v == [] {
      assert v + rest == rest;
    } else {
      var s := v + rest;
      PrefixOfConcat(v, rest, pattern);
      assert v[0..] == v;
      assert s[1..] == v[1..] + rest;
      forall p | 0 <= p < |v[1..]| ensures !Comparable(v[1..][p..], pattern) {
        assert v[1..][p..] == v[p + 1..];
      }
      ReplaceSkips(v[1..], rest, pattern, value);
    }
  }

  /** If the output begins with the rest of a placeholder, the content did: no placeholder is put together. */
  lemma {:induction false} NothingAssembled(s: string, bs: seq<Binding>, t: string, m: nat)
    requires m <= |t| && (m == 0 ==> TokenAt(s, bs) == |bs|)
    requires forall i :: 0 <= i < |bs| ==> Apart(bs[i].value, t)
    requires t[m..] <= Simultaneous(s, bs)
    ensures t[m..] <= s
    decreases |s|
  {
    if m < |t| && s != [] {
      var i := TokenAt(s, bs);
      var out := Simultaneous(s, bs);
      if i < |bs| {
        PrefixOfConcat(bs[i].value, Simultaneous(s[|Token(bs[i].name)|..], bs), t[m..]);
      } else {
        assert out == [s[0]] + Simultaneous(s[1..], bs);
        assert t[m..][0] == out[0] == s[0];
        assert t[m + 1..] == t[m..][1..] <= out[1..];
        if m + 1 < |t| || TokenAt(s[1..], bs) == |bs| {
          NothingAssembled(s[1..], bs, t, m + 1);
        }
        assert t[m..] == [t[m]] + t[m + 1..] && s == [s[0]] + s[1..];
      }
    }
  }

  lemma NoTokenAt(s: string, bs: seq<Binding>, start: string)
    requires start <= s && forall i :: 0 <= i < |bs| ==> !Comparable(start, Token(bs[i].name))
    ensures TokenAt(s, bs) == |bs|
  {
    var i := TokenAt(s, bs);
    assert s == start + s[|start|..];
    if i < |bs| {
      PrefixOfConcat(start, s[|start|..], Token(bs[i].name));
    }
  }

  /** No placeholder begins at any of the first n positions. */
  predicate NoneBegins(s: string, n: nat, bs: seq<Binding>)
    requires n <= |s|
  {
    forall p :: 0 <= p < n ==> TokenAt(s[p..], bs) == |bs|
  }

  lemma CopiesOne(s: string, p: nat, bs: seq<Binding>)
    requires p < |s| && TokenAt(s[p..], bs) == |bs|
    ensures Simultaneous(s[p..], bs) == [s[p]] + Simultaneous(s[p + 1..], bs)
  {
    assert s[p..][1..] == s[p + 1..];
  }

  lemma {:induction false} CopiesAll(s: string, n: nat, f: string -> string)
    requires n <= |s|
    requires forall p :: 0 <= p < n ==> f(s[p..]) == [s[p]] + f(s[p + 1..])
    ensures f(s) == s[..n] + f(s[n..])
  {
    if n == 0 {
      assert s[0..] == s;
    } else {
      CopiesAll(s, n - 1, f);
      assert s[..n] == s[..n - 1] + [s[n - 1]];
    }
  }

  /** The start of a string in which no placeholder begins is copied. */
  lemma StartCopied(s: string, n: nat, bs: seq<Binding>)
    requires n <= |s| && NoneBegins(s, n, bs)
    ensures Simultaneous(s, bs) == s[..n] + Simultaneous(s[n..], bs)
  {
    var f := x => Simultaneous(x, bs);
    forall p | 0 <= p < n ensures f(s[p..]) == [s[p]] + f(s[p + 1..]) {
      CopiesOne(s, p, bs);
    }
    CopiesAll(s, n, f);
  }

  /** A literal is copied when it cannot touch a placeholder. */
  lemma LiteralCopied(x: string, rest: string, bs: seq<Binding>)
    requires forall i :: 0 <= i < |bs| ==> NoneIn(x, Token(bs[i].name))
    ensures Simultaneous(x + rest, bs) == x + Simultaneous(rest, bs)
  {
    var s := x + rest;
    forall p | 0 <= p < |x| ensures TokenAt(s[p..], bs) == |bs| {
      assert s[p..] == x[p..] + rest;
      forall i | 0 <= i < |bs| ensures !Comparable(x[p..], Token(bs[i].name)) {
        assert NoneIn(x, Token(bs[i].name));
      }
      NoTokenAt(s[p..], bs, x[p..]);
    }
    StartCopied(s, |x|, bs);
    assert s[..|x|] == x && s[|x|..] == rest;
  }

  /** No occurrence of t begins in x, whatever follows. */
  predicate NoneIn(x: string, t: string) {
    forall p :: 0 <= p < |x| ==> !Comparable(x[p..], t)
  }

  /** One more replacement after a simultaneous substitution is a simultaneous substitution of one more. */
  lemma {:induction false} OneMore(s: string, bs: seq<Binding>, b: Binding)
    requires GoodNames(bs + [b])
    requires forall i :: 0 <= i < |bs| ==> Apart(bs[i].value, Token(b.name))
    ensures Replace(Simultaneous(s, bs), Token(b.name), b.value) == Simultaneous(s, bs + [b])
    decreases |s|
  {
    var t, all := Token(b.name), bs + [b];
    assert all[..|bs|] == bs && all[|bs|] == b && forall i :: 0 <= i < |bs| ==> all[i] == bs[i];
    if s != [] {
      var i := TokenAt(s, bs);
      if i < |bs| {
        var rest := s[|Token(bs[i].name)|..];
        ReplaceSkips(bs[i].value, Simultaneous(rest, bs), t, b.value);
        OneMore(rest, bs, b);
      } else if t <= s {
        forall j | 0 <= j < |bs| ensures NoneIn(t, Token(bs[j].name)) {
          TokensApart(b.name, all[j].name);
        }
        assert s == t + s[|t|..];
        LiteralCopied(t, s[|t|..], bs);
        var tail := Simultaneous(s[|t|..], bs);
        assert (t + tail)[|t|..] == tail;
        OneMore(s[|t|..], bs, b);
      } else {
        var out := Simultaneous(s, bs);
        if t <= out {
          assert t[0..] == t;
          NothingAssembled(s, bs, t, 0);
        }
        assert out[1..] == Simultaneous(s[1..], bs);
        OneMore(s[1..], bs, b);
      }
    }
  }

  /** Earlier values keep apart from later placeholders. */
  predicate ValuesApart(bs: seq<Binding>) {
    forall i, j :: 0 <= i < j < |bs| ==> Apart(bs[i].value, Token(bs[j].name))
  }

  /** The chain equals the simultaneous substitution, for every content. */
  lemma {:induction false} ChainIsSimultaneous(s: string, bs: seq<Binding>)
    requires GoodNames(bs) && ValuesApart(bs)
    ensures Chain(s, bs) == Simultaneous(s, bs)
  {
    if bs == [] {
      EmptySubstitution(s);
    } else {
      var n := |bs| - 1;
      assert bs == bs[..n] + [bs[n]];
      ChainIsSimultaneous(s, bs[..n]);
      OneMore(s, bs[..n], bs[n]);
    }
  }

  lemma {:induction false} EmptySubstitution(s: string)
    ensures Simultaneous(s, []) == s
  {
    if s != [] { EmptySubstitution(s[1..]); }
  }

  // ----- Nothing is left -----

  /** No known placeholder is left if all values keep apart from all of them. */
  lemma {:induction false} NoTokenLeft(s: string, bs: seq<Binding>, j: nat, p: nat)
    requires GoodNames(bs) && j < |bs| && p <= |Simultaneous(s, bs)|
    requires forall i :: 0 <= i < |bs| ==> Apart(bs[i].value, Token(bs[j].name))
    ensures !(Token(bs[j].name) <= Simultaneous(s, bs)[p..])
    decreases |s|
  {
    var t, out := Token(bs[j].name), Simultaneous(s, bs);
    if s != [] {
      var i := TokenAt(s, bs);
      if i < |bs| {
        var v, tail := bs[i].value, Simultaneous(s[|Token(bs[i].name)|..], bs);
        if p < |v| {
          assert out[p..] == v[p..] + tail;
          PrefixOfConcat(v[p..], tail, t);
        } else {
          assert out[p..] == tail[p - |v|..];
          NoTokenLeft(s[|Token(bs[i].name)|..], bs, j, p - |v|);
        }
      } else if p == 0 {
        assert out[0..] == out && t[0..] == t;
        if t <= out { NothingAssembled(s, bs, t, 0); }
      } else {
        assert out[p..] == Simultaneous(s[1..], bs)[p - 1..];
        NoTokenLeft(s[1..], bs, j, p - 1);
      }
    }
  }

  // ----- Contents that show what a value can do -----

  /** In front of a placeholder, part of another one cannot complete to any. */
  lemma NoneBefore(a: string, rest: string, name: string, other: string, m: nat, p: nat)
    requires GoodName(name) && GoodName(other) && m < |Token(other)| && a == Token(other)[..m] && p < m
    requires |rest| >= 2 && rest[0] == '{' && rest[1] == '{'
    ensures !(Token(name) <= (a + rest)[p..])
  {
    var s, t := (a + rest)[p..], Token(name);
    if m - p >= |t| {
      assert s[..|t|] == Token(other)[p..][..|t|];
      if name != other { TokensApart(other, name); }
    } else if m - p == 1 {
      assert s[2] == rest[1] && t[2] == name[0];
    } else {
      assert s[m - p] == rest[0] && t[m - p] != '{';
    }
  }

  lemma NoneWithin(t: string, other: string, name: string, k: nat)
    requires GoodName(name) && GoodName(other) && t == Token(other) && 0 < k <= |t|
    ensures !(Token(name) <= t[k..])
  {
    if name != other && k < |t| { TokensApart(other, name); }
  }

  lemma NoTokenHere(s: string, bs: seq<Binding>)
    requires forall i :: 0 <= i < |bs| ==> !(Token(bs[i].name) <= s)
    ensures TokenAt(s, bs) == |bs|
  {
  }

  lemma TokenFound(bs: seq<Binding>, i: nat, rest: string)
    requires GoodNames(bs) && i < |bs|
    ensures TokenAt(Token(bs[i].name) + rest, bs) == i
  {
    var t := Token(bs[i].name);
    assert t <= t + rest;
    var k := TokenAt(t + rest, bs);
    if k < i {
      TokenNotPrefix(bs[i].name, bs[k].name);
      PrefixOfConcat(t, rest, Token(bs[k].name));
    }
  }

  /** A placeholder planted between the start and the end of another one is the only one substituted. */
  lemma Planted(bs: seq<Binding>, i: nat, other: string, m: nat, k: nat)
    requires GoodNames(bs) && i < |bs| && GoodName(other) && m < |Token(other)| && 0 < k <= |Token(other)|
    ensures var a, b := Token(other)[..m], Token(other)[k..];
      Simultaneous(a + (Token(bs[i].name) + b), bs) == a + (bs[i].value + b)
  {
    var a, b, t := Token(other)[..m], Token(other)[k..], Token(bs[i].name);
    var s := a + (t + b);
    forall p | 0 <= p < |a| ensures TokenAt(s[p..], bs) == |bs| {
      forall j | 0 <= j < |bs| ensures !(Token(bs[j].name) <= s[p..]) {
        NoneBefore(a, t + b, bs[j].name, other, m, p);
      }
      NoTokenHere(s[p..], bs);
    }
    StartCopied(s, |a|, bs);
    assert s[..|a|] == a && s[|a|..] == t + b;
    TokenFound(bs, i, b);
    assert (t + b)[|t|..] == b;
    EndCopied(bs, other, k);
  }

  lemma EndCopied(bs: seq<Binding>, other: string, k: nat)
    requires GoodNames(bs) && GoodName(other) && 0 < k <= |Token(other)|
    ensures Simultaneous(Token(other)[k..], bs) == Token(other)[k..]
  {
    var b := Token(other)[k..];
    forall p | 0 <= p < |b| ensures TokenAt(b[p..], bs) == |bs| {
      assert b[p..] == Token(other)[k + p..];
      forall j | 0 <= j < |bs| ensures !(Token(bs[j].name) <= b[p..]) {
        NoneWithin(Token(other), other, bs[j].name, k + p);
      }
      NoTokenHere(b[p..], bs);
    }
    StartCopied(b, |b|, bs);
    assert b[..|b|] == b && Simultaneous(b[|b|..], bs) == "";
  }

  /** Nothing else is in the planted content. */
  lemma PlantedAlone(planted: string, other: string, name: string, m: nat, k: nat)
    requires GoodName(planted) && GoodName(other) && GoodName(name) && name != planted
    requires m < |Token(other)| && 0 < k <= |Token(other)|
    ensures !Contains(Token(other)[..m] + (Token(planted) + Token(other)[k..]), Token(name))
  {
    var a, b, t := Token(other)[..m], Token(other)[k..], Token(planted);
    var s := a + (t + b);
    forall p | 0 <= p <= |s| ensures !(Token(name) <= s[p..]) {
      if p < m {
        NoneBefore(a, t + b, name, other, m, p);
      } else if p < m + |t| {
        assert s[p..] == t[p - m..] + b;
        TokensApart(planted, name);
        PrefixOfConcat(t[p - m..], b, Token(name));
      } else {
        assert s[p..] == Token(other)[k + (p - m - |t|)..];
        NoneWithin(Token(other), other, name, k + (p - m - |t|));
      }
    }
  }

  // ----- Replacements that find nothing, and what they leave alone -----

  lemma {:induction false} ReplaceAbsent(s: string, t: string, value: string)
    requires t != [] && !Contains(s, t)
    ensures Replace(s, t, value) == s
  {
    if s != [] {
      assert s[0..] == s;
      AbsentInTail(s, 1, t);
      ReplaceAbsent(s[1..], t, value);
    }
  }

  lemma AbsentInTail(s: string, n: nat, t: string)
    requires n <= |s| && !Contains(s, t)
    ensures !Contains(s[n..], t)
  {
    forall p | 0 <= p <= |s[n..]| ensures !(t <= s[n..][p..]) {
      assert s[n..][p..] == s[n + p..];
    }
  }

  lemma SingleReplacement(s: string, b: Binding)
    requires GoodName(b.name)
    ensures Simultaneous(s, [b]) == Replace(s, Token(b.name), b.value)
  {
    EmptySubstitution(s);
    assert [] + [b] == [b];
    OneMore(s, [], b);
  }

  /** A text is not put together by substitutions whose values cannot touch it. */
  lemma {:induction false} NotCreated(s: string, bs: seq<Binding>, t: string, p: nat)
    requires t != [] && !Contains(s, t) && p <= |Simultaneous(s, bs)|
    requires forall i :: 0 <= i < |bs| ==> Apart(bs[i].value, t)
    ensures !(t <= Simultaneous(s, bs)[p..])
    decreases |s|
  {
    var out := Simultaneous(s, bs);
    if s != [] {
      var i := TokenAt(s, bs);
      if i < |bs| {
        var v, n := bs[i].value, |Token(bs[i].name)|;
        var tail := Simultaneous(s[n..], bs);
        if p < |v| {
          assert out[p..] == v[p..] + tail;
          PrefixOfConcat(v[p..], tail, t);
        } else {
          assert out[p..] == tail[p - |v|..];
          AbsentInTail(s, n, t);
          NotCreated(s[n..], bs, t, p - |v|);
        }
      } else if p == 0 {
        assert out[0..] == out && t[0..] == t && s[0..] == s;
        if t <= out { NothingAssembled(s, bs, t, 0); }
      } else {
        assert out[p..] == Simultaneous(s[1..], bs)[p - 1..];
        AbsentInTail(s, 1, t);
        NotCreated(s[1..], bs, t, p - 1);
      }
    }
  }

  lemma AbsentStays(s: string, b: Binding, t: string)
    requires GoodName(b.name) && t != [] && !Contains(s, t) && Apart(b.value, t)
    ensures !Contains(Replace(s, Token(b.name), b.value), t)
  {
    SingleReplacement(s, b);
    var out := Simultaneous(s, [b]);
    forall p | 0 <= p <= |out| ensures !(t <= out[p..]) { NotCreated(s, [b], t, p); }
  }

  /** A value that keeps apart from its own placeholder removes it altogether. */
  lemma OwnRemoved(s: string, b: Binding)
    requires GoodName(b.name) && Apart(b.value, Token(b.name))
    ensures !Contains(Replace(s, Token(b.name), b.value), Token(b.name))
  {
    SingleReplacement(s, b);
    SingleGood(b);
    NotLeft(s, [b], 0);
  }

  lemma SingleGood(b: Binding)
    requires GoodName(b.name)
    ensures GoodNames([b])
  {
  }

  lemma NotLeft(s: string, bs: seq<Binding>, j: nat)
    requires GoodNames(bs) && j < |bs| && forall i :: 0 <= i < |bs| ==> Apart(bs[i].value, Token(bs[j].name))
    ensures !Contains(Simultaneous(s, bs), Token(bs[j].name))
  {
    var out := Simultaneous(s, bs);
    forall p | 0 <= p <= |out| ensures !(Token(bs[j].name) <= out[p..]) { NoTokenLeft(s, bs, j, p); }
  }

  lemma ContainsLater(x: string, s: string, t: string)
    requires Contains(s, t)
    ensures Contains(x + s, t)
  {
    var p :| 0 <= p <= |s| && t <= s[p..];
    assert (x + s)[|x| + p..] == s[p..];
  }

  /** Replacing one placeholder leaves every other one where it stands. */
  lemma {:induction false} OthersStay(s: string, b: Binding, name: string, p: nat)
    requires GoodName(b.name) && GoodName(name) && name != b.name && p <= |s| && Token(name) <= s[p..]
    ensures Contains(Replace(s, Token(b.name), b.value), Token(name))
    decreases |s|
  {
    var t, pattern := Token(name), Token(b.name);
    if p == 0 {
      assert s[0..] == s && s == t + s[|t|..];
      TokensApart(name, b.name);
      ReplaceSkips(t, s[|t|..], pattern, b.value);
      var out := t + Replace(s[|t|..], pattern, b.value);
      assert t <= out[0..];
    } else if pattern <= s {
      var n := |pattern|;
      assert s == pattern + s[n..];
      if p < n {
        assert s[p..] == pattern[p..] + s[n..];
        TokensApart(b.name, name);
        PrefixOfConcat(pattern[p..], s[n..], t);
      } else {
        assert s[n..][p - n..] == s[p..];
        OthersStay(s[n..], b, name, p - n);
        ContainsLater(b.value, Replace(s[n..], pattern, b.value), t);
      }
    } else {
      assert s[1..][p - 1..] == s[p..];
      OthersStay(s[1..], b, name, p - 1);
      ContainsLater([s[0]], Replace(s[1..], pattern, b.value), t);
    }
  }

  // ----- The same along the chain -----

  lemma ChainStep(s: string, bs: seq<Binding>, n: nat)
    requires n < |bs|
    ensures Chain(s, bs[..n + 1]) == Replace(Chain(s, bs[..n]), Token(bs[n].name), bs[n].value)
  {
    assert bs[..n + 1][..n] == bs[..n];
  }

  lemma {:induction false} ChainRests(s: string, bs: seq<Binding>, n: nat, e: nat)
    requires n <= e <= |bs|
    requires forall k :: n <= k < e ==> !Contains(Chain(s, bs[..n]), Token(bs[k].name))
    ensures Chain(s, bs[..e]) == Chain(s, bs[..n])
    decreases e
  {
    if n < e {
      ChainRests(s, bs, n, e - 1);
      ChainStep(s, bs, e - 1);
      ReplaceAbsent(Chain(s, bs[..n]), Token(bs[e - 1].name), bs[e - 1].value);
    }
  }

  lemma {:induction false} ChainAbsent(s: string, bs: seq<Binding>, n: nat, e: nat, t: string)
    requires GoodNames(bs) && n <= e <= |bs| && t != [] && !Contains(Chain(s, bs[..n]), t)
    requires forall k :: n <= k < e ==> Apart(bs[k].value, t)
    ensures !Contains(Chain(s, bs[..e]), t)
    decreases e
  {
    if n < e {
      ChainAbsent(s, bs, n, e - 1, t);
      AbsentAfter(s, bs, e - 1, t);
    }
  }

  lemma AbsentAfter(s: string, bs: seq<Binding>, e: nat, t: string)
    requires GoodNames(bs) && e < |bs| && t != [] && !Contains(Chain(s, bs[..e]), t) && Apart(bs[e].value, t)
    ensures !Contains(Chain(s, bs[..e + 1]), t)
  {
    AbsentStays(Chain(s, bs[..e]), bs[e], t);
    ChainStep(s, bs, e);
  }

  lemma {:induction false} ChainPresent(s: string, bs: seq<Binding>, n: nat, e: nat, name: string)
    requires GoodNames(bs) && GoodName(name) && n <= e <= |bs| && Contains(Chain(s, bs[..n]), Token(name))
    requires forall k :: n <= k < e ==> bs[k].name != name
    ensures Contains(Chain(s, bs[..e]), Token(name))
    decreases e
  {
    if n < e {
      ChainPresent(s, bs, n, e - 1, name);
      ChainStep(s, bs, e - 1);
      var w := Chain(s, bs[..e - 1]);
      var p :| 0 <= p <= |w| && Token(name) <= w[p..];
      OthersStay(w, bs[e - 1], name, p);
    }
  }

  /** The i-th placeholder planted in another one: the replacements up to it put its value there. */
  lemma PlantedChain(bs: seq<Binding>, i: nat, other: string, m: nat, k: nat)
    requires GoodNames(bs) && i < |bs| && GoodName(other) && m < |Token(other)| && 0 < k <= |Token(other)|
    ensures var a, b := Token(other)[..m], Token(other)[k..];
      Chain(a + (Token(bs[i].name) + b), bs[..i + 1]) == a + (bs[i].value + b)
  {
    var s := Token(other)[..m] + (Token(bs[i].name) + Token(other)[k..]);
    assert Chain(s, bs[..0]) == s;
    forall n | 0 <= n < i ensures !Contains(s, Token(bs[n].name)) {
      PlantedAlone(bs[i].name, other, bs[n].name, m, k);
    }
    ChainRests(s, bs, 0, i);
    ChainStep(s, bs, i);
    SingleReplacement(s, bs[i]);
    Planted([bs[i]], 0, other, m, k);
  }

  /** Where an inserted value and a placeholder touch: between its first m and its last |t| - k characters,
      the value completes it. */
  lemma Contact(v: string, t: string) returns (m: nat, k: nat)
    requires t != [] && !Apart(v, t)
    ensures m < |t| && 0 < k <= |t| && Contains(t[..m] + (v + t[k..]), t)
  {
    if p :| 0 <= p < |v| && Comparable(v[p..], t) {
      m, k := 0, if t <= v[p..] then |t| else |v| - p;
      BeginsInside(v, t, p, k);
    } else {
      m :| 0 < m < |t| && Comparable(v, t[m..]);
      k := if t[m..] <= v then |t| else m + |v|;
      BeginsBefore(v, t, m, k);
    }
  }

  lemma BeginsInside(v: string, t: string, p: nat, k: nat)
    requires p < |v| && 0 < k <= |t|
    requires (k == |t| && t <= v[p..]) || (k == |v| - p && v[p..] <= t)
    ensures Contains(t[..0] + (v + t[k..]), t)
  {
    var w := t[..0] + (v + t[k..]);
    assert w[p..] == v[p..] + t[k..];
    assert t <= w[p..];
  }

  lemma BeginsBefore(v: string, t: string, m: nat, k: nat)
    requires 0 < m < |t| && 0 < k <= |t|
    requires (k == |t| && t[m..] <= v) || (k == m + |v| && v <= t[m..])
    ensures Contains(t[..m] + (v + t[k..]), t)
  {
    var w := t[..m] + (v + t[k..]);
    assert t == t[..m] + t[m..];
    assert t <= w[0..];
  }

  // ----- Exactly which values are safe -----

  /** None of the placeholders is in the text. */
  predicate NoneLeft(out: string, bs: seq<Binding>) {
    forall j :: 0 <= j < |bs| ==> !Contains(out, Token(bs[j].name))
  }

  /** Values keep apart from their own placeholders and from those replaced earlier. */
  predicate LaterApart(bs: seq<Binding>) {
    forall i, j :: 0 <= j <= i < |bs| ==> Apart(bs[i].value, Token(bs[j].name))
  }

  predicate AllApart(bs: seq<Binding>) {
    forall i, j :: 0 <= i < |bs| && 0 <= j < |bs| ==> Apart(bs[i].value, Token(bs[j].name))
  }

  /** f is the chain of replacements. */
  ghost predicate Computes(f: string -> string, bs: seq<Binding>) {
    forall s :: f(s) == Chain(s, bs)
  }

  /** What f makes of a content is always what a single pass would make of it. */
  ghost predicate AlwaysOnePass(f: string -> string, bs: seq<Binding>) {
    forall s :: f(s) == Simultaneous(s, bs)
  }

  /** What f makes of a content never holds a placeholder. */
  ghost predicate AlwaysClear(f: string -> string, bs: seq<Binding>) {
    forall s :: NoneLeft(f(s), bs)
  }

  lemma RemovedForGood(s: string, bs: seq<Binding>, j: nat)
    requires GoodNames(bs) && j < |bs| && forall i :: j <= i < |bs| ==> Apart(bs[i].value, Token(bs[j].name))
    ensures !Contains(Chain(s, bs), Token(bs[j].name))
  {
    ChainStep(s, bs, j);
    OwnRemoved(Chain(s, bs[..j]), bs[j]);
    ChainAbsent(s, bs, j + 1, |bs|, Token(bs[j].name));
    assert bs[..|bs|] == bs;
  }

  /** A value that can touch its own or an earlier placeholder leaves one behind in some content. */
  lemma LeftBehind(bs: seq<Binding>, i: nat, j: nat) returns (s: string)
    requires GoodNames(bs) && j <= i < |bs| && !Apart(bs[i].value, Token(bs[j].name))
    ensures Contains(Chain(s, bs), Token(bs[j].name))
  {
    var t := Token(bs[j].name);
    var m, k := Contact(bs[i].value, t);
    s := t[..m] + (Token(bs[i].name) + t[k..]);
    PlantedChain(bs, i, bs[j].name, m, k);
    ChainPresent(s, bs, i + 1, |bs|, bs[j].name);
    assert bs[..|bs|] == bs;
  }

  /** No placeholder is left by the chain, for any content, exactly when every value keeps apart from its own
      placeholder and from all earlier ones. */
  lemma NothingLeftExactly(f: string -> string, bs: seq<Binding>)
    requires GoodNames(bs) && Computes(f, bs)
    ensures AlwaysClear(f, bs) <==> LaterApart(bs)
  {
    if LaterApart(bs) {
      forall s, j | 0 <= j < |bs| ensures !Contains(f(s), Token(bs[j].name)) { RemovedForGood(s, bs, j); }
    } else {
      var i, j :| 0 <= j <= i < |bs| && !Apart(bs[i].value, Token(bs[j].name));
      var s := LeftBehind(bs, i, j);
      assert !NoneLeft(f(s), bs);
    }
  }

  /** A value that can touch a later placeholder puts it together, in the simultaneous substitution, for good. */
  lemma PutTogether(bs: seq<Binding>, i: nat, j: nat) returns (s: string)
    requires GoodNames(bs) && i < j < |bs| && !Apart(bs[i].value, Token(bs[j].name))
    ensures Contains(Simultaneous(s, bs), Token(bs[j].name))
  {
    var t := Token(bs[j].name);
    var m, k := Contact(bs[i].value, t);
    s := t[..m] + (Token(bs[i].name) + t[k..]);
    Planted(bs, i, bs[j].name, m, k);
  }

  lemma OnePassIfApart(f: string -> string, bs: seq<Binding>)
    requires GoodNames(bs) && Computes(f, bs) && ValuesApart(bs)
    ensures AlwaysOnePass(f, bs)
  {
    forall s ensures f(s) == Simultaneous(s, bs) { ChainIsSimultaneous(s, bs); }
  }

  /** If no placeholder can be left, the chain is the simultaneous substitution exactly when every value keeps
      apart from the placeholders replaced later. */
  lemma EqualExactly(f: string -> string, bs: seq<Binding>)
    requires GoodNames(bs) && Computes(f, bs) && LaterApart(bs)
    ensures AlwaysOnePass(f, bs) <==> ValuesApart(bs)
  {
    if ValuesApart(bs) {
      OnePassIfApart(f, bs);
    } else {
      var i, j :| 0 <= i < j < |bs| && !Apart(bs[i].value, Token(bs[j].name));
      var s := PutTogether(bs, i, j);
      RemovedForGood(s, bs, j);
      assert f(s) != Simultaneous(s, bs);
    }
  }

  /** Both at once, for any values: one simultaneous substitution that leaves no placeholder, whatever the content,
      exactly when every value keeps apart from every placeholder. */
  lemma BothExactly(f: string -> string, bs: seq<Binding>)
    requires GoodNames(bs) && Computes(f, bs)
    ensures AlwaysOnePass(f, bs) && AlwaysClear(f, bs) <==> AllApart(bs)
  {
    AllFromHalves(bs);
    NothingLeftExactly(f, bs);
    if LaterApart(bs) { EqualExactly(f, bs); }
  }

  lemma AllFromHalves(bs: seq<Binding>)
    ensures AllApart(bs) <==> LaterApart(bs) && ValuesApart(bs)
  {
  }

  // ----- Values without braces -----

  predicate BraceFree(v: string) {
    forall i :: 0 <= i < |v| ==> v[i] != '{' && v[i] != '}'
  }

  /** Without braces, keeping apart means: not a piece of the variable's name. */
  lemma BraceFreeApart(v: string, name: string)
    requires GoodName(name) && BraceFree(v)
    ensures Apart(v, Token(name)) <==> !Contains(name, v)
  {
    var t := Token(name);
    if Contains(name, v) {
      var p :| 0 <= p <= |name| && v <= name[p..];
      assert t[2 + p..] == name[p..] + "}}";
      assert Comparable(v, t[2 + p..]);
    } else {
      assert v <= name[0..] || v != [];
      forall p | 0 <= p < |v| ensures !Comparable(v[p..], t) {
        DifferAt(v[p..], t, 0);
      }
      forall m | 0 < m < |t| ensures !Comparable(v, t[m..]) {
        NotWithin(v, name, m);
      }
    }
  }

  lemma NotWithin(v: string, name: string, m: nat)
    requires v != [] && BraceFree(v) && !Contains(name, v) && 0 < m < |Token(name)|
    ensures !Comparable(v, Token(name)[m..])
  {
    var t := Token(name);
    if m == 1 || m >= |t| - 2 {
      DifferAt(v, t[m..], 0);
    } else if |v| > |t| - 2 - m {
      DifferAt(v, t[m..], |t| - 2 - m);
    } else {
      assert !(v <= name[m - 2..]);
      assert t[m..][..|v|] == name[m - 2..][..|v|];
    }
  }

  /** A value with a character that no name contains is no piece of a name. */
  lemma OutsideCharacter(v: string, name: string, k: nat)
    requires GoodName(name) && k < |v| && !NameChar(v[k])
    ensures !Contains(name, v)
  {
    forall p | 0 <= p <= |name| ensures !(v <= name[p..]) {
      if k < |name[p..]| { DifferAt(v, name[p..], k); }
    }
  }

  predicate AllBraceFree(bs: seq<Binding>) {
    forall i :: 0 <= i < |bs| ==> BraceFree(bs[i].value)
  }

  /** The value of the i-th variable is no piece of the j-th name. */
  predicate NoPiece(bs: seq<Binding>, i: nat, j: nat)
    requires i < |bs| && j < |bs|
  {
    !Contains(bs[j].name, bs[i].value)
  }

  lemma ApartIsNoPiece(bs: seq<Binding>, i: nat, j: nat)
    requires GoodNames(bs) && AllBraceFree(bs) && i < |bs| && j < |bs|
    ensures Apart(bs[i].value, Token(bs[j].name)) <==> NoPiece(bs, i, j)
  {
    BraceFreeApart(bs[i].value, bs[j].name);
  }

  predicate EarlierNoPieces(bs: seq<Binding>) {
    forall i, j :: 0 <= i < j < |bs| ==> NoPiece(bs, i, j)
  }

  predicate LaterNoPieces(bs: seq<Binding>) {
    forall i, j :: 0 <= j <= i < |bs| ==> NoPiece(bs, i, j)
  }

  lemma ApartIsNoPieces(bs: seq<Binding>)
    requires GoodNames(bs) && AllBraceFree(bs)
    ensures ValuesApart(bs) <==> EarlierNoPieces(bs)
    ensures LaterApart(bs) <==> LaterNoPieces(bs)
  {
    forall i, j | 0 <= i < |bs| && 0 <= j < |bs|
      ensures Apart(bs[i].value, Token(bs[j].name)) <==> NoPiece(bs, i, j)
    {
      ApartIsNoPiece(bs, i, j);
    }
  }

  lemma NoTokenInPlain(v: string, name: string)
    requires BraceFree(v)
    ensures !Contains(v, Token(name))
  {
    var t := Token(name);
    forall p | 0 <= p <= |v| ensures !(t <= v[p..]) {
      assert t[0] == '{' && |t| > 0;
      assert p < |v| ==> v[p..][0] == v[p];
    }
  }

  lemma NoTokenInToken(a: string, b: string)
    requires GoodName(a) && GoodName(b) && a != b
    ensures !Contains(Token(a), Token(b))
  {
    TokensApart(a, b);
  }

  /** Where a piece of a name stands in the placeholder. */
  lemma PieceSplits(name: string, v: string) returns (m: nat, k: nat)
    requires Contains(name, v)
    ensures var t := Token(name); m < |t| && 0 < k <= |t| && t[..m] + (v + t[k..]) == t
  {
    var q :| 0 <= q <= |name| && v <= name[q..];
    m, k := 2 + q, 2 + q + |v|;
    var x, y := name[..q], name[q..][|v|..];
    CutOut(name, q, v);
    Around(x, v, y);
    SplitAt("{{" + x, v, y + "}}");
  }

  lemma CutOut(name: string, q: nat, v: string)
    requires q <= |name| && v <= name[q..]
    ensures name == name[..q] + v + name[q..][|v|..]
  {
  }

  lemma Around(x: string, v: string, y: string)
    ensures Token(x + v + y) == ("{{" + x) + (v + (y + "}}"))
  {
  }

  lemma SplitAt(x: string, v: string, y: string)
    ensures var t := x + (v + y); t[..|x|] == x && t[|x| + |v|..] == y
  {
  }

  /** A piece of a later name, put into the middle of that placeholder: the chain replaces what it completes. */
  lemma PieceShows(bs: seq<Binding>, i: nat, j: nat) returns (s: string)
    requires GoodNames(bs) && AllBraceFree(bs) && i < j < |bs| && !NoPiece(bs, i, j)
    ensures Chain(s, bs) == bs[j].value && Simultaneous(s, bs) == Token(bs[j].name)
  {
    var t := Token(bs[j].name);
    var m, k := PieceSplits(bs[j].name, bs[i].value);
    s := t[..m] + (Token(bs[i].name) + t[k..]);
    Planted(bs, i, bs[j].name, m, k);
    PlantedChain(bs, i, bs[j].name, m, k);
    ChainFromToken(s, bs, i + 1, j);
  }

  /** What becomes of a placeholder that stands alone. */
  lemma ChainFromToken(s: string, bs: seq<Binding>, n: nat, j: nat)
    requires GoodNames(bs) && n <= j < |bs| && BraceFree(bs[j].value) && Chain(s, bs[..n]) == Token(bs[j].name)
    ensures Chain(s, bs) == bs[j].value
  {
    forall e | n <= e < j ensures !Contains(Chain(s, bs[..n]), Token(bs[e].name)) {
      NoTokenInToken(bs[j].name, bs[e].name);
    }
    ChainRests(s, bs, n, j);
    ChainStep(s, bs, j);
    WholeReplaced(Token(bs[j].name), bs[j].value);
    forall e | j + 1 <= e < |bs| ensures !Contains(Chain(s, bs[..j + 1]), Token(bs[e].name)) {
      NoTokenInPlain(bs[j].value, bs[e].name);
    }
    ChainRests(s, bs, j + 1, |bs|);
    assert bs[..|bs|] == bs;
  }

  lemma WholeReplaced(t: string, value: string)
    requires t != []
    ensures Replace(t, t, value) == value
  {
    assert t[|t|..] == [] && value + [] == value;
  }

  lemma PlainIsNoToken(v: string, name: string)
    requires BraceFree(v)
    ensures v != Token(name)
  {
    assert Token(name)[0] == '{';
  }

  /** For values without braces: the chain is the simultaneous substitution exactly when no value is a piece of a
      name replaced later. */
  lemma BraceFreeEqualExactly(f: string -> string, bs: seq<Binding>)
    requires GoodNames(bs) && AllBraceFree(bs) && Computes(f, bs)
    ensures AlwaysOnePass(f, bs) <==> EarlierNoPieces(bs)
  {
    if EarlierNoPieces(bs) {
      ApartIsNoPieces(bs);
      OnePassIfApart(f, bs);
    } else {
      var i, j :| 0 <= i < j < |bs| && !NoPiece(bs, i, j);
      var s := PieceShows(bs, i, j);
      PlainIsNoToken(bs[j].value, bs[j].name);
      assert f(s) != Simultaneous(s, bs);
    }
  }

  /** And no placeholder is left exactly when no value is a piece of its own name or of one replaced earlier. */
  lemma BraceFreeClearExactly(f: string -> string, bs: seq<Binding>)
    requires GoodNames(bs) && AllBraceFree(bs) && Computes(f, bs)
    ensures AlwaysClear(f, bs) <==> LaterNoPieces(bs)
  {
    ApartIsNoPieces(bs);
    NothingLeftExactly(f, bs);
  }
}
