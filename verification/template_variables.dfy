/** The eight template variables (src/templates.rs): exactly when the chain of replacements is what a single pass
    would make of the content. */
module TemplateVariables {
  import opened Text
  import opened Percent
  import opened Substitution

  /** The arguments beside the content. */
  datatype Arguments = Arguments(hostname: string, ip: string, instanceId: string, availabilityZone: string,
                                 domainSuffix: string, templateName: string)

  function TrimDots(s: string): (r: string)
    ensures r <= s
  {
    if s != [] && s[|s| - 1] == '.' then TrimDots(s[..|s| - 1]) else s
  }

  /** The suffix is cut off once, then trailing dots. */
  function ShortHostname(hostname: string, domainSuffix: string): (r: string)
    ensures r <= hostname
  {
    TrimDots(if EndsWith(hostname, domainSuffix) then hostname[..|hostname| - |domainSuffix|] else hostname)
  }

  /** The variables in the order of their replacement. */
  function Bindings(a: Arguments): (bs: seq<Binding>)
    ensures |bs| == 8
  {
    [Binding("HOSTNAME", a.hostname),
     Binding("SHORT_HOSTNAME", ShortHostname(a.hostname, a.domainSuffix)),
     Binding("IP", a.ip),
     Binding("INSTANCE_ID", a.instanceId),
     Binding("AVAILABILITY_ZONE", a.availabilityZone),
     Binding("HOSTNAME_ENCODED", Encode(a.hostname)),
     Binding("DOMAIN_SUFFIX", a.domainSuffix),
     Binding("TEMPLATE_NAME", a.templateName)]
  }

  lemma NamesAreGood(a: Arguments)
    ensures GoodNames(Bindings(a))
  {
    var bs := Bindings(a);
    NamesSpelled(bs);
    NamesDiffer(bs, [8, 14, 2, 11, 17, 16, 13, 13]);
  }

  lemma NamesSpelled(bs: seq<Binding>)
    requires |bs| == 8 && bs[0].name == "HOSTNAME" && bs[1].name == "SHORT_HOSTNAME" && bs[2].name == "IP"
    requires bs[3].name == "INSTANCE_ID" && bs[4].name == "AVAILABILITY_ZONE" && bs[5].name == "HOSTNAME_ENCODED"
    requires bs[6].name == "DOMAIN_SUFFIX" && bs[7].name == "TEMPLATE_NAME"
    ensures forall i :: 0 <= i < 8 ==> GoodName(bs[i].name)
    ensures |bs[0].name| == 8 && |bs[1].name| == 14 && |bs[2].name| == 2 && |bs[3].name| == 11
    ensures |bs[4].name| == 17 && |bs[5].name| == 16 && |bs[6].name| == |bs[7].name| == 13
    ensures bs[6].name != bs[7].name
  {
    SpelledFirst(bs[0].name);
    SpelledFirst(bs[1].name);
    SpelledFirst(bs[2].name);
    SpelledFirst(bs[3].name);
    SpelledLast(bs[4].name);
    SpelledLast(bs[5].name);
    SpelledLast(bs[6].name);
    SpelledLast(bs[7].name);
    assert bs[6].name[0] == 'D' && bs[7].name[0] == 'T';
  }

  lemma SpelledFirst(name: string)
    requires name == "HOSTNAME" || name == "SHORT_HOSTNAME" || name == "IP" || name == "INSTANCE_ID"
    ensures GoodName(name)
  {
  }

  lemma SpelledLast(name: string)
    requires name == "AVAILABILITY_ZONE" || name == "HOSTNAME_ENCODED" || name == "DOMAIN_SUFFIX"
             || name == "TEMPLATE_NAME"
    ensures GoodName(name)
  {
  }

  /** Names of different lengths differ; the last two differ in the first letter. */
  lemma NamesDiffer(bs: seq<Binding>, lengths: seq<nat>)
    requires |bs| == |lengths| == 8 && (forall i :: 0 <= i < 8 ==> GoodName(bs[i].name) && |bs[i].name| == lengths[i])
    requires forall i, j :: 0 <= i < j < 8 ==> lengths[i] != lengths[j] || (i == 6 && j == 7)
    requires bs[6].name != bs[7].name
    ensures GoodNames(bs)
  {
    forall i, j | 0 <= i < j < 8 ensures bs[i].name != bs[j].name {
      if i != 6 { assert lengths[i] != lengths[j]; }
    }
  }

  /** `substitute_variables`. */
  function SubstituteVariables(content: string, a: Arguments): string {
    var c1 := Replace(content, Token("HOSTNAME"), a.hostname);
    var c2 := Replace(c1, Token("SHORT_HOSTNAME"), ShortHostname(a.hostname, a.domainSuffix));
    var c3 := Replace(c2, Token("IP"), a.ip);
    var c4 := Replace(c3, Token("INSTANCE_ID"), a.instanceId);
    var c5 := Replace(c4, Token("AVAILABILITY_ZONE"), a.availabilityZone);
    var c6 := Replace(c5, Token("HOSTNAME_ENCODED"), Encode(a.hostname));
    var c7 := Replace(c6, Token("DOMAIN_SUFFIX"), a.domainSuffix);
    Replace(c7, Token("TEMPLATE_NAME"), a.templateName)
  }

  function Step(s: string, b: Binding): string {
    Replace(s, Token(b.name), b.value)
  }

  lemma ChainTwice(content: string, bs: seq<Binding>, n: nat)
    requires n + 2 <= |bs|
    ensures Chain(content, bs[..n + 2]) == Step(Step(Chain(content, bs[..n]), bs[n]), bs[n + 1])
  {
    assert bs[..n + 2][..n + 1] == bs[..n + 1];
    assert bs[..n + 1][..n] == bs[..n];
  }

  lemma ChainOfEight(content: string, bs: seq<Binding>)
    requires |bs| == 8
    ensures var c2 := Step(Step(content, bs[0]), bs[1]);
            var c4 := Step(Step(c2, bs[2]), bs[3]);
            var c6 := Step(Step(c4, bs[4]), bs[5]);
      Chain(content, bs) == Step(Step(c6, bs[6]), bs[7])
  {
    var c2 := Step(Step(content, bs[0]), bs[1]);
    var c4 := Step(Step(c2, bs[2]), bs[3]);
    assert Chain(content, bs[..4]) == c4 by {
      assert Chain(content, bs[..2]) == c2 by {
        ChainTwice(content, bs, 0);
        assert Chain(content, bs[..0]) == content;
      }
      ChainTwice(content, bs, 2);
    }
    assert Chain(content, bs[..6]) == Step(Step(c4, bs[4]), bs[5]) by {
      ChainTwice(content, bs, 4);
    }
    assert Chain(content, bs) == Chain(content, bs[..8]) by { assert bs[..8] == bs; }
    ChainTwice(content, bs, 6);
  }

  lemma SubstituteIsChain(content: string, a: Arguments)
    ensures SubstituteVariables(content, a) == Chain(content, Bindings(a))
  {
    ChainOfEight(content, Bindings(a));
  }

  function Substituting(a: Arguments): string -> string {
    content => SubstituteVariables(content, a)
  }

  lemma SubstitutingIsChain(a: Arguments)
    ensures Computes(Substituting(a), Bindings(a)) && GoodNames(Bindings(a))
  {
    forall content ensures Substituting(a)(content) == Chain(content, Bindings(a)) { SubstituteIsChain(content, a); }
    NamesAreGood(a);
  }

  /** What the replacements should do: one simultaneous substitution that leaves none of the eight placeholders. */
  ghost predicate Promised(a: Arguments) {
    AlwaysOnePass(Substituting(a), Bindings(a)) && AlwaysClear(Substituting(a), Bindings(a))
  }

  /** For all arguments: the promise holds for every content exactly when each of the eight values keeps apart from
      each of the eight placeholders. */
  lemma SubstituteExactly(a: Arguments)
    ensures Promised(a) <==> AllApart(Bindings(a))
  {
    SubstitutingIsChain(a);
    BothExactly(Substituting(a), Bindings(a));
  }

  predicate BraceFreeArguments(a: Arguments) {
    && BraceFree(a.hostname) && BraceFree(a.ip) && BraceFree(a.instanceId) && BraceFree(a.availabilityZone)
    && BraceFree(a.domainSuffix) && BraceFree(a.templateName)
  }

  /** The values the service derives itself: encoding adds no brace. */
  lemma {:induction false} EncodeBraceFree(s: string)
    ensures BraceFree(Encode(s)) <==> BraceFree(s)
  {
    if s != [] {
      EncodeBraceFree(s[1..]);
      var e := Encode(s);
      assert e == EncodeChar(s[0]) + Encode(s[1..]);
      assert s == [s[0]] + s[1..];
      if BraceFree(e) {
        assert e[0] == EncodeChar(s[0])[0];
        forall i | 0 <= i < |Encode(s[1..])| ensures Encode(s[1..])[i] != '{' && Encode(s[1..])[i] != '}' {
          assert e[|EncodeChar(s[0])| + i] == Encode(s[1..])[i];
        }
      }
    }
  }

  lemma PrefixBraceFree(v: string, w: string)
    requires v <= w && BraceFree(w)
    ensures BraceFree(v)
  {
    assert forall i :: 0 <= i < |v| ==> v[i] == w[i];
  }

  /** The values derived from the hostname have braces only if it does. */
  lemma BraceFreeValues(a: Arguments)
    requires BraceFreeArguments(a)
    ensures AllBraceFree(Bindings(a))
  {
    EncodeBraceFree(a.hostname);
    PrefixBraceFree(ShortHostname(a.hostname, a.domainSuffix), a.hostname);
  }

  /** For arguments without braces the two halves of the promise have exact conditions of their own: equality, that
      no value is a piece of a name replaced later; nothing left, that none is a piece of its own name or of one
      replaced earlier. */
  lemma BraceFreeExactly(a: Arguments)
    requires BraceFreeArguments(a)
    ensures AlwaysOnePass(Substituting(a), Bindings(a)) <==> EarlierNoPieces(Bindings(a))
    ensures AlwaysClear(Substituting(a), Bindings(a)) <==> LaterNoPieces(Bindings(a))
  {
    SubstitutingIsChain(a);
    BraceFreeValues(a);
    BraceFreeEqualExactly(Substituting(a), Bindings(a));
    BraceFreeClearExactly(Substituting(a), Bindings(a));
  }

  /** In particular the promise holds if no argument has braces, and each of the eight values has a character that
      is neither a capital nor an underscore. */
  lemma OrdinaryValuesSafe(a: Arguments, at: seq<nat>)
    requires BraceFreeArguments(a) && |at| == 8
    requires var bs := Bindings(a); forall i :: 0 <= i < 8 ==> at[i] < |bs[i].value| && !NameChar(bs[i].value[at[i]])
    ensures Promised(a)
  {
    NamesAreGood(a);
    BraceFreeValues(a);
    OrdinaryApart(Bindings(a), at);
    SubstituteExactly(a);
  }

  lemma OrdinaryApart(bs: seq<Binding>, at: seq<nat>)
    requires GoodNames(bs) && AllBraceFree(bs) && |at| == |bs|
    requires forall i :: 0 <= i < |bs| ==> at[i] < |bs[i].value| && !NameChar(bs[i].value[at[i]])
    ensures AllApart(bs)
  {
    forall i, j | 0 <= i < |bs| && 0 <= j < |bs| ensures Apart(bs[i].value, Token(bs[j].name)) {
      OutsideCharacter(bs[i].value, bs[j].name, at[i]);
      BraceFreeApart(bs[i].value, bs[j].name);
    }
  }

  /** One placeholder in the middle of another: {{TEMPLATE_NA{{DOMAIN_SUFFIX}}ME}}. */
  const SPLIT_TEMPLATE_NAME: string := "{{TEMPLATE_NA" + (Token("DOMAIN_SUFFIX") + "ME}}")

  /** An empty domain suffix, which the configuration allows, breaks the promise: with this content, and whatever
      the other arguments, the name of the template comes out where a single pass leaves a placeholder. */
  lemma EmptySuffixUnsafe(a: Arguments)
    requires a.domainSuffix == ""
    ensures SubstituteVariables(SPLIT_TEMPLATE_NAME, a) == a.templateName
    ensures Simultaneous(SPLIT_TEMPLATE_NAME, Bindings(a)) == Token("TEMPLATE_NAME")
    ensures !Promised(a)
  {
    var bs := Bindings(a);
    NamesAreGood(a);
    SplitIsPlanted();
    EmptyPlanted(SPLIT_TEMPLATE_NAME, bs, 6, 13);
    SubstituteIsChain(SPLIT_TEMPLATE_NAME, a);
    EmptyTouches(bs, 6, 7);
    SubstituteExactly(a);
  }

  lemma SplitIsPlanted()
    ensures var t := Token("TEMPLATE_NAME");
      |t| == 17 && SPLIT_TEMPLATE_NAME == t[..13] + (Token("DOMAIN_SUFFIX") + t[13..])
  {
    var t := Token("TEMPLATE_NAME");
    assert t == "{{TEMPLATE_NAME}}";
    assert t[..13] == "{{TEMPLATE_NA" && t[13..] == "ME}}";
  }

  /** An empty value planted in the last placeholder. */
  lemma EmptyPlanted(s: string, bs: seq<Binding>, i: nat, m: nat)
    requires GoodNames(bs) && i + 2 == |bs| && bs[i].value == "" && 0 < m < |Token(bs[i + 1].name)|
    requires var t := Token(bs[i + 1].name); s == t[..m] + (Token(bs[i].name) + t[m..])
    ensures Chain(s, bs) == bs[i + 1].value && Simultaneous(s, bs) == Token(bs[i + 1].name)
  {
    var t := Token(bs[i + 1].name);
    Planted(bs, i, bs[i + 1].name, m, m);
    PlantedChain(bs, i, bs[i + 1].name, m, m);
    NothingBetween(t, m);
    ChainStep(s, bs, i + 1);
    WholeReplaced(t, bs[i + 1].value);
    assert bs[..i + 2] == bs;
  }

  lemma NothingBetween(t: string, m: nat)
    requires m <= |t|
    ensures t[..m] + ("" + t[m..]) == t
  {
  }

  lemma EmptyTouches(bs: seq<Binding>, i: nat, j: nat)
    requires i < |bs| && j < |bs| && bs[i].value == ""
    ensures !AllApart(bs)
  {
    var t := Token(bs[j].name);
    assert |t| > 1 && Comparable("", t[1..]);
    assert !Apart(bs[i].value, t);
  }

  // ----- What each variable stands for -----

  predicate EndsInDot(s: string) {
    s != "" && s[|s| - 1] == '.'
  }

  predicate AllDots(s: string) {
    forall i :: 0 <= i < |s| ==> s[i] == '.'
  }

  lemma {:induction false} TrimDotsParts(s: string)
    ensures var t := TrimDots(s); t <= s && !EndsInDot(t) && AllDots(s[|t|..])
  {
    if EndsInDot(s) {
      var front := s[..|s| - 1];
      TrimDotsParts(front);
      var t := TrimDots(front);
      assert s[|t|..] == front[|t|..] + ".";
    }
  }

  /** The short name never ends in a dot; nothing but the suffix, once, and dots behind what is left is cut off. */
  lemma ShortHostnameParts(hostname: string, suffix: string) returns (rest: string, dots: string)
    ensures var short := ShortHostname(hostname, suffix);
      && !EndsInDot(short) && AllDots(dots) && rest == short + dots
      && (hostname == rest + suffix || (hostname == rest && !EndsWith(hostname, suffix)))
  {
    rest := if EndsWith(hostname, suffix) then hostname[..|hostname| - |suffix|] else hostname;
    TrimDotsParts(rest);
    dots := rest[|TrimDots(rest)|..];
  }

  /** A name that does not end in a dot comes back from the full name. */
  lemma ShortOfFull(h: string, suffix: string)
    requires !EndsInDot(h)
    ensures ShortHostname(h + suffix, suffix) == h
  {
    var full := h + suffix;
    assert full[|full| - |suffix|..] == suffix && full[..|full| - |suffix|] == h;
  }

  lemma ShortOfOther(hostname: string, suffix: string)
    requires !EndsInDot(hostname)
    requires |suffix| > |hostname| || hostname[|hostname| - |suffix|..] != suffix
    ensures ShortHostname(hostname, suffix) == hostname
  {
  }

  /** A placeholder alone comes out as the value of its variable, if that has no braces. */
  lemma Alone(content: string, a: Arguments, bs: seq<Binding>, j: nat)
    requires bs == Bindings(a) && j < 8 && BraceFree(bs[j].value) && content == Token(bs[j].name)
    ensures SubstituteVariables(content, a) == bs[j].value
  {
    NamesAreGood(a);
    assert Chain(content, bs[..0]) == content;
    ChainFromToken(content, bs, 0, j);
    SubstituteIsChain(content, a);
  }

  // Each placeholder comes out as its own argument.

  lemma HostnameVariable(content: string, a: Arguments)
    requires BraceFree(a.hostname) && content == "{{" + "HOSTNAME" + "}}"
    ensures SubstituteVariables(content, a) == a.hostname
  {
    Alone(content, a, Bindings(a), 0);
  }

  lemma IpVariable(content: string, a: Arguments)
    requires BraceFree(a.ip) && content == "{{" + "IP" + "}}"
    ensures SubstituteVariables(content, a) == a.ip
  {
    Alone(content, a, Bindings(a), 2);
  }

  lemma InstanceIdVariable(content: string, a: Arguments)
    requires BraceFree(a.instanceId) && content == "{{" + "INSTANCE_ID" + "}}"
    ensures SubstituteVariables(content, a) == a.instanceId
  {
    Alone(content, a, Bindings(a), 3);
  }

  lemma AvailabilityZoneVariable(content: string, a: Arguments)
    requires BraceFree(a.availabilityZone) && content == "{{" + "AVAILABILITY_ZONE" + "}}"
    ensures SubstituteVariables(content, a) == a.availabilityZone
  {
    Alone(content, a, Bindings(a), 4);
  }

  lemma DomainSuffixVariable(content: string, a: Arguments)
    requires BraceFree(a.domainSuffix) && content == "{{" + "DOMAIN_SUFFIX" + "}}"
    ensures SubstituteVariables(content, a) == a.domainSuffix
  {
    Alone(content, a, Bindings(a), 6);
  }

  lemma TemplateNameVariable(content: string, a: Arguments)
    requires BraceFree(a.templateName) && content == "{{" + "TEMPLATE_NAME" + "}}"
    ensures SubstituteVariables(content, a) == a.templateName
  {
    Alone(content, a, Bindings(a), 7);
  }

  lemma ShortHostnameAlone(content: string, a: Arguments)
    requires BraceFree(ShortHostname(a.hostname, a.domainSuffix)) && content == "{{" + "SHORT_HOSTNAME" + "}}"
    ensures SubstituteVariables(content, a) == ShortHostname(a.hostname, a.domainSuffix)
  {
    Alone(content, a, Bindings(a), 1);
  }

  lemma EncodedHostnameAlone(content: string, a: Arguments)
    requires BraceFree(Encode(a.hostname)) && content == "{{" + "HOSTNAME_ENCODED" + "}}"
    ensures SubstituteVariables(content, a) == Encode(a.hostname)
  {
    Alone(content, a, Bindings(a), 5);
  }

  /** The short name is the host name without the suffix. */
  lemma ShortHostnameVariable(content: string, a: Arguments, h: string, out: string)
    requires BraceFree(h) && a.hostname == h + a.domainSuffix && !EndsInDot(h)
    requires content == "{{" + "SHORT_HOSTNAME" + "}}" && out == SubstituteVariables(content, a)
    ensures out == h
  {
    assert ShortHostname(a.hostname, a.domainSuffix) == h by { ShortOfFull(h, a.domainSuffix); }
    ShortHostnameAlone(content, a);
  }

  lemma EncodedProperties(h: string)
    ensures Decode(Encode(h)) == h && (BraceFree(Encode(h)) <==> BraceFree(h))
    ensures forall c :: c in Encode(h) ==> c != ' ' && c != '\n' && c != '\r' && c != '#'
  {
    EncodeBraceFree(h);
    DecodeEncode(h);
    EncodedIsClean(h);
  }

  /** The encoded name decodes to the host name and has no blank, line break or fragment mark. */
  lemma EncodedHostnameVariable(content: string, a: Arguments, out: string)
    requires BraceFree(a.hostname) && content == "{{" + "HOSTNAME_ENCODED" + "}}" && out == SubstituteVariables(content, a)
    ensures Decode(out) == a.hostname
    ensures forall c :: c in out ==> c != ' ' && c != '\n' && c != '\r' && c != '#'
  {
    EncodedProperties(a.hostname);
    EncodedHostnameAlone(content, a);
  }
}
