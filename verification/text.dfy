/** Strings as the Rust code sees them: the order of `String`, radix printing and
    parsing, `str::lines`, `str::trim` and `str::find` for one character; lookup in maps. */
module Text {
  datatype Option<+T> = None | Some(value: T)

  // ----- Order -----

  /** Byte order of UTF-8 strings, which is the order of their scalar values. */
  predicate Le(a: string, b: string) {
    a == [] || (b != [] && (a[0] < b[0] || (a[0] == b[0] && Le(a[1..], b[1..]))))
  }

  predicate Lt(a: string, b: string) {
    Le(a, b) && a != b
  }

  lemma LeReflexive(a: string)
    ensures Le(a, a)
  {
    if a != [] { LeReflexive(a[1..]); }
  }

  lemma LeTotal(a: string, b: string)
    ensures Le(a, b) || Le(b, a)
  {
    if a != [] && b != [] && a[0] == b[0] { LeTotal(a[1..], b[1..]); }
  }

  lemma LeAntisymmetric(a: string, b: string)
    requires Le(a, b) && Le(b, a)
    ensures a == b
  {
    if a != [] {
      LeAntisymmetric(a[1..], b[1..]);
      assert a == [a[0]] + a[1..] && b == [b[0]] + b[1..];
    }
  }

  lemma LeTransitive(a: string, b: string, c: string)
    requires Le(a, b) && Le(b, c)
    ensures Le(a, c)
  {
    if a != [] && a[0] == b[0] && b[0] == c[0] { LeTransitive(a[1..], b[1..], c[1..]); }
  }

  /** A common prefix does not affect the order. */
  lemma {:induction false} LtAfterPrefix(p: string, a: string, b: string)
    requires Lt(a, b)
    ensures Lt(p + a, p + b)
  {
    if p == [] {
      assert p + a == a && p + b == b;
    } else {
      LtAfterPrefix(p[1..], a, b);
      assert (p + a)[1..] == p[1..] + a && (p + b)[1..] == p[1..] + b;
    }
  }

  /** Between strings of one length the first difference decides, whatever follows. */
  lemma {:induction false} LtBeforeSuffix(a: string, b: string, x: string, y: string)
    requires |a| == |b| && Lt(a, b)
    ensures Lt(a + x, b + y)
  {
    assert a != [];
    assert (a + x)[0] == a[0] && (b + y)[0] == b[0];
    assert (a + x)[1..] == a[1..] + x && (b + y)[1..] == b[1..] + y;
    if a[0] == b[0] {
      assert a == [a[0]] + a[1..] && b == [b[0]] + b[1..];
      LtBeforeSuffix(a[1..], b[1..], x, y);
    }
  }

  // ----- Radix printing and parsing -----

  predicate Radix(base: nat) { base == 10 || base == 16 }

  function DigitChar(d: nat): (c: char)
    requires d < 16
    ensures c != '\n' && c != '\r' && c != '=' && c != '-' && c != '+'
  {
    if d < 10 then '0' + (d as char) else 'a' + ((d - 10) as char)
  }

  function DigitValue(c: char): (d: nat) {
    if '0' <= c <= '9' then (c as int) - ('0' as int)
    else if 'a' <= c <= 'f' then (c as int) - ('a' as int) + 10
    else 16
  }

  /** `{}` for base 10 and `{:x}` for base 16. */
  function Print(n: nat, base: nat): (s: string)
    requires Radix(base)
    ensures s != []
  {
    if n < base then [DigitChar(n)] else Print(n / base, base) + [DigitChar(n % base)]
  }

  /** Zero padding on the left up to `width`, as in `{:04}`. */
  function Pad(s: string, width: nat): (r: string)
    ensures |r| == if |s| < width then width else |s|
    decreases width - |s|
  {
    if |s| < width then Pad("0" + s, width) else s
  }

  predicate AllDigits(s: string, base: nat) {
    forall i :: 0 <= i < |s| ==> DigitValue(s[i]) < base
  }

  function Value(s: string, base: nat): nat {
    if s == [] then 0 else Value(s[..|s| - 1], base) * base + DigitValue(s[|s| - 1])
  }

  lemma {:induction false} PrintValue(n: nat, base: nat)
    requires Radix(base)
    ensures AllDigits(Print(n, base), base) && Value(Print(n, base), base) == n
    decreases n
  {
    var s := Print(n, base);
    if n < base {
      assert s[..|s| - 1] == [];
    } else {
      PrintValue(n / base, base);
      assert s[..|s| - 1] == Print(n / base, base);
    }
  }

  lemma {:induction false} ValueLeadingZero(s: string, base: nat)
    ensures Value("0" + s, base) == Value(s, base)
    decreases |s|
  {
    var z := "0" + s;
    if s == [] {
      assert z[..0] == [];
    } else {
      ValueLeadingZero(s[..|s| - 1], base);
      assert z[..|z| - 1] == "0" + s[..|s| - 1];
    }
  }

  lemma {:induction false} PadValue(s: string, width: nat, base: nat)
    requires Radix(base)
    ensures Value(Pad(s, width), base) == Value(s, base)
    ensures AllDigits(s, base) ==> AllDigits(Pad(s, width), base)
    decreases width - |s|
  {
    if |s| < width {
      ValueLeadingZero(s, base);
      PadValue("0" + s, width, base);
    }
  }

  /** `str::parse` for an unsigned type of which `limit` is the first value too large:
      an optional plus sign, then one or more digits. */
  function ParseUnsigned(s: string, limit: nat): Option<nat> {
    var digits := if |s| > 0 && s[0] == '+' then s[1..] else s;
    if digits == [] || !AllDigits(digits, 10) || Value(digits, 10) >= limit then None
    else Some(Value(digits, 10))
  }

  lemma ParsePrinted(n: nat, limit: nat)
    ensures ParseUnsigned(Print(n, 10), limit) == if n < limit then Some(n) else None
  {
    PrintValue(n, 10);
    var s := Print(n, 10);
    assert DigitValue(s[0]) < 10;
  }

  // ----- Lines -----

  /** `str::find(c)`, with |s| for "not found". */
  function Find(s: string, c: char): (i: nat)
    ensures i <= |s| && c !in s[..i]
    ensures i < |s| ==> s[i] == c
  {
    if s == [] then 0
    else if s[0] == c then 0
    else
      var k := Find(s[1..], c);
      assert s[..k + 1] == [s[0]] + s[1..][..k];
      k + 1
  }

  lemma FindUnique(s: string, c: char, i: nat)
    requires i <= |s| && c !in s[..i]
    requires i < |s| ==> s[i] == c
    ensures Find(s, c) == i
  {
    if s != [] && s[0] != c {
      assert s[..i] == [s[0]] + s[1..][..i - 1];
      FindUnique(s[1..], c, i - 1);
    }
  }

  function StripCr(line: string): string {
    if |line| > 0 && line[|line| - 1] == '\r' then line[..|line| - 1] else line
  }

  predicate EndsInCr(line: string) {
    line != "" && line[|line| - 1] == '\r'
  }

  /** `str::lines`: a carriage return is dropped only in front of a line feed. */
  function Lines(s: string): seq<string>
    decreases |s|
  {
    if s == [] then []
    else
      var p := Find(s, '\n');
      if p == |s| then [s] else [StripCr(s[..p])] + Lines(s[p + 1..])
  }

  lemma LinesOfTerminatedLine(line: string, rest: string)
    requires '\n' !in line
    ensures Lines(line + "\n" + rest) == [StripCr(line)] + Lines(rest)
  {
    var s := line + "\n" + rest;
    assert s[..|line|] == line && s[|line| + 1..] == rest;
    FindUnique(s, '\n', |line|);
  }

  /** `join`. */
  function Join(lines: seq<string>, sep: string): string {
    if lines == [] then "" else if |lines| == 1 then lines[0] else lines[0] + sep + Join(lines[1..], sep)
  }

  // ----- Whitespace -----

  /** The Unicode White_Space property, which `str::trim` uses. */
  predicate IsWhitespace(c: char) {
    '\t' <= c <= '\r' || c == ' ' || c == '\U{85}' || c == '\U{A0}' || c == '\U{1680}'
    || '\U{2000}' <= c <= '\U{200A}' || c == '\U{2028}' || c == '\U{2029}' || c == '\U{202F}'
    || c == '\U{205F}' || c == '\U{3000}'
  }

  function TrimStart(s: string): string {
    if s != [] && IsWhitespace(s[0]) then TrimStart(s[1..]) else s
  }

  function TrimEnd(s: string): string {
    if s != [] && IsWhitespace(s[|s| - 1]) then TrimEnd(s[..|s| - 1]) else s
  }

  function Trim(s: string): string {
    TrimEnd(TrimStart(s))
  }

  // ----- Prefixes and suffixes -----

  predicate EndsWith(s: string, suffix: string) {
    |suffix| <= |s| && s[|s| - |suffix|..] == suffix
  }

  predicate Contains(s: string, t: string) {
    exists p :: 0 <= p <= |s| && t <= s[p..]
  }

  // ----- Maps -----

  function At<K, V>(m: map<K, V>, k: K): Option<V> {
    if k in m then Some(m[k]) else None
  }
}
