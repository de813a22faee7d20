/** The minimal URL encoding for data URIs: `url_encode` in src/provision.rs and its twin
    `url_encode_simple` in src/templates.rs. */
module Percent {
  import opened Text

  function EncodeChar(c: char): (r: string)
    ensures r != []
  {
    match c
    case ' ' => "%20"
    case '%' => "%25"
    case '\n' => "%0A"
    case '\r' => "%0D"
    case '#' => "%23"
    case _ => [c]
  }

  function Encode(s: string): string {
    if s == [] then [] else EncodeChar(s[0]) + Encode(s[1..])
  }

  lemma {:induction false} EncodeAppend(a: string, b: string)
    ensures Encode(a + b) == Encode(a) + Encode(b)
  {
    if a == [] {
      assert a + b == b;
    } else {
      EncodeAppend(a[1..], b);
      assert (a + b)[0] == a[0] && (a + b)[1..] == a[1..] + b;
      Associate(EncodeChar(a[0]), Encode(a[1..]), Encode(b));
    }
  }

  lemma Associate(a: string, b: string, c: string)
    ensures a + (b + c) == (a + b) + c
  {
  }

  /** The loop that pushes onto a buffer. */
  method UrlEncode(s: string) returns (encoded: string)
    ensures encoded == Encode(s)
  {
    encoded := "";
    for i := 0 to |s|
      invariant encoded == Encode(s[..i])
    {
      assert s[..i + 1] == s[..i] + [s[i]];
      EncodeAppend(s[..i], [s[i]]);
      assert Encode([s[i]]) == EncodeChar(s[i]);
      encoded := encoded + EncodeChar(s[i]);
    }
    assert s[..|s|] == s;
  }

  /** Hexadecimal digits of either case, section 2.1 of RFC 3986. */
  function HexValue(c: char): (v: Option<nat>)
    ensures v.Some? ==> v.value < 16
  {
    if '0' <= c <= '9' then Some((c as int) - ('0' as int))
    else if 'A' <= c <= 'F' then Some((c as int) - ('A' as int) + 10)
    else if 'a' <= c <= 'f' then Some((c as int) - ('a' as int) + 10)
    else None
  }

  /** A percent sign and two digits for an octet below 128. */
  predicate Escaped(s: string) {
    |s| >= 3 && s[0] == '%' && HexValue(s[1]).Some? && HexValue(s[1]).value < 8 && HexValue(s[2]).Some?
  }

  /** Percent-decoding, section 2.1 of RFC 3986, for octets below 128; anything else stands for itself. */
  function Decode(s: string): string {
    if s == [] then []
    else if Escaped(s) then [(16 * HexValue(s[1]).value + HexValue(s[2]).value) as char] + Decode(s[3..])
    else [s[0]] + Decode(s[1..])
  }

  /** One character's encoding is decoded on its own, whatever follows. */
  lemma DecodeHead(c: char, tail: string)
    ensures Decode(EncodeChar(c) + tail) == [c] + Decode(tail)
  {
    var head := EncodeChar(c);
    var e := head + tail;
    assert e[|head|..] == tail;
    if |head| == 3 {
      assert e[0] == head[0] && e[1] == head[1] && e[2] == head[2];
    } else {
      assert e[0] == c && c != '%';
    }
  }

  /** Decoding undoes the encoding, for every string. */
  lemma {:induction false} DecodeEncode(s: string)
    ensures Decode(Encode(s)) == s
  {
    if s != [] {
      DecodeEncode(s[1..]);
      DecodeHead(s[0], Encode(s[1..]));
    }
  }

  /** No blank, line break or fragment mark is left. */
  lemma {:induction false} EncodedIsClean(s: string)
    ensures forall c :: c in Encode(s) ==> c != ' ' && c != '\n' && c != '\r' && c != '#'
  {
    if s != [] { EncodedIsClean(s[1..]); }
  }

  /** A text without blanks, percent signs, line breaks and fragment marks is its own encoding. */
  lemma {:induction false} PlainUnchanged(s: string)
    requires forall c :: c in s ==> c != ' ' && c != '%' && c != '\n' && c != '\r' && c != '#'
    ensures Encode(s) == s
  {
    if s != [] {
      assert s[0] in s && forall c :: c in s[1..] ==> c in s;
      PlainUnchanged(s[1..]);
    }
  }
}
