/** Laws of splitting a text into lines and joining lines into a text: `str::lines` and `join("\n")`. */
module LineLaws {
  import opened Text

  // ----- From texts to lines -----

  /** Lines hold no line feed. */
  lemma {:induction false} LinesClean(s: string, i: nat)
    requires i < |Lines(s)|
    ensures '\n' !in Lines(s)[i]
    decreases |s|
  {
    var p := Find(s, '\n');
    if p < |s| && i > 0 { LinesClean(s[p + 1..], i - 1); }
  }

  predicate AllSingle(lines: seq<string>) {
    forall i :: 0 <= i < |lines| ==> '\n' !in lines[i]
  }

  lemma LinesSingle(s: string)
    ensures AllSingle(Lines(s))
  {
    forall i | 0 <= i < |Lines(s)| ensures '\n' !in Lines(s)[i] { LinesClean(s, i); }
  }

  /** No line feed comes after a carriage return. */
  predicate NoCrLf(s: string) {
    forall i :: 0 < i < |s| && s[i] == '\n' ==> s[i - 1] != '\r'
  }

  /** A text that splitting and joining leave as it is. */
  predicate Settled(t: string) {
    NoCrLf(t) && (t == "" || t[|t| - 1] != '\n')
  }

  lemma {:induction false} JoinLinesShort(t: string)
    ensures |Join(Lines(t), "\n")| <= |t|
    decreases |t|
  {
    var p := Find(t, '\n');
    if p < |t| { JoinLinesShort(t[p + 1..]); }
  }

  lemma NoCrLfParts(a: string, r: string)
    ensures NoCrLf(a + "\n" + r) <==> NoCrLf(a + "\n") && NoCrLf(r)
  {
    var t, b := a + "\n" + r, a + "\n";
    assert forall i :: 0 <= i < |b| ==> b[i] == t[i];
    forall i | 0 <= i < |r| ensures r[i] == t[|b| + i] {
    }
    if NoCrLf(t) {
      forall i | 0 < i < |r| && r[i] == '\n' ensures r[i - 1] != '\r' {
        assert t[|b| + i] == '\n' && t[|b| + i - 1] == r[i - 1];
      }
    }
    if NoCrLf(b) && NoCrLf(r) {
      forall i | 0 < i < |t| && t[i] == '\n' ensures t[i - 1] != '\r' {
        if i > |b| { assert t[i] == r[i - |b|] && t[i - 1] == r[i - |b| - 1]; }
      }
    }
  }

  lemma SettledParts(a: string, r: string)
    ensures Settled(a + "\n" + r) <==> NoCrLf(a + "\n") && r != "" && Settled(r)
  {
    NoCrLfParts(a, r);
    var t := a + "\n" + r;
    assert t[|t| - 1] == if r == "" then '\n' else r[|r| - 1];
  }

  lemma SingleEndsInCr(a: string)
    requires '\n' !in a
    ensures NoCrLf(a + "\n") <==> !EndsInCr(a)
  {
    var b := a + "\n";
    assert forall i :: 0 <= i < |a| ==> b[i] == a[i];
    assert b[|a|] == '\n';
  }

  /** Splitting and joining gives back the text exactly when it does not end in a line feed, and no line feed
      comes after a carriage return. */
  lemma {:induction false} JoinLinesExactly(t: string)
    ensures Join(Lines(t), "\n") == t <==> Settled(t)
    decreases |t|
  {
    var p := Find(t, '\n');
    if p == |t| {
      assert t[..p] == t;
      assert forall i :: 0 <= i < |t| ==> t[i] in t[..p];
    } else {
      var a, r := t[..p], t[p + 1..];
      assert t == a + "\n" + r;
      JoinLinesExactly(r);
      JoinLinesShort(r);
      SettledParts(a, r);
      SingleEndsInCr(a);
      assert Lines(t) == [StripCr(a)] + Lines(r);
      if r != "" && !EndsInCr(a) && Join(Lines(t), "\n") == t {
        assert Join(Lines(t), "\n") == a + "\n" + Join(Lines(r), "\n");
        assert t[p + 1..] == Join(Lines(r), "\n");
      }
    }
  }

  // ----- From lines to texts -----

  function StripAll(lines: seq<string>): seq<string> {
    seq(|lines|, i requires 0 <= i < |lines| => StripCr(lines[i]))
  }

  /** What comes back when lines are joined and split again: all but the last lose a carriage return at the end,
      and an empty last line is lost. */
  function Reread(lines: seq<string>): seq<string> {
    if |lines| == 0 then []
    else
      var n := |lines| - 1;
      StripAll(lines[..n]) + (if lines[n] == "" then [] else [lines[n]])
  }

  /** The parts are re-read one by one, if the second is not empty. */
  lemma RereadAppend(a: seq<string>, b: seq<string>)
    requires b != []
    ensures Reread(a + b) == StripAll(a) + Reread(b)
  {
    var n := |b| - 1;
    var all := a + b;
    assert all[..|all| - 1] == a + b[..n] && all[|all| - 1] == b[n];
    StripAllAppend(a, b[..n]);
    var tail: seq<string> := if b[n] == "" then [] else [b[n]];
    assert StripAll(a) + StripAll(b[..n]) + tail == StripAll(a) + (StripAll(b[..n]) + tail);
  }

  lemma StripAllAppend(a: seq<string>, b: seq<string>)
    ensures StripAll(a + b) == StripAll(a) + StripAll(b)
  {
  }

  lemma RereadFirst(lines: seq<string>)
    requires |lines| > 1
    ensures Reread(lines) == [StripCr(lines[0])] + Reread(lines[1..])
  {
    assert lines == [lines[0]] + lines[1..];
    RereadAppend([lines[0]], lines[1..]);
    assert StripAll([lines[0]]) == [StripCr(lines[0])];
  }

  lemma {:induction false} LinesOfJoin(lines: seq<string>)
    requires AllSingle(lines)
    ensures Lines(Join(lines, "\n")) == Reread(lines)
  {
    if |lines| == 1 {
      assert lines[0][..|lines[0]|] == lines[0];
      FindUnique(lines[0], '\n', |lines[0]|);
    } else if |lines| > 1 {
      LinesOfJoin(lines[1..]);
      LinesOfTerminatedLine(lines[0], Join(lines[1..], "\n"));
      RereadFirst(lines);
    }
  }

  lemma {:induction false} SettledJoin(lines: seq<string>)
    requires lines != []
    ensures var last := lines[|lines| - 1];
      Settled(Join(lines, "\n")) <==>
      && (forall i :: 0 <= i < |lines| - 1 ==> NoCrLf(lines[i] + "\n"))
      && Settled(last) && (|lines| > 1 ==> last != "")
  {
    if |lines| > 1 {
      var rest := lines[1..];
      SettledJoin(rest);
      SettledParts(lines[0], Join(rest, "\n"));
      assert forall i :: 0 <= i < |rest| ==> rest[i] == lines[i + 1];
      assert Join(rest, "\n") == "" <==> |rest| == 1 && rest[0] == "";
    }
  }

  // ----- Counting line feeds -----

  function LineFeeds(s: string): nat {
    if s == "" then 0 else (if s[0] == '\n' then 1 else 0) + LineFeeds(s[1..])
  }

  lemma {:induction false} LineFeedsAppend(a: string, b: string)
    ensures LineFeeds(a + b) == LineFeeds(a) + LineFeeds(b)
  {
    if a == "" {
      assert a + b == b;
    } else {
      LineFeedsAppend(a[1..], b);
      assert (a + b)[1..] == a[1..] + b;
    }
  }

  lemma {:induction false} NoLineFeeds(a: string)
    requires '\n' !in a
    ensures LineFeeds(a) == 0
  {
    if a != "" {
      assert a[0] in a && forall c :: c in a[1..] ==> c in a;
      NoLineFeeds(a[1..]);
    }
  }

  /** Every line feed ends a line. */
  lemma {:induction false} LineFeedsEndLines(t: string)
    ensures LineFeeds(t) <= |Lines(t)|
    decreases |t|
  {
    var p := Find(t, '\n');
    NoLineFeeds(t[..p]);
    if p == |t| {
      assert t[..p] == t;
    } else {
      assert t == t[..p] + ("\n" + t[p + 1..]);
      LineFeedsAppend(t[..p], "\n" + t[p + 1..]);
      assert ("\n" + t[p + 1..])[1..] == t[p + 1..];
      LineFeedsEndLines(t[p + 1..]);
    }
  }

  lemma {:induction false} JoinLineFeeds(lines: seq<string>)
    requires lines != []
    ensures LineFeeds(Join(lines, "\n")) >= |lines| - 1
  {
    if |lines| > 1 {
      var rest := Join(lines[1..], "\n");
      JoinLineFeeds(lines[1..]);
      assert lines[0] + "\n" + rest == lines[0] + ("\n" + rest);
      LineFeedsAppend(lines[0], "\n" + rest);
      assert ("\n" + rest)[1..] == rest;
    }
  }

  // ----- Finding the start of a line again -----

  predicate LineStart(x: string) {
    x == "" || x[|x| - 1] == '\n'
  }

  /** A text that begins with q has a first line that does. */
  lemma FirstLineBegins(q: string, y: string)
    requires q != "" && '\n' !in q && !EndsInCr(q)
    ensures Lines(q + y) != [] && q <= Lines(q + y)[0]
  {
    var t := q + y;
    var p := Find(t, '\n');
    assert forall i :: 0 <= i < |q| ==> t[i] == q[i] && q[i] in q;
    assert q <= t[..p];
    assert t[..p][|q| - 1] == q[|q| - 1];
    assert p == |t| ==> t[..p] == t;
  }

  lemma LinesNext(t: string, p: nat)
    requires p < |t| && p == Find(t, '\n')
    ensures Lines(t) == [StripCr(t[..p])] + Lines(t[p + 1..])
  {
  }

  lemma InLater(l: string, first: string, rest: seq<string>)
    requires l in rest
    ensures l in [first] + rest
  {
  }

  lemma FindWithin(x: string, rest: string)
    requires '\n' in x
    ensures Find(x, '\n') < |x| && Find(x + rest, '\n') == Find(x, '\n')
  {
    var p := Find(x, '\n');
    assert x[..|x|] == x;
    assert (x + rest)[..p] == x[..p];
    FindUnique(x + rest, '\n', p);
  }

  /** What stands at the start of a line of the text begins one of its lines. */
  lemma {:induction false} LineBegins(x: string, q: string, y: string) returns (l: string)
    requires LineStart(x) && q != "" && '\n' !in q && !EndsInCr(q)
    ensures l in Lines(x + (q + y)) && q <= l
    decreases |x|
  {
    var t := x + (q + y);
    if x == "" {
      assert t == q + y;
      FirstLineBegins(q, y);
      l := Lines(t)[0];
    } else {
      assert x[|x| - 1] in x;
      FindWithin(x, q + y);
      var p := Find(x, '\n');
      assert t[p + 1..] == x[p + 1..] + (q + y);
      l := LineBegins(x[p + 1..], q, y);
      LinesNext(t, p);
      InLater(l, StripCr(t[..p]), Lines(t[p + 1..]));
    }
  }

  lemma {:induction false} JoinAt(lines: seq<string>, k: nat) returns (x: string, y: string)
    requires k < |lines|
    ensures Join(lines, "\n") == x + (lines[k] + y) && LineStart(x)
  {
    if k == 0 {
      x := "";
      y := if |lines| == 1 then "" else "\n" + Join(lines[1..], "\n");
    } else {
      x, y := JoinAt(lines[1..], k - 1);
      assert lines[0] + "\n" + (x + (lines[k] + y)) == (lines[0] + "\n" + x) + (lines[k] + y);
      x := lines[0] + "\n" + x;
    }
  }

  // ----- Splitting at a character -----

  /** `split(c)`. */
  function Split(s: string, c: char): seq<string>
    decreases |s|
  {
    var p := Find(s, c);
    if p == |s| then [s] else [s[..p]] + Split(s[p + 1..], c)
  }

  lemma SplitFirst(x: string, c: char, rest: string)
    requires c !in x
    ensures Split(x + ([c] + rest), c) == [x] + Split(rest, c)
  {
    var s := x + ([c] + rest);
    assert s[..|x|] == x && s[|x| + 1..] == rest;
    FindUnique(s, c, |x|);
  }

  lemma SplitWhole(x: string, c: char)
    requires c !in x
    ensures Split(x, c) == [x]
  {
    assert x[..|x|] == x;
    FindUnique(x, c, |x|);
  }

  predicate AllWithout(parts: seq<string>, c: char) {
    forall i :: 0 <= i < |parts| ==> c !in parts[i]
  }

  /** Splitting undoes joining. */
  lemma {:induction false} SplitJoin(parts: seq<string>, c: char)
    requires parts != [] && AllWithout(parts, c)
    ensures Split(Join(parts, [c]), c) == parts
  {
    if |parts| == 1 {
      SplitWhole(parts[0], c);
    } else {
      var rest := Join(parts[1..], [c]);
      SplitJoin(parts[1..], c);
      assert Join(parts, [c]) == parts[0] + ([c] + rest);
      SplitFirst(parts[0], c, rest);
      assert parts == [parts[0]] + parts[1..];
    }
  }
}
