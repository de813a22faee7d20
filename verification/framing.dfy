/** Newline framing of the BMH watch stream (src/watcher/bmh.rs). */
module Framing {
  import opened Text

  datatype Framed = Framed(lines: seq<string>, tail: string)

  /** What becomes of one line. */
  type Handler = string -> seq<string>

  /** The complete lines, each handled, and the unfinished rest. */
  function FrameWith(s: string, keep: Handler): (r: Framed)
    ensures '\n' !in r.tail && |r.tail| <= |s|
    decreases |s|
  {
    var pos := Find(s, '\n');
    if pos == |s| then (assert s[..pos] == s; Framed([], s))
    else
      var rest := FrameWith(s[pos + 1..], keep);
      Framed(keep(s[..pos]) + rest.lines, rest.tail)
  }

  /** A line as it is handed on: trimmed, and not at all if nothing is left. */
  function Kept(line: string): seq<string> {
    if Trim(line) == "" then [] else [Trim(line)]
  }

  /** The trimmed lines that are complete and not empty, and the unfinished rest. */
  function Frame(s: string): Framed {
    FrameWith(s, Kept)
  }

  function Concat(chunks: seq<string>): string {
    if chunks == [] then "" else Concat(chunks[..|chunks| - 1]) + chunks[|chunks| - 1]
  }

  lemma FindAppend(a: string, b: string)
    requires Find(a, '\n') < |a|
    ensures Find(a + b, '\n') == Find(a, '\n')
  {
    assert (a + b)[..Find(a, '\n')] == a[..Find(a, '\n')];
    FindUnique(a + b, '\n', Find(a, '\n'));
  }

  /** Framing can be interrupted: the unfinished rest goes in front of what comes next. */
  lemma {:induction false} FrameAppend(a: string, b: string, keep: Handler)
    ensures var first := FrameWith(a, keep);
            var second := FrameWith(first.tail + b, keep);
      FrameWith(a + b, keep) == Framed(first.lines + second.lines, second.tail)
    decreases |a|
  {
    var pos := Find(a, '\n');
    if pos < |a| {
      FrameAppend(a[pos + 1..], b, keep);
      FrameCut(a, b, keep);
      Associate(keep(a[..pos]), FrameWith(a[pos + 1..], keep).lines,
                FrameWith(FrameWith(a[pos + 1..], keep).tail + b, keep).lines);
    }
  }

  /** The first complete line is the same whatever follows. */
  lemma FrameCut(a: string, b: string, keep: Handler)
    requires Find(a, '\n') < |a|
    ensures var pos := Find(a, '\n');
            var rest := FrameWith(a[pos + 1..] + b, keep);
      FrameWith(a + b, keep) == Framed(keep(a[..pos]) + rest.lines, rest.tail)
  {
    var pos := Find(a, '\n');
    FindAppend(a, b);
    assert (a + b)[pos + 1..] == a[pos + 1..] + b && (a + b)[..pos] == a[..pos];
  }

  lemma Associate<T>(a: seq<T>, b: seq<T>, c: seq<T>)
    ensures a + (b + c) == (a + b) + c
  {
  }

  /** The inner loop: complete lines are cut off the buffer until none is left. */
  method ProcessLines(whole: string) returns (lines: seq<string>, buffer: string)
    ensures Framed(lines, buffer) == Frame(whole)
  {
    lines, buffer := [], whole;
    var pos := Find(buffer, '\n');
    while pos < |buffer|
      invariant pos == Find(buffer, '\n')
      invariant Frame(whole) == Framed(lines + Frame(buffer).lines, Frame(buffer).tail)
      decreases |buffer|
    {
      var line := Trim(buffer[..pos]);
      ghost var rest := Frame(buffer[pos + 1..]);
      assert (lines + Kept(buffer[..pos])) + rest.lines == lines + (Kept(buffer[..pos]) + rest.lines);
      assert line == "" ==> lines + Kept(buffer[..pos]) == lines;
      buffer := buffer[pos + 1..];
      pos := Find(buffer, '\n');
      if line == "" {
        continue;
      }
      lines := lines + [line];
    }
  }

  /** One turn of the buffer loop: the chunk goes behind the rest, and complete lines are cut off. */
  function Feed(st: Framed, chunk: string): Framed {
    var f := Frame(st.tail + chunk);
    Framed(st.lines + f.lines, f.tail)
  }

  /** The lines handed on and the buffer after these chunks. */
  function FeedAll(chunks: seq<string>): Framed {
    if chunks == [] then Framed([], "") else Feed(FeedAll(chunks[..|chunks| - 1]), chunks[|chunks| - 1])
  }

  /** The loop frames the whole stream, however it is cut: after every chunk the lines handed on are the complete
      lines of what has arrived, and the buffer is the unfinished rest. */
  lemma {:induction false} FeedIsFrame(chunks: seq<string>)
    ensures FeedAll(chunks) == Frame(Concat(chunks))
  {
    if chunks == [] {
      assert Find("", '\n') == 0;
    } else {
      var n := |chunks| - 1;
      FeedIsFrame(chunks[..n]);
      FrameAppend(Concat(chunks[..n]), chunks[n], Kept);
    }
  }

  // ----- What framing means -----

  function Unlines(raw: seq<string>): string {
    if raw == [] then "" else raw[0] + "\n" + Unlines(raw[1..])
  }

  function AllKept(raw: seq<string>): seq<string> {
    if raw == [] then [] else Kept(raw[0]) + AllKept(raw[1..])
  }

  /** For every list of lines and every unfinished rest: framing their text gives back the lines, trimmed and
      without the empty ones, and the rest. */
  lemma {:induction false} FrameUnlines(raw: seq<string>, tail: string)
    requires '\n' !in tail && forall i :: 0 <= i < |raw| ==> '\n' !in raw[i]
    ensures Frame(Unlines(raw) + tail) == Framed(AllKept(raw), tail)
  {
    var s := Unlines(raw) + tail;
    if raw == [] {
      assert s == tail;
      assert tail[..|tail|] == tail;
      FindUnique(tail, '\n', |tail|);
    } else {
      assert s[..|raw[0]|] == raw[0];
      FindUnique(s, '\n', |raw[0]|);
      assert s[|raw[0]| + 1..] == Unlines(raw[1..]) + tail;
      FrameUnlines(raw[1..], tail);
    }
  }

  /** Every stream has that form. */
  lemma {:induction false} StreamParts(s: string) returns (raw: seq<string>, tail: string)
    ensures s == Unlines(raw) + tail
    ensures '\n' !in tail && forall i :: 0 <= i < |raw| ==> '\n' !in raw[i]
    decreases |s|
  {
    var pos := Find(s, '\n');
    if pos == |s| {
      raw, tail := [], s;
      assert s[..pos] == s;
    } else {
      var rest;
      rest, tail := StreamParts(s[pos + 1..]);
      raw := [s[..pos]] + rest;
      assert raw[1..] == rest;
      assert s == s[..pos] + "\n" + s[pos + 1..];
    }
  }

  /** How the stream is cut into chunks does not matter to the loop: if the stream is these lines and this rest,
      it hands on the lines, trimmed and without the empty ones, and keeps the rest. */
  lemma ChunkingInvisible(chunks: seq<string>, raw: seq<string>, tail: string)
    requires Concat(chunks) == Unlines(raw) + tail
    requires '\n' !in tail && forall i :: 0 <= i < |raw| ==> '\n' !in raw[i]
    ensures FeedAll(chunks) == Framed(AllKept(raw), tail)
  {
    FeedIsFrame(chunks);
    FrameUnlines(raw, tail);
  }

  /** So two ways to cut one stream are told apart neither by the lines handed on nor by the buffer. */
  lemma SameStream(chunks1: seq<string>, chunks2: seq<string>)
    requires Concat(chunks1) == Concat(chunks2)
    ensures FeedAll(chunks1) == FeedAll(chunks2)
  {
    FeedIsFrame(chunks1);
    FeedIsFrame(chunks2);
  }

  /** A line handed on begins and ends with something other than whitespace. */
  lemma KeptIsTrimmed(line: string)
    requires Kept(line) != []
    ensures var t := Kept(line)[0]; t != "" && !IsWhitespace(t[0]) && !IsWhitespace(t[|t| - 1])
  {
    var a, t, b := KeptParts(line);
  }

  // ----- What a line handed on is -----

  predicate AllWhitespace(s: string) {
    forall i :: 0 <= i < |s| ==> IsWhitespace(s[i])
  }

  lemma {:induction false} TrimStartParts(s: string)
    ensures var t := TrimStart(s);
      && |t| <= |s| && t == s[|s| - |t|..] && AllWhitespace(s[..|s| - |t|])
      && (t == "" || !IsWhitespace(t[0]))
  {
    if s != "" && IsWhitespace(s[0]) {
      TrimStartParts(s[1..]);
      var t := TrimStart(s[1..]);
      assert s[..|s| - |t|] == [s[0]] + s[1..][..|s| - 1 - |t|];
    }
  }

  lemma {:induction false} TrimEndParts(s: string)
    ensures var t := TrimEnd(s); t <= s && AllWhitespace(s[|t|..]) && (t == "" || !IsWhitespace(t[|t| - 1]))
  {
    if s != "" && IsWhitespace(s[|s| - 1]) {
      var front := s[..|s| - 1];
      TrimEndParts(front);
      var t := TrimEnd(front);
      assert s[|t|..] == front[|t|..] + [s[|s| - 1]];
    }
  }

  /** Nothing but whitespace is taken from a line, from both ends, and what is left is handed on unless it is empty. */
  lemma KeptParts(line: string) returns (a: string, t: string, b: string)
    ensures line == a + t + b && AllWhitespace(a) && AllWhitespace(b)
    ensures t == "" || (!IsWhitespace(t[0]) && !IsWhitespace(t[|t| - 1]))
    ensures Kept(line) == if t == "" then [] else [t]
  {
    TrimStartParts(line);
    var rest := TrimStart(line);
    TrimEndParts(rest);
    t := TrimEnd(rest);
    a, b := line[..|line| - |rest|], rest[|t|..];
    assert rest == t + b && line == a + rest;
  }

  /** A line is dropped exactly when it is whitespace altogether. */
  lemma DroppedExactly(line: string)
    ensures Kept(line) == [] <==> AllWhitespace(line)
  {
    var a, t, b := KeptParts(line);
    if t != "" { assert line[|a|] == t[0]; }
  }

  lemma {:induction false} TrimEndStops(s: string, n: nat)
    requires 0 < n <= |s| && !IsWhitespace(s[n - 1]) && AllWhitespace(s[n..])
    ensures TrimEnd(s) == s[..n]
  {
    if n < |s| {
      assert s[n..][|s| - 1 - n] == s[|s| - 1];
      var front := s[..|s| - 1];
      assert front[n..] == s[n..][..|s| - 1 - n] && front[..n] == s[..n];
      TrimEndStops(front, n);
    } else {
      assert s[..n] == s;
    }
  }

  /** One object, as the stream has it: from a brace to a brace, on one line. */
  predicate ObjectLine(line: string) {
    line != "" && line[0] == '{' && line[|line| - 1] == '}' && '\n' !in line
  }

  /** Behind an object come blanks, tabs and carriage returns, if anything. */
  predicate Padding(s: string) {
    forall i :: 0 <= i < |s| ==> s[i] == ' ' || s[i] == '\t' || s[i] == '\r'
  }

  /** Such a line is handed on as it is, whatever padding is behind it. */
  lemma ObjectKept(line: string, padding: string)
    requires ObjectLine(line) && Padding(padding)
    ensures Kept(line + padding) == [line]
  {
    var s := line + padding;
    assert s[0] == '{' && !IsWhitespace(s[0]);
    assert s[|line| - 1] == '}' && s[|line|..] == padding && s[..|line|] == line;
    TrimEndStops(s, |line|);
  }

  lemma {:induction false} ObjectsKept(raw: seq<string>)
    requires forall i :: 0 <= i < |raw| ==> ObjectLine(raw[i])
    ensures AllKept(raw) == raw
  {
    if raw != [] {
      ObjectsKept(raw[1..]);
      ObjectKept(raw[0], "");
      assert raw[0] + "" == raw[0];
      assert raw == [raw[0]] + raw[1..];
    }
  }

  /** The chunks of a stream of objects, one to a line, with a rest that is not finished. */
  predicate ObjectStream(chunks: seq<string>, objects: seq<string>, tail: string) {
    && Concat(chunks) == Unlines(objects) + tail && '\n' !in tail
    && forall i :: 0 <= i < |objects| ==> ObjectLine(objects[i])
  }

  lemma ObjectsArrive(chunks: seq<string>, objects: seq<string>, tail: string)
    requires ObjectStream(chunks, objects, tail)
    ensures FeedAll(chunks) == Framed(objects, tail)
  {
    ObjectsKept(objects);
    ChunkingInvisible(chunks, objects, tail);
  }

  // ----- The loop -----

  /** The buffer loop of `watch_namespace`, for the chunks the stream delivers; each line kept is one
      attempt to parse an event. A stream of objects arrives as those objects. */
  method WatchLines(chunks: seq<string>) returns (lines: seq<string>, buffer: string)
    ensures Framed(lines, buffer) == FeedAll(chunks)
    ensures forall objects, tail :: ObjectStream(chunks, objects, tail) ==> lines == objects && buffer == tail
  {
    lines, buffer := [], "";
    for i := 0 to |chunks|
      invariant Framed(lines, buffer) == FeedAll(chunks[..i])
    {
      assert chunks[..i + 1][..i] == chunks[..i];
      buffer := buffer + chunks[i];
      var more;
      more, buffer := ProcessLines(buffer);
      lines := lines + more;
    }
    assert chunks[..|chunks|] == chunks;
    forall objects, tail | ObjectStream(chunks, objects, tail) ensures lines == objects && buffer == tail {
      ObjectsArrive(chunks, objects, tail);
    }
  }
}
