// The header block of a request: the header loop of parse_request_line.
module HttpHeaders {
  import opened Text

  type Headers = map<string, string>

  // A line with no colon is skipped; otherwise the first colon splits it.
  function AddHeader(h: Headers, line: string): Headers {
    var k := Until(':', line);
    if k.found then h[k.before := Trim(k.after)] else h
  }

  // The name is what stands before the first colon, as it is; the value is trimmed.
  lemma HeaderIsAdded(h: Headers, name: string, value: string)
    requires ':' !in name
    ensures AddHeader(h, name + ":" + value) == h[name := Trim(value)]
    ensures AddHeader(h, name) == h
  {
    UntilFinds(':', name, value);
    UntilSplits(':', name);
  }

  // The header loop: the headers gathered and the body.
  function ReadHeaders(s: string, h: Headers): (Headers, string)
    decreases |s|
  {
    if |s| <= 1 then (h, "")
    else
      var k := UntilCrlf(s);
      if k.before == "" then (h, k.after) else ReadHeaders(k.after, AddHeader(h, k.before))
  }

  method ReadHeaderBlock(s: string) returns (headers: Headers, body: string)
    ensures (headers, body) == ReadHeaders(s, map[])
  {
    hide AddHeader;
    headers, body := map[], "";
    var rest := s;
    while |rest| > 1
      invariant ReadHeaders(rest, headers) == ReadHeaders(s, map[])
      invariant body == ""
      decreases |rest|
    {
      var line, after := ReadLine(rest);
      assert |after| < |rest|;
      rest := after;
      if line == "" {
        body := rest;
        return;
      }
      var pos := 0;
      while pos < |line| && line[pos] != ':'
        invariant 0 <= pos <= |line| && ':' !in line[..pos]
      {
        pos := pos + 1;
      }
      ColonAt(line, pos);
      headers := AddHeaderAt(headers, line, pos);
    }
  }

  function AddHeaderAt(h: Headers, line: string, pos: nat): Headers
    requires pos <= |line|
  {
    if pos < |line| then h[line[..pos] := Trim(line[pos + 1..])] else h
  }

  lemma ColonAt(line: string, pos: nat)
    requires pos <= |line| && ':' !in line[..pos] && (pos < |line| ==> line[pos] == ':')
    ensures forall h: Headers :: AddHeader(h, line) == AddHeaderAt(h, line, pos)
  {
    if pos < |line| {
      assert line == line[..pos] + [':'] + line[pos + 1..];
      UntilFinds(':', line[..pos], line[pos + 1..]);
    } else {
      assert line[..pos] == line;
      UntilSplits(':', line);
    }
  }

  // One header line: up to the CRLF, or all but the last character when there is none.
  method ReadLine(s: string) returns (line: string, rest: string)
    requires |s| > 1
    ensures line == UntilCrlf(s).before && rest == UntilCrlf(s).after
    ensures |rest| < |s|
  {
    line, rest := "", s;
    while |rest| > 1
      invariant UntilCrlf(s) == UntilCrlf(rest).(before := line + UntilCrlf(rest).before)
      invariant |rest| == |s| - |line|
    {
      if rest[0] == '\r' && rest[1] == '\n' {
        return line, rest[2..];
      }
      assert line + [rest[0]] + UntilCrlf(rest[1..]).before == line + ([rest[0]] + UntilCrlf(rest[1..]).before);
      line, rest := line + [rest[0]], rest[1..];
    }
  }

  // ---------------------------------------------------------------------------
  // What a header block is

  function Lines(lines: seq<string>): string {
    if lines == [] then "" else lines[0] + CRLF + Lines(lines[1..])
  }

  predicate AreLines(lines: seq<string>) {
    forall i :: 0 <= i < |lines| ==> lines[i] != "" && CrlfFree(lines[i])
  }

  // The last line for a name wins.
  function FoldHeaders(lines: seq<string>, h: Headers): Headers {
    if lines == [] then h else FoldHeaders(lines[1..], AddHeader(h, lines[0]))
  }

  // A block closed by an empty line: the headers are the fold of its lines, the body is
  // exactly what follows the empty line.
  lemma {:induction false} ClosedBlockIsExact(lines: seq<string>, body: string, h: Headers)
    requires AreLines(lines)
    ensures ReadHeaders(Lines(lines) + CRLF + body, h) == (FoldHeaders(lines, h), body)
  {
    hide AddHeader, CrlfFree;
    var s := Lines(lines) + CRLF + body;
    if lines == [] {
      assert s == "" + CRLF + body;
      ShortIsCrlfFree("");
      UntilCrlfFinds("", body);
    } else {
      var more := Lines(lines[1..]) + CRLF + body;
      assert s == lines[0] + CRLF + more;
      UntilCrlfFinds(lines[0], more);
      ClosedBlockIsExact(lines[1..], body, AddHeader(h, lines[0]));
    }
  }

  // A block that just stops: its unfinished last line loses its last character, or
  // disappears when it has only one.
  lemma {:induction false} OpenBlockLosesACharacter(lines: seq<string>, tail: string, h: Headers)
    requires AreLines(lines) && CrlfFree(tail)
    ensures ReadHeaders(Lines(lines) + tail, h) ==
              (FoldHeaders(lines + (if |tail| <= 1 then [] else [tail[..|tail| - 1]]), h), "")
  {
    hide AddHeader, CrlfFree;
    var s := Lines(lines) + tail;
    var last := if |tail| <= 1 then [] else [tail[..|tail| - 1]];
    if lines == [] {
      assert s == tail && lines + last == last;
      if |tail| > 1 {
        UntilCrlfSplits(tail);
        assert UntilCrlf(tail).before == tail[..|tail| - 1];
        assert last[1..] == [];
      }
    } else {
      var more := Lines(lines[1..]) + tail;
      assert s == lines[0] + CRLF + more;
      UntilCrlfFinds(lines[0], more);
      OpenBlockLosesACharacter(lines[1..], tail, AddHeader(h, lines[0]));
      assert (lines + last)[1..] == lines[1..] + last;
    }
  }

  // Every text is a block in exactly one way: closed with a body, or open with a tail.
  datatype Block = Closed(lines: seq<string>, body: string) | Open(lines: seq<string>, tail: string)

  predicate IsBlock(b: Block, s: string) {
    match b
    case Closed(lines, body) => AreLines(lines) && s == Lines(lines) + CRLF + body
    case Open(lines, tail) => AreLines(lines) && CrlfFree(tail) && s == Lines(lines) + tail
  }

  // The same block with one more line in front.
  function ConsLine(line: string, b: Block): Block {
    match b
    case Closed(lines, body) => Closed([line] + lines, body)
    case Open(lines, tail) => Open([line] + lines, tail)
  }

  function BlockOf(s: string): (b: Block)
    ensures b.Closed? ==> |b.body| <= |s|
    decreases |s|
  {
    var k := UntilCrlf(s);
    if !k.found then Open([], s)
    else if k.before == "" then Closed([], k.after)
    else ConsLine(k.before, BlockOf(k.after))
  }

  lemma LinesCons(line: string, lines: seq<string>)
    ensures Lines([line] + lines) == line + CRLF + Lines(lines)
    ensures AreLines([line] + lines) <==> line != "" && CrlfFree(line) && AreLines(lines)
  {
  }

  lemma ConsLineIsBlock(line: string, b: Block, s: string)
    requires line != "" && CrlfFree(line) && IsBlock(b, s)
    ensures IsBlock(ConsLine(line, b), line + CRLF + s)
  {
  }

  // Taking the first line off a block.
  lemma UnconsLine(b: Block, s: string) returns (line: string, b': Block, s': string)
    requires IsBlock(b, s) && b.lines != []
    ensures line != "" && CrlfFree(line) && IsBlock(b', s')
    ensures b == ConsLine(line, b') && s == line + CRLF + s' && |b'.lines| < |b.lines|
  {
    hide CrlfFree, Lines, AreLines;
    line := b.lines[0];
    var rest := b.lines[1..];
    assert b.lines == [line] + rest;
    LinesCons(line, rest);
    match b {
      case Closed(_, body) => b', s' := Closed(rest, body), Lines(rest) + CRLF + body;
      case Open(_, tail) => b', s' := Open(rest, tail), Lines(rest) + tail;
    }
  }

  lemma {:induction false} EveryTextIsABlock(s: string)
    ensures IsBlock(BlockOf(s), s)
    decreases |s|
  {
    hide CrlfFree, UntilCrlf;
    var k := UntilCrlf(s);
    UntilCrlfSplits(s);
    if !k.found {
      assert s == Lines([]) + s;
    } else if k.before == "" {
      assert s == Lines([]) + CRLF + k.after;
    } else {
      EveryTextIsABlock(k.after);
      ConsLineIsBlock(k.before, BlockOf(k.after), k.after);
    }
  }

  lemma EmptyBlock(b: Block, s: string)
    requires IsBlock(b, s) && b.lines == []
    ensures b.Closed? ==> UntilCrlf(s) == Cut("", b.body, true)
    ensures b.Open? ==> s == b.tail && !UntilCrlf(s).found && CrlfFree(s)
  {
    hide UntilCrlf;
    if b.Closed? {
      assert s == "" + CRLF + b.body;
      UntilCrlfFinds("", b.body);
    } else {
      assert s == b.tail;
      UntilCrlfSplits(s);
    }
  }

  lemma {:induction false} BlockIsUnique(b: Block, s: string)
    requires IsBlock(b, s)
    ensures b == BlockOf(s)
    decreases |b.lines|
  {
    hide CrlfFree, UntilCrlf, IsBlock;
    if b.lines == [] {
      EmptyBlock(b, s);
    } else {
      var line, b', s' := UnconsLine(b, s);
      UntilCrlfFinds(line, s');
      BlockIsUnique(b', s');
    }
  }

  // The lines the header loop works on, in order.
  function LinesRead(s: string): seq<string>
    decreases |s|
  {
    if |s| <= 1 then []
    else
      var k := UntilCrlf(s);
      if k.before == "" then [] else [k.before] + LinesRead(k.after)
  }

  lemma {:induction false} HeadersFoldTheLinesRead(s: string, h: Headers)
    ensures ReadHeaders(s, h).0 == FoldHeaders(LinesRead(s), h)
    decreases |s|
  {
    hide AddHeader;
    if |s| > 1 && UntilCrlf(s).before != "" {
      var k := UntilCrlf(s);
      HeadersFoldTheLinesRead(k.after, AddHeader(h, k.before));
      assert ([k.before] + LinesRead(k.after))[1..] == LinesRead(k.after);
    }
  }

  // The lines a reader of the text would expect to be read.
  function LinesWritten(b: Block): seq<string> {
    match b
    case Closed(lines, _) => lines
    case Open(lines, tail) => if tail == "" then lines else lines + [tail]
  }

  // The loop reads the lines as written exactly when the block is closed by an empty line or
  // its last line is at least finished by a CRLF.
  lemma {:induction false} LinesReadExactly(s: string)
    ensures LinesRead(s) == LinesWritten(BlockOf(s)) <==> BlockOf(s).Closed? || BlockOf(s).tail == ""
    ensures BlockOf(s).Open? && BlockOf(s).tail != "" ==>
              var b := BlockOf(s);
              LinesRead(s) == b.lines + (if |b.tail| == 1 then [] else [b.tail[..|b.tail| - 1]])
    ensures ReadHeaders(s, map[]).0 == FoldHeaders(LinesRead(s), map[])
    ensures BlockOf(s).Closed? ==> ReadHeaders(s, map[]).1 == BlockOf(s).body
    ensures BlockOf(s).Open? ==> ReadHeaders(s, map[]).1 == ""
  {
    hide AddHeader, CrlfFree, ReadHeaders;
    EveryTextIsABlock(s);
    var b := BlockOf(s);
    LinesReadOf(b, s);
    HeadersFoldTheLinesRead(s, map[]);
    match b
    case Closed(lines, body) =>
      ClosedBlockIsExact(lines, body, map[]);
    case Open(lines, tail) =>
      OpenBlockLosesACharacter(lines, tail, map[]);
      if |tail| > 1 {
        assert (lines + [tail[..|tail| - 1]])[|lines|] != (lines + [tail])[|lines|];
      }
  }

  lemma {:induction false} LinesReadOf(b: Block, s: string)
    requires IsBlock(b, s)
    ensures LinesRead(s) == b.lines + (if b.Open? && |b.tail| > 1 then [b.tail[..|b.tail| - 1]] else [])
    decreases |b.lines|
  {
    hide CrlfFree, UntilCrlf, IsBlock;
    if b.lines == [] {
      EmptyBlock(b, s);
      UntilCrlfSplits(s);
      if b.Open? && |s| > 1 {
        var k := UntilCrlf(s);
        assert k.before == s[..|s| - 1];
        assert LinesRead(k.after) == [];
      }
    } else {
      var line, b', s' := UnconsLine(b, s);
      UntilCrlfFinds(line, s');
      LinesReadOf(b', s');
    }
  }
}
