/** The unified-diff printer and parser of utils/check-style.py. */
module Patch {
  import opened Common

  datatype Kind = Src | Dst | Both

  datatype Line = Line(kind: Kind, text: string)

  datatype Chunk = Chunk(srcPos: nat, dstPos: nat, lines: seq<Line>)

  datatype Patch = Patch(src: string, dst: string, chunks: seq<Chunk>)

  predicate StartsWith(s: string, prefix: string) {
    |prefix| <= |s| && s[..|prefix|] == prefix
  }

  // ----- decimal numbers -----

  predicate IsDigit(c: char) {
    '0' <= c <= '9'
  }

  function Decimal(n: nat): (s: string)
    ensures |s| > 0 && forall i :: 0 <= i < |s| ==> IsDigit(s[i])
  {
    var d := ['0' + (n % 10) as char];
    if n < 10 then d else Decimal(n / 10) + d
  }

  // The value of a string of digits.
  function Value(s: string): nat
    requires forall i :: 0 <= i < |s| ==> IsDigit(s[i])
  {
    if |s| == 0 then 0
    else
      assert IsDigit(s[|s| - 1]);
      10 * Value(s[..|s| - 1]) + (s[|s| - 1] - '0') as nat
  }

  lemma {:induction false} ValueOfDecimal(n: nat)
    ensures Value(Decimal(n)) == n
  {
    if n >= 10 {
      ValueOfDecimal(n / 10);
      assert Decimal(n)[..|Decimal(n)| - 1] == Decimal(n / 10);
    }
  }

  // The leading digits of s ([0-9]+ is greedy), and what follows.
  function DigitCount(s: string): (k: nat)
    ensures k <= |s| && forall i :: 0 <= i < k ==> IsDigit(s[i])
  {
    if |s| == 0 || !IsDigit(s[0]) then 0 else 1 + DigitCount(s[1..])
  }

  lemma {:induction false} DigitsThen(d: string, rest: string)
    requires (forall i :: 0 <= i < |d| ==> IsDigit(d[i])) && (|rest| > 0 ==> !IsDigit(rest[0]))
    ensures DigitCount(d + rest) == |d|
  {
    if |d| == 0 {
      assert d + rest == rest;
    } else {
      DigitsThen(d[1..], rest);
      assert (d + rest)[1..] == d[1..] + rest;
    }
  }

  // Matches a number and then the literal t.
  function Number(s: string, t: string): Option<(nat, string)> {
    var k := DigitCount(s);
    if k > 0 && StartsWith(s[k..], t) then Some((Value(s[..k]), s[k + |t|..])) else None
  }

  lemma {:induction false} NumberPrinted(n: nat, t: string, rest: string)
    requires |t| > 0 && !IsDigit(t[0])
    ensures Number(Decimal(n) + t + rest, t) == Some((n, rest))
  {
    var s := Decimal(n) + t + rest;
    assert s == Decimal(n) + (t + rest);
    DigitsThen(Decimal(n), t + rest);
    ValueOfDecimal(n);
    assert s[|Decimal(n)|..] == t + rest && s[..|Decimal(n)|] == Decimal(n);
  }

  // ----- the printer -----

  function Sources(ls: seq<Line>): nat {
    if |ls| == 0 then 0 else Sources(ls[..|ls| - 1]) + if Last(ls).kind != Dst then 1 else 0
  }

  function Destinations(ls: seq<Line>): nat {
    if |ls| == 0 then 0 else Destinations(ls[..|ls| - 1]) + if Last(ls).kind != Src then 1 else 0
  }

  /** The counts are the lengths of the two sides: the removed and the common lines, the added and the common lines. */
  lemma {:induction false} CountsAreSides(ls: seq<Line>)
    ensures Sources(ls) == |set i | 0 <= i < |ls| && (ls[i].kind == Src || ls[i].kind == Both)|
    ensures Destinations(ls) == |set i | 0 <= i < |ls| && (ls[i].kind == Dst || ls[i].kind == Both)|
  {
    SourcesAre(ls);
    DestinationsAre(ls);
    hide Sources, Destinations;
  }

  lemma {:induction false} SourcesAre(ls: seq<Line>)
    ensures Sources(ls) == |set i | 0 <= i < |ls| && (ls[i].kind == Src || ls[i].kind == Both)|
  {
    if |ls| > 0 {
      var q, n := ls[..|ls| - 1], |ls| - 1;
      SourcesAre(q);
      var a := set i | 0 <= i < |q| && (q[i].kind == Src || q[i].kind == Both);
      var b := set i | 0 <= i < |ls| && (ls[i].kind == Src || ls[i].kind == Both);
      assert forall i :: 0 <= i < n ==> q[i] == ls[i];
      OneMoreIn(a, b, n, ls[n].kind != Dst);
    }
  }

  lemma {:induction false} DestinationsAre(ls: seq<Line>)
    ensures Destinations(ls) == |set i | 0 <= i < |ls| && (ls[i].kind == Dst || ls[i].kind == Both)|
  {
    if |ls| > 0 {
      var q, n := ls[..|ls| - 1], |ls| - 1;
      DestinationsAre(q);
      var a := set i | 0 <= i < |q| && (q[i].kind == Dst || q[i].kind == Both);
      var b := set i | 0 <= i < |ls| && (ls[i].kind == Dst || ls[i].kind == Both);
      assert forall i :: 0 <= i < n ==> q[i] == ls[i];
      OneMoreIn(a, b, n, ls[n].kind != Src);
    }
  }

  function Header(c: Chunk): string {
    "@@ -" + (Decimal(c.srcPos) + "," + (Decimal(Sources(c.lines)) + " +"
      + (Decimal(c.dstPos) + "," + (Decimal(Destinations(c.lines)) + " @@"))))
  }

  function Printed(l: Line): string {
    (match l.kind case Src => "-" case Dst => "+" case Both => " ") + l.text
  }

  function BodyLines(ls: seq<Line>): (r: seq<string>)
    ensures |r| == |ls| && forall i :: 0 <= i < |ls| ==> r[i] == Printed(ls[i])
  {
    seq(|ls|, i requires 0 <= i < |ls| => Printed(ls[i]))
  }

  function ChunksLines(cs: seq<Chunk>): seq<string> {
    if |cs| == 0 then [] else ChunksLines(cs[..|cs| - 1]) + ([Header(Last(cs))] + BodyLines(Last(cs).lines))
  }

  function PatchLines(p: Patch): seq<string> {
    ["--- " + p.src, "+++ " + p.dst] + ChunksLines(p.chunks)
  }

  // All lines of the written patches, without their newlines.
  function AllLines(ps: seq<Patch>): seq<string> {
    if |ps| == 0 then [] else AllLines(ps[..|ps| - 1]) + PatchLines(Last(ps))
  }

  // ----- the parser -----

  function ParseHeader(s: string): Option<(nat, nat, nat, nat)> {
    if !StartsWith(s, "@@ -") then None
    else match Number(s[4..], ",")
      case None => None
      case Some((a, s1)) =>
        match Number(s1, " +")
        case None => None
        case Some((b, s2)) =>
          match Number(s2, ",")
          case None => None
          case Some((c, s3)) =>
            match Number(s3, " @@")
            case None => None
            case Some((d, _)) => Some((a, b, c, d))
  }

  // The variables of parse_patchset; chunk is where current_chunk sits, if it is set.
  datatype State = State(patchset: seq<Patch>, chunk: Option<(nat, nat)>)

  ghost predicate ChunkSet(s: State) {
    s.chunk.Some? ==>
      s.chunk.value.0 < |s.patchset| && s.chunk.value.1 < |s.patchset[s.chunk.value.0].chunks|
  }

  function AddLine(s: State, l: Line): (s': State)
    requires s.chunk.Some? && ChunkSet(s)
    ensures ChunkSet(s')
  {
    var (i, j) := s.chunk.value;
    var p := s.patchset[i];
    var c := p.chunks[j];
    s.(patchset := s.patchset[i := p.(chunks := p.chunks[j := c.(lines := c.lines + [l])])])
  }

  // One line; None is an exception (no patch or chunk to add to, or no pattern matches).
  function ParseLine(s: State, line: string): (r: Option<State>)
    requires ChunkSet(s)
    ensures r.Some? ==> ChunkSet(r.value)
  {
    var n := |s.patchset|;
    if StartsWith(line, "--- ") then Some(s.(patchset := s.patchset + [Patch(line[4..], "", [])]))
    else if StartsWith(line, "+++ ") then
      if n == 0 then None else Some(s.(patchset := s.patchset[n - 1 := s.patchset[n - 1].(dst := line[4..])]))
    else if ParseHeader(line).Some? then
      if n == 0 then None
      else
        var (a, _, c, _) := ParseHeader(line).value;
        var p := s.patchset[n - 1];
        Some(State(s.patchset[n - 1 := p.(chunks := p.chunks + [Chunk(a, c, [])])], Some((n - 1, |p.chunks|))))
    else if s.chunk.None? then None
    else if StartsWith(line, "-") then Some(AddLine(s, Line(Src, line[1..])))
    else if StartsWith(line, "+") then Some(AddLine(s, Line(Dst, line[1..])))
    else if StartsWith(line, " ") then Some(AddLine(s, Line(Both, line[1..])))
    else None
  }

  function Parse(lines: seq<string>): (r: Option<State>)
    ensures r.Some? ==> ChunkSet(r.value)
  {
    if |lines| == 0 then Some(State([], None))
    else match Parse(lines[..|lines| - 1])
      case None => None
      case Some(s) => ParseLine(s, Last(lines))
  }

  method ParsePatchset(lines: seq<string>) returns (r: Option<seq<Patch>>)
    ensures r == match Parse(lines) case None => None case Some(s) => Some(s.patchset)
  {
    var s := State([], None);
    assert lines[..0] == [];
    for k := 0 to |lines|
      invariant ChunkSet(s) && Parse(lines[..k]) == Some(s)
    {
      assert lines[..k + 1][..k] == lines[..k];
      var t := ParseLine(s, lines[k]);
      if t.None? {
        ErrorStays(lines, k + 1);
        return None;
      }
      s := t.value;
    }
    assert lines[..|lines|] == lines;
    r := Some(s.patchset);
  }

  lemma {:induction false} ErrorStays(lines: seq<string>, k: nat)
    requires k <= |lines| && Parse(lines[..k]).None?
    ensures Parse(lines).None?
  {
    if k == |lines| {
      assert lines[..k] == lines;
    } else {
      assert lines[..|lines| - 1][..k] == lines[..k];
      ErrorStays(lines[..|lines| - 1], k);
    }
  }

  // ----- the round trip -----

  /** A chunk header reads back: positions, and the lengths of the source and destination sides. */
  lemma {:induction false} HeaderPrinted(c: Chunk)
    ensures ParseHeader(Header(c)) == Some((c.srcPos, Sources(c.lines), c.dstPos, Destinations(c.lines)))
  {
    var t4 := Decimal(Destinations(c.lines)) + " @@";
    var t3 := Decimal(c.dstPos) + "," + t4;
    var t2 := Decimal(Sources(c.lines)) + " +" + t3;
    var t1 := Decimal(c.srcPos) + "," + t2;
    assert Header(c) == "@@ -" + t1;
    assert Header(c)[4..] == t1;
    NumberPrinted(c.srcPos, ",", t2);
    NumberPrinted(Sources(c.lines), " +", t3);
    NumberPrinted(c.dstPos, ",", t4);
    NumberPrinted(Destinations(c.lines), " @@", "");
    assert t4 + "" == t4;
    hide Number, Decimal, Sources, Destinations;
  }

  // A removed line that looks like a source file line, or an added one that looks like a destination file line.
  predicate Misread(l: Line) {
    (l.kind == Src && StartsWith(l.text, "-- ")) || (l.kind == Dst && StartsWith(l.text, "++ "))
  }

  // The printed form itself.
  lemma {:induction false} SamplePrinted()
    ensures Header(Chunk(120, 7, [Line(Src, "a"), Line(Both, "b")])) == "@@ -120,2 +7,1 @@"
  {
    var ls := [Line(Src, "a"), Line(Both, "b")];
    assert ls[..1] == [Line(Src, "a")] && ls[..1][..0] == [];
    assert Sources(ls[..1]) == 1 && Destinations(ls[..1]) == 0;
    assert Decimal(1) == "1" && Decimal(2) == "2" && Decimal(7) == "7";
    assert Decimal(12) == "1" + "2" && Decimal(120) == Decimal(12) + "0";
  }

  lemma {:induction false} PrintedForm(l: Line, p: Patch)
    ensures l.kind == Src ==> Printed(l) == "-" + l.text
    ensures l.kind == Dst ==> Printed(l) == "+" + l.text
    ensures l.kind == Both ==> Printed(l) == " " + l.text
    ensures PatchLines(p)[0] == "--- " + p.src && PatchLines(p)[1] == "+++ " + p.dst
  {
  }

  lemma {:induction false} MisreadIff(l: Line)
    ensures Misread(l) <==> StartsWith(Printed(l), "--- ") || StartsWith(Printed(l), "+++ ")
    ensures ParseHeader(Printed(l)).None?
    ensures Printed(l)[1..] == l.text && |Printed(l)| > 0
  {
    var c := match l.kind case Src => '-' case Dst => '+' case Both => ' ';
    assert Printed(l) == [c] + l.text;
    PrefixOfCons(c, l.text, "--- ");
    PrefixOfCons(c, l.text, "+++ ");
    PrefixOfCons(c, l.text, "@@ -");
    assert "--- "[1..] == "-- " && "+++ "[1..] == "++ ";
    hide Number, StartsWith;
  }

  lemma {:induction false} PrefixOfCons(c: char, t: string, p: string)
    requires |p| > 0
    ensures StartsWith([c] + t, p) <==> c == p[0] && StartsWith(t, p[1..])
  {
    var s := [c] + t;
    assert |p| <= |s| ==> s[..|p|] == [c] + t[..|p| - 1];
    assert p == [p[0]] + p[1..];
  }

  ghost predicate Clean(ls: seq<Line>) {
    forall i :: 0 <= i < |ls| ==> !Misread(ls[i])
  }

  ghost predicate CleanChunks(cs: seq<Chunk>) {
    forall i :: 0 <= i < |cs| ==> Clean(cs[i].lines)
  }

  ghost predicate CleanPatches(ps: seq<Patch>) {
    forall i :: 0 <= i < |ps| ==> CleanChunks(ps[i].chunks)
  }

  lemma {:induction false} ParseAppend(a: seq<string>, x: string)
    ensures Parse(a + [x]) == match Parse(a) case None => None case Some(s) => ParseLine(s, x)
  {
  }

  // The body lines of a chunk, after its header has been read.
  lemma {:induction false} BodyReadsBack(before: seq<string>, ps: seq<Patch>, p: Patch, c: Chunk)
    requires Clean(c.lines)
    requires Parse(before) == Some(State(ps + [p.(chunks := p.chunks + [c.(lines := [])])], Some((|ps|, |p.chunks|))))
    ensures Parse(before + BodyLines(c.lines))
            == Some(State(ps + [p.(chunks := p.chunks + [c])], Some((|ps|, |p.chunks|))))
    decreases |c.lines|
  {
    hide Parse, ParseLine, Printed, Misread;
    if |c.lines| == 0 {
      assert before + BodyLines(c.lines) == before;
    } else {
      var front := c.(lines := c.lines[..|c.lines| - 1]);
      BodyReadsBack(before, ps, p, front);
      var l := Last(c.lines);
      assert before + BodyLines(c.lines) == (before + BodyLines(front.lines)) + [Printed(l)];
      ParseAppend(before + BodyLines(front.lines), Printed(l));
      BodyLineReads(ps, p, front, l);
      assert c.lines == front.lines + [l];
    }
  }

  lemma {:induction false} BodyLineReads(ps: seq<Patch>, p: Patch, c: Chunk, l: Line)
    requires !Misread(l)
    ensures var s := State(ps + [p.(chunks := p.chunks + [c])], Some((|ps|, |p.chunks|)));
            ParseLine(s, Printed(l))
                == Some(State(ps + [p.(chunks := p.chunks + [c.(lines := c.lines + [l])])], s.chunk))
  {
    var q := p.(chunks := p.chunks + [c]);
    var s := State(ps + [q], Some((|ps|, |p.chunks|)));
    MisreadIff(l);
    assert ParseLine(s, Printed(l)) == Some(AddLine(s, l));
    var c' := c.(lines := c.lines + [l]);
    assert q.chunks[|p.chunks| := c'] == p.chunks + [c'];
    assert (ps + [q])[|ps| := p.(chunks := p.chunks + [c'])] == ps + [p.(chunks := p.chunks + [c'])];
  }

  lemma {:induction false} HeaderReads(ps: seq<Patch>, p: Patch, c: Chunk, chunk: Option<(nat, nat)>)
    requires ChunkSet(State(ps + [p], chunk))
    ensures ParseLine(State(ps + [p], chunk), Header(c))
            == Some(State(ps + [p.(chunks := p.chunks + [Chunk(c.srcPos, c.dstPos, [])])], Some((|ps|, |p.chunks|))))
  {
    HeaderPrinted(c);
    HeaderStarts(c);
    hide Header, ParseHeader, StartsWith;
    var p' := p.(chunks := p.chunks + [Chunk(c.srcPos, c.dstPos, [])]);
    assert (ps + [p])[|ps| := p'] == ps + [p'];
  }

  lemma {:induction false} HeaderStarts(c: Chunk)
    ensures !StartsWith(Header(c), "--- ") && !StartsWith(Header(c), "+++ ")
  {
  }

  // Where current_chunk is after some patches and the first chunks of the next one have been read.
  ghost predicate ReadSoFar(lines: seq<string>, ps: seq<Patch>) {
    match Parse(lines)
    case None => false
    case Some(s) => s.patchset == ps
  }

  lemma {:induction false} ChunksReadBack(before: seq<string>, ps: seq<Patch>, p: Patch)
    requires CleanChunks(p.chunks) && ReadSoFar(before, ps + [p.(chunks := [])])
    ensures ReadSoFar(before + ChunksLines(p.chunks), ps + [p])
    decreases |p.chunks|
  {
    hide Parse, ParseLine, Header, BodyLines, Clean;
    if |p.chunks| == 0 {
      assert before + ChunksLines(p.chunks) == before;
    } else {
      var front := p.(chunks := p.chunks[..|p.chunks| - 1]);
      var c := Last(p.chunks);
      ChunksReadBack(before, ps, front);
      var a := before + ChunksLines(front.chunks);
      HeaderReads(ps, front, c, Parse(a).value.chunk);
      ParseAppend(a, Header(c));
      assert c.(lines := []) == Chunk(c.srcPos, c.dstPos, []);
      BodyReadsBack(a + [Header(c)], ps, front, c);
      assert before + ChunksLines(p.chunks) == (a + [Header(c)]) + BodyLines(c.lines);
      assert front.(chunks := front.chunks + [c]) == p by {
        assert front.chunks + [c] == p.chunks;
      }
    }
  }

  lemma {:induction false} PatchesReadBack(ps: seq<Patch>)
    requires CleanPatches(ps)
    ensures ReadSoFar(AllLines(ps), ps)
  {
    hide Parse, ParseLine, ChunksLines, CleanChunks;
    if |ps| == 0 {
      NothingRead();
    } else {
      var rest, p := ps[..|ps| - 1], Last(ps);
      PatchesReadBack(rest);
      var a := AllLines(rest);
      FileLinesRead(a, rest, p);
      var b := a + ["--- " + p.src] + ["+++ " + p.dst];
      ChunksReadBack(b, rest, p);
      assert AllLines(ps) == b + ChunksLines(p.chunks);
      assert rest + [p] == ps;
    }
  }

  lemma {:induction false} NothingRead()
    ensures ReadSoFar([], [])
  {
  }

  lemma {:induction false} FileLinesRead(a: seq<string>, ps: seq<Patch>, p: Patch)
    requires ReadSoFar(a, ps)
    ensures ReadSoFar(a + ["--- " + p.src] + ["+++ " + p.dst], ps + [p.(chunks := [])])
  {
    var l1, l2 := "--- " + p.src, "+++ " + p.dst;
    ParseAppend(a, l1);
    ParseAppend(a + [l1], l2);
    assert l1[..4] == "--- " && l1[4..] == p.src && l2[..4] == "+++ " && l2[4..] == p.dst && l2[0] == '+';
    var bare := p.(chunks := []);
    assert (ps + [Patch(p.src, "", [])])[|ps| := bare] == ps + [bare];
  }

  // ----- the round trip fails on every misread line: a line is lost -----

  ghost function ChunkTotal(cs: seq<Chunk>): nat {
    if |cs| == 0 then 0 else ChunkTotal(cs[..|cs| - 1]) + |Last(cs).lines|
  }

  ghost function Total(ps: seq<Patch>): nat {
    if |ps| == 0 then 0 else Total(ps[..|ps| - 1]) + ChunkTotal(Last(ps).chunks)
  }

  // The parser takes the line for the text of a chunk.
  ghost predicate IsBody(line: string) {
    !StartsWith(line, "--- ") && !StartsWith(line, "+++ ") && ParseHeader(line).None?
  }

  ghost function Bodies(lines: seq<string>): nat {
    if |lines| == 0 then 0 else Bodies(lines[..|lines| - 1]) + if IsBody(Last(lines)) then 1 else 0
  }

  lemma {:induction false} BodiesAppend(a: seq<string>, b: seq<string>)
    ensures Bodies(a + b) == Bodies(a) + Bodies(b)
  {
    if |b| == 0 {
      assert a + b == a;
    } else {
      assert (a + b)[..|a + b| - 1] == a + b[..|b| - 1];
      BodiesAppend(a, b[..|b| - 1]);
    }
  }

  lemma {:induction false} ChunkTotalUpdate(cs: seq<Chunk>, j: nat, c: Chunk)
    requires j < |cs|
    ensures ChunkTotal(cs[j := c]) + |cs[j].lines| == ChunkTotal(cs) + |c.lines|
  {
    if j == |cs| - 1 {
      assert cs[j := c][..j] == cs[..j];
    } else {
      assert cs[j := c][..|cs| - 1] == cs[..|cs| - 1][j := c];
      ChunkTotalUpdate(cs[..|cs| - 1], j, c);
    }
  }

  lemma {:induction false} TotalUpdate(ps: seq<Patch>, i: nat, p: Patch)
    requires i < |ps|
    ensures Total(ps[i := p]) + ChunkTotal(ps[i].chunks) == Total(ps) + ChunkTotal(p.chunks)
  {
    if i == |ps| - 1 {
      assert ps[i := p][..i] == ps[..i];
    } else {
      assert ps[i := p][..|ps| - 1] == ps[..|ps| - 1][i := p];
      TotalUpdate(ps[..|ps| - 1], i, p);
    }
  }

  lemma {:induction false} AddLineTotal(s: State, l: Line)
    requires s.chunk.Some? && ChunkSet(s)
    ensures Total(AddLine(s, l).patchset) == Total(s.patchset) + 1
  {
    var (i, j) := s.chunk.value;
    var p := s.patchset[i];
    var c := p.chunks[j].(lines := p.chunks[j].lines + [l]);
    ChunkTotalUpdate(p.chunks, j, c);
    TotalUpdate(s.patchset, i, p.(chunks := p.chunks[j := c]));
  }

  // The parser keeps one line for each body line and none for any other.
  lemma {:induction false} ParseLineTotal(s: State, line: string)
    requires ChunkSet(s) && ParseLine(s, line).Some?
    ensures Total(ParseLine(s, line).value.patchset) == Total(s.patchset) + if IsBody(line) then 1 else 0
  {
    hide ParseHeader, AddLine;
    var n := |s.patchset|;
    if StartsWith(line, "--- ") {
      var p := Patch(line[4..], "", []);
      assert (s.patchset + [p])[..n] == s.patchset;
    } else if StartsWith(line, "+++ ") {
      TotalUpdate(s.patchset, n - 1, s.patchset[n - 1].(dst := line[4..]));
    } else if ParseHeader(line).Some? {
      var (a, _, c, _) := ParseHeader(line).value;
      var p := s.patchset[n - 1];
      assert (p.chunks + [Chunk(a, c, [])])[..|p.chunks|] == p.chunks;
      TotalUpdate(s.patchset, n - 1, p.(chunks := p.chunks + [Chunk(a, c, [])]));
    } else {
      AddLineTotal(s, Line(Src, line[1..]));
      AddLineTotal(s, Line(Dst, line[1..]));
      AddLineTotal(s, Line(Both, line[1..]));
    }
  }

  lemma {:induction false} ParseTotal(lines: seq<string>)
    requires Parse(lines).Some?
    ensures Total(Parse(lines).value.patchset) == Bodies(lines)
  {
    hide ParseLine, IsBody;
    if |lines| > 0 {
      ParseTotal(lines[..|lines| - 1]);
      ParseLineTotal(Parse(lines[..|lines| - 1]).value, Last(lines));
    }
  }

  // Printed body lines are body lines again, except the misread ones.
  lemma {:induction false} BodiesOfChunk(ls: seq<Line>)
    ensures Bodies(BodyLines(ls)) <= |ls| && (Bodies(BodyLines(ls)) == |ls| <==> Clean(ls))
  {
    hide Misread, Printed, IsBody;
    if |ls| > 0 {
      var rest := ls[..|ls| - 1];
      BodiesOfChunk(rest);
      assert BodyLines(ls)[..|ls| - 1] == BodyLines(rest);
      PrintedIsBody(Last(ls));
      assert ls == rest + [Last(ls)];
    }
  }

  lemma {:induction false} PrintedIsBody(l: Line)
    ensures IsBody(Printed(l)) <==> !Misread(l)
  {
    MisreadIff(l);
  }

  lemma {:induction false} BodiesOfChunks(cs: seq<Chunk>)
    ensures Bodies(ChunksLines(cs)) <= ChunkTotal(cs)
    ensures Bodies(ChunksLines(cs)) == ChunkTotal(cs) <==> CleanChunks(cs)
  {
    hide Header, BodyLines, Clean;
    if |cs| > 0 {
      var rest, c := cs[..|cs| - 1], Last(cs);
      BodiesOfChunks(rest);
      BodiesOfChunk(c.lines);
      HeaderPrinted(c);
      BodiesAppend(ChunksLines(rest), [Header(c)] + BodyLines(c.lines));
      BodiesAppend([Header(c)], BodyLines(c.lines));
      NoBody(Header(c));
      assert cs == rest + [c];
    }
  }

  lemma {:induction false} NoBody(line: string)
    ensures !IsBody(line) ==> Bodies([line]) == 0
  {
  }

  lemma {:induction false} BodiesOfPatches(ps: seq<Patch>)
    ensures Bodies(AllLines(ps)) <= Total(ps)
    ensures Bodies(AllLines(ps)) == Total(ps) <==> CleanPatches(ps)
  {
    hide ChunksLines, CleanChunks, Bodies;
    if |ps| == 0 {
      NoBodies();
    } else {
      var rest, p := ps[..|ps| - 1], Last(ps);
      var l1, l2 := "--- " + p.src, "+++ " + p.dst;
      BodiesOfPatches(rest);
      BodiesOfChunks(p.chunks);
      BodiesAppend(AllLines(rest), PatchLines(p));
      BodiesAppend([l1, l2], ChunksLines(p.chunks));
      BodiesAppend([l1], [l2]);
      assert [l1, l2] == [l1] + [l2];
      NoBody(l1);
      NoBody(l2);
      assert l1[..4] == "--- " && l2[..4] == "+++ ";
      assert ps == rest + [p];
    }
  }

  lemma {:induction false} NoBodies()
    ensures Bodies([]) == 0
  {
  }

  /** parse_patchset undoes Patch.write exactly when no removed line starts with "-- " and no added one with "++ ". */
  lemma {:induction false} RoundTripIff(ps: seq<Patch>)
    ensures ReadSoFar(AllLines(ps), ps) <==> CleanPatches(ps)
  {
    hide Total, Bodies, AllLines, CleanPatches;
    if CleanPatches(ps) {
      PatchesReadBack(ps);
    } else {
      BodiesOfPatches(ps);
      if ReadSoFar(AllLines(ps), ps) {
        ParseTotal(AllLines(ps));
      }
    }
  }

  // ----- lines and text -----

  const NEWLINE: char := '\n'

  ghost predicate OneLine(s: string) {
    forall i :: 0 <= i < |s| ==> s[i] != NEWLINE
  }

  // What write() puts into the file.
  function Text(lines: seq<string>): string {
    if |lines| == 0 then "" else lines[0] + [NEWLINE] + Text(lines[1..])
  }

  // The written text: every line with a newline after it.
  lemma {:induction false} TextForm(a: string, lines: seq<string>)
    ensures Text([]) == "" && Text([a] + lines) == a + "\n" + Text(lines)
    ensures OneLine(a) <==> '\n' !in a
  {
    assert ([a] + lines)[1..] == lines;
  }

  function LineLength(s: string): (n: nat)
    ensures n <= |s| && (n < |s| ==> s[n] == NEWLINE) && forall i :: 0 <= i < n ==> s[i] != NEWLINE
  {
    if |s| == 0 || s[0] == NEWLINE then 0 else 1 + LineLength(s[1..])
  }

  // The lines a file is read as.
  function Lines(s: string): seq<string>
    decreases |s|
  {
    if |s| == 0 then []
    else
      var n := LineLength(s);
      [s[..n]] + if n < |s| then Lines(s[n + 1..]) else []
  }

  lemma {:induction false} FirstLine(l: string, t: string)
    requires OneLine(l)
    ensures Lines(l + [NEWLINE] + t) == [l] + Lines(t)
  {
    hide LineLength;
    var s := l + [NEWLINE] + t;
    var n := LineLength(s);
    assert s[|l|] == NEWLINE && forall i :: 0 <= i < |l| ==> s[i] == l[i];
    assert n == |l|;
    assert s[..n] == l && s[n + 1..] == t;
  }

  lemma {:induction false} LinesOfText(lines: seq<string>)
    requires forall i :: 0 <= i < |lines| ==> OneLine(lines[i])
    ensures Lines(Text(lines)) == lines
  {
    if |lines| > 0 {
      LinesOfText(lines[1..]);
      FirstLine(lines[0], Text(lines[1..]));
      hide Lines;
    }
  }

  ghost predicate NoNewlines(ps: seq<Patch>) {
    forall i :: 0 <= i < |ps| ==>
      && OneLine(ps[i].src) && OneLine(ps[i].dst)
      && forall j :: 0 <= j < |ps[i].chunks| ==>
           forall k :: 0 <= k < |ps[i].chunks[j].lines| ==> OneLine(ps[i].chunks[j].lines[k].text)
  }

  lemma {:induction false} HeaderOneLine(c: Chunk)
    ensures OneLine(Header(c))
  {
  }

  lemma {:induction false} ChunksOneLine(cs: seq<Chunk>, l: string)
    requires forall j :: 0 <= j < |cs| ==> forall k :: 0 <= k < |cs[j].lines| ==> OneLine(cs[j].lines[k].text)
    requires l in ChunksLines(cs)
    ensures OneLine(l)
  {
    hide Header, OneLine;
    var c := Last(cs);
    if l in ChunksLines(cs[..|cs| - 1]) {
      ChunksOneLine(cs[..|cs| - 1], l);
    } else if l == Header(c) {
      HeaderOneLine(c);
    } else {
      var k :| 0 <= k < |c.lines| && BodyLines(c.lines)[k] == l;
      PrintedOneLine(cs[|cs| - 1].lines[k]);
    }
  }

  lemma {:induction false} PrintedOneLine(l: Line)
    requires OneLine(l.text)
    ensures OneLine(Printed(l))
  {
  }

  lemma {:induction false} AllOneLine(ps: seq<Patch>, l: string)
    requires NoNewlines(ps) && l in AllLines(ps)
    ensures OneLine(l)
  {
    hide ChunksLines, OneLine;
    var p := ps[|ps| - 1];
    if l in AllLines(ps[..|ps| - 1]) {
      AllOneLine(ps[..|ps| - 1], l);
    } else if l in ChunksLines(p.chunks) {
      ChunksOneLine(p.chunks, l);
    } else {
      FileLinesOneLine(p);
    }
  }

  lemma {:induction false} FileLinesOneLine(p: Patch)
    requires OneLine(p.src) && OneLine(p.dst)
    ensures OneLine("--- " + p.src) && OneLine("+++ " + p.dst)
  {
  }

  /** The same for the written text, when no name and no line holds a newline. */
  lemma {:induction false} TextRoundTripIff(ps: seq<Patch>)
    requires NoNewlines(ps)
    ensures ReadSoFar(Lines(Text(AllLines(ps))), ps) <==> CleanPatches(ps)
  {
    forall i | 0 <= i < |AllLines(ps)| ensures OneLine(AllLines(ps)[i]) {
      AllOneLine(ps, AllLines(ps)[i]);
    }
    LinesOfText(AllLines(ps));
    RoundTripIff(ps);
  }
}
