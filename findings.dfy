/** Witnesses of the line-cutting flaw of the splitter as written
    (main.go:45-49): concrete block lists, of sizes the program can read,
    on which a well-formed line is lost or folded under a truncated
    station.  The corrected splitter is `Splitter.ReadMeasurementsAligned`,
    and `Pipeline.AlignedRecoversAllLines` proves it loses nothing. */
module Findings {
  import opened Measurements
  import opened Splitter
  import opened Scanner
  import opened Pipeline

  /** The splitter as written loses a line that spans more than two reads:
      the line `x;12\n` read as `x;`, `1`, `2` and `\n`, block sizes the
      program can read since they never grow, is sent as the chunks ``,
      `x;`, `1` and `2\n`, none of which a worker folds. */
  lemma LongLineLost()
    ensures var blocks := [[120 as byte, Semicolon], [49 as byte], [50 as byte], [NewLine]];
      var line := Record([120 as byte], [49 as byte, 50 as byte]);
      Readable(blocks) && WellFormed(line) && Flatten(blocks) == Encode([line])
      && Run(blocks).chunks == [[], [120 as byte, Semicolon], [49 as byte], [50 as byte, NewLine]]
      && ConcatLines(Run(blocks).chunks) == []
  {
    var b0: Bytes, b1: Bytes, b2: Bytes, b3: Bytes := [120 as byte, Semicolon], [49 as byte], [50 as byte], [NewLine];
    LongLineInput(b0, b1, b2, b3);
    LongLineChunks(b0, b1, b2, b3);
    assert b2 + b3 == [50 as byte, NewLine];
    LongLineNotFolded(Run([b0, b1, b2, b3]).chunks);
  }

  lemma LongLineInput(b0: Bytes, b1: Bytes, b2: Bytes, b3: Bytes)
    requires b0 == [120 as byte, Semicolon] && b1 == [49 as byte] && b2 == [50 as byte] && b3 == [NewLine]
    ensures var line := Record([120 as byte], [49 as byte, 50 as byte]);
      Readable([b0, b1, b2, b3]) && WellFormed(line) && Flatten([b0, b1, b2, b3]) == Encode([line])
  {
    var line := Record([120 as byte], [49 as byte, 50 as byte]);
    assert Encode([line]) == Line(line) + Encode([]);
    Flatten4(b0, b1, b2, b3);
  }

  lemma Flatten4(b0: Bytes, b1: Bytes, b2: Bytes, b3: Bytes)
    ensures Flatten([b0, b1, b2, b3]) == b0 + b1 + b2 + b3
  {
    FlattenSnoc([], b0);
    FlattenSnoc([b0], b1);
    FlattenSnoc([b0, b1], b2);
    FlattenSnoc([b0, b1, b2], b3);
    assert [] + [b0] == [b0] && [b0] + [b1] == [b0, b1];
    assert [b0, b1] + [b2] == [b0, b1, b2] && [b0, b1, b2] + [b3] == [b0, b1, b2, b3];
  }

  lemma Flatten3(b0: Bytes, b1: Bytes, b2: Bytes)
    ensures Flatten([b0, b1, b2]) == b0 + b1 + b2
  {
    FlattenSnoc([], b0);
    FlattenSnoc([b0], b1);
    FlattenSnoc([b0, b1], b2);
    assert [] + [b0] == [b0] && [b0] + [b1] == [b0, b1] && [b0, b1] + [b2] == [b0, b1, b2];
  }

  /** Four reads, the first three without '\n': the first chunk is empty,
      each later one is the block before. */
  lemma LongLineChunks(b0: Bytes, b1: Bytes, b2: Bytes, b3: Bytes)
    requires NewLine !in b0
    requires NewLine !in b1
    requires NewLine !in b2
    requires EndsLine(b3)
    ensures Run([b0, b1, b2, b3]).chunks == [[], b0, b1, b2 + b3]
  {
    LongLineSteps(b0, b1, b2, b3);
    assert [] + [b0] + [b1] + [b2] + [b3] == [b0, b1, b2, b3];
    assert [] + [[]] + [b0] + [b1] + [b2 + b3] == [[], b0, b1, b2 + b3];
  }

  lemma LongLineSteps(b0: Bytes, b1: Bytes, b2: Bytes, b3: Bytes)
    requires NewLine !in b0
    requires NewLine !in b1
    requires NewLine !in b2
    requires EndsLine(b3)
    ensures Run([] + [b0] + [b1] + [b2] + [b3]) == State([] + [[]] + [b0] + [b1] + [b2 + b3], [])
  {
    var s0: seq<Bytes> := [];
    var s1 := s0 + [b0];
    var s2 := s1 + [b1];
    var s3 := s2 + [b2];
    var c0: seq<Bytes> := [];
    RunNoNewLine(s0, b0, c0, []);
    RunNoNewLine(s1, b1, c0 + [[]], b0);
    RunNoNewLine(s2, b2, c0 + [[]] + [b0], b1);
    RunLastLine(s3, b3, c0 + [[]] + [b0] + [b1], b2);
  }

  lemma LongLineNotFolded(chunks: seq<Bytes>)
    requires chunks == [[], [120 as byte, Semicolon], [49 as byte], [50 as byte, NewLine]]
    ensures ConcatLines(chunks) == []
  {
    var c0, c1, c2, c3 := chunks[0], chunks[1], chunks[2], chunks[3];
    LongLinePiecesNotFolded(c0, c1, c2, c3);
    ConcatLinesSnoc([], c0);
    ConcatLinesSnoc([c0], c1);
    ConcatLinesSnoc([c0, c1], c2);
    ConcatLinesSnoc([c0, c1, c2], c3);
    assert [] + [c0] == [c0] && [c0] + [c1] == [c0, c1];
    assert [c0, c1] + [c2] == [c0, c1, c2] && [c0, c1, c2] + [c3] == chunks;
  }

  lemma LongLinePiecesNotFolded(c0: Bytes, c1: Bytes, c2: Bytes, c3: Bytes)
    requires c0 == [] && c1 == [120 as byte, Semicolon] && c2 == [49 as byte] && c3 == [50 as byte, NewLine]
    ensures Lines(c0) == Lines(c1) == Lines(c2) == Lines(c3) == []
  {
    assert ScanFrom(c1, 1, [], 0) == ScanFrom(c1, 2, [120 as byte], 2) == [];
    assert ScanFrom(c2, 1, [], 0) == [];
    assert ScanFrom(c3, 2, [], 0) == [];
    assert ScanFrom(c3, 1, [], 0) == [];
  }

  /** A line cut across three reads can also be folded under a truncated
      station: `z;1\nAABBBBC;5\n` read as `z;1\nAA`, `BBBB` and `C;5\n` (6, 4
      and 4 bytes) is sent as `z;1\n`, `AA` and `BBBBC;5\n`, so the second
      line is folded under `BBBBC` instead of `AABBBBC`. */
  lemma LongLineTruncated()
    ensures var z, one, five, a, b, c := 122 as byte, 49 as byte, 53 as byte, 65 as byte, 66 as byte, 67 as byte;
      var blocks := [[z, Semicolon, one, NewLine, a, a], [b, b, b, b], [c, Semicolon, five, NewLine]];
      var rs := [Record([z], [one]), Record([a, a, b, b, b, b, c], [five])];
      Readable(blocks) && AllWellFormed(rs) && Flatten(blocks) == Encode(rs)
      && ConcatLines(Run(blocks).chunks) == [Record([z], [one]), Record([b, b, b, b, c], [five])]
  {
    var z, one, five, a, b, c := 122 as byte, 49 as byte, 53 as byte, 65 as byte, 66 as byte, 67 as byte;
    var first: Bytes, aa: Bytes := [z, Semicolon, one, NewLine], [a, a];
    var b0: Bytes, b1: Bytes, b2: Bytes := first + aa, [b, b, b, b], [c, Semicolon, five, NewLine];
    TruncatedInput(first, aa, b1, b2);
    assert aa + b1 + [c] == [a, a, b, b, b, b, c];
    assert b0 == [z, Semicolon, one, NewLine, a, a];
    assert [b0, b1, b2] == [[z, Semicolon, one, NewLine, a, a], [b, b, b, b], [c, Semicolon, five, NewLine]];
    FirstBlockSplit(first, aa);
    TruncatedChunks(b0, first, aa, b1, b2);
    TruncatedLines(first, aa, b1 + b2);
  }

  lemma TruncatedInput(first: Bytes, aa: Bytes, b1: Bytes, b2: Bytes)
    requires first == [122 as byte, Semicolon, 49 as byte, NewLine] && aa == [65 as byte, 65 as byte]
    requires b1 == [66 as byte, 66 as byte, 66 as byte, 66 as byte] && b2 == [67 as byte, Semicolon, 53 as byte, NewLine]
    ensures var rs := [Record([122 as byte], [49 as byte]), Record(aa + b1 + [67 as byte], [53 as byte])];
      Readable([first + aa, b1, b2]) && AllWellFormed(rs) && Flatten([first + aa, b1, b2]) == Encode(rs)
  {
    var r0, r1 := Record([122 as byte], [49 as byte]), Record(aa + b1 + [67 as byte], [53 as byte]);
    assert Encode([r1]) == Line(r1) + Encode([]);
    assert Encode([r0, r1]) == Line(r0) + Encode([r1]);
    assert Encode([r0, r1]) == first + aa + b1 + b2;
    Flatten3(first + aa, b1, b2);
  }

  /** Three reads: a first block split into a chunk and a leftover, a
      block without '\n', and a block ending with '\n'. */
  lemma TruncatedChunks(b0: Bytes, first: Bytes, aa: Bytes, b1: Bytes, b2: Bytes)
    requires SplitBlock([], b0) == State([first], aa)
    requires NewLine !in b1
    requires EndsLine(b2)
    ensures Run([b0, b1, b2]).chunks == [first, aa, b1 + b2]
  {
    TruncatedSteps(b0, first, aa, b1, b2);
    assert [] + [b0] + [b1] + [b2] == [b0, b1, b2];
    assert [] + [first] + [aa] + [b1 + b2] == [first, aa, b1 + b2];
  }

  lemma TruncatedSteps(b0: Bytes, first: Bytes, aa: Bytes, b1: Bytes, b2: Bytes)
    requires SplitBlock([], b0) == State([first], aa)
    requires NewLine !in b1
    requires EndsLine(b2)
    ensures Run([] + [b0] + [b1] + [b2]) == State([] + [first] + [aa] + [b1 + b2], [])
  {
    var s0: seq<Bytes> := [];
    var s1 := s0 + [b0];
    var s2 := s1 + [b1];
    var c0: seq<Bytes> := [];
    RunSnoc(s0, b0);
    RunNoNewLine(s1, b1, c0 + [first], aa);
    RunLastLine(s2, b2, c0 + [first] + [aa], b1);
  }

  lemma FirstBlockSplit(first: Bytes, aa: Bytes)
    requires first == [122 as byte, Semicolon, 49 as byte, NewLine] && aa == [65 as byte, 65 as byte]
    ensures SplitBlock([], first + aa) == State([first], aa)
  {
    var b0 := first + aa;
    LastIndexIsLast(b0, NewLine);
    assert b0[3] == NewLine && b0[4] != NewLine && b0[5] != NewLine;
    assert LastIndex(b0, NewLine) == 3;
    assert b0[..4] == first && b0[4..] == aa && [] + first == first;
  }

  lemma TruncatedLines(first: Bytes, aa: Bytes, last: Bytes)
    requires first == [122 as byte, Semicolon, 49 as byte, NewLine] && aa == [65 as byte, 65 as byte]
    requires last == [66 as byte, 66 as byte, 66 as byte, 66 as byte, 67 as byte, Semicolon, 53 as byte, NewLine]
    ensures ConcatLines([first, aa, last])
      == [Record([122 as byte], [49 as byte]), Record([66 as byte, 66 as byte, 66 as byte, 66 as byte, 67 as byte], [53 as byte])]
  {
    var r0 := Record([122 as byte], [49 as byte]);
    var cut := Record([66 as byte, 66 as byte, 66 as byte, 66 as byte, 67 as byte], [53 as byte]);
    assert first == Line(r0) && last == Line(cut);
    LinesOfLine(r0);
    LinesOfLine(cut);
    assert ScanFrom(aa, 1, [], 0) == [];
    ConcatLinesSnoc([], first);
    ConcatLinesSnoc([first], aa);
    ConcatLinesSnoc([first, aa], last);
    assert [] + [first] == [first] && [first] + [aa] == [first, aa] && [first, aa] + [last] == [first, aa, last];
  }

  lemma LinesOfLine(r: Record)
    requires WellFormed(r)
    ensures Lines(Line(r)) == [r]
  {
    assert Encode([r]) == Line(r) + Encode([]) == Line(r) + [] == Line(r);
    LinesEncode([r]);
  }

  lemma ConcatLinesSnoc(chunks: seq<Bytes>, chunk: Bytes)
    ensures ConcatLines(chunks + [chunk]) == ConcatLines(chunks) + Lines(chunk)
  {
    assert (chunks + [chunk])[..|chunks|] == chunks;
  }

}
