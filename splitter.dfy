/** The chunk splitter of `readMeasurements`: the blocks returned by successive
    reads of the input file are realigned on line boundaries and sent to the
    workers as chunks.  The file reads are the input `blocks`; the channel is
    the returned list of chunks. */
module Splitter {
  import opened Measurements

  /** `bytes.LastIndex(s, []byte{b})`: the index of the last `b` in `s`, or -1. */
  function LastIndex(s: Bytes, b: byte): (r: int)
    ensures -1 <= r < |s|
    ensures r >= 0 ==> s[r] == b
  {
    if |s| == 0 then -1
    else if s[|s| - 1] == b then |s| - 1
    else LastIndex(s[..|s| - 1], b)
  }

  /** No `b` follows the index LastIndex returns, and it is -1 exactly when
      `s` holds no `b`. */
  lemma {:induction false} LastIndexIsLast(s: Bytes, b: byte)
    ensures forall j :: LastIndex(s, b) < j < |s| ==> s[j] != b
    ensures LastIndex(s, b) == -1 <==> b !in s
    decreases |s|
  {
    if |s| > 0 && s[|s| - 1] != b {
      var init := s[..|s| - 1];
      LastIndexIsLast(init, b);
      assert s == init + [s[|s| - 1]];
    }
  }

  /** All bytes of a list of byte strings, in order. */
  function Flatten(xs: seq<Bytes>): Bytes
  {
    if xs == [] then [] else Flatten(xs[..|xs| - 1]) + xs[|xs| - 1]
  }

  lemma FlattenSnoc(xs: seq<Bytes>, x: Bytes)
    ensures Flatten(xs + [x]) == Flatten(xs) + x
  {
    assert (xs + [x])[..|xs|] == xs;
  }

  /** Whether a byte string ends with a line terminator. */
  predicate EndsLine(s: Bytes)
  {
    |s| > 0 && s[|s| - 1] == NewLine
  }

  /** What the splitter holds after a read: the chunks it has sent and the
      unterminated bytes it carries over to the next read. */
  datatype State = State(chunks: seq<Bytes>, leftover: Bytes)

  /** One read as written (main.go:45-49): the chunk is the old leftover
      followed by the block up to and including its last '\n'; the rest of
      the block replaces the leftover. */
  function SplitBlock(leftover: Bytes, block: Bytes): (r: State)
    ensures |r.chunks| == 1
  {
    var last := LastIndex(block, NewLine);
    State([leftover + block[..last + 1]], block[last + 1..])
  }

  /** One read as written keeps the bytes in order and leaves no '\n' in the
      leftover; a block with '\n' gives a chunk ending in '\n', and a block
      without one sends the old leftover and becomes the new leftover. */
  lemma SplitBlockShape(leftover: Bytes, block: Bytes)
    ensures var r := SplitBlock(leftover, block);
      && r.chunks[0] + r.leftover == leftover + block
      && NewLine !in r.leftover
      && (NewLine in block ==> EndsLine(r.chunks[0]))
      && (NewLine !in block ==> r.chunks[0] == leftover && r.leftover == block)
  {
    var last := LastIndex(block, NewLine);
    LastIndexIsLast(block, NewLine);
    CutAtLast(leftover, block, last);
  }

  /** Cutting a block just after its last '\n' (or at its start when it has
      none): the pieces rejoin to the block, and the tail holds no '\n'. */
  lemma CutAtLast(leftover: Bytes, block: Bytes, last: int)
    requires -1 <= last < |block| && (last >= 0 ==> block[last] == NewLine)
    requires forall j :: last < j < |block| ==> block[j] != NewLine
    ensures (leftover + block[..last + 1]) + block[last + 1..] == leftover + block
    ensures NewLine !in block[last + 1..]
    ensures last >= 0 ==> EndsLine(leftover + block[..last + 1])
    ensures last == -1 ==> leftover + block[..last + 1] == leftover && block[last + 1..] == block
  {
    Rejoin(leftover, block, last + 1);
    TailFree(block, last + 1);
    if last == -1 {
      CutAtStart(leftover, block);
    } else {
      CutEndsLine(leftover, block, last);
    }
  }

  lemma CutAtStart(leftover: Bytes, block: Bytes)
    ensures leftover + block[..0] == leftover && block[0..] == block
  {
    assert block[..0] == [];
  }

  lemma CutEndsLine(leftover: Bytes, block: Bytes, last: nat)
    requires last < |block| && block[last] == NewLine
    ensures EndsLine(leftover + block[..last + 1])
  {
    var c := leftover + block[..last + 1];
    assert c[|c| - 1] == block[last];
  }

  lemma Rejoin(leftover: Bytes, block: Bytes, k: nat)
    requires k <= |block|
    ensures (leftover + block[..k]) + block[k..] == leftover + block
  {
    assert block == block[..k] + block[k..];
    AppendAssoc(leftover, block[..k], block[k..]);
  }

  lemma TailFree(block: Bytes, k: nat)
    requires k <= |block|
    requires forall j :: k <= j < |block| ==> block[j] != NewLine
    ensures NewLine !in block[k..]
  {
    var tail := block[k..];
    forall j | 0 <= j < |tail| ensures tail[j] != NewLine {
      assert tail[j] == block[k + j];
    }
  }

  /** The size of the read buffer (main.go:20). */
  const ChunkSize := 64 * 1024 * 1024

  /** The block lists the program can read: the first read fills at most
      `ChunkSize` bytes, and `buf` is cut down to each read's size
      (main.go:41), so no read returns more bytes than the one before it.
      `Run` accepts any list of blocks, a superset of these. */
  predicate Readable(blocks: seq<Bytes>)
  {
    (forall i :: 0 <= i < |blocks| ==> |blocks[i]| <= ChunkSize)
    && (forall i :: 0 < i < |blocks| ==> |blocks[i]| <= |blocks[i - 1]|)
  }

  /** The splitter's state after the reads `blocks`, as written: one chunk
      per read. */
  function Run(blocks: seq<Bytes>): (r: State)
    ensures |r.chunks| == |blocks|
  {
    if blocks == [] then State([], [])
    else
      var prev := Run(blocks[..|blocks| - 1]);
      var step := SplitBlock(prev.leftover, blocks[|blocks| - 1]);
      State(prev.chunks + step.chunks, step.leftover)
  }

  /** Byte conservation: after any number of reads, the chunks sent followed
      by the leftover are every byte read, and the leftover holds no '\n'. */
  lemma {:induction false} RunConserves(blocks: seq<Bytes>)
    ensures Flatten(Run(blocks).chunks) + Run(blocks).leftover == Flatten(blocks)
    ensures NewLine !in Run(blocks).leftover
    decreases |blocks|
  {
    if blocks != [] {
      var init, block := blocks[..|blocks| - 1], blocks[|blocks| - 1];
      var prev := Run(init);
      var step := SplitBlock(prev.leftover, block);
      RunConserves(init);
      SplitBlockShape(prev.leftover, block);
      assert blocks == init + [block];
      StepConserves(init, block, prev, step);
    }
  }

  /** One read, as written or aligned, keeps the bytes in order. */
  lemma StepConserves(init: seq<Bytes>, block: Bytes, prev: State, step: State)
    requires Flatten(prev.chunks) + prev.leftover == Flatten(init)
    requires |step.chunks| == 1 && step.chunks[0] + step.leftover == prev.leftover + block
    ensures Flatten(prev.chunks + step.chunks) + step.leftover == Flatten(init + [block])
  {
    var chunk := step.chunks[0];
    assert step.chunks == [chunk];
    FlattenSnoc(init, block);
    FlattenSnoc(prev.chunks, chunk);
    calc {
      Flatten(prev.chunks + [chunk]) + step.leftover;
      (Flatten(prev.chunks) + chunk) + step.leftover;
      { AppendAssoc(Flatten(prev.chunks), chunk, step.leftover); }
      Flatten(prev.chunks) + (chunk + step.leftover);
      Flatten(prev.chunks) + (prev.leftover + block);
      { AppendAssoc(Flatten(prev.chunks), prev.leftover, block); }
      Flatten(init) + block;
    }
  }

  lemma AppendAssoc(a: Bytes, b: Bytes, c: Bytes)
    ensures (a + b) + c == a + (b + c)
  {
  }

  /** `readMeasurements` without the goroutine and channel plumbing: one
      chunk is sent per successful read, and at end of stream the loop stops
      without sending the leftover (main.go:31-54). */
  method ReadMeasurements(blocks: seq<Bytes>) returns (chunks: seq<Bytes>)
    ensures chunks == Run(blocks).chunks
  {
    chunks := [];
    var leftover: Bytes := [];
    var i := 0;
    while i < |blocks|
      invariant 0 <= i <= |blocks|
      invariant Run(blocks[..i]) == State(chunks, leftover)
    {
      var buf := blocks[i];
      var lastNewLineIndex := LastIndex(buf, NewLine);
      var chunkToSend := leftover + buf[..lastNewLineIndex + 1];
      RunPrefix(blocks, i, chunks, leftover);
      leftover := buf[lastNewLineIndex + 1..];
      chunks := chunks + [chunkToSend];
      i := i + 1;
    }
    assert blocks[..i] == blocks;
  }

  /** `Run` on one more block of a list: the next chunk and leftover are
      those of one read as written. */
  lemma RunPrefix(blocks: seq<Bytes>, i: int, chunks: seq<Bytes>, leftover: Bytes)
    requires 0 <= i < |blocks| && Run(blocks[..i]) == State(chunks, leftover)
    ensures var last := LastIndex(blocks[i], NewLine);
      Run(blocks[..i + 1]) == State(chunks + [leftover + blocks[i][..last + 1]], blocks[i][last + 1..])
  {
    assert blocks[..i + 1][..i] == blocks[..i];
  }

  lemma FlattenLast(xs: seq<Bytes>)
    requires |xs| > 0
    ensures Flatten(xs) == Flatten(xs[..|xs| - 1]) + xs[|xs| - 1]
  {
  }

  /** End of stream drops the leftover: when the input does not end with a
      '\n' and the last read returned bytes, those trailing bytes after the
      last '\n' are carried in the leftover and never sent, so the chunks
      sent are a strict prefix of the input. */
  lemma {:induction false} UnterminatedTailDropped(blocks: seq<Bytes>)
    requires |blocks| > 0 && |blocks[|blocks| - 1]| > 0
    requires !EndsLine(Flatten(blocks))
    ensures |Run(blocks).leftover| > 0
    ensures |Flatten(Run(blocks).chunks)| < |Flatten(blocks)|
  {
    var last := blocks[|blocks| - 1];
    RunConserves(blocks);
    FlattenLast(blocks);
    var prev := Run(blocks[..|blocks| - 1]);
    var k := LastIndex(last, NewLine);
    assert last[|last| - 1] != NewLine;
    assert Run(blocks).leftover == last[k + 1..];
  }

  /** One read in the intended form: a block without '\n' is appended to
      the leftover and an empty chunk is sent, so no chunk ever ends inside
      a line. */
  function SplitBlockAligned(leftover: Bytes, block: Bytes): (r: State)
    ensures |r.chunks| == 1
  {
    var last := LastIndex(block, NewLine);
    if last == -1 then State([[]], leftover + block)
    else State([leftover + block[..last + 1]], block[last + 1..])
  }

  /** The intended step keeps the bytes in order, keeps the leftover free of
      '\n', and sends a chunk that is empty or ends with '\n'. */
  lemma SplitBlockAlignedShape(leftover: Bytes, block: Bytes)
    ensures var r := SplitBlockAligned(leftover, block);
      && r.chunks[0] + r.leftover == leftover + block
      && (NewLine !in leftover ==> NewLine !in r.leftover)
      && (r.chunks[0] == [] || EndsLine(r.chunks[0]))
  {
    var last := LastIndex(block, NewLine);
    LastIndexIsLast(block, NewLine);
    if last == -1 {
      assert [] + (leftover + block) == leftover + block;
    } else {
      CutAtLast(leftover, block, last);
    }
  }

  /** Every chunk is empty or ends with '\n'. */
  predicate AllWholeLines(chunks: seq<Bytes>)
  {
    forall i :: 0 <= i < |chunks| ==> chunks[i] == [] || EndsLine(chunks[i])
  }

  /** The splitter's state after the reads `blocks`, in the intended form:
      one chunk per read. */
  function RunAligned(blocks: seq<Bytes>): (r: State)
    ensures |r.chunks| == |blocks|
  {
    if blocks == [] then State([], [])
    else
      var prev := RunAligned(blocks[..|blocks| - 1]);
      var step := SplitBlockAligned(prev.leftover, blocks[|blocks| - 1]);
      State(prev.chunks + step.chunks, step.leftover)
  }

  /** With the intended step, the bytes are conserved and the leftover
      holds no '\n'. */
  lemma {:induction false} RunAlignedConserves(blocks: seq<Bytes>)
    ensures Flatten(RunAligned(blocks).chunks) + RunAligned(blocks).leftover == Flatten(blocks)
    ensures NewLine !in RunAligned(blocks).leftover
    decreases |blocks|
  {
    if blocks != [] {
      var init, block := blocks[..|blocks| - 1], blocks[|blocks| - 1];
      var prev := RunAligned(init);
      var step := SplitBlockAligned(prev.leftover, block);
      RunAlignedConserves(init);
      SplitBlockAlignedShape(prev.leftover, block);
      assert blocks == init + [block];
      StepConserves(init, block, prev, step);
    }
  }

  /** With the intended step, every chunk sent is empty or ends with '\n'. */
  lemma {:induction false} RunAlignedWholeLines(blocks: seq<Bytes>)
    ensures AllWholeLines(RunAligned(blocks).chunks)
    decreases |blocks|
  {
    if blocks != [] {
      var init, block := blocks[..|blocks| - 1], blocks[|blocks| - 1];
      var prev := RunAligned(init);
      var step := SplitBlockAligned(prev.leftover, block);
      RunAlignedWholeLines(init);
      SplitBlockAlignedShape(prev.leftover, block);
      WholeLinesSnoc(prev.chunks, step.chunks);
    }
  }

  lemma WholeLinesSnoc(chunks: seq<Bytes>, more: seq<Bytes>)
    requires AllWholeLines(chunks) && AllWholeLines(more)
    ensures AllWholeLines(chunks + more)
  {
    var all := chunks + more;
    forall i | 0 <= i < |all| ensures all[i] == [] || EndsLine(all[i]) {
      if i < |chunks| {
        assert all[i] == chunks[i];
      } else {
        assert all[i] == more[i - |chunks|];
      }
    }
  }

  /** The splitter loop with the intended handling of a block without '\n'. */
  method ReadMeasurementsAligned(blocks: seq<Bytes>) returns (chunks: seq<Bytes>)
    ensures chunks == RunAligned(blocks).chunks
  {
    chunks := [];
    var leftover: Bytes := [];
    var i := 0;
    while i < |blocks|
      invariant 0 <= i <= |blocks|
      invariant RunAligned(blocks[..i]) == State(chunks, leftover)
    {
      var buf := blocks[i];
      var lastNewLineIndex := LastIndex(buf, NewLine);
      RunAlignedPrefix(blocks, i, chunks, leftover);
      if lastNewLineIndex == -1 {
        leftover := leftover + buf;
        chunks := chunks + [[]];
      } else {
        var chunkToSend := leftover + buf[..lastNewLineIndex + 1];
        leftover := buf[lastNewLineIndex + 1..];
        chunks := chunks + [chunkToSend];
      }
      i := i + 1;
    }
    assert blocks[..i] == blocks;
  }

  /** `RunAligned` on one more block of a list: a block without '\n' joins
      the leftover and an empty chunk is sent. */
  lemma RunAlignedPrefix(blocks: seq<Bytes>, i: int, chunks: seq<Bytes>, leftover: Bytes)
    requires 0 <= i < |blocks| && RunAligned(blocks[..i]) == State(chunks, leftover)
    ensures var last := LastIndex(blocks[i], NewLine);
      RunAligned(blocks[..i + 1])
        == if last == -1 then State(chunks + [[]], leftover + blocks[i])
           else State(chunks + [leftover + blocks[i][..last + 1]], blocks[i][last + 1..])
  {
    assert blocks[..i + 1][..i] == blocks[..i];
  }

  /** A read of a block without '\n' after the reads `blocks`. */
  lemma RunNoNewLine(blocks: seq<Bytes>, block: Bytes, chunks: seq<Bytes>, leftover: Bytes)
    requires Run(blocks) == State(chunks, leftover)
    requires NewLine !in block
    ensures Run(blocks + [block]) == State(chunks + [leftover], block)
  {
    SplitBlockShape(leftover, block);
    RunSnoc(blocks, block);
  }

  /** A read of a block ending with '\n' after the reads `blocks`. */
  lemma RunLastLine(blocks: seq<Bytes>, block: Bytes, chunks: seq<Bytes>, leftover: Bytes)
    requires Run(blocks) == State(chunks, leftover)
    requires EndsLine(block)
    ensures Run(blocks + [block]) == State(chunks + [leftover + block], [])
  {
    LastLineBlock(leftover, block);
    RunSnoc(blocks, block);
  }

  lemma RunSnoc(blocks: seq<Bytes>, block: Bytes)
    ensures var prev := Run(blocks);
      var step := SplitBlock(prev.leftover, block);
      Run(blocks + [block]) == State(prev.chunks + step.chunks, step.leftover)
  {
    assert (blocks + [block])[..|blocks|] == blocks;
  }

  /** A block that ends with '\n' is sent whole, after the leftover. */
  lemma LastLineBlock(leftover: Bytes, block: Bytes)
    requires EndsLine(block)
    ensures SplitBlock(leftover, block) == State([leftover + block], [])
  {
    assert LastIndex(block, NewLine) == |block| - 1;
    assert block[..|block|] == block && block[|block|..] == [];
  }
}
