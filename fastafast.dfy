/** The per-thread part of Sources/Fasta_Fast: the shared generator MyRandom that hands out
    blocks of random values in thread turn order, and the loop of fastRandom that turns a
    block into lines of symbols in an output buffer. */
module FastaFast {
  import opened Text
  import opened Lcg
  import opened Sampler
  import Fasta

  /** LINES, BLKLEN and the capacity of the output buffer, BLKLEN + LINES. */
  const BlockLines: nat := 1024
  const BlockLength: nat := 61440
  const OutCapacity: nat := 62464

  lemma BlockSizes()
    ensures BlockLength == LineWidth * BlockLines
    ensures OutCapacity == BlockLength + BlockLines
  {
  }

  /** The generator shared by the threads of one random section. The ghost fields record
      where the section's stream started, how many values the section asked for and how
      many were handed out so far. */
  class MyRandom {
    var seed: nat
    var count: int
    var threadCount: nat
    var nextThreadId: nat
    ghost var start: nat
    ghost var requested: int
    ghost var drawn: nat

    /** seed < IM keeps the UInt32 step free of overflow; the turn counter stays below the
        number of threads; the values handed out are the first `drawn` values of the
        section's stream, and `count` is what is left of the request. */
    ghost predicate Valid()
      reads this
    {
      && seed < IM
      && 0 < threadCount < 0x1_0000
      && nextThreadId < threadCount
      && seed == Iterate(start, drawn)
      && count + drawn == requested
    }

    /** MyRandom(count:threadCount:): seed 42, thread 0's turn. */
    constructor(count: int, threadCount: nat)
      requires 0 < threadCount < 0x1_0000
      ensures Valid()
      ensures seed == InitialSeed && this.count == count && this.threadCount == threadCount
      ensures nextThreadId == 0 && start == InitialSeed && drawn == 0
    {
      seed := InitialSeed;
      this.count := count;
      this.threadCount := threadCount;
      nextThreadId := 0;
      start := InitialSeed;
      requested := count;
      drawn := 0;
    }

    /** reset(count:): a new request, thread 0's turn, and the seed kept, so that the next
        section continues the stream of the previous one. */
    method Reset(count: int)
      requires Valid()
      modifies this
      ensures Valid()
      ensures nextThreadId == 0 && this.count == count
      ensures seed == old(seed) && threadCount == old(threadCount)
      ensures start == Iterate(old(start), old(drawn)) && drawn == 0
    {
      nextThreadId := 0;
      this.count := count;
      start := seed;
      requested := count;
      drawn := 0;
    }

    /** gen(buf:curThead:): None, and nothing changed, when it is not the calling thread's
        turn; otherwise the turn passes on, and the next min(buf.count, count) values of the
        stream are written to the front of `buf` and handed out. On its turn a negative count
        makes the range 0 ..< toGen invalid, so `count` must not be negative there; off-turn
        the guard returns before `count` is read. */
    method Gen(buf: array<Value>, curThread: nat) returns (r: Option<nat>)
      requires Valid() && (curThread == nextThreadId ==> count >= 0)
      modifies this, buf
      ensures Valid() && (old(count) >= 0 ==> count >= 0)
      ensures curThread != old(nextThreadId) ==> r.None? && unchanged(this) && unchanged(buf)
      ensures curThread == old(nextThreadId) ==>
        var toGen := Fasta.Min(buf.Length, old(count));
        && r == Some(toGen)
        && nextThreadId == (old(nextThreadId) + 1) % threadCount
        && count == old(count) - toGen
        && buf[..toGen] == Stream(old(seed), toGen)
        && buf[toGen..] == old(buf[toGen..])
        && seed == Iterate(old(seed), toGen)
        && start == old(start) && requested == old(requested) && drawn == old(drawn) + toGen
        && threadCount == old(threadCount)
    {
      if curThread != nextThreadId {
        return None;
      }
      nextThreadId := (nextThreadId + 1) % threadCount;
      var toGen := Fasta.Min(buf.Length, count);
      var s := FillStream(buf, seed, toGen);
      IterateAdd(start, drawn, toGen);
      seed := s;
      count := count - toGen;
      drawn := drawn + toGen;
      r := Some(toGen);
    }
  }

  /** The loop of gen: the next n values of the stream from `seed`, written to the front of
      `buf`; the seed they leave behind is returned. */
  method FillStream(buf: array<Value>, seed: Value, n: nat) returns (s: Value)
    requires n <= buf.Length
    modifies buf
    ensures buf[..n] == Stream(seed, n) && buf[n..] == old(buf[n..])
    ensures s == Iterate(seed, n)
  {
    s := seed;
    for i := 0 to n
      invariant s == Iterate(seed, i)
      invariant buf[..i] == Stream(seed, i)
      invariant buf[i..] == old(buf[i..])
    {
      NoOverflow(s);
      s := (s * IA + IC) % IM;
      buf[i] := s;
      assert buf[..i + 1] == buf[..i] + [s];
      assert buf[i + 1..] == buf[i..][1..];
    }
  }

  /** The blocks a section hands out, one after the other, are its stream: the block
      handed out after `drawn` values continues the values handed out before it. */
  lemma BlocksContinueStream(start: nat, drawn: nat, toGen: nat)
    ensures Stream(start, drawn) + Stream(Iterate(start, drawn), toGen) == Stream(start, drawn + toGen)
  {
    StreamSplit(start, drawn, toGen);
  }

  /** Framing a run one group at a time: after whole lines, the next group of at most
      LineWidth symbols is written followed by its newline. */
  lemma FramedStep(x: seq<Byte>, begin: nat, end: nat)
    requires begin % LineWidth == 0 && begin < end <= |x| && end - begin <= LineWidth
    ensures Framed(x[..end]) == Framed(x[..begin]) + x[begin..end] + [NewLine]
  {
    assert x[..end] == x[..begin] + x[begin..end];
    FramedAppend(x[..begin], x[begin..end]);
    FramedIsLinesClosed(x[..begin]);
  }

  /** The inner loop of fastRandom: symbols begin ..< end at j + lineCount, then the
      newline at end + lineCount. */
  method FormatLine(t: WfTable, rngBuf: array<Value>, out: array<Byte>, ghost count: nat,
                    ghost syms: seq<Byte>, begin: nat, end: nat, lineCount: nat)
    requires count <= rngBuf.Length && syms == SampleAll(t, rngBuf[..count])
    requires begin < end <= count && end + lineCount < out.Length
    modifies out
    ensures out[..end + lineCount + 1] == old(out[..begin + lineCount]) + syms[begin..end] + [NewLine]
  {
    ghost var prefix := out[..begin + lineCount];
    for j := begin to end
      invariant out[..j + lineCount] == prefix + syms[begin..j]
    {
      PutSymbol(t, rngBuf, out, count, syms, j, lineCount);
      RangeSnoc(syms, begin, j);
    }
    PutNewLine(out, end + lineCount);
  }

  /** The newline that closes a line, written at i. */
  method PutNewLine(out: array<Byte>, i: nat)
    requires i < out.Length
    modifies out
    ensures out[..i + 1] == old(out[..i]) + [NewLine]
  {
    out[i] := NewLine;
    assert out[..i + 1] == out[..i] + [out[i]];
  }

  lemma TakeAll<T>(s: seq<T>)
    ensures s[..|s|] == s
  {
  }

  lemma RangeSnoc<T>(s: seq<T>, a: nat, b: nat)
    requires a <= b < |s|
    ensures s[a..b + 1] == s[a..b] + [s[b]]
  {
  }

  /** One symbol of the inner loop: the symbol of value j, written at j + lineCount. */
  method PutSymbol(t: WfTable, rngBuf: array<Value>, out: array<Byte>, ghost count: nat,
                   ghost syms: seq<Byte>, j: nat, lineCount: nat)
    requires count <= rngBuf.Length && syms == SampleAll(t, rngBuf[..count])
    requires j < count && j + lineCount < out.Length
    modifies out
    ensures out[..j + lineCount + 1] == old(out[..j + lineCount]) + [syms[j]]
  {
    assert rngBuf[..count][j] == rngBuf[j];
    SampleAllAt(t, rngBuf[..count], j);
    out[j + lineCount] := Sample(t, rngBuf[j]);
    assert out[..j + lineCount + 1] == out[..j + lineCount] + [out[j + lineCount]];
  }

  /** The formatting loop of fastRandom for a block of `count` values: the text is the
      framed run of symbols, ceil(count / LineWidth) lines each closed by a newline. The
      stride over begin = 0, LineWidth, 2 * LineWidth, ... below count is written as a
      loop that moves begin to the end of the line just written, which takes the same
      values. */
  method FormatBlock(t: WfTable, rngBuf: array<Value>, count: nat, out: array<Byte>)
      returns (lineCount: nat)
    requires count <= rngBuf.Length == BlockLength && out.Length >= OutCapacity
    modifies out
    ensures lineCount == (count + LineWidth - 1) / LineWidth
    ensures out[..count + lineCount] == Framed(SampleAll(t, rngBuf[..count]))
  {
    ghost var syms := SampleAll(t, rngBuf[..count]);
    lineCount := 0;
    var begin := 0;
    while begin < count
      invariant begin == Fasta.Min(LineWidth * lineCount, count)
      invariant lineCount > 0 ==> LineWidth * (lineCount - 1) < count
      invariant out[..begin + lineCount] == Framed(syms[..begin])
      decreases count - begin
    {
      begin := FramedLine(t, rngBuf, out, count, syms, begin, lineCount);
      lineCount := lineCount + 1;
    }
    LineCount(count, lineCount);
    TakeAll(syms);
  }

  /** One turn of the stride: the line from begin to end = min(begin + LineWidth, count)
      extends the framed text of the symbols before begin to those before end. */
  method FramedLine(t: WfTable, rngBuf: array<Value>, out: array<Byte>, count: nat,
                    ghost syms: seq<Byte>, begin: nat, lineCount: nat) returns (end: nat)
    requires count <= rngBuf.Length && syms == SampleAll(t, rngBuf[..count])
    requires count <= BlockLength && out.Length >= OutCapacity
    requires begin == LineWidth * lineCount && begin < count
    requires out[..begin + lineCount] == Framed(syms[..begin])
    modifies out
    ensures end == Fasta.Min(LineWidth * (lineCount + 1), count)
    ensures out[..end + (lineCount + 1)] == Framed(syms[..end])
  {
    NextLine(begin, count, lineCount);
    end := Fasta.Min(begin + LineWidth, count);
    FormatLine(t, rngBuf, out, count, syms, begin, end, lineCount);
    FramedStep(syms, begin, end);
  }

  /** The line starting at begin = LineWidth * lineCount: its newline lies inside the
      output buffer, it is line number lineCount + 1 of the text, and unless it is the last
      one it is a whole line. */
  lemma NextLine(begin: nat, count: nat, lineCount: nat)
    requires begin == LineWidth * lineCount && begin < count <= BlockLength
    ensures var end := Fasta.Min(begin + LineWidth, count);
      && begin % LineWidth == 0 && begin < end <= begin + LineWidth
      && end + lineCount < OutCapacity
      && end == Fasta.Min(LineWidth * (lineCount + 1), count)
  {
  }

  /** The lines counted when the stride has passed count are ceil(count / LineWidth). */
  lemma LineCount(count: nat, lineCount: nat)
    requires count <= LineWidth * lineCount
    requires lineCount > 0 ==> LineWidth * (lineCount - 1) < count
    ensures lineCount == (count + LineWidth - 1) / LineWidth
  {
  }

  /** Where fastRandom writes its terminator, rngBuf.count + lineCount. */
  function TerminatorIndex(count: nat): (i: nat)
    ensures count <= i <= count + count / LineWidth + 1
  {
    count + (count + LineWidth - 1) / LineWidth
  }

  /** As written: for every block shorter than BLKLEN the terminator lands in the buffer,
      but for a full block it is written at index BLKLEN + LINES, one past the end. */
  lemma TerminatorOverrun(count: nat)
    requires count <= BlockLength
    ensures TerminatorIndex(count) < OutCapacity <==> count < BlockLength
  {
  }

  /** The corrected buffer: one byte more, so that a full block keeps its terminator. */
  const OutCapacityCorrected: nat := BlockLength + BlockLines + 1

  /** A block formatted and terminated in the corrected buffer reads back, as a C string,
      as exactly its framed text. */
  method FormatAndTerminate(t: WfTable, rngBuf: array<Value>, count: nat, out: array<Byte>)
      returns (text: seq<Byte>)
    requires count <= rngBuf.Length == BlockLength && out.Length == OutCapacityCorrected
    requires Nul !in t.elements
    modifies out
    ensures text == Framed(SampleAll(t, rngBuf[..count]))
    ensures Fasta.CStringLength(out[..]) == Some(|text|)
  {
    var lineCount := FormatBlock(t, rngBuf, count, out);
    TerminatorOverrun(count);
    out[count + lineCount] := Nul;
    text := out[..count + lineCount];
    NoNulInFramed(t, rngBuf[..count]);
    assert out[..][..count + lineCount] == text;
    Fasta.FirstNul(out[..], count + lineCount);
  }

  /** The framed text of symbols from a table without NUL has no NUL either. */
  lemma NoNulInFramed(t: WfTable, v: seq<Value>)
    requires Nul !in t.elements
    ensures Nul !in Framed(SampleAll(t, v))
  {
    var s := SampleAll(t, v);
    SampleAllAvoids(t, v, Nul);
    FramedIsLinesClosed(s);
    LinesKeepsNoNul(s);
  }
}
