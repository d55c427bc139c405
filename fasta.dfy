/** The serial fasta program (Sources/Fasta): its global random generator, the producer
    and consumer steps, how randomFasta cuts its count into chunks, and the text it prints. */
module Fasta {
  import opened Text
  import opened Lcg
  import opened Sampler

  /** Lines per chunk, random values per chunk and bytes of text per chunk. */
  const BufferLines: nat := 10240
  const RndBufSize: nat := 614400
  const WriteBufSize: nat := 624640

  lemma BufferSizes()
    ensures RndBufSize == BufferLines * LineWidth
    ensures WriteBufSize == BufferLines * (LineWidth + 1)
  {
  }

  function Min(a: int, b: int): (m: int)
    ensures m <= a && m <= b && (m == a || m == b)
  {
    if a <= b then a else b
  }

  /** The program's global seed and the functions that advance it. */
  class Generator {
    var seed: nat

    ghost predicate Valid()
      reads this
    {
      seed < IM
    }

    constructor()
      ensures Valid() && seed == InitialSeed
    {
      seed := InitialSeed;
    }

    /** random(): one step of the recurrence. The UInt32 product never overflows. */
    method Random() returns (r: Value)
      requires Valid()
      modifies this
      ensures Valid() && r == seed && seed == Next(old(seed))
    {
      NoOverflow(seed);
      seed := (seed * IA + IC) % IM;
      r := seed;
    }

    /** genRandom: fills the first min(n, RndBufSize) slots of a value buffer with the
        next values of the stream and leaves the rest of the buffer alone. A negative n makes
        the range 0 ..< min(n, rndBufSize) invalid, so n must not be negative. */
    method GenRandom(n: int, buf: array<Value>)
      requires Valid() && buf.Length == RndBufSize && n >= 0
      modifies this, buf
      ensures Valid()
      ensures var k := Min(n, RndBufSize);
        && buf[..k] == Stream(old(seed), k)
        && (forall j :: k <= j < buf.Length ==> buf[j] == old(buf[j]))
        && seed == Iterate(old(seed), k)
    {
      var k := Min(n, RndBufSize);
      var i := 0;
      while i < k
        invariant 0 <= i <= k && Valid()
        invariant buf[..i] == Stream(old(seed), i)
        invariant forall j :: i <= j < buf.Length ==> buf[j] == old(buf[j])
        invariant seed == Iterate(old(seed), i)
      {
        var r := Random();
        buf[i] := r;
        assert buf[..i + 1] == buf[..i] + [r];
        i := i + 1;
      }
    }
  }

  /** consumeRandom: turns the first min(n, RndBufSize) values of a value buffer into
      symbols and writes them, a newline after every LineWidth-th, to the front of a text
      buffer; the bytes after the written ones keep what they held. A negative n makes the
      range 0 ..< min(n, rndBufSize) invalid, so n must not be negative. */
  method ConsumeRandom(t: WfTable, n: int, buf: array<Value>, out: array<Byte>)
    requires buf.Length == RndBufSize && out.Length == WriteBufSize && n >= 0
    modifies out
    ensures var k := Min(n, RndBufSize);
      && out[..k + k / LineWidth] == Lines(SampleAll(t, buf[..k]))
      && (forall j :: k + k / LineWidth <= j < out.Length ==> out[j] == old(out[j]))
  {
    var k := Min(n, RndBufSize);
    ConsumePrefix(t, k, buf, out);
  }

  /** The loop of consumeRandom over its first k values. */
  method ConsumePrefix(t: WfTable, k: nat, buf: array<Value>, out: array<Byte>)
    requires buf.Length == RndBufSize && out.Length == WriteBufSize && k <= RndBufSize
    modifies out
    ensures out[..k + k / LineWidth] == Lines(SampleAll(t, buf[..k]))
    ensures forall j :: k + k / LineWidth <= j < out.Length ==> out[j] == old(out[j])
  {
    ghost var syms := SampleAll(t, buf[..k]);
    var pos := 0;
    var lineCounter := 0;
    for i := 0 to k
      invariant pos == i + i / LineWidth && lineCounter == i % LineWidth
      invariant out[..pos] == Lines(syms[..i])
      invariant forall j :: pos <= j < out.Length ==> out[j] == old(out[j])
    {
      pos, lineCounter := ConsumeOne(t, buf, out, k, syms, i, pos, lineCounter);
    }
    assert syms[..k] == syms;
  }

  /** One turn of the consumer loop: symbol i, then a newline if it completes a line. */
  method ConsumeOne(t: WfTable, buf: array<Value>, out: array<Byte>, ghost k: nat,
                    ghost syms: seq<Byte>, i: nat, pos: nat, lineCounter: nat)
      returns (pos': nat, lineCounter': nat)
    requires i < k <= buf.Length == RndBufSize && out.Length == WriteBufSize
    requires syms == SampleAll(t, buf[..k])
    requires pos == i + i / LineWidth && lineCounter == i % LineWidth
    requires out[..pos] == Lines(syms[..i])
    modifies out
    ensures pos' == (i + 1) + (i + 1) / LineWidth && lineCounter' == (i + 1) % LineWidth
    ensures out[..pos'] == Lines(syms[..i + 1])
    ensures forall j :: pos' <= j < out.Length ==> out[j] == old(out[j])
  {
    var c := Sample(t, buf[i]);
    assert buf[..k][i] == buf[i];
    SampleAllAt(t, buf[..k], i);
    SliceSnoc(syms, i);
    LinesSnoc(syms[..i], c);
    TextPosition(i);
    out[pos] := c;
    assert out[..pos + 1] == out[..pos] + [c];
    pos' := pos + 1;
    lineCounter' := lineCounter + 1;
    if lineCounter' == LineWidth {
      out[pos'] := NewLine;
      assert out[..pos' + 1] == out[..pos'] + [NewLine];
      pos' := pos' + 1;
      lineCounter' := 0;
    }
  }

  lemma SliceSnoc<T>(s: seq<T>, i: nat)
    requires i < |s|
    ensures s[..i + 1] == s[..i] + [s[i]]
  {
  }

  /** Where symbol i of a chunk and the newline after it (if any) go in the text buffer. */
  lemma TextPosition(i: nat)
    requires i < RndBufSize
    ensures i + i / LineWidth + 1 < WriteBufSize
    ensures (i + 1) + (i + 1) / LineWidth ==
      i + i / LineWidth + 1 + (if (i + 1) % LineWidth == 0 then 1 else 0)
    ensures (i + 1) % LineWidth == (if i % LineWidth + 1 == LineWidth then 0 else i % LineWidth + 1)
  {
  }

  /** The text of at most a chunk of values fits the text buffer. */
  lemma TextBound(r: nat)
    requires r <= RndBufSize
    ensures r + r / LineWidth <= WriteBufSize
  {
  }

  /** A full chunk fills the text buffer to its last byte. */
  lemma FullChunkFillsBuffer()
    ensures RndBufSize + RndBufSize / LineWidth == WriteBufSize
  {
  }

  /** The length String(cString:) reads from a buffer: up to its first NUL byte, or None
      when the buffer holds none and the read runs past its end. */
  function CStringLength(b: seq<Byte>): (r: Option<nat>)
    ensures r.Some? <==> Nul in b
    ensures r.Some? ==> r.value < |b| && b[r.value] == Nul && Nul !in b[..r.value]
  {
    if b == [] then None
    else if b[0] == Nul then Some(0)
    else
      var rest := CStringLength(b[1..]);
      assert b == [b[0]] + b[1..];
      if rest.None? then None
      else
        assert b[..rest.value + 1] == [b[0]] + b[1..][..rest.value];
        Some(rest.value + 1)
  }

  /** A buffer whose first NUL is at index i reads back as a C string of length i. */
  lemma FirstNul(b: seq<Byte>, i: nat)
    requires i < |b| && b[i] == Nul && Nul !in b[..i]
    ensures CStringLength(b) == Some(i)
  {
  }

  /** The text of a full chunk has no NUL byte: printed as a C string, the read runs past
      the WriteBufSize bytes the buffer was allocated with. */
  lemma FullChunkUnterminated(t: WfTable, v: seq<Value>)
    requires |v| == RndBufSize
    requires Nul !in t.elements
    ensures |Lines(SampleAll(t, v))| == WriteBufSize
    ensures CStringLength(Lines(SampleAll(t, v))) == None
  {
    SampleAllAvoids(t, v, Nul);
    LinesKeepsNoNul(SampleAll(t, v));
  }

  /** The buffer as it should be: one byte longer, with a NUL after the text; printed as a
      C string it gives exactly the text of the chunk. */
  function Terminated(text: seq<Byte>): (b: seq<Byte>)
    ensures |b| == |text| + 1 && b[..|text|] == text && b[|text|] == Nul
  {
    text + [Nul]
  }

  lemma TerminatedChunkPrintsText(t: WfTable, v: seq<Value>)
    requires |v| == RndBufSize
    requires Nul !in t.elements
    ensures CStringLength(Terminated(Lines(SampleAll(t, v)))) == Some(WriteBufSize)
  {
    FullChunkUnterminated(t, v);
    var b := Terminated(Lines(SampleAll(t, v)));
    assert b[..WriteBufSize] == Lines(SampleAll(t, v));
  }

  /** A whole number of chunks is a whole number of lines. */
  lemma ChunksAreWholeLines(c: nat)
    ensures (c * RndBufSize) % LineWidth == 0
  {
    assert c * RndBufSize == (c * BufferLines) * LineWidth;
  }

  /** One more chunk: the text of chunk c, printed after the text of the c chunks before
      it (a whole number of lines), is the text of the first c + 1 chunks, and the seed it
      leaves behind is the seed after c + 1 chunks. */
  lemma ChunkStep(t: WfTable, seed: nat, c: nat)
    ensures Lines(SampleAll(t, Stream(seed, c * RndBufSize)))
            + Lines(SampleAll(t, Stream(Iterate(seed, c * RndBufSize), RndBufSize)))
         == Lines(SampleAll(t, Stream(seed, (c + 1) * RndBufSize)))
    ensures Iterate(Iterate(seed, c * RndBufSize), RndBufSize) == Iterate(seed, (c + 1) * RndBufSize)
  {
    var m := c * RndBufSize;
    assert m + RndBufSize == (c + 1) * RndBufSize;
    ChunksAreWholeLines(c);
    var a := Stream(seed, m);
    var b := Stream(Iterate(seed, m), RndBufSize);
    StreamSplit(seed, m, RndBufSize);
    SampleAllAppend(t, a, b);
    LinesAppend(SampleAll(t, a), SampleAll(t, b));
    IterateAdd(seed, m, RndBufSize);
  }

  /** How randomFasta cuts its count: full chunks sent through the buffer pool, then the
      remainder generated and printed by the main thread. */
  datatype Plan = Plan(fullChunks: nat, remainder: nat)

  /** The cut as written: junks = ceil(n / RndBufSize), junks - 1 full chunks and
      n % RndBufSize left over. For n <= 0 the range 0 ..< junks - 1 is reversed and
      the program traps. */
  function PlanAsWritten(n: int): (p: Option<Plan>)
    ensures p.None? <==> n <= 0
    ensures p.Some? ==> p.value.remainder == n % RndBufSize
    ensures p.Some? ==> (p.value.fullChunks * RndBufSize + p.value.remainder == n <==> n % RndBufSize != 0)
  {
    if n <= 0 then None
    else
      var junks := (n + RndBufSize - 1) / RndBufSize;
      Some(Plan(junks - 1, n % RndBufSize))
  }

  /** A whole number of chunks loses one of them: the plan covers n - RndBufSize values
      and leaves nothing for the final part. */
  lemma AsWrittenLosesChunk(n: int)
    requires n > 0 && n % RndBufSize == 0
    ensures PlanAsWritten(n) == Some(Plan(n / RndBufSize - 1, 0))
    ensures PlanAsWritten(n).value.fullChunks * RndBufSize == n - RndBufSize
  {
  }

  /** Every count above one chunk prints at least one full chunk through the buffer pool,
      whose text has no terminator (FullChunkUnterminated): as written, every such run
      reads past a text buffer. */
  lemma AsWrittenPrintsFullChunk(n: int)
    requires n > RndBufSize
    ensures PlanAsWritten(n).Some? && PlanAsWritten(n).value.fullChunks >= 1
  {
    assert (n + RndBufSize - 1) / RndBufSize >= 2;
  }

  /** The cut that was meant: full chunks and a final part of 1 .. RndBufSize values that
      together make up n. */
  function PlanCorrected(n: nat): (p: Plan)
    ensures p.fullChunks * RndBufSize + p.remainder == n
    ensures n > 0 ==> 0 < p.remainder <= RndBufSize
    ensures n == 0 ==> p == Plan(0, 0)
  {
    if n == 0 then Plan(0, 0) else Plan((n - 1) / RndBufSize, (n - 1) % RndBufSize + 1)
  }

  /** Where the two cuts differ: exactly when n is a positive multiple of RndBufSize. */
  lemma PlansAgree(n: int)
    requires n > 0
    ensures PlanAsWritten(n) == Some(PlanCorrected(n)) <==> n % RndBufSize != 0
  {
  }

  /** stringRemainder: how many bytes of the final part's text are printed before
      print adds its own newline. It drops the text's last byte when that byte is the
      newline closing a full line, and is -1 for an empty final part. */
  function KeptLength(r: nat): (k: int)
    ensures k == r + r / LineWidth - (if r % LineWidth == 0 then 1 else 0)
  {
    var len := r + r / LineWidth;
    assert len % (LineWidth + 1) == r % LineWidth;
    if len % (LineWidth + 1) == 0 then len - 1 else len
  }

  /** What the last print of randomFasta writes for the symbols of the final part: None
      when the slice end is negative and the program traps. */
  function LastPrint(syms: seq<Byte>): (r: Option<seq<Byte>>)
    ensures r.None? <==> syms == []
    ensures r.Some? ==> r.value == Framed(syms)
  {
    var kept := KeptLength(|syms|);
    FramedIsLinesClosed(syms);
    assert |syms| > 0 && |syms| % LineWidth == 0 ==>
      Lines(syms) == Lines(syms)[..|Lines(syms)| - 1] + [NewLine] by {
      if |syms| > 0 && |syms| % LineWidth == 0 {
        LinesEndWithNewLine(syms);
      }
    }
    if kept < 0 then None else Some(Lines(syms)[..kept] + [NewLine])
  }

  /** The text randomFasta prints for a plan, starting from the given seed; None when the
      final print traps. */
  function Output(t: WfTable, seed: nat, p: Plan): (r: Option<seq<Byte>>)
    ensures r.None? <==> p.remainder == 0
  {
    var m := p.fullChunks * RndBufSize;
    var last := LastPrint(SampleAll(t, Stream(Iterate(seed, m), p.remainder)));
    if last.None? then None else Some(Lines(SampleAll(t, Stream(seed, m))) + last.value)
  }

  function RandomFastaAsWritten(t: WfTable, seed: nat, n: int): (r: Option<seq<Byte>>)
    ensures r.Some? ==> n > 0
  {
    match PlanAsWritten(n)
    case None => None
    case Some(p) => Output(t, seed, p)
  }

  /** With the intended cut, randomFasta prints the first n symbols of the stream in lines
      of LineWidth, the last line closed by a newline. */
  lemma CorrectedPrintsStream(t: WfTable, seed: nat, n: nat)
    requires n > 0
    ensures Output(t, seed, PlanCorrected(n)) == Some(Framed(SampleAll(t, Stream(seed, n))))
  {
    var p := PlanCorrected(n);
    var m := p.fullChunks * RndBufSize;
    var a := Stream(seed, m);
    var b := Stream(Iterate(seed, m), p.remainder);
    assert m + p.remainder == n;
    StreamSplit(seed, m, p.remainder);
    SampleAllAppend(t, a, b);
    ChunksAreWholeLines(p.fullChunks);
    FramedAppend(SampleAll(t, a), SampleAll(t, b));
    assert LastPrint(SampleAll(t, b)) == Some(Framed(SampleAll(t, b)));
  }

  /** As written, randomFasta prints the framed stream exactly when n is positive and not
      a multiple of RndBufSize, and traps otherwise. */
  lemma AsWrittenPrintsStream(t: WfTable, seed: nat, n: int)
    ensures RandomFastaAsWritten(t, seed, n).Some? <==> n > 0 && n % RndBufSize != 0
    ensures n > 0 && n % RndBufSize != 0 ==>
      RandomFastaAsWritten(t, seed, n) == Some(Framed(SampleAll(t, Stream(seed, n))))
  {
    if n > 0 {
      PlansAgree(n);
      if n % RndBufSize != 0 {
        CorrectedPrintsStream(t, seed, n);
      }
    }
  }

  /** randomFasta with the chunks printed in the order they were generated (which the
      writer guarantees, see FastaWriter.PrintsInGenerationOrder): the producer and the
      consumer run one chunk after the other on one value buffer and one text buffer. */
  method RandomFasta(g: Generator, t: WfTable, n: int, buf: array<Value>, out: array<Byte>)
      returns (printed: Option<seq<Byte>>)
    requires g.Valid()
    requires buf.Length == RndBufSize && out.Length == WriteBufSize
    modifies g, buf, out
    ensures g.Valid()
    ensures printed == RandomFastaAsWritten(t, old(g.seed), n)
    ensures printed.Some? ==> g.seed == Iterate(old(g.seed), n)
    ensures n > RndBufSize && Nul !in t.elements ==> CStringLength(out[..]) == None
  {
    ghost var seed0 := g.seed;
    if n <= 0 {
      assert PlanAsWritten(n) == None;
      return None;
    }
    var junks := (n + RndBufSize - 1) / RndBufSize;
    var remainder := n % RndBufSize;
    assert PlanAsWritten(n) == Some(Plan(junks - 1, remainder));
    if n > RndBufSize {
      AsWrittenPrintsFullChunk(n);
    }
    var text := PrintFullChunks(g, t, junks - 1, buf, out);
    ghost var seed1 := g.seed;
    var last := PrintLast(g, t, remainder, buf, out);
    printed := if last.None? then None else Some(text + last.value);
    AsWrittenOutput(t, seed0, n, Plan(junks - 1, remainder), text, last);
    if last.Some? {
      SeedAfterPlan(seed0, n, Plan(junks - 1, remainder), seed1, g.seed);
    }
  }

  /** The seeds a plan leaves behind: after the full chunks and the final part, the
      generator has stepped once for each of the n values drawn. */
  lemma SeedAfterPlan(seed: nat, n: int, p: Plan, seed1: nat, seed2: nat)
    requires p.fullChunks * RndBufSize + p.remainder == n
    requires seed1 == Iterate(seed, p.fullChunks * RndBufSize)
    requires seed2 == Iterate(seed1, p.remainder)
    ensures seed2 == Iterate(seed, n)
  {
    IterateAdd(seed, p.fullChunks * RndBufSize, p.remainder);
  }

  /** RandomFastaAsWritten spelled out for a positive count, in terms of what the two
      halves of randomFasta print; when the final print does not trap, the two halves
      together drew n values. */
  lemma AsWrittenOutput(t: WfTable, seed: nat, n: int, p: Plan, text: seq<Byte>,
                        last: Option<seq<Byte>>)
    requires PlanAsWritten(n) == Some(p)
    requires text == Lines(SampleAll(t, Stream(seed, p.fullChunks * RndBufSize)))
    requires last == LastPrint(SampleAll(t, Stream(Iterate(seed, p.fullChunks * RndBufSize), p.remainder)))
    ensures RandomFastaAsWritten(t, seed, n) == if last.None? then None else Some(text + last.value)
    ensures last.Some? ==> p.fullChunks * RndBufSize + p.remainder == n
  {
  }

  /** The loop of randomFasta over the full chunks: generate, consume, print. */
  method PrintFullChunks(g: Generator, t: WfTable, f: nat, buf: array<Value>, out: array<Byte>)
      returns (text: seq<Byte>)
    requires g.Valid()
    requires buf.Length == RndBufSize && out.Length == WriteBufSize
    modifies g, buf, out
    ensures g.Valid() && text == Lines(SampleAll(t, Stream(old(g.seed), f * RndBufSize)))
    ensures g.seed == Iterate(old(g.seed), f * RndBufSize)
    ensures f > 0 && Nul !in t.elements ==> Nul !in out[..]
  {
    text := [];
    ghost var seed0 := g.seed;
    for i := 0 to f
      invariant g.Valid() && text == Lines(SampleAll(t, Stream(seed0, i * RndBufSize)))
      invariant g.seed == Iterate(seed0, i * RndBufSize)
      invariant i > 0 && Nul !in t.elements ==> Nul !in out[..]
    {
      var chunk := FullChunk(g, t, buf, out);
      text := text + chunk;
      ChunkStep(t, seed0, i);
    }
  }

  /** One full chunk: RndBufSize values generated into the value buffer, consumed into
      the text buffer, and the whole text buffer printed. */
  method FullChunk(g: Generator, t: WfTable, buf: array<Value>, out: array<Byte>)
      returns (chunk: seq<Byte>)
    requires g.Valid()
    requires buf.Length == RndBufSize && out.Length == WriteBufSize
    modifies g, buf, out
    ensures g.Valid() && g.seed == Iterate(old(g.seed), RndBufSize)
    ensures chunk == Lines(SampleAll(t, Stream(old(g.seed), RndBufSize)))
    ensures Nul !in t.elements ==> Nul !in out[..]
  {
    ghost var seed0 := g.seed;
    Produce(g, t, RndBufSize, buf, out);
    FullChunkFillsBuffer();
    assert out[..] == out[..WriteBufSize];
    chunk := out[..];
    if Nul !in t.elements {
      FullChunkUnterminated(t, Stream(seed0, RndBufSize));
    }
  }

  /** A buffer whose first `len` bytes have no NUL: its C string is at least `len` long, and
      when the rest is still the NUL-free content of `before`, there is none at all. */
  lemma LastReadUnterminated(b: seq<Byte>, before: seq<Byte>, len: nat)
    requires len <= |b| == |before|
    requires Nul !in b[..len]
    requires forall j :: len <= j < |b| ==> b[j] == before[j]
    ensures CStringLength(b).Some? ==> len <= CStringLength(b).value
    ensures Nul !in before ==> CStringLength(b) == None
  {
    forall j | 0 <= j < len
      ensures b[j] != Nul
    {
      assert b[..len][j] == b[j];
    }
  }

  /** The producer then the consumer on the next r values: genRandom into the value
      buffer, consumeRandom into the text buffer. */
  method Produce(g: Generator, t: WfTable, r: nat, buf: array<Value>, out: array<Byte>)
    requires g.Valid() && r <= RndBufSize
    requires buf.Length == RndBufSize && out.Length == WriteBufSize
    modifies g, buf, out
    ensures g.Valid() && g.seed == Iterate(old(g.seed), r)
    ensures r + r / LineWidth <= out.Length
    ensures out[..r + r / LineWidth] == Lines(SampleAll(t, Stream(old(g.seed), r)))
    ensures forall j :: r + r / LineWidth <= j < out.Length ==> out[j] == old(out[j])
  {
    ghost var vals := Stream(g.seed, r);
    assert Min(r, RndBufSize) == r;
    g.GenRandom(r, buf);
    assert buf[..r] == vals;
    ConsumeRandom(t, r, buf, out);
    assert out[..r + r / LineWidth] == Lines(SampleAll(t, vals));
    TextBound(r);
  }

  /** The end of randomFasta: the remainder generated and consumed into block 0, then the
      first stringRemainder bytes of its text printed with a newline. The text is taken
      from block 0 as a C string, and nothing writes a NUL after the remainder's text:
      when the buffer held no NUL before (a full chunk's text), the read runs past its
      end; when the read does stop inside the buffer, it covers the printed bytes. */
  method PrintLast(g: Generator, t: WfTable, r: nat, buf: array<Value>, out: array<Byte>)
      returns (printed: Option<seq<Byte>>)
    requires g.Valid() && r < RndBufSize
    requires buf.Length == RndBufSize && out.Length == WriteBufSize
    modifies g, buf, out
    ensures g.Valid() && g.seed == Iterate(old(g.seed), r)
    ensures printed == LastPrint(SampleAll(t, Stream(old(g.seed), r)))
    ensures Nul !in t.elements && Nul !in old(out[..]) ==> CStringLength(out[..]) == None
    ensures Nul !in t.elements && printed.Some? && CStringLength(out[..]).Some? ==>
      |printed.value| - 1 <= CStringLength(out[..]).value
  {
    ghost var text := Lines(SampleAll(t, Stream(g.seed, r)));
    ghost var before := out[..];
    Produce(g, t, r, buf, out);
    if Nul !in t.elements {
      SampleAllAvoids(t, Stream(old(g.seed), r), Nul);
      LinesKeepsNoNul(SampleAll(t, Stream(old(g.seed), r)));
      LastReadUnterminated(out[..], before, r + r / LineWidth);
    }
    var kept := KeptLength(r);
    if kept < 0 {
      printed := None;
    } else {
      assert out[..kept] == text[..kept];
      printed := Some(out[..kept] + [NewLine]);
    }
  }
}
