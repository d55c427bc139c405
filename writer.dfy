/** The writer of `randomFasta` in Sources/Fasta: blocks finish in any order and are printed
    in generation order, the ones that come early being parked in `deferedWrite`. Only the
    state the serial writer queue owns is modelled; printing a block appends its slot index
    to `written`. */
module FastaWriter {

  /** Number of buffer slots; a power of two. */
  const NBufs: nat := 4

  /** `(writeBlock + 1) & (nBufs - 1)`, the slot after `writeBlock`. */
  function Advance(writeBlock: nat): (r: nat)
    requires writeBlock < NBufs
    ensures r == (writeBlock + 1) % NBufs
  {
    AndMaskIsMod(writeBlock + 1);
    (((writeBlock + 1) as bv8) & ((NBufs - 1) as bv8)) as nat
  }

  /** Because NBufs is a power of two, masking with NBufs - 1 is reduction modulo NBufs. */
  lemma AndMaskIsMod(x: nat)
    requires x <= NBufs
    ensures ((x as bv8) & ((NBufs - 1) as bv8)) as nat == x % NBufs
  {
    if x == 0 {
    } else if x == 1 {
    } else if x == 2 {
    } else if x == 3 {
    } else {
      assert x == 4;
    }
  }

  ghost predicate NoDup(s: seq<nat>)
  {
    forall y :: multiset(s)[y] <= 1
  }

  /** `deferedWrite.remove(at: deferedWrite.firstIndex(of: x)!)`. */
  function RemoveFirst(s: seq<nat>, x: nat): (r: seq<nat>)
    requires x in s
    ensures |r| == |s| - 1 && multiset(r) == multiset(s) - multiset{x}
  {
    assert s == [s[0]] + s[1..];
    if s[0] == x then s[1..]
    else [s[0]] + RemoveFirst(s[1..], x)
  }

  /** The state the writer queue owns: the next slot to print, the slots that finished
      early, and (standing for standard output) the slots printed so far, in order. */
  datatype WriterState = WriterState(writeBlock: nat, deferred: seq<nat>, written: seq<nat>)

  function Init(): WriterState
  {
    WriterState(0, [], [])
  }

  /** Print every parked slot that is next in turn, until the next one is not parked. */
  function Drain(s: WriterState): (r: WriterState)
    requires s.writeBlock < NBufs
    ensures r.writeBlock < NBufs && r.writeBlock !in r.deferred
    ensures |r.written| >= |s.written| && r.written[..|s.written|] == s.written
    decreases |s.deferred|
  {
    if s.writeBlock in s.deferred then Drain(DrainStep(s)) else s
  }

  /** One turn of the drain loop: print the parked slot `writeBlock` and unpark it. */
  function DrainStep(s: WriterState): (r: WriterState)
    requires s.writeBlock < NBufs && s.writeBlock in s.deferred
    ensures |r.deferred| < |s.deferred|
  {
    WriterState(Advance(s.writeBlock), RemoveFirst(s.deferred, s.writeBlock), s.written + [s.writeBlock])
  }

  /** Print `block`: the emit branch before its drain loop. */
  function Emit(s: WriterState, block: nat): WriterState
    requires s.writeBlock < NBufs
  {
    WriterState(Advance(s.writeBlock), s.deferred, s.written + [block])
  }

  /** What the writer does when block `block` is ready. */
  function Ready(s: WriterState, block: nat): (r: WriterState)
    requires s.writeBlock < NBufs
    ensures r.writeBlock < NBufs
    ensures block != s.writeBlock ==>
      r == WriterState(s.writeBlock, s.deferred + [block], s.written)
    ensures block == s.writeBlock ==>
      r.writeBlock !in r.deferred && |r.written| > |s.written| &&
      r.written[..|s.written| + 1] == s.written + [block]
    ensures s.writeBlock !in s.deferred ==> r.writeBlock !in r.deferred
  {
    if block != s.writeBlock then WriterState(s.writeBlock, s.deferred + [block], s.written)
    else
      var e := Emit(s, block);
      var r := if |e.deferred| > 0 then Drain(e) else e;
      assert r.written[..|s.written| + 1] == r.written[..|e.written|][..|s.written| + 1];
      r
  }

  /** The writer closure as a sequential object: its methods run one at a time, as the
      closures on the serial writer queue do. */
  class Writer {
    var writeBlock: nat
    var deferred: seq<nat>
    var written: seq<nat>

    function State(): WriterState
      reads this
    {
      WriterState(writeBlock, deferred, written)
    }

    ghost predicate Valid()
      reads this
    {
      writeBlock < NBufs && writeBlock !in deferred
    }

    constructor ()
      ensures Valid() && State() == Init()
    {
      writeBlock, deferred, written := 0, [], [];
    }

    method OnReady(block: nat)
      requires Valid()
      modifies this
      ensures Valid() && State() == Ready(old(State()), block)
    {
      if block != writeBlock {
        deferred := deferred + [block];
      } else {
        ghost var emitted := Emit(State(), block);
        written := written + [block];
        writeBlock := Advance(writeBlock);
        if |deferred| > 0 {
          while writeBlock in deferred
            invariant writeBlock < NBufs
            invariant Drain(State()) == Drain(emitted)
            decreases |deferred|
          {
            var blk := writeBlock;
            written := written + [blk];
            writeBlock := Advance(writeBlock);
            deferred := RemoveFirst(deferred, blk);
          }
        }
      }
    }
  }

  // ---------------------------------------------------------------------------------
  // Printing in generation order

  /** The chunk in the window [e, e + NBufs) that uses slot x. */
  function ChunkOf(e: nat, x: nat): (c: nat)
    requires x < NBufs
    ensures e <= c < e + NBufs && c % NBufs == x
  {
    e + (x - e) % NBufs
  }

  lemma ChunkOfResidue(e: nat, c: nat)
    requires e <= c < e + NBufs
    ensures ChunkOf(e, c % NBufs) == c
  {
  }

  /** Moving the window one chunk on keeps every slot's chunk except slot e % NBufs, whose
      chunk becomes e + NBufs. */
  lemma ChunkOfNext(e: nat, x: nat)
    requires x < NBufs
    ensures ChunkOf(e + 1, x) == if x == e % NBufs then e + NBufs else ChunkOf(e, x)
  {
    if x == e % NBufs {
      ChunkOfResidue(e + 1, e + NBufs);
    } else {
      ChunkOfResidue(e + 1, ChunkOf(e, x));
    }
  }

  lemma AdvanceResidue(e: nat)
    ensures Advance(e % NBufs) == (e + 1) % NBufs
  {
  }

  /** The writer state after the chunks of `arrived` have reached the writer: chunks
      0 .. e-1 are printed in order, chunk e has not arrived, no arrived chunk is NBufs or
      more ahead of e, and the parked slots are exactly those of the arrived, unprinted chunks.
      Chunk c uses slot c % NBufs. */
  ghost predicate Inv(s: WriterState, arrived: set<nat>)
  {
    DrainInv(s, arrived) && |s.written| !in arrived
  }

  /** Inv without "chunk e has not arrived": what holds while parked chunks are printed. */
  ghost predicate DrainInv(s: WriterState, arrived: set<nat>)
  {
    var e := |s.written|;
    && s.writeBlock == e % NBufs
    && (forall i :: 0 <= i < e ==> s.written[i] == i % NBufs)
    && (forall i :: 0 <= i < e ==> i in arrived)
    && (forall c :: c in arrived ==> c < e + NBufs)
    && NoDup(s.deferred)
    && (forall x :: x in s.deferred ==> x < NBufs)
    && (forall x :: 0 <= x < NBufs ==> (x in s.deferred <==> ChunkOf(e, x) in arrived))
  }

  /** Unparking a slot from a duplicate-free list removes exactly that slot. */
  lemma RemoveFirstMembers(s: seq<nat>, x: nat)
    requires x in s && NoDup(s)
    ensures NoDup(RemoveFirst(s, x))
    ensures forall y :: y in RemoveFirst(s, x) <==> y in s && y != x
  {
    var r := RemoveFirst(s, x);
    forall y ensures y in r <==> y in s && y != x {
      assert y in r <==> multiset(r)[y] > 0;
      assert y in s <==> multiset(s)[y] > 0;
    }
  }

  /** A turn of the drain loop prints chunk e and keeps the drain invariant. */
  lemma DrainStepKeepsInv(s: WriterState, arrived: set<nat>)
    requires DrainInv(s, arrived) && s.writeBlock in s.deferred
    ensures DrainInv(DrainStep(s), arrived)
  {
    var e := |s.written|;
    var t := DrainStep(s);
    ChunkOfResidue(e, e);
    AdvanceResidue(e);
    RemoveFirstMembers(s.deferred, s.writeBlock);
    assert e in arrived by {
      assert ChunkOf(e, s.writeBlock) == e;
    }
    assert t.writeBlock == (e + 1) % NBufs && |t.written| == e + 1;
    forall i | 0 <= i < e + 1 ensures t.written[i] == i % NBufs {
      if i < e {
        assert t.written[i] == s.written[i];
      }
    }
    forall x | 0 <= x < NBufs
      ensures x in t.deferred <==> ChunkOf(e + 1, x) in arrived
    {
      ChunkOfNext(e, x);
    }
  }

  /** Draining restores the full invariant. */
  lemma {:induction false} DrainKeepsInv(s: WriterState, arrived: set<nat>)
    requires DrainInv(s, arrived)
    ensures Inv(Drain(s), arrived)
    decreases |s.deferred|
  {
    if s.writeBlock in s.deferred {
      DrainStepKeepsInv(s, arrived);
      DrainKeepsInv(DrainStep(s), arrived);
    } else {
      var e := |s.written|;
      assert ChunkOf(e, s.writeBlock) == e by { ChunkOfResidue(e, e); }
    }
  }

  /** The next chunk to print arrives: it is printed and the parked ones after it follow. */
  lemma EmitKeepsInv(s: WriterState, arrived: set<nat>)
    requires Inv(s, arrived)
    ensures Inv(Ready(s, |s.written| % NBufs), arrived + {|s.written|})
  {
    var e := |s.written|;
    var a := arrived + {e};
    var t := Emit(s, e % NBufs);
    ChunkOfResidue(e, e);
    AdvanceResidue(e);
    assert t.writeBlock == (e + 1) % NBufs;
    assert forall i :: 0 <= i < e + 1 ==> t.written[i] == i % NBufs;
    forall x | 0 <= x < NBufs
      ensures x in t.deferred <==> ChunkOf(e + 1, x) in a
    {
      ChunkOfNext(e, x);
    }
    assert DrainInv(t, a);
    DrainKeepsInv(t, a);
  }

  /** A later chunk arrives: its slot is parked. */
  lemma DeferKeepsInv(s: WriterState, arrived: set<nat>, c: nat)
    requires Inv(s, arrived) && c !in arrived && |s.written| < c < |s.written| + NBufs
    ensures Inv(Ready(s, c % NBufs), arrived + {c})
  {
    var e := |s.written|;
    var a := arrived + {c};
    var r := Ready(s, c % NBufs);
    ChunkOfResidue(e, c);
    assert r.deferred == s.deferred + [c % NBufs];
    assert multiset(r.deferred) == multiset(s.deferred) + multiset([c % NBufs]);
    forall x | 0 <= x < NBufs
      ensures x in r.deferred <==> ChunkOf(e, x) in a
    {
      if x != c % NBufs {
        assert ChunkOf(e, x) != c;
      }
    }
  }

  /** One arrival keeps the invariant, provided the chunk is new and lies within NBufs of
      the next chunk to print (the backpressure the slot semaphores enforce). */
  lemma ArrivalKeepsInv(s: WriterState, arrived: set<nat>, c: nat)
    requires Inv(s, arrived) && c !in arrived && c < |s.written| + NBufs
    ensures Inv(Ready(s, c % NBufs), arrived + {c})
  {
    if c == |s.written| {
      EmitKeepsInv(s, arrived);
    } else {
      DeferKeepsInv(s, arrived, c);
    }
  }

  /** The writer state after the given chunks reach it, in this order. */
  function Run(arrivals: seq<nat>): (r: WriterState)
    ensures r.writeBlock < NBufs
  {
    if arrivals == [] then Init()
    else Ready(Run(arrivals[..|arrivals| - 1]), arrivals[|arrivals| - 1] % NBufs)
  }

  /** `arrivals` is an order of the chunks 0 .. k-1. */
  ghost predicate IsOrderOf(arrivals: seq<nat>, k: nat)
  {
    && (forall i, j :: 0 <= i < j < |arrivals| ==> arrivals[i] != arrivals[j])
    && (forall d :: d in arrivals <==> d < k)
  }

  /** Chunk c reaches the writer only after every chunk d <= c - NBufs has: the slot of
      chunk c is free only once chunk c - NBufs is printed. */
  ghost predicate Backpressure(arrivals: seq<nat>)
  {
    forall i, j :: 0 <= i < |arrivals| && 0 <= j < |arrivals| && arrivals[j] + NBufs <= arrivals[i] ==> j < i
  }

  lemma {:induction false} RunKeepsInv(arrivals: seq<nat>, k: nat, n: nat)
    requires IsOrderOf(arrivals, k) && Backpressure(arrivals) && n <= |arrivals|
    ensures Inv(Run(arrivals[..n]), set i | 0 <= i < n :: arrivals[i])
  {
    if n > 0 {
      RunKeepsInv(arrivals, k, n - 1);
      var s := Run(arrivals[..n - 1]);
      var a := set i | 0 <= i < n - 1 :: arrivals[i];
      var c := arrivals[n - 1];
      assert arrivals[..n][..n - 1] == arrivals[..n - 1];
      var e := |s.written|;
      assert c in arrivals;
      assert e < c ==> e in arrivals;
      assert (set i | 0 <= i < n :: arrivals[i]) == a + {c};
      ArrivalKeepsInv(s, a, c);
    } else {
      assert Run(arrivals[..0]) == Init();
    }
  }

  /** A non-empty sequence has a member. */
  lemma HeadIsMember(s: seq<nat>)
    ensures s == [] || s[0] in s
  {
  }

  /** Once exactly the chunks 0 .. k-1 have arrived, the writer has printed all of them
      and has nothing parked. */
  lemma AllArrivedSettles(s: WriterState, arrived: set<nat>, k: nat)
    requires Inv(s, arrived) && (forall d :: d in arrived <==> d < k)
    ensures s == WriterState(k % NBufs, [], seq(k, i => i % NBufs))
  {
    var e := |s.written|;
    assert k < e ==> k in arrived;
    assert e == k;
    assert forall x :: 0 <= x < NBufs ==> ChunkOf(e, x) !in arrived;
    assert forall x :: x !in s.deferred;
    HeadIsMember(s.deferred);
    assert s.written == seq(k, i => i % NBufs);
  }

  /** Whatever order the chunks finish in, as long as a slot is reused only after its
      previous chunk is printed, the writer prints chunk 0, 1, ..., k-1 (as slots
      0, 1, 2, 3, 0, ...), each exactly once, and ends with nothing parked. */
  lemma PrintsInGenerationOrder(arrivals: seq<nat>, k: nat)
    requires IsOrderOf(arrivals, k) && Backpressure(arrivals)
    ensures Run(arrivals) == WriterState(k % NBufs, [], seq(k, i => i % NBufs))
  {
    RunKeepsInv(arrivals, k, |arrivals|);
    assert arrivals[..|arrivals|] == arrivals;
    var a := set i | 0 <= i < |arrivals| :: arrivals[i];
    assert forall d :: d in a <==> d in arrivals;
    AllArrivedSettles(Run(arrivals), a, k);
  }

  /** The case of one turn of the pool: any order of the first NBufs chunks or fewer. */
  lemma AnyOrderWithinPool(arrivals: seq<nat>, k: nat)
    requires k <= NBufs && IsOrderOf(arrivals, k)
    ensures Run(arrivals) == WriterState(k % NBufs, [], seq(k, i => i))
  {
    PoolBackpressure(arrivals, k);
    PrintsInGenerationOrder(arrivals, k);
    SlotsAreChunks(k);
  }

  /** With no more chunks than buffers, no chunk can wait on another's slot. */
  lemma PoolBackpressure(arrivals: seq<nat>, k: nat)
    requires k <= NBufs && IsOrderOf(arrivals, k)
    ensures Backpressure(arrivals)
  {
    forall i | 0 <= i < |arrivals| ensures arrivals[i] < NBufs {
      assert arrivals[i] in arrivals;
    }
  }

  lemma SlotsAreChunks(k: nat)
    requires k <= NBufs
    ensures seq(k, i => i % NBufs) == seq(k, i => i)
  {
    var w := seq(k, i => i % NBufs);
    assert forall i :: 0 <= i < k ==> w[i] == i;
  }
}
