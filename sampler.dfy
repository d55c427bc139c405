/** The weighted lookup (WeightedRandom) that turns a random value into a symbol, in the
    serial form of Sources/Fasta and the padded form of Sources/Fasta_Fast. */
module Sampler {
  import opened Text
  import Lcg

  /** Number of threshold slots; the lookup always compares all of them. */
  const Slots: nat := 16

  /** Int32.max, the value of a threshold slot no random value reaches. */
  const Int32Max: int := 0x7fff_ffff

  datatype Option<T> = None | Some(value: T)

  /** One alphabet entry. `threshold` is the already scaled cumulative probability
      UInt32(acc * IM) of this entry and all before it. */
  datatype Entry = Entry(threshold: int, sym: Byte)

  /** A lookup table: the 16 threshold slots and the initialised prefix of the element slots
      (slots at and beyond |elements| were never written). */
  datatype Table = Table(cumprob: seq<int>, elements: seq<Byte>)

  /** The table of the serial program, whose threshold slots may be uninitialised (None). */
  datatype SerialTable = SerialTable(cumprob: seq<Option<int>>, elements: seq<Byte>)

  function Thresholds(mapping: seq<Entry>): (c: seq<int>)
    ensures |c| == |mapping|
    ensures forall i :: 0 <= i < |mapping| ==> c[i] == mapping[i].threshold
  {
    seq(|mapping|, i requires 0 <= i < |mapping| => mapping[i].threshold)
  }

  function Symbols(mapping: seq<Entry>): (s: seq<Byte>)
    ensures |s| == |mapping|
    ensures forall i :: 0 <= i < |mapping| ==> s[i] == mapping[i].sym
  {
    seq(|mapping|, i requires 0 <= i < |mapping| => mapping[i].sym)
  }

  // ---------------------------------------------------------------------------------
  // Counting thresholds below a value

  function Ind(b: bool): nat
  {
    if b then 1 else 0
  }

  /** The number of thresholds strictly below `p`: the index the lookup selects. */
  function CountBelow(c: seq<int>, p: int): (k: nat)
    ensures k <= |c|
  {
    if c == [] then 0 else Ind(c[0] < p) + CountBelow(c[1..], p)
  }

  /** Reference definition of the lookup: the first slot whose threshold is at least `p`
      (|c| when there is none). */
  function FirstAtLeast(c: seq<int>, p: int): (k: nat)
    ensures k <= |c|
    ensures forall i :: 0 <= i < k ==> c[i] < p
    ensures k < |c| ==> p <= c[k]
  {
    if c == [] || p <= c[0] then 0 else 1 + FirstAtLeast(c[1..], p)
  }

  ghost predicate NonDecreasing(c: seq<int>)
  {
    forall i, j :: 0 <= i <= j < |c| ==> c[i] <= c[j]
  }

  /** For non-decreasing thresholds, counting the thresholds below `p` finds the first
      threshold at least `p`: a value equal to a threshold selects that threshold's own entry. */
  lemma {:induction false} CountBelowIsFirstAtLeast(c: seq<int>, p: int)
    requires NonDecreasing(c)
    ensures CountBelow(c, p) == FirstAtLeast(c, p)
  {
    if c != [] {
      CountBelowIsFirstAtLeast(c[1..], p);
      if p <= c[0] && |c| > 1 {
        assert c[1..][0] == c[1];
      }
    }
  }

  lemma {:induction false} CountBelowAppend(a: seq<int>, b: seq<int>, p: int)
    ensures CountBelow(a + b, p) == CountBelow(a, p) + CountBelow(b, p)
  {
    if a == [] {
      assert a + b == b;
    } else {
      assert (a + b)[1..] == a[1..] + b;
      CountBelowAppend(a[1..], b, p);
    }
  }

  /** Thresholds that are all at least `p` contribute nothing. */
  lemma {:induction false} CountBelowNone(c: seq<int>, p: int)
    requires forall i :: 0 <= i < |c| ==> p <= c[i]
    ensures CountBelow(c, p) == 0
  {
    if c != [] {
      CountBelowNone(c[1..], p);
    }
  }

  /** A last threshold that is at least `p` is not counted, so the index stays below |c|. */
  lemma {:induction false} CountBelowLast(c: seq<int>, p: int)
    requires c != [] && p <= c[|c| - 1]
    ensures CountBelow(c, p) < |c|
  {
    if |c| > 1 {
      CountBelowLast(c[1..], p);
    }
  }

  // ---------------------------------------------------------------------------------
  // The four-lane comparison the source performs

  /** A lane of `a .< b`: all ones (-1 as Int32) when true, 0 otherwise. */
  function MaskLt(a: int, b: int): int
  {
    if a < b then -1 else 0
  }

  /** `count.cmplt(v, needle)`: subtract from each of the four lanes the mask of `v .< needle`. */
  function Cmplt(count: seq<int>, v: seq<int>, p: int): (r: seq<int>)
    requires |count| == 4 && |v| == 4
    ensures |r| == 4
  {
    seq(4, j requires 0 <= j < 4 => count[j] - MaskLt(v[j], p))
  }

  /** The sum of the four lanes (`combine`, `wrappedSum`). */
  function Combine(count: seq<int>): int
    requires |count| == 4
  {
    count[0] + count[1] + count[2] + count[3]
  }

  /** The index the source computes: a zero counter, one `cmplt` per group of four
      threshold slots, then the sum of the lanes. */
  function VectorIndex(c: seq<int>, p: int): int
    requires |c| == Slots
  {
    var count := Cmplt(Cmplt(Cmplt(Cmplt([0, 0, 0, 0], c[..4], p), c[4..8], p), c[8..12], p), c[12..], p);
    Combine(count)
  }

  /** The count over one group of four slots, written out. */
  lemma CountBelowFour(g: seq<int>, p: int)
    requires |g| == 4
    ensures CountBelow(g, p) == Ind(g[0] < p) + Ind(g[1] < p) + Ind(g[2] < p) + Ind(g[3] < p)
  {
    assert CountBelow(g[3..], p) == Ind(g[3] < p) + CountBelow(g[3..][1..], p);
    assert g[3..][1..] == [];
    assert CountBelow(g[2..], p) == Ind(g[2] < p) + CountBelow(g[3..], p) by { assert g[2..][1..] == g[3..]; }
    assert CountBelow(g[1..], p) == Ind(g[1] < p) + CountBelow(g[2..], p) by { assert g[1..][1..] == g[2..]; }
  }

  /** Each `cmplt` step adds to the lane sum the number of slots of its group below `p`:
      subtracting an all-ones mask adds one. */
  lemma CmpltAdds(count: seq<int>, g: seq<int>, p: int)
    requires |count| == 4 && |g| == 4
    ensures Combine(Cmplt(count, g, p)) == Combine(count) + CountBelow(g, p)
  {
    CountBelowFour(g, p);
  }

  /** The lane-wise comparison computes exactly the number of thresholds below `p`. */
  lemma VectorIndexIsCount(c: seq<int>, p: int)
    requires |c| == Slots
    ensures VectorIndex(c, p) == CountBelow(c, p)
  {
    var g0, g1, g2, g3 := c[..4], c[4..8], c[8..12], c[12..];
    var k1 := Cmplt([0, 0, 0, 0], g0, p);
    var k2 := Cmplt(k1, g1, p);
    var k3 := Cmplt(k2, g2, p);
    CmpltAdds([0, 0, 0, 0], g0, p);
    CmpltAdds(k1, g1, p);
    CmpltAdds(k2, g2, p);
    CmpltAdds(k3, g3, p);
    assert c == g0 + (g1 + (g2 + g3));
    CountBelowAppend(g2, g3, p);
    CountBelowAppend(g1, g2 + g3, p);
    CountBelowAppend(g0, g1 + (g2 + g3), p);
  }

  // ---------------------------------------------------------------------------------
  // Building the tables

  /** The padded table of Sources/Fasta_Fast: every threshold slot starts as Int32.max and
      the first |mapping| are overwritten. */
  function Padded(mapping: seq<Entry>): (t: Table)
    requires 1 <= |mapping| <= Slots
    ensures |t.cumprob| == Slots && t.elements == Symbols(mapping)
    ensures forall i :: 0 <= i < |mapping| ==> t.cumprob[i] == mapping[i].threshold
    ensures forall i :: |mapping| <= i < Slots ==> t.cumprob[i] == Int32Max
  {
    Table(Thresholds(mapping) + seq(Slots - |mapping|, _ => Int32Max), Symbols(mapping))
  }

  /** WeightedRandom.init of Sources/Fasta_Fast. */
  method InitFast(mapping: seq<Entry>) returns (t: Table)
    requires 1 <= |mapping| <= Slots
    ensures t == Padded(mapping)
  {
    var cumprob := new int[Slots](_ => Int32Max);
    var elements := new Byte[|mapping|];
    for i := 0 to |mapping|
      invariant forall j :: 0 <= j < i ==> cumprob[j] == mapping[j].threshold && elements[j] == mapping[j].sym
      invariant forall j :: i <= j < Slots ==> cumprob[j] == Int32Max
    {
      elements[i] := mapping[i].sym;
      cumprob[i] := mapping[i].threshold;
    }
    t := Table(cumprob[..], elements[..]);
  }

  /** The threshold slots of Sources/Fasta: the first |mapping| are written, then slot 15 is
      set to Int32.max; the slots between are never written. */
  function SerialThresholds(mapping: seq<Entry>): (c: seq<Option<int>>)
    requires 1 <= |mapping| <= Slots
    ensures |c| == Slots && c[Slots - 1] == Some(Int32Max)
    ensures forall i :: 0 <= i < |mapping| && i < Slots - 1 ==> c[i] == Some(mapping[i].threshold)
    ensures forall i :: |mapping| <= i < Slots - 1 ==> c[i] == None
  {
    seq(Slots, i requires 0 <= i < Slots =>
      if i == Slots - 1 then Some(Int32Max)
      else if i < |mapping| then Some(mapping[i].threshold)
      else None)
  }

  /** WeightedRandom.init of Sources/Fasta. */
  method InitSerial(mapping: seq<Entry>) returns (t: SerialTable)
    requires 1 <= |mapping| <= Slots
    ensures t == SerialTable(SerialThresholds(mapping), Symbols(mapping))
  {
    var cumprob := new Option<int>[Slots](_ => None);
    var elements := new Byte[|mapping|];
    for i := 0 to |mapping|
      invariant forall j :: 0 <= j < i ==> cumprob[j] == Some(mapping[j].threshold) && elements[j] == mapping[j].sym
      invariant forall j :: i <= j < Slots ==> cumprob[j] == None
    {
      elements[i] := mapping[i].sym;
      cumprob[i] := Some(mapping[i].threshold);
    }
    cumprob[Slots - 1] := Some(Int32Max);
    t := SerialTable(cumprob[..], elements[..]);
  }

  ghost predicate Initialised(c: seq<Option<int>>)
  {
    forall i :: 0 <= i < |c| ==> c[i].Some?
  }

  /** The serial table has no uninitialised slot exactly when the alphabet has at least
      15 entries; the 4-entry Homo sapiens alphabet leaves slots 4 to 14 unwritten. */
  lemma SerialInitialisedIff(mapping: seq<Entry>)
    requires 1 <= |mapping| <= Slots
    ensures Initialised(SerialThresholds(mapping)) <==> |mapping| >= Slots - 1
    ensures |mapping| < Slots - 1 ==> SerialThresholds(mapping)[|mapping|] == None
  {
  }

  function Values(c: seq<Option<int>>): (v: seq<int>)
    requires Initialised(c)
    ensures |v| == |c| && forall i :: 0 <= i < |c| ==> Some(v[i]) == c[i]
  {
    seq(|c|, i requires 0 <= i < |c| => c[i].value)
  }

  /** With 15 entries the serial and the padded table hold the same thresholds. */
  lemma SerialAgreesWithPadded(mapping: seq<Entry>)
    requires |mapping| == Slots - 1
    ensures Initialised(SerialThresholds(mapping))
    ensures Values(SerialThresholds(mapping)) == Padded(mapping).cumprob
  {
    var v := Values(SerialThresholds(mapping));
    assert forall i :: 0 <= i < Slots ==> v[i] == Padded(mapping).cumprob[i];
  }

  // ---------------------------------------------------------------------------------
  // Lookup

  /** genFromU32: the element indexed by the number of thresholds below `p`. Reading an
      element slot that was never written yields None. */
  function GenFromU32(t: Table, p: int): (r: Option<Byte>)
    requires |t.cumprob| == Slots
    ensures r.Some? <==> CountBelow(t.cumprob, p) < |t.elements|
    ensures r.Some? ==> r.value == t.elements[CountBelow(t.cumprob, p)]
  {
    VectorIndexIsCount(t.cumprob, p);
    var k := VectorIndex(t.cumprob, p);
    if k < |t.elements| then Some(t.elements[k]) else None
  }

  /** genFromU32 of Sources/Fasta: None when the result depends on an unwritten slot. */
  function SerialGenFromU32(t: SerialTable, p: int): (r: Option<Byte>)
    requires |t.cumprob| == Slots
    ensures r.Some? <==> Initialised(t.cumprob) && CountBelow(Values(t.cumprob), p) < |t.elements|
    ensures r.Some? ==> r.value == t.elements[CountBelow(Values(t.cumprob), p)]
  {
    if exists i :: 0 <= i < Slots && t.cumprob[i].None? then None
    else GenFromU32(Table(Values(t.cumprob), t.elements), p)
  }

  /** Padding slots are never below a value under Int32.max, so the index never exceeds the
      alphabet size. */
  lemma PaddingNeverCounted(mapping: seq<Entry>, p: int)
    requires 1 <= |mapping| <= Slots && p <= Int32Max
    ensures CountBelow(Padded(mapping).cumprob, p) == CountBelow(Thresholds(mapping), p)
    ensures CountBelow(Padded(mapping).cumprob, p) <= |mapping|
  {
    var c := Padded(mapping).cumprob;
    var n := |mapping|;
    assert c == c[..n] + c[n..];
    assert c[..n] == Thresholds(mapping);
    CountBelowAppend(c[..n], c[n..], p);
    CountBelowNone(c[n..], p);
  }

  /** When the last real threshold is at least `p`, the lookup lands on a written element. */
  lemma LastThresholdCovers(mapping: seq<Entry>, p: int)
    requires 1 <= |mapping| <= Slots && p <= mapping[|mapping| - 1].threshold && p <= Int32Max
    ensures GenFromU32(Padded(mapping), p).Some?
  {
    PaddingNeverCounted(mapping, p);
    CountBelowLast(Thresholds(mapping), p);
  }

  /** A table every value below IM resolves in: at least one written element, padding slots
      at or above IM, and a last real threshold that every such value is at most. */
  ghost predicate WellFormed(t: Table)
  {
    && |t.cumprob| == Slots
    && 1 <= |t.elements| <= Slots
    && (forall i :: |t.elements| <= i < Slots ==> t.cumprob[i] >= Lcg.IM)
    && t.cumprob[|t.elements| - 1] >= Lcg.IM - 1
  }

  /** A table in which every value the generator produces resolves to a symbol. */
  type WfTable = t: Table | WellFormed(t) witness Table(seq(Slots, i => Lcg.IM), [0])

  /** The padded table is well formed as soon as its last threshold reaches IM - 1. */
  lemma PaddedWellFormed(mapping: seq<Entry>)
    requires 1 <= |mapping| <= Slots && mapping[|mapping| - 1].threshold >= Lcg.IM - 1
    ensures WellFormed(Padded(mapping))
  {
  }

  /** The symbol a random value maps to in a well-formed table. */
  function Sample(t: WfTable, p: Lcg.Value): (b: Byte)
    ensures CountBelow(t.cumprob, p) < |t.elements|
    ensures b == t.elements[CountBelow(t.cumprob, p)]
  {
    var n := |t.elements|;
    assert t.cumprob == t.cumprob[..n] + t.cumprob[n..];
    CountBelowAppend(t.cumprob[..n], t.cumprob[n..], p);
    CountBelowNone(t.cumprob[n..], p);
    CountBelowLast(t.cumprob[..n], p);
    GenFromU32(t, p).value
  }

  /** Sample is genFromU32 on a table where every value resolves. */
  lemma SampleIsLookup(t: WfTable, p: Lcg.Value)
    ensures GenFromU32(t, p) == Some(Sample(t, p))
  {
  }

  /** The symbols of a run of random values. */
  function SampleAll(t: WfTable, v: seq<Lcg.Value>): (s: seq<Byte>)
    ensures |s| == |v|
  {
    seq(|v|, i requires 0 <= i < |v| => Sample(t, v[i]))
  }

  /** Symbol i of a run is the symbol of value i. */
  lemma SampleAllAt(t: WfTable, v: seq<Lcg.Value>, i: nat)
    requires i < |v|
    ensures SampleAll(t, v)[i] == Sample(t, v[i])
  {
  }

  /** Every symbol of a run is one of the table's elements: a byte the table does not
      hold never appears. */
  lemma SampleAllAvoids(t: WfTable, v: seq<Lcg.Value>, x: Byte)
    requires x !in t.elements
    ensures x !in SampleAll(t, v)
  {
    var s := SampleAll(t, v);
    forall i | 0 <= i < |s| ensures s[i] != x {
      SampleAllAt(t, v, i);
    }
  }

  /** The symbols of two runs one after the other are the symbols of the joined run. */
  lemma SampleAllAppend(t: WfTable, a: seq<Lcg.Value>, b: seq<Lcg.Value>)
    ensures SampleAll(t, a + b) == SampleAll(t, a) + SampleAll(t, b)
  {
  }

  /** The four-letter table of the form [0.3 a, 0.2 c, 0.2 g, 0.3 t]: value 0 gives 'a',
      IM - 1 gives 't', and a value equal to the first threshold still gives 'a'. */
  lemma BoundaryExample()
    ensures var t := Padded([Entry(41990, 'a' as Byte), Entry(69984, 'c' as Byte),
                             Entry(97977, 'g' as Byte), Entry(139968, 't' as Byte)]);
      && GenFromU32(t, 0) == Some('a' as Byte)
      && GenFromU32(t, 41990) == Some('a' as Byte)
      && GenFromU32(t, 41991) == Some('c' as Byte)
      && GenFromU32(t, 139967) == Some('t' as Byte)
  {
  }
}
