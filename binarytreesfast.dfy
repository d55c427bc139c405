/** Sources/BinaryTrees_Fast: the same benchmark with every tree kept in one array of
    child-offset pairs, sized in advance with an integer power and filled in place. */
module BinaryTreesFast {
  import opened Powers
  import BinaryTrees
  import opened Sampler

  /** Int.max on a 64-bit platform. */
  const Int64Max: int := 0x7FFF_FFFF_FFFF_FFFF

  /** The number of loop turns of exp on a non-negative power: one per binary digit. */
  function BitLength(p: nat): (n: nat)
    ensures p > 0 ==> n >= 1
    ensures n == 0 <==> p == 0
  {
    if p == 0 then 0 else 1 + BitLength(p / 2)
  }

  /** One turn of exp: an odd power takes one factor of the base into the result, and the
      rest of the power is the halved power of the squared base. */
  lemma ExpStep(self: int, power: nat, result: int, base: int, p: nat)
    requires p > 0 && result * Pow(base, p) == Pow(self, power)
    ensures (if p % 2 == 1 then result * base else result) * Pow(base * base, p / 2) == Pow(self, power)
  {
    PowSquare(base, p / 2);
    if p % 2 == 1 {
      assert p == 2 * (p / 2) + 1;
      assert Pow(base, p) == base * Pow(base, 2 * (p / 2));
      assert result * base * Pow(base, 2 * (p / 2)) == result * (base * Pow(base, 2 * (p / 2)));
    } else {
      assert p == 2 * (p / 2);
    }
  }

  /** Squaring self^(2^k) gives self^(2^(k+1)). */
  lemma SquareStep(self: int, k: nat)
    ensures Pow(self, Pow2(k)) * Pow(self, Pow2(k)) == Pow(self, Pow2(k + 1))
  {
    PowAdd(self, Pow2(k), Pow2(k));
  }

  /** What exp keeps true from turn to turn: for a non-negative power, the result times
      the remaining power of the base is self^power, and after k turns the base is
      self^(2^k); a negative power only moves toward zero and leaves the result 1. */
  ghost predicate ExpInv(self: int, power: int, result: int, base: int, p: int, k: nat)
  {
    (power >= 0 ==> p >= 0 && result * Pow(base, p) == Pow(self, power)
                    && k + BitLength(p) == BitLength(power) && base == Pow(self, Pow2(k)))
    && (power < 0 ==> p <= 0 && result == 1)
  }

  /** One turn of the exp loop keeps ExpInv and brings the power closer to zero. */
  lemma ExpTurn(self: int, power: int, result: int, base: int, p: int, k: nat)
    requires p != 0 && ExpInv(self, power, result, base, p, k)
    ensures ExpInv(self, power, if TruncRem(p, 2) == 1 then result * base else result,
                   base * base, TruncDiv(p, 2), k + 1)
    ensures Abs(TruncDiv(p, 2)) < Abs(p)
  {
    TruncByTwo(p);
    if p > 0 {
      ExpStep(self, power, result, base, p);
      SquareStep(self, k);
    }
  }

  /** When the power reaches zero, ExpInv gives exp's result and final base. */
  lemma ExpDone(self: int, power: int, result: int, base: int, k: nat)
    requires ExpInv(self, power, result, base, 0, k)
    ensures power >= 0 ==> result == Pow(self, power)
    ensures power < 0 ==> result == 1
    ensures power >= 0 ==> base == Pow(self, Pow2(BitLength(power)))
  {
  }

  /** BinaryInteger.exp as written: square-and-multiply over the bits of the power. A
      negative power never has remainder 1 under Swift's `%`, so its result is 1. The
      ghost result `last` is the value the base holds when the loop ends: the loop squares
      the base once per turn, after the last turn too, so it ends at
      self^(2^BitLength(power)). */
  method Exp(self: int, power: int) returns (result: int, ghost last: int)
    ensures power >= 0 ==> result == Pow(self, power)
    ensures power < 0 ==> result == 1
    ensures power >= 0 ==> last == Pow(self, Pow2(BitLength(power)))
  {
    result := 1;
    var base := self;
    var p := power;
    ghost var k: nat := 0;
    while p != 0
      invariant ExpInv(self, power, result, base, p, k)
      decreases Abs(p)
    {
      ExpTurn(self, power, result, base, p, k);
      result := if TruncRem(p, 2) == 1 then result * base else result;
      p, base, k := TruncDiv(p, 2), base * base, k + 1;
    }
    ExpDone(self, power, result, base, k);
    last := base;
  }

  /** A power with k binary digits lies in [2^(k-1), 2^k). */
  lemma {:induction false} BitLengthBetween(p: nat, k: nat)
    requires k >= 1 && Pow2(k - 1) <= p < Pow2(k)
    ensures BitLength(p) == k
  {
    if k > 1 {
      var h := Pow2(k - 2);
      assert Pow2(k - 1) == 2 * h && Pow2(k) == 4 * h;
      assert h <= p / 2 < 2 * h;
      BitLengthBetween(p / 2, k - 1);
    } else {
      assert p == 1;
    }
  }

  lemma Pow2Of16()
    ensures Pow2(16) == 0x1_0000
  {
    assert Pow2(8) == 256 by {
      Pow2Add(4, 4);
    }
    Pow2Add(8, 8);
  }

  lemma Pow2Of32()
    ensures Pow2(32) == 0x1_0000_0000
  {
    Pow2Of16();
    Pow2Add(16, 16);
  }

  lemma Pow2Of64()
    ensures Pow2(64) == 0x1_0000_0000_0000_0000
  {
    Pow2Of32();
    Pow2Add(32, 32);
  }

  /** A power of two with an exponent at most 62 is at most 2^62. */
  lemma Pow2AtMost62(e: nat)
    requires e <= 62
    ensures Pow2(e) <= 0x4000_0000_0000_0000
  {
    var x, y := Pow2(e), Pow2(64 - e);
    Pow2Of64();
    Pow2Add(e, 64 - e);
    PowMonotone(2, 2, 64 - e);
    assert Pow(2, 2) == 4;
    MulMonotone(x, 4, y);
  }

  /** As written, exp on 2 with a power from 32 to 62 ends with the base at 2^64, which
      does not fit in an Int, although the result 2^power does: in a build that checks
      overflow the squaring after the last bit traps. */
  lemma ExpLastSquareOverflows(power: nat)
    requires 32 <= power < 63
    ensures Pow(2, power) <= Int64Max
    ensures Pow(2, Pow2(BitLength(power))) > Int64Max
  {
    assert Pow2(5) == 32 && Pow2(6) == 64;
    BitLengthBetween(power, 6);
    Pow2Of64();
    Pow2AtMost62(power);
  }

  /** A 64-bit signed integer: every arithmetic result on it must stay in range. */
  newtype Int64 = x: int | -0x8000_0000_0000_0000 <= x <= 0x7FFF_FFFF_FFFF_FFFF

  lemma MulMonotone(a: nat, b: nat, c: nat)
    requires b <= c
    ensures a * b <= a * c
  {
  }

  /** |result * base| stays within |result * base^p| while bits of the power remain. */
  lemma MultiplyFits(result: int, base: int, p: nat)
    requires p >= 1
    ensures Abs(result * base) <= Abs(result * Pow(base, p))
  {
    AbsMul(result, Pow(base, p));
    AbsMul(result, base);
    PowAbs(base, p);
    if Abs(base) >= 1 {
      PowMonotone(Abs(base), 1, p);
      MulMonotone(Abs(result), Abs(base), Pow(Abs(base), p));
    }
  }

  lemma PowTwo(b: int)
    ensures Pow(b, 2) == b * b
  {
    assert Pow(b, 1) == b;
  }

  /** |base^2| stays within |result * base^p| when at least two factors of the base remain
      and the result is not zero. */
  lemma SquareFits(result: int, base: int, p: nat)
    requires p >= 2 && (result != 0 || base == 0)
    ensures Abs(base * base) <= Abs(result * Pow(base, p))
  {
    if base != 0 {
      var b := Abs(base);
      var q := Pow(b, p);
      AbsMul(base, base);
      PowAbs(base, p);
      AbsMul(result, Pow(base, p));
      assert Abs(result * Pow(base, p)) == Abs(result) * q;
      PowMonotone(b, 2, p);
      PowTwo(b);
      assert b * b <= q;
      MulMonotone(q, 1, Abs(result));
      assert q <= q * Abs(result);
    } else {
      assert base * base == 0;
    }
  }

  /** A power of a value other than zero is not zero. */
  lemma PowNonZero(b: int, n: nat)
    requires b != 0
    ensures Pow(b, n) != 0
  {
    PowAbs(b, n);
    PowPositive(Abs(b), n);
  }

  /** exp with the last squaring left out: the base is squared only while bits of a
      non-negative power remain. Then every product fits in an Int as soon as the result
      does. */
  method ExpInt64(self: Int64, power: Int64) returns (result: Int64)
    requires power >= 0 ==> Abs(Pow(self as int, power as nat)) <= Int64Max
    ensures power >= 0 ==> result as int == Pow(self as int, power as nat)
    ensures power < 0 ==> result == 1
  {
    result := 1;
    var base := self;
    var p := power;
    if self != 0 && power >= 0 {
      PowNonZero(self as int, power as nat);
    }
    while p != 0
      invariant power >= 0 ==> p >= 0 && result as int * Pow(base as int, p as nat) == Pow(self as int, power as nat)
      invariant power >= 0 && self != 0 ==> result != 0
      invariant self == 0 ==> base == 0
      invariant power < 0 ==> p <= 0 && result == 1
      decreases Abs(p as int)
    {
      TruncByTwo(p as int);
      if p > 0 {
        ExpStep(self as int, power as nat, result as int, base as int, p as nat);
        MultiplyFits(result as int, base as int, p as nat);
        if p >= 2 {
          SquareFits(result as int, base as int, p as nat);
        }
      }
      if TruncRem(p as int, 2) == 1 {
        result := result * base;
      }
      p := TruncDiv(p as int, 2) as Int64;
      if p > 0 {
        base := base * base;
      }
    }
  }

  /** One storage slot: the offsets of the left and right child, 0 for no child. A node
      at offset k lives in slot k - 1. */
  type Slot = (nat, nat)

  /** The offset tree(depth:offset:storage:) returns for a subtree built from slot o on. */
  function Root(d: nat, o: nat): (r: nat)
    ensures r == 0 <==> d == 0
    ensures r > 0 ==> r == o + 1
  {
    if d == 0 then 0 else o + 1
  }

  /** The slots from slot o on hold a subtree of depth d: a root slot pointing to the
      two halves after it, each holding a subtree of depth d - 1. Together these are the
      2^d - 1 slots from o on. */
  ghost predicate Holds(s: seq<Slot>, d: nat, o: nat)
    decreases d
  {
    d == 0 ||
    (o < |s| && s[o] == (Root(d - 1, o + 1), Root(d - 1, o + Pow2(d - 1)))
     && Holds(s, d - 1, o + 1) && Holds(s, d - 1, o + Pow2(d - 1)))
  }

  /** s and t agree on the slots from lo up to hi. */
  ghost predicate SameWithin(s: seq<Slot>, t: seq<Slot>, lo: nat, hi: nat)
  {
    |s| == |t| && forall i :: lo <= i < hi && i < |s| ==> s[i] == t[i]
  }

  /** s and t agree outside the slots from lo up to hi. */
  ghost predicate SameOutside(s: seq<Slot>, t: seq<Slot>, lo: nat, hi: nat)
  {
    |s| == |t| && forall i :: 0 <= i < |s| && !(lo <= i < hi) ==> s[i] == t[i]
  }

  /** A subtree depends only on its own 2^d - 1 slots. */
  lemma {:induction false} HoldsFrame(s: seq<Slot>, t: seq<Slot>, d: nat, o: nat)
    requires Holds(s, d, o) && SameWithin(s, t, o, o + Pow2(d) - 1)
    ensures Holds(t, d, o)
  {
    if d > 0 {
      var h := Pow2(d - 1);
      assert Pow2(d) == 2 * h;
      HoldsFrame(s, t, d - 1, o + 1);
      HoldsFrame(s, t, d - 1, o + h);
    }
  }

  /** Tree.tree(depth:offset:storage:): fills the slots of a subtree of depth `depth`
      from slot `offset` on, returns the offset of its root and advances `offset` past
      the 2^depth - 1 slots it used; no other slot changes. */
  method TreeFill(depth: nat, offset: nat, storage: array<Slot>) returns (r: nat, next: nat)
    requires offset + Pow2(depth) - 1 <= storage.Length
    modifies storage
    ensures next == offset + Pow2(depth) - 1
    ensures r == Root(depth, offset)
    ensures Holds(storage[..], depth, offset)
    ensures SameOutside(old(storage[..]), storage[..], offset, next)
    decreases depth
  {
    if depth == 0 {
      return 0, offset;
    }
    var h := Pow2(depth - 1);
    assert Pow2(depth) == 2 * h;
    var l, mid := TreeFill(depth - 1, offset + 1, storage);
    ghost var s1 := storage[..];
    var rr, end := TreeFill(depth - 1, mid, storage);
    ghost var s2 := storage[..];
    storage[offset] := (l, rr);
    HoldsFrame(s1, storage[..], depth - 1, offset + 1);
    HoldsFrame(s2, storage[..], depth - 1, mid);
    r, next := offset + 1, end;
  }

  /** A well-formed storage: every child offset is 0 or names a later slot. */
  predicate Ordered(s: seq<Slot>)
  {
    forall i :: 0 <= i < |s| ==> ChildIn(s[i].0, i, |s|) && ChildIn(s[i].1, i, |s|)
  }

  /** Child offset c of the node in slot i is 0 or a slot after it, at most n. */
  predicate ChildIn(c: nat, i: nat, n: nat)
  {
    c == 0 || i + 1 < c <= n
  }

  /** Every child offset of a subtree points forward into the same subtree. */
  lemma {:induction false} HoldsForward(s: seq<Slot>, d: nat, o: nat)
    requires Holds(s, d, o) && o + Pow2(d) - 1 <= |s|
    ensures forall i :: o <= i < o + Pow2(d) - 1 ==>
      ChildIn(s[i].0, i, o + Pow2(d) - 1) && ChildIn(s[i].1, i, o + Pow2(d) - 1)
  {
    if d > 0 {
      var h := Pow2(d - 1);
      assert Pow2(d) == 2 * h;
      assert d > 1 ==> h >= 2;
      HoldsForward(s, d - 1, o + 1);
      HoldsForward(s, d - 1, o + h);
    }
  }

  /** A tree of the fast program: the shared storage and the offset of its root. */
  datatype ArenaTree = ArenaTree(storage: seq<Slot>, offset: nat)

  predicate Valid(t: ArenaTree)
  {
    Ordered(t.storage) && t.offset <= |t.storage|
  }

  /** Tree._itemCheck: one for the node in slot off - 1, plus the check of each child,
      where a missing child counts one. */
  function CheckAt(s: seq<Slot>, off: nat): (c: nat)
    requires Ordered(s) && 0 < off <= |s|
    ensures c >= 3
    decreases |s| - off
  {
    var (l, r) := s[off - 1];
    1 + (if l > 0 then CheckAt(s, l) else 1) + (if r > 0 then CheckAt(s, r) else 1)
  }

  predicate IsEmpty(t: ArenaTree)
  {
    t.offset == 0
  }

  /** Tree.itemCheck. */
  function ItemCheck(t: ArenaTree): (c: nat)
    requires Valid(t)
    ensures c >= 1
    ensures c == 1 <==> IsEmpty(t)
  {
    if IsEmpty(t) then 1 else CheckAt(t.storage, t.offset)
  }

  /** A subtree of depth d > 0 rooted at offset o + 1 checks 2^(d+1) - 1. */
  lemma {:induction false} SubtreeCheck(s: seq<Slot>, d: nat, o: nat)
    requires Ordered(s) && d > 0 && Holds(s, d, o)
    ensures CheckAt(s, o + 1) == Pow2(d + 1) - 1
  {
    if d > 1 {
      SubtreeCheck(s, d - 1, o + 1);
      SubtreeCheck(s, d - 1, o + Pow2(d - 1));
      ChecksOfChildren(s, o + 1, o + 2, o + Pow2(d - 1) + 1, Pow2(d) - 1);
    }
  }

  /** A node whose two children each check k checks 2k + 1. */
  lemma ChecksOfChildren(s: seq<Slot>, off: nat, l: nat, r: nat, k: nat)
    requires Ordered(s) && 0 < off <= |s| && s[off - 1] == (l, r) && 0 < l <= |s| && 0 < r <= |s|
    requires CheckAt(s, l) == k && CheckAt(s, r) == k
    ensures CheckAt(s, off) == 2 * k + 1
  {
  }

  /** t is what Tree(depth) builds: the 2^depth - 1 slots of a subtree of depth
      `depth` from slot 0 on, with its root offset. */
  ghost predicate Built(t: ArenaTree, depth: nat)
  {
    |t.storage| == Pow2(depth) - 1 && t.offset == Root(depth, 0) && Holds(t.storage, depth, 0)
  }

  /** A built tree is well formed, empty exactly at depth 0, and checks 2^(depth+1) - 1:
      the same as the tree of the serial program. */
  lemma TreeCheck(t: ArenaTree, depth: nat)
    requires Built(t, depth)
    ensures Valid(t)
    ensures IsEmpty(t) <==> depth == 0
    ensures ItemCheck(t) == Pow2(depth + 1) - 1
    ensures ItemCheck(t) == BinaryTrees.ItemCheck(BinaryTrees.BottomUpTree(depth))
  {
    HoldsForward(t.storage, depth, 0);
    BinaryTrees.CheckOfBottomUpTree(depth);
    if depth > 0 {
      SubtreeCheck(t.storage, depth, 0);
    }
  }

  /** The storage size Tree(depth) computes: the geometric sum (1 - 2^depth) / (1 - 2). */
  lemma SlotCount(depth: nat)
    ensures TruncDiv(1 - Pow(2, depth), 1 - 2) == Pow2(depth) - 1
  {
    TruncByMinusOne(1 - Pow(2, depth));
  }

  /** Tree.init(_ depth:): sizes the storage with exp, then fills the root slot with the
      two subtrees built from slot 1 on. */
  method NewTree(depth: nat) returns (t: ArenaTree)
    ensures Built(t, depth)
    ensures Valid(t) && ItemCheck(t) == BinaryTrees.ItemCheck(BinaryTrees.BottomUpTree(depth))
  {
    if depth == 0 {
      t := ArenaTree([], 0);
      TreeCheck(t, depth);
      return;
    }
    var e;
    ghost var last;
    e, last := Exp(2, depth);
    SlotCount(depth);
    var count := TruncDiv(1 - e, 1 - 2);
    var h := Pow2(depth - 1);
    assert Pow2(depth) == 2 * h;
    var storage := new Slot[count];
    var offset := 1;
    var l, mid := TreeFill(depth - 1, offset, storage);
    ghost var s1 := storage[..];
    var r, end := TreeFill(depth - 1, mid, storage);
    ghost var s2 := storage[..];
    storage[0] := (l, r);
    HoldsFrame(s1, storage[..], depth - 1, 1);
    HoldsFrame(s2, storage[..], depth - 1, mid);
    t := ArenaTree(storage[..], 1);
    TreeCheck(t, depth);
  }

  /** Tree.left: the subtree at the left child offset, none for an empty tree or a
      missing child. */
  function Left(t: ArenaTree): (r: Option<ArenaTree>)
    requires Valid(t)
    ensures r.Some? ==> Valid(r.value) && r.value.storage == t.storage && r.value.offset > t.offset
  {
    if IsEmpty(t) then None
    else if t.storage[t.offset - 1].0 == 0 then None
    else Some(ArenaTree(t.storage, t.storage[t.offset - 1].0))
  }

  /** Tree.right as written: it reads the first component of the slot, the left child. */
  function RightAsWritten(t: ArenaTree): (r: Option<ArenaTree>)
    requires Valid(t)
    ensures r.Some? ==> Valid(r.value) && r.value.storage == t.storage && r.value.offset > t.offset
  {
    if IsEmpty(t) then None
    else if t.storage[t.offset - 1].0 == 0 then None
    else Some(ArenaTree(t.storage, t.storage[t.offset - 1].0))
  }

  /** Tree.right as intended: the subtree at the right child offset. */
  function Right(t: ArenaTree): (r: Option<ArenaTree>)
    requires Valid(t)
    ensures r.Some? ==> Valid(r.value) && r.value.storage == t.storage && r.value.offset > t.offset
  {
    if IsEmpty(t) then None
    else if t.storage[t.offset - 1].1 == 0 then None
    else Some(ArenaTree(t.storage, t.storage[t.offset - 1].1))
  }

  /** The check of a child, where a missing child counts one. */
  function ChildCheck(c: Option<ArenaTree>): (k: nat)
    requires c.Some? ==> Valid(c.value)
    ensures k >= 1
  {
    if c.None? then 1 else ItemCheck(c.value)
  }

  /** itemCheck is one plus the checks of left and right. */
  lemma CheckOfChildren(t: ArenaTree)
    requires Valid(t) && !IsEmpty(t)
    ensures ItemCheck(t) == 1 + ChildCheck(Left(t)) + ChildCheck(Right(t))
  {
  }

  /** As written, right is left on every tree. */
  lemma RightAsWrittenIsLeft(t: ArenaTree)
    requires Valid(t)
    ensures RightAsWritten(t) == Left(t)
  {
  }

  /** On Tree(2), right as written yields the subtree at offset 2, the left child, where
      the right child sits at offset 3. */
  lemma RightAsWrittenMissesRightChild(t: ArenaTree)
    requires Built(t, 2)
    ensures t.storage == [(2, 3), (0, 0), (0, 0)] && t.offset == 1
    ensures Valid(t)
    ensures RightAsWritten(t) == Some(ArenaTree(t.storage, 2))
    ensures Right(t) == Some(ArenaTree(t.storage, 3))
  {
    assert Pow2(1) == 2 && Pow2(2) == 4;
    assert Holds(t.storage, 1, 1) && Holds(t.storage, 1, 2);
    TreeCheck(t, 2);
  }

  /** inner(depth:iterations:) of the fast program: the same UInt32 sum of checks. */
  method InnerFast(depth: nat, iterations: nat) returns (chk: nat)
    ensures chk == BinaryTrees.InnerCheck(depth, iterations)
  {
    chk := 0;
    for i := 0 to iterations
      invariant chk == (i * (Pow2(depth + 1) - 1)) % BinaryTrees.UInt32Limit
    {
      var t := NewTree(depth);
      BinaryTrees.CheckOfBottomUpTree(depth);
      chk := (chk + ItemCheck(t)) % BinaryTrees.UInt32Limit;
      BinaryTrees.AddModStep(chk, Pow2(depth + 1) - 1, i);
    }
  }
}
