/** Sources/BinaryTrees: perfect binary trees built bottom up and checked by counting their
    nodes, the schedule of tree depths and iteration counts derived from the command-line
    depth, and the order in which the collected messages are printed. */
module BinaryTrees {
  import opened Powers

  /** One more than the largest UInt32, and the largest UInt32 itself (UINT32_MAX). */
  const UInt32Limit: nat := 0x1_0000_0000
  const UInt32Max: nat := 0xFFFF_FFFF

  const MinDepth: nat := 4

  datatype Tree = Empty | Node(left: Tree, right: Tree)

  /** itemCheck: 1 for an empty tree and for a node whose children are both empty,
      otherwise 1 plus the checks of the two children. */
  function ItemCheck(t: Tree): (c: nat)
    ensures c >= 1
  {
    match t
    case Empty => 1
    case Node(Empty, Empty) => 1
    case Node(l, r) => 1 + ItemCheck(l) + ItemCheck(r)
  }

  /** Reference count: the number of nodes of a tree. */
  function NodeCount(t: Tree): (c: nat)
    ensures t.Node? ==> c >= 1
  {
    match t
    case Empty => 0
    case Node(l, r) => 1 + NodeCount(l) + NodeCount(r)
  }

  /** Every node has either two empty children or two non-empty ones. */
  predicate Full(t: Tree)
  {
    match t
    case Empty => true
    case Node(l, r) => l.Empty? == r.Empty? && Full(l) && Full(r)
  }

  /** On a full tree that is not empty, itemCheck counts the nodes. */
  lemma {:induction false} ItemCheckCountsNodes(t: Tree)
    requires Full(t) && t.Node?
    ensures ItemCheck(t) == NodeCount(t)
  {
    match t
    case Node(l, r) =>
      if l.Node? {
        ItemCheckCountsNodes(l);
        ItemCheckCountsNodes(r);
      }
  }

  /** As soon as one child is empty and the other is not, itemCheck counts the empty one as
      a node: the count is only a node count on full trees. */
  lemma ItemCheckCountsEmptyChild()
    ensures ItemCheck(Node(Empty, Node(Empty, Empty))) == 3
    ensures NodeCount(Node(Empty, Node(Empty, Empty))) == 2
  {
  }

  /** A perfect tree of depth d: d levels of inner nodes above a level of nodes with two
      empty children. */
  predicate Perfect(t: Tree, d: nat)
  {
    if d == 0 then t == Node(Empty, Empty)
    else t.Node? && Perfect(t.left, d - 1) && Perfect(t.right, d - 1)
  }

  /** bottomUpTree: a node over two trees of depth d - 1, and a node with two empty
      children at depth 0; never the empty tree. */
  function BottomUpTree(d: nat): (t: Tree)
    ensures t.Node?
  {
    if d > 0 then Node(BottomUpTree(d - 1), BottomUpTree(d - 1))
    else Node(Empty, Empty)
  }

  lemma {:induction false} BottomUpTreeIsPerfect(d: nat)
    ensures Perfect(BottomUpTree(d), d)
  {
    if d > 0 {
      BottomUpTreeIsPerfect(d - 1);
    }
  }

  /** A perfect tree of depth d is full and has 2^(d+1) - 1 nodes. */
  lemma {:induction false} PerfectNodes(t: Tree, d: nat)
    requires Perfect(t, d)
    ensures Full(t) && NodeCount(t) == Pow2(d + 1) - 1
  {
    if d > 0 {
      PerfectNodes(t.left, d - 1);
      PerfectNodes(t.right, d - 1);
    }
  }

  /** itemCheck(bottomUpTree(d)) == 2^(d+1) - 1. */
  lemma CheckOfBottomUpTree(d: nat)
    ensures ItemCheck(BottomUpTree(d)) == Pow2(d + 1) - 1
  {
    BottomUpTreeIsPerfect(d);
    PerfectNodes(BottomUpTree(d), d);
    ItemCheckCountsNodes(BottomUpTree(d));
  }

  /** The values recorded for a run with depth 21: the stretch tree of depth 22 and the
      long-lived tree of depth 21. */
  lemma RecordedTreeChecks()
    ensures ItemCheck(BottomUpTree(22)) == 8388607
    ensures ItemCheck(BottomUpTree(21)) == 4194303
  {
    CheckOfBottomUpTree(22);
    CheckOfBottomUpTree(21);
    Pow2Values();
  }

  lemma Pow2Values()
    ensures Pow2(5) == 32 && Pow2(21) == 2097152 && Pow2(22) == 4194304
    ensures Pow2(23) == 8388608 && Pow2(26) == 67108864 && Pow2(31) == 2147483648
  {
    Pow2Add(10, 11);
    Pow2Add(10, 12);
    Pow2Add(10, 13);
    Pow2Add(10, 16);
    Pow2Add(15, 16);
  }

  /** The check inner reports for `iterations` trees of depth `depth`: the UInt32 sum of
      their checks, which wraps around modulo 2^32. */
  function InnerCheck(depth: nat, iterations: nat): (c: nat)
    ensures c < UInt32Limit
  {
    (iterations * (Pow2(depth + 1) - 1)) % UInt32Limit
  }

  lemma AddModStep(a: nat, c: nat, i: nat)
    ensures ((i * c) % UInt32Limit + c) % UInt32Limit == ((i + 1) * c) % UInt32Limit
  {
    assert (i + 1) * c == i * c + c;
  }

  /** inner(depth:iterations:): builds and checks `iterations` trees of depth `depth`,
      adding up the checks. The sum is a UInt32 that wraps around. */
  method Inner(depth: nat, iterations: nat) returns (chk: nat)
    ensures chk == InnerCheck(depth, iterations)
  {
    chk := 0;
    for i := 0 to iterations
      invariant chk == (i * (Pow2(depth + 1) - 1)) % UInt32Limit
    {
      var a := BottomUpTree(depth);
      CheckOfBottomUpTree(depth);
      chk := (chk + ItemCheck(a)) % UInt32Limit;
      AddModStep(chk, Pow2(depth + 1) - 1, i);
    }
  }

  /** maxDepth: the requested depth, but at least minDepth + 2. */
  function MaxDepth(n: nat): (m: nat)
    ensures m >= n && m >= MinDepth + 2
    ensures m == n || m == MinDepth + 2
  {
    if n > MinDepth + 2 then n else MinDepth + 2
  }

  /** itt: the number of depth buckets, maxDepth / 2 + 1 - minDepth / 2. */
  function BucketCount(maxDepth: nat): (k: nat)
    requires maxDepth >= MinDepth + 2
    ensures k >= 2
  {
    maxDepth / 2 + 1 - MinDepth / 2
  }

  /** The depth of bucket idx: (minDepth / 2 + idx) * 2. */
  function BucketDepth(idx: nat): (d: nat)
    ensures d >= MinDepth && d % 2 == 0
  {
    (MinDepth / 2 + idx) * 2
  }

  /** The number of trees bucket `depth` builds: 1 << (maxDepth - depth + minDepth). */
  function Iterations(maxDepth: nat, depth: nat): (it: nat)
    requires depth <= maxDepth + MinDepth
    ensures it >= 1
  {
    Pow2(maxDepth - depth + MinDepth)
  }

  /** The buckets are exactly the even depths from minDepth to maxDepth, in increasing
      order. */
  lemma BucketDepths(maxDepth: nat)
    requires maxDepth >= MinDepth + 2
    ensures forall idx :: 0 <= idx < BucketCount(maxDepth) ==> BucketDepth(idx) <= maxDepth
    ensures forall idx :: 0 <= idx < BucketCount(maxDepth) - 1 ==> BucketDepth(idx) < BucketDepth(idx + 1)
    ensures forall d: nat :: MinDepth <= d <= maxDepth && d % 2 == 0 ==>
      exists idx :: 0 <= idx < BucketCount(maxDepth) && BucketDepth(idx) == d
  {
    forall d: nat | MinDepth <= d <= maxDepth && d % 2 == 0
      ensures exists idx :: 0 <= idx < BucketCount(maxDepth) && BucketDepth(idx) == d
    {
      var idx := d / 2 - MinDepth / 2;
      assert BucketDepth(idx) == d;
    }
  }

  lemma BucketDepthBound(maxDepth: nat, idx: nat)
    requires maxDepth >= MinDepth + 2 && idx < BucketCount(maxDepth)
    ensures BucketDepth(idx) <= maxDepth
  {
  }

  /** Every bucket does the same amount of work: its check is 2^(maxDepth+5) less one tree's
      worth of 2^(maxDepth-depth+4). */
  lemma BucketWork(maxDepth: nat, depth: nat)
    requires depth <= maxDepth
    ensures Iterations(maxDepth, depth) * (Pow2(depth + 1) - 1)
         == Pow2(maxDepth + MinDepth + 1) - Iterations(maxDepth, depth)
  {
    var it := Iterations(maxDepth, depth);
    PowAdd(2, maxDepth - depth + MinDepth, depth + 1);
    assert it * (Pow2(depth + 1) - 1) == it * Pow2(depth + 1) - it;
  }

  /** Up to depth 26 no bucket's sum wraps around. */
  lemma BucketCheckFits(maxDepth: nat, depth: nat)
    requires depth <= maxDepth <= 26
    ensures InnerCheck(depth, Iterations(maxDepth, depth))
         == Iterations(maxDepth, depth) * (Pow2(depth + 1) - 1)
  {
    var it, c := Iterations(maxDepth, depth), Pow2(depth + 1) - 1;
    BucketWork(maxDepth, depth);
    PowMonotone(2, maxDepth + MinDepth + 1, 31);
    assert Pow2(31) == 2147483648 by {
      Pow2Values();
    }
    MulNonNegative(it, c);
    ModSmall(it * c);
  }

  lemma MulNonNegative(a: nat, b: nat)
    ensures a * b >= 0
  {
  }

  lemma ModSmall(x: nat)
    requires x < UInt32Limit
    ensures x % UInt32Limit == x
  {
  }

  /** The first and last buckets of the recorded run with depth 21. */
  lemma RecordedBuckets()
    ensures MaxDepth(21) == 21 && BucketCount(21) == 9
    ensures BucketDepth(0) == 4 && Iterations(21, 4) == 2097152
    ensures InnerCheck(4, 2097152) == 65011712
    ensures BucketDepth(8) == 20 && Iterations(21, 20) == 32
    ensures InnerCheck(20, 32) == 67108832
  {
    BucketCheckFits(21, 4);
    BucketCheckFits(21, 20);
    Pow2Values();
  }

  /** A message of the report: the stretch tree, one bucket of trees, or the long-lived
      tree. */
  datatype Message =
    | Stretch(depth: nat, check: nat)
    | Trees(iterations: nat, depth: nat, check: nat)
    | LongLived(depth: nat, check: nat)

  /** The message keys in the order they are meant to be printed: 0 for the stretch tree,
      the bucket depths, UINT32_MAX for the long-lived tree. */
  function Keys(maxDepth: nat): (ks: seq<nat>)
    requires maxDepth >= MinDepth + 2
    ensures |ks| == BucketCount(maxDepth) + 2
    ensures ks[0] == 0 && ks[|ks| - 1] == UInt32Max
    ensures forall idx :: 0 <= idx < BucketCount(maxDepth) ==> ks[idx + 1] == BucketDepth(idx)
  {
    [0] + seq(BucketCount(maxDepth), idx requires 0 <= idx => BucketDepth(idx)) + [UInt32Max]
  }

  /** A key other than 0 and UINT32_MAX is the depth of a bucket, so at most maxDepth. */
  lemma KeyIsBucket(maxDepth: nat, k: nat)
    requires maxDepth >= MinDepth + 2 && k in Keys(maxDepth) && k != 0 && k != UInt32Max
    ensures MinDepth <= k <= maxDepth
  {
    var ks := Keys(maxDepth);
    var i :| 0 <= i < |ks| && ks[i] == k;
    BucketDepthBound(maxDepth, i - 1);
  }

  /** The message stored under key k: the stretch tree of depth maxDepth + 1 under 0, the
      long-lived tree of depth maxDepth under UINT32_MAX, and the bucket of depth k
      otherwise. */
  function MessageFor(maxDepth: nat, k: nat): (msg: Message)
    requires maxDepth >= MinDepth + 2 && k in Keys(maxDepth)
    ensures k == 0 <==> msg.Stretch?
    ensures k == UInt32Max <==> msg.LongLived?
    ensures msg.Trees? ==> msg.depth == k <= maxDepth
  {
    if k == 0 then Stretch(maxDepth + 1, ItemCheck(BottomUpTree(maxDepth + 1)))
    else if k == UInt32Max then LongLived(maxDepth, ItemCheck(BottomUpTree(maxDepth)))
    else
      KeyIsBucket(maxDepth, k);
      Trees(Iterations(maxDepth, k), k, InnerCheck(k, Iterations(maxDepth, k)))
  }

  /** The messages dictionary once every worker has filled in its entry. The depth of the
      stretch tree is maxDepth + 1, which must fit in a UInt32. */
  function Messages(n: nat): (m: map<nat, Message>)
    requires n < UInt32Max
    ensures forall k :: k in m <==> k in Keys(MaxDepth(n))
  {
    map k | k in Keys(MaxDepth(n)) :: MessageFor(MaxDepth(n), k)
  }

  predicate Increasing(s: seq<nat>)
  {
    forall i, j :: 0 <= i < j < |s| ==> s[i] < s[j]
  }

  predicate IsMin(s: set<nat>, m: nat)
  {
    m in s && forall x :: x in s ==> m <= x
  }

  /** A non-empty set of keys has a smallest element. */
  lemma {:induction false} HasMin(s: set<nat>)
    requires s != {}
    ensures exists m :: IsMin(s, m)
    decreases |s|
  {
    var y :| y in s;
    if s != {y} {
      HasMin(s - {y});
      var m :| IsMin(s - {y}, m);
      var least := if y < m then y else m;
      forall x | x in s ensures least <= x {
        if x != y {
          assert x in s - {y};
        }
      }
      assert IsMin(s, least);
    } else {
      assert IsMin(s, y);
    }
  }

  /** `sorted(by: <)` over the dictionary's keys: the keys in increasing order. */
  function SortedKeys(s: set<nat>): (r: seq<nat>)
    ensures Increasing(r)
    ensures forall k :: k in r <==> k in s
    decreases |s|
  {
    if s == {} then []
    else
      HasMin(s);
      var m :| IsMin(s, m);
      var rest := SortedKeys(s - {m});
      [m] + rest
  }

  /** Two increasing sequences with the same elements are the same sequence: the order
      of the printed messages is fixed by their keys alone. */
  lemma {:induction false} IncreasingUnique(a: seq<nat>, b: seq<nat>)
    requires Increasing(a) && Increasing(b)
    requires forall k :: k in a <==> k in b
    ensures a == b
    decreases |a|
  {
    assert a != [] ==> a[0] in b;
    assert b != [] ==> b[0] in a;
    if a != [] && b != [] {
      FirstIsLeast(a, b);
      FirstIsLeast(b, a);
      forall k ensures k in a[1..] <==> k in b[1..] {
        TailMembers(a, k);
        TailMembers(b, k);
      }
      IncreasingUnique(a[1..], b[1..]);
    }
  }

  /** The first element of an increasing sequence is its least, so it is the first
      element of any increasing sequence with the same elements. */
  lemma FirstIsLeast(a: seq<nat>, b: seq<nat>)
    requires Increasing(a) && Increasing(b) && a != [] && b != []
    requires forall k :: k in a <==> k in b
    ensures a[0] <= b[0]
  {
    assert b[0] in a;
  }

  lemma TailMembers(a: seq<nat>, k: nat)
    requires Increasing(a) && a != []
    ensures k in a[1..] <==> k in a && k != a[0]
  {
    if k in a && k != a[0] {
      var i :| 0 <= i < |a| && a[i] == k;
      assert a[1..][i - 1] == k;
    }
  }

  /** The keys are increasing: stretch first, the buckets by depth, long-lived last. */
  lemma KeysIncreasing(maxDepth: nat)
    requires MinDepth + 2 <= maxDepth < UInt32Max
    ensures Increasing(Keys(maxDepth))
  {
    var ks := Keys(maxDepth);
    forall i, j | 0 <= i < j < |ks| ensures ks[i] < ks[j] {
      if j == |ks| - 1 {
        if i > 0 {
          BucketDepthBound(maxDepth, i - 1);
        }
      } else if i > 0 {
        assert ks[i] == BucketDepth(i - 1) && ks[j] == BucketDepth(j - 1);
      }
    }
  }

  /** The dictionary, sorted by key, lists its messages in the order of Keys. */
  lemma SortedMessageKeys(n: nat)
    requires n < UInt32Max
    ensures SortedKeys(Messages(n).Keys) == Keys(MaxDepth(n))
  {
    KeysIncreasing(MaxDepth(n));
    IncreasingUnique(SortedKeys(Messages(n).Keys), Keys(MaxDepth(n)));
  }

  /** The loop over `messages.sorted(by: { $0.0 < $1.0 })`: the dictionary's messages in
      increasing key order. */
  function PrintOrder(m: map<nat, Message>): (r: seq<Message>)
    ensures |r| == |SortedKeys(m.Keys)|
    ensures forall i :: 0 <= i < |r| ==> r[i] == m[SortedKeys(m.Keys)[i]]
  {
    var ks := SortedKeys(m.Keys);
    seq(|ks|, i requires 0 <= i < |ks| => m[ks[i]])
  }

  /** The printed report: the messages dictionary in increasing key order, which is the
      order of Keys. */
  function Report(n: nat): (r: seq<Message>)
    requires n < UInt32Max
    ensures |r| == BucketCount(MaxDepth(n)) + 2
    ensures forall i :: 0 <= i < |r| ==> r[i] == MessageFor(MaxDepth(n), Keys(MaxDepth(n))[i])
  {
    ReportAll(n);
    PrintOrder(Messages(n))
  }

  /** Message i of the sorted dictionary is the one stored under key i of Keys. */
  lemma ReportAt(n: nat, i: nat)
    requires n < UInt32Max && i < BucketCount(MaxDepth(n)) + 2
    ensures var r := PrintOrder(Messages(n));
      |r| == BucketCount(MaxDepth(n)) + 2 && r[i] == MessageFor(MaxDepth(n), Keys(MaxDepth(n))[i])
  {
    SortedMessageKeys(n);
  }

  lemma ReportAll(n: nat)
    requires n < UInt32Max
    ensures var r := PrintOrder(Messages(n));
      |r| == BucketCount(MaxDepth(n)) + 2 &&
      forall i :: 0 <= i < |r| ==> r[i] == MessageFor(MaxDepth(n), Keys(MaxDepth(n))[i])
  {
    SortedMessageKeys(n);
    forall i | 0 <= i < BucketCount(MaxDepth(n)) + 2
      ensures PrintOrder(Messages(n))[i] == MessageFor(MaxDepth(n), Keys(MaxDepth(n))[i])
    {
      ReportAt(n, i);
    }
  }

  /** The first message is the stretch tree. */
  lemma ReportFirst(n: nat)
    requires n < UInt32Max
    ensures Report(n)[0] == Stretch(MaxDepth(n) + 1, Pow2(MaxDepth(n) + 2) - 1)
  {
    var maxDepth := MaxDepth(n);
    var ks := Keys(maxDepth);
    assert ks[0] == 0;
    StretchMessage(maxDepth);
  }

  lemma StretchMessage(maxDepth: nat)
    requires maxDepth >= MinDepth + 2
    ensures 0 in Keys(maxDepth)
    ensures MessageFor(maxDepth, 0) == Stretch(maxDepth + 1, Pow2(maxDepth + 2) - 1)
  {
    assert Keys(maxDepth)[0] == 0;
    CheckOfBottomUpTree(maxDepth + 1);
  }

  /** The last message is the long-lived tree. */
  lemma ReportLast(n: nat)
    requires n < UInt32Max
    ensures Report(n)[|Report(n)| - 1] == LongLived(MaxDepth(n), Pow2(MaxDepth(n) + 1) - 1)
  {
    CheckOfBottomUpTree(MaxDepth(n));
  }

  /** The report prints the stretch tree, then the buckets from the shallowest to the
      deepest, then the long-lived tree, with the checks of perfect trees. */
  lemma ReportOrder(n: nat)
    requires n < UInt32Max
    ensures var maxDepth := MaxDepth(n);
      var r := Report(n);
      && |r| == BucketCount(maxDepth) + 2
      && r[0] == Stretch(maxDepth + 1, Pow2(maxDepth + 2) - 1)
      && (forall idx :: 0 <= idx < BucketCount(maxDepth) ==>
            var d := BucketDepth(idx);
            r[idx + 1] == Trees(Iterations(maxDepth, d), d, InnerCheck(d, Iterations(maxDepth, d))))
      && r[|r| - 1] == LongLived(maxDepth, Pow2(maxDepth + 1) - 1)
  {
    ReportFirst(n);
    ReportLast(n);
  }
}
