/** Bytes and the 60-column line framing shared by both fasta programs. */
module Text {

  /** An output byte (Swift's UInt8). */
  type Byte = b: int | 0 <= b < 256

  /** Width of one output line. */
  const LineWidth: nat := 60

  /** The byte written after each full line ("\n"). */
  const NewLine: Byte := 10

  /** The string terminator a C string ends with. */
  const Nul: Byte := 0

  /** Reference framing: a newline after every LineWidth-th symbol and nowhere else.
      A short last line carries no newline. */
  function Lines(s: seq<Byte>): (r: seq<Byte>)
    ensures |r| == |s| + |s| / LineWidth
    decreases |s|
  {
    if |s| < LineWidth then s
    else s[..LineWidth] + [NewLine] + Lines(s[LineWidth..])
  }

  /** Appending one symbol appends it to the framed text, followed by a newline exactly
      when it completes a line. This is the step a symbol-by-symbol formatter takes. */
  lemma {:induction false} LinesSnoc(s: seq<Byte>, x: Byte)
    ensures Lines(s + [x]) == Lines(s) + [x] + (if (|s| + 1) % LineWidth == 0 then [NewLine] else [])
    decreases |s|
  {
    if |s| + 1 < LineWidth {
    } else if |s| + 1 == LineWidth {
      assert (s + [x])[..LineWidth] == s + [x];
      assert (s + [x])[LineWidth..] == [];
    } else {
      var t := s[LineWidth..];
      assert (s + [x])[..LineWidth] == s[..LineWidth];
      assert (s + [x])[LineWidth..] == t + [x];
      assert Lines(s + [x]) == s[..LineWidth] + [NewLine] + Lines(t + [x]);
      assert Lines(s) == s[..LineWidth] + [NewLine] + Lines(t);
      LinesSnoc(t, x);
      assert (|t| + 1) % LineWidth == (|s| + 1) % LineWidth;
    }
  }

  /** Framing a text whose first part is whole lines frames the parts independently:
      splitting a stream into blocks of whole lines does not change the output. */
  lemma {:induction false} LinesAppend(a: seq<Byte>, b: seq<Byte>)
    requires |a| % LineWidth == 0
    ensures Lines(a + b) == Lines(a) + Lines(b)
    decreases |a|
  {
    if a == [] {
      assert a + b == b;
    } else {
      assert (a + b)[..LineWidth] == a[..LineWidth];
      assert (a + b)[LineWidth..] == a[LineWidth..] + b;
      LinesAppend(a[LineWidth..], b);
    }
  }

  /** Where each byte of the framed text comes from: position 61*j + k (k < 60) holds
      symbol 60*j + k, and position 61*j + 60 holds a newline once line j is complete. */
  lemma {:induction false} LinesAt(s: seq<Byte>, j: nat, k: nat)
    requires k <= LineWidth
    requires if k < LineWidth then LineWidth * j + k < |s| else LineWidth * (j + 1) <= |s|
    ensures (LineWidth + 1) * j + k < |Lines(s)|
    ensures Lines(s)[(LineWidth + 1) * j + k] == if k < LineWidth then s[LineWidth * j + k] else NewLine
    decreases j
  {
    if j > 0 {
      LinesAt(s[LineWidth..], j - 1, k);
    }
  }

  /** The framing of fastRandom: a newline after every group of at most LineWidth symbols,
      including a short last group. */
  function Framed(s: seq<Byte>): (r: seq<Byte>)
    ensures |r| == |s| + (|s| + LineWidth - 1) / LineWidth
    decreases |s|
  {
    if s == [] then []
    else if |s| <= LineWidth then s + [NewLine]
    else s[..LineWidth] + [NewLine] + Framed(s[LineWidth..])
  }

  /** Framed differs from Lines only by a closing newline after a short last line. */
  lemma {:induction false} FramedIsLinesClosed(s: seq<Byte>)
    ensures Framed(s) == Lines(s) + (if |s| % LineWidth != 0 then [NewLine] else [])
    decreases |s|
  {
    if s == [] || |s| < LineWidth {
    } else if |s| == LineWidth {
      assert s[..LineWidth] == s;
      assert s[LineWidth..] == [];
    } else {
      FramedIsLinesClosed(s[LineWidth..]);
      assert |s[LineWidth..]| % LineWidth == |s| % LineWidth;
    }
  }

  /** Appending one symbol to a framed text: the symbol goes after the whole lines and
      the open line of the text before it, and the group it ends in is closed. */
  lemma FramedSnoc(s: seq<Byte>, x: Byte)
    ensures Framed(s + [x]) == Lines(s) + [x, NewLine]
  {
    FramedIsLinesClosed(s + [x]);
    LinesSnoc(s, x);
  }

  /** Framing a text whose first part is whole lines: the whole lines are framed as they
      are and the rest is framed, closing newline included, on its own. */
  lemma FramedAppend(a: seq<Byte>, b: seq<Byte>)
    requires |a| % LineWidth == 0
    ensures Framed(a + b) == Lines(a) + Framed(b)
  {
    FramedIsLinesClosed(a + b);
    FramedIsLinesClosed(b);
    LinesAppend(a, b);
    assert (|a| + |b|) % LineWidth == |b| % LineWidth;
  }

  /** Framing adds only newlines: a text without a NUL byte keeps none after framing. */
  lemma {:induction false} LinesKeepsNoNul(s: seq<Byte>)
    requires Nul !in s
    ensures Nul !in Lines(s)
    decreases |s|
  {
    if |s| >= LineWidth {
      assert Nul !in s[..LineWidth] && Nul !in s[LineWidth..] by {
        forall i | 0 <= i < |s| - LineWidth ensures s[LineWidth..][i] == s[LineWidth + i] { }
      }
      LinesKeepsNoNul(s[LineWidth..]);
    }
  }
  /** The framing of whole lines ends with the newline of the last line. */
  lemma LinesEndWithNewLine(s: seq<Byte>)
    requires |s| > 0 && |s| % LineWidth == 0
    ensures Lines(s) == Lines(s)[..|Lines(s)| - 1] + [NewLine]
  {
    var j := |s| / LineWidth - 1;
    LinesAt(s, j, LineWidth);
    assert (LineWidth + 1) * j + LineWidth == |Lines(s)| - 1;
  }
}
