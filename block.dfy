/** buildFastaBlockFromString: the string repeated cyclically into |s| lines of LineWidth
    bytes, each followed by a newline, with the last newline replaced by a NUL so that the
    block can be printed as a C string. */
module FastaBlock {
  import opened Text

  /** The n bytes of s repeated cyclically, starting at byte `from` of the cycle. */
  function Cyclic(s: seq<Byte>, from: nat, n: nat): (r: seq<Byte>)
    requires |s| > 0
    ensures |r| == n
    ensures forall i :: 0 <= i < n ==> r[i] == s[(from + i) % |s|]
  {
    seq(n, i requires 0 <= i < n => s[(from + i) % |s|])
  }

  /** The block the builder is meant to produce: LineWidth * |s| bytes of the cycle in
      lines, the last newline replaced by the terminator. */
  function Block(s: seq<Byte>): (b: seq<Byte>)
    requires |s| > 0
    ensures |b| == |s| * (LineWidth + 1)
    ensures b[|b| - 1] == Nul
  {
    var text := Lines(Cyclic(s, 0, LineWidth * |s|));
    text[..|text| - 1] + [Nul]
  }

  /** Where each byte of the block comes from: byte (LineWidth + 1) * j + k of line j is
      byte (LineWidth * j + k) mod |s| of the string, byte LineWidth of each line but the
      last is a newline, and the block ends with the terminator. */
  lemma BlockAt(s: seq<Byte>, j: nat, k: nat)
    requires |s| > 0 && j < |s| && k <= LineWidth
    ensures (LineWidth + 1) * j + k < |Block(s)|
    ensures Block(s)[(LineWidth + 1) * j + k] ==
      if k < LineWidth then s[(LineWidth * j + k) % |s|]
      else if j < |s| - 1 then NewLine
      else Nul
  {
    var c := Cyclic(s, 0, LineWidth * |s|);
    if k < LineWidth || j < |s| - 1 {
      LinesAt(c, j, k);
    }
  }

  lemma MulAtLeast(a: int, m: nat)
    requires a >= 1
    ensures a * m >= m
  {
  }

  /** Euclidean division is unique: a remainder below m fixes the quotient and remainder. */
  lemma ModUnique(y: int, q: int, r: int, m: nat)
    requires m > 0 && 0 <= r < m && y == q * m + r
    ensures y % m == r
  {
    var q', r' := y / m, y % m;
    assert y == q' * m + r';
    assert (q - q') * m == r' - r;
    if q > q' {
      MulAtLeast(q - q', m);
    } else if q' > q {
      MulAtLeast(q' - q, m);
    }
  }

  /** One turn of the builder loop: up to LineWidth bytes from `offset` on, the rest of the
      line from the start of the string, then a newline. `offset` is the cycle position
      `from` less q whole turns of the string; it may stand at |s| itself. */
  method CopyLine(s: seq<Byte>, block: array<Byte>, pos: nat, offset: nat,
                  ghost from: nat, ghost q: nat)
      returns (offset': nat, ghost q': nat)
    requires LineWidth <= |s| && offset <= |s| && from == q * |s| + offset
    requires pos + LineWidth + 1 <= block.Length
    modifies block
    ensures offset' <= |s| && from + LineWidth == q' * |s| + offset'
    ensures block[..pos + LineWidth + 1] == old(block[..pos]) + Cyclic(s, from, LineWidth) + [NewLine]
  {
    var firstCount := if LineWidth <= |s| - offset then LineWidth else |s| - offset;
    forall k | 0 <= k < firstCount {
      block[pos + k] := s[offset + k];
    }
    offset' := offset + firstCount;
    q' := q;
    var secondCount := LineWidth - firstCount;
    if secondCount > 0 {
      forall k | 0 <= k < secondCount {
        block[pos + firstCount + k] := s[k];
      }
      offset' := secondCount;
      q' := q + 1;
      assert from + LineWidth == (q + 1) * |s| + secondCount;
    }
    block[pos + LineWidth] := NewLine;
    forall p | pos <= p < pos + LineWidth
      ensures block[p] == s[(from + (p - pos)) % |s|]
    {
      var i := p - pos;
      if i < firstCount {
        ModUnique(from + i, q, offset + i, |s|);
      } else {
        assert from + i == (q + 1) * |s| + (i - firstCount);
        ModUnique(from + i, q + 1, i - firstCount, |s|);
      }
    }
    forall i | 0 <= i < LineWidth + 1
      ensures block[pos..pos + LineWidth + 1][i] == (Cyclic(s, from, LineWidth) + [NewLine])[i]
    {
      if i < LineWidth {
        assert block[pos..pos + LineWidth + 1][i] == block[pos + i];
      }
    }
    assert block[..pos + LineWidth + 1] == block[..pos] + block[pos..pos + LineWidth + 1];
  }

  /** The cycle grows by one line at a time: the framing of one more line is the framing
      so far followed by that line and its newline. */
  lemma CyclicLine(s: seq<Byte>, line: nat)
    requires |s| > 0
    ensures Lines(Cyclic(s, 0, LineWidth * (line + 1))) ==
      Lines(Cyclic(s, 0, LineWidth * line)) + Cyclic(s, LineWidth * line, LineWidth) + [NewLine]
  {
    var a := Cyclic(s, 0, LineWidth * line);
    var b := Cyclic(s, LineWidth * line, LineWidth);
    assert Cyclic(s, 0, LineWidth * (line + 1)) == a + b;
    LinesAppend(a, b);
    assert b[..LineWidth] == b;
    assert Lines(b[LineWidth..]) == [];
  }

  /** Line `line` of `lines` ends inside the block. */
  lemma LineFits(line: nat, lines: nat)
    requires line < lines
    ensures (LineWidth + 1) * line + LineWidth + 1 <= lines * (LineWidth + 1)
  {
  }

  /** buildFastaBlockFromString on a string of at least one line. */
  method BuildFastaBlock(s: seq<Byte>) returns (block: array<Byte>)
    requires |s| >= LineWidth
    ensures block.Length == |s| * (LineWidth + 1)
    ensures block[..] == Block(s)
  {
    block := new Byte[|s| * (LineWidth + 1)];
    var pos: nat := 0;
    var offset: nat := 0;
    ghost var turns: nat := 0;
    for line := 0 to |s|
      invariant pos == (LineWidth + 1) * line
      invariant offset <= |s| && LineWidth * line == turns * |s| + offset
      invariant block[..pos] == Lines(Cyclic(s, 0, LineWidth * line))
    {
      LineFits(line, |s|);
      offset, turns := CopyLine(s, block, pos, offset, LineWidth * line, turns);
      CyclicLine(s, line);
      pos := pos + LineWidth + 1;
    }
    block[pos - 1] := Nul;
    assert block[..] == block[..pos - 1] + [Nul];
  }
}
