/**
 * The arithmetic of the disassembler (src/debug.c): the source line of a
 * byte offset, and the offset of the next instruction. Printing is not
 * modelled.
 */
module Debug {
  import opened Common
  import opened Chunks

  lemma {:induction false} PrefixSumMonotone(s: seq<nat>, a: nat, b: nat)
    requires a <= b
    ensures PrefixSum(s, a) <= PrefixSum(s, b)
    decreases b - a
  {
    if a < b {
      PrefixSumMonotone(s, a, b - 1);
    }
  }

  /** get_line's answer `r` for `offset`: the smallest `r` with items[0] + ... + items[r - 1] > offset. */
  ghost predicate IsGetLine(items: seq<nat>, offset: nat, r: nat) {
    r >= 1 && PrefixSum(items, r) > offset && PrefixSum(items, r - 1) <= offset
  }

  /**
   * get_line as written: add up the counters from line 0 until the total
   * passes `offset`, counting the lines added. It only stops when `offset`
   * is below the total, the number of bytes written.
   */
  method GetLine(c: Chunk, offset: nat) returns (result: nat)
    requires c.Valid() && offset < c.count
    ensures IsGetLine(c.lines.items[..], offset, result)
  {
    ghost var items := c.lines.items[..];
    TotalIsCount(c);
    result := 0;
    var i := 0;
    while i <= offset
      invariant i == PrefixSum(items, result) && result <= c.lines.alloc
      invariant result == 0 || PrefixSum(items, result - 1) <= offset
      decreases c.lines.alloc - result
    {
      assert result < c.lines.alloc;
      i := i + c.lines.items[result];
      result := result + 1;
    }
  }

  /** The answer for a later offset is never an earlier line. */
  lemma GetLineMonotone(items: seq<nat>, o1: nat, o2: nat, r1: nat, r2: nat)
    requires o1 <= o2 && IsGetLine(items, o1, r1) && IsGetLine(items, o2, r2)
    ensures r1 <= r2
  {
    if r2 < r1 {
      PrefixSumMonotone(items, r2, r1 - 1);
    }
  }

  /**
   * When the bytes were written in line order, get_line answers one more
   * than the line the byte was written on.
   */
  lemma GetLineOffByOne(items: seq<nat>, lineOf: seq<nat>, offset: nat, r: nat)
    requires forall l :: CountAt(items, l) == multiset(lineOf)[l]
    requires NonDecreasing(lineOf) && offset < |lineOf| && IsGetLine(items, offset, r)
    ensures r == lineOf[offset] + 1
  {
    PrefixSumCountsBelow(items, lineOf, r);
    PrefixSumCountsBelow(items, lineOf, r - 1);
    CountBelowSorted(lineOf, r, offset);
    CountBelowSorted(lineOf, r - 1, offset);
  }

  /** One byte written on line 1: get_line reports line 2 for it. */
  lemma GetLineCounterexample()
    ensures forall l :: CountAt([0, 1], l) == multiset([1])[l]
    ensures IsGetLine([0, 1], 0, 2)
  {
    assert PrefixSum([0, 1], 1) == 0;
  }

  /**
   * The line a byte was written on: get_line's count of lines minus the
   * one it adds too many.
   */
  method SourceLine(c: Chunk, offset: nat) returns (line: nat)
    requires c.Valid() && offset < c.count
    ensures IsGetLine(c.lines.items[..], offset, line + 1)
    ensures NonDecreasing(c.lineOf) ==> line == c.lineOf[offset]
  {
    var r := GetLine(c, offset);
    line := r - 1;
    if NonDecreasing(c.lineOf) {
      GetLineOffByOne(c.lines.items[..], c.lineOf, offset, r);
    }
  }

  /**
   * The next offset disassemble_instruction returns, as written: for
   * OP_CONSTANT, instruction_constant takes the offset as a `u8`, so it
   * returns `(offset mod 256) + 2`; every other byte, known or not, takes one.
   */
  function NextOffsetAsWritten(code: seq<Byte>, offset: nat): nat
    requires offset < |code|
  {
    if code[offset] == OP_CONSTANT then offset % 256 + 2 else offset + 1
  }

  /** The next offset without the truncation: two bytes for OP_CONSTANT, one otherwise. */
  function NextOffset(code: seq<Byte>, offset: nat): nat
    requires offset < |code|
  {
    if code[offset] == OP_CONSTANT then offset + 2 else offset + 1
  }

  /** The two agree below offset 256 and whenever the byte is not OP_CONSTANT. */
  lemma NextOffsetAgrees(code: seq<Byte>, offset: nat)
    requires offset < |code|
    ensures (offset < 256 || code[offset] != OP_CONSTANT) <==> NextOffsetAsWritten(code, offset) == NextOffset(code, offset)
    ensures NextOffset(code, offset) > offset
  {
  }

  /**
   * 256 bytes of OP_NIL and then an OP_CONSTANT: from offset 256 the
   * disassembler as written jumps back to offset 2 and walks up to 256
   * again, forever, unless printing the constant at index `code[1]`, past
   * the pool, crashes first.
   */
  lemma DisassemblyCycles()
    ensures var code := seq(256, _ => OP_NIL) + [OP_CONSTANT, 0];
      NextOffsetAsWritten(code, 256) == 2 &&
      forall k :: 2 <= k < 256 ==> NextOffsetAsWritten(code, k) == k + 1
  {
  }

  /** The offsets disassemble_chunk visits from `offset` on, with the corrected step. */
  function Visits(code: seq<Byte>, offset: nat): seq<nat>
    decreases |code| - offset
  {
    if offset >= |code| then [] else [offset] + Visits(code, NextOffset(code, offset))
  }

  /** The visited offsets rise strictly, stay inside the code, and start where asked. */
  lemma {:induction false} VisitsIncreasing(code: seq<Byte>, offset: nat)
    ensures var v := Visits(code, offset);
      (forall i :: 0 <= i < |v| ==> offset <= v[i] < |code|) &&
      (forall i, j :: 0 <= i < j < |v| ==> v[i] < v[j]) &&
      (offset < |code| ==> |v| > 0 && v[0] == offset)
    decreases |code| - offset
  {
    if offset < |code| {
      VisitsIncreasing(code, NextOffset(code, offset));
    }
  }

  /**
   * disassemble_chunk's loop with the corrected step: the offsets of the
   * instructions it prints, in order.
   */
  method DisassembleChunk(c: Chunk) returns (visited: seq<nat>)
    requires c.Valid()
    ensures visited == Visits(c.Code(), 0)
  {
    ghost var code := c.Code();
    visited := [];
    var offset := 0;
    while offset < c.count
      invariant visited + Visits(code, offset) == Visits(code, 0)
      decreases c.count - offset
    {
      visited := visited + [offset];
      var next := if c.code[offset] == OP_CONSTANT then offset + 2 else offset + 1;
      assert next == NextOffset(code, offset);
      offset := next;
    }
  }
}
