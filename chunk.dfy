/**
 * Bytecode chunks (src/chunk.c, include/chunk.h): the opcodes, the code
 * array with its per-line byte counters, the constant pool, and the stack
 * effect of straight-line code.
 */
module Chunks {
  import opened Common
  import opened Memory
  import opened Values

  // The OpCode enumeration, in declaration order.
  const OP_CONSTANT: Byte := 0
  const OP_NIL: Byte := 1
  const OP_TRUE: Byte := 2
  const OP_FALSE: Byte := 3
  const OP_NOT: Byte := 4
  const OP_EQUAL: Byte := 5
  const OP_GREATER: Byte := 6
  const OP_LESS: Byte := 7
  const OP_NEGATE: Byte := 8
  const OP_ADD: Byte := 9
  const OP_SUBTRACT: Byte := 10
  const OP_MULTIPLY: Byte := 11
  const OP_DIVIDE: Byte := 12
  const OP_RETURN: Byte := 13

  /** The opcodes that pop two operands and push one result. */
  predicate IsBinaryOp(op: Byte) {
    op == OP_EQUAL || op == OP_GREATER || op == OP_LESS ||
    op == OP_ADD || op == OP_SUBTRACT || op == OP_MULTIPLY || op == OP_DIVIDE
  }

  // ---------------------------------------------------------------------------
  // The line counters

  /** The counter of line `l`; lines past the end of the array count zero. */
  function CountAt(s: seq<nat>, l: nat): nat {
    if l < |s| then s[l] else 0
  }

  /** `items[0] + ... + items[r - 1]`, the bytes on lines below `r`. */
  function PrefixSum(s: seq<nat>, r: nat): nat {
    if r == 0 then 0 else PrefixSum(s, r - 1) + CountAt(s, r - 1)
  }

  /** How many bytes of the chunk sit on lines below `r`. */
  function CountBelow(lines: seq<nat>, r: nat): nat {
    if lines == [] then 0 else CountBelow(lines[..|lines| - 1], r) + (if lines[|lines| - 1] < r then 1 else 0)
  }

  /**
   * write_line's growth as written: grow once, then keep growing while the
   * capacity is below `line`. It stops as soon as the capacity reaches
   * `line`, which leaves `items[line]` one past the end.
   */
  function GrowToAtLeast(c: nat, line: nat): (r: nat)
    ensures r >= line && r >= c
    decreases line + 1 - c
  {
    GrowCapacityBounds(c);
    if c < line then GrowToAtLeast(GrowCapacity(c), line) else c
  }

  /** The growth write_line needs: keep growing while the capacity is not above `line`. */
  function GrowPast(c: nat, line: nat): (r: nat)
    ensures r > line && r >= c
    decreases line + 1 - c
  {
    GrowCapacityBounds(c);
    if c <= line then GrowPast(GrowCapacity(c), line) else c
  }

  /**
   * The growth loop of write_line as written leaves no room for line 8 in an
   * empty counter array: the new capacity is exactly 8.
   */
  lemma GrowToAtLeastOverrun()
    ensures GrowToAtLeast(GrowCapacity(0), 8) == 8
  {
  }

  /** Both loops agree except when the capacity lands exactly on `line`. */
  lemma {:induction false} GrowPastAgrees(c: nat, line: nat)
    ensures GrowToAtLeast(c, line) != line ==> GrowPast(c, line) == GrowToAtLeast(c, line)
    ensures GrowToAtLeast(c, line) == line ==> GrowPast(c, line) == GrowCapacity(line)
    decreases line + 1 - c
  {
    GrowCapacityBounds(c);
    if c < line {
      GrowPastAgrees(GrowCapacity(c), line);
    } else if c == line {
      GrowCapacityBounds(c);
    }
  }

  /**
   * The per-line counters (LineArray): `items[l]` is the number of code
   * bytes written on source line `l`. `count` is never used by the source
   * and stays 0.
   */
  class LineArray {
    var count: nat
    var alloc: nat
    var items: array<nat>

    ghost predicate Valid()
      reads this
    {
      items.Length == alloc && count == 0
    }

    /** init_LineArray */
    constructor ()
      ensures Valid() && alloc == 0 && items[..] == [] && fresh(items)
    {
      count := 0;
      alloc := 0;
      items := new nat[0];
    }

    /**
     * write_line (with the corrected growth loop): make room for index
     * `line`, zero-filling the new slots, then add one to the counter of
     * `line`; every other counter is unchanged.
     */
    method WriteLine(line: nat)
      requires Valid()
      modifies this, items
      ensures Valid() && (items == old(items) || fresh(items))
      ensures alloc == if line >= old(alloc) then GrowPast(GrowCapacity(old(alloc)), line) else old(alloc)
      ensures forall l :: CountAt(items[..], l) == CountAt(old(items[..]), l) + (if l == line then 1 else 0)
    {
      if line >= alloc {
        var oldAlloc := alloc;
        var newAlloc := GrowCapacity(oldAlloc);
        while newAlloc <= line
          invariant newAlloc > oldAlloc && Valid() && alloc == oldAlloc && items == old(items) && items[..] == old(items[..])
          invariant GrowPast(newAlloc, line) == GrowPast(GrowCapacity(oldAlloc), line)
          decreases line + 1 - newAlloc
        {
          GrowCapacityBounds(newAlloc);
          newAlloc := GrowCapacity(newAlloc);
        }
        GrowCapacityBounds(oldAlloc);
        var grown := new nat[newAlloc];
        forall i | 0 <= i < newAlloc {
          grown[i] := if i < oldAlloc then items[i] else 0;
        }
        alloc := newAlloc;
        items := grown;
      }
      ghost var before := items[..];
      assert forall l :: CountAt(before, l) == CountAt(old(items[..]), l);
      items[line] := items[line] + 1;
      assert items[..] == before[line := before[line] + 1];
    }
  }

  /** GROW_ARRAY on the code array: a fresh array of the new capacity holding the first `n` bytes. */
  method GrowBytes(a: array<Byte>, n: nat, capacity: nat) returns (b: array<Byte>)
    requires n <= a.Length <= capacity
    ensures fresh(b) && b.Length == capacity && b[..n] == a[..n]
  {
    b := new Byte[capacity];
    forall i | 0 <= i < a.Length {
      b[i] := a[i];
    }
  }

  /**
   * A chunk: `count` code bytes out of `alloc`, the line counters and the
   * constant pool. `lineOf[i]` is the source line byte `i` was written with.
   */
  class Chunk {
    var count: nat
    var alloc: nat
    var code: array<Byte>
    var lines: LineArray
    var constants: ValueArray
    ghost var lineOf: seq<nat>

    ghost predicate Valid()
      reads this, lines, lines.items, constants
    {
      code.Length == alloc && count <= alloc && |lineOf| == count &&
      lines.Valid() && constants.Valid() &&
      forall l :: CountAt(lines.items[..], l) == multiset(lineOf)[l]
    }

    /** The code bytes written so far. */
    ghost function Code(): seq<Byte>
      reads this, code
      requires count <= code.Length
    {
      code[..count]
    }

    /** The constant pool. */
    ghost function Constants(): seq<Value>
      reads this, constants, constants.items
      requires constants.Valid()
    {
      constants.Contents()
    }

    /** init_chunk: no code, no line counts, no constants. */
    constructor ()
      ensures Valid() && fresh(code) && fresh(lines) && fresh(lines.items) && fresh(constants) && fresh(constants.items)
      ensures Code() == [] && lineOf == [] && Constants() == [] && lines.items[..] == []
    {
      count := 0;
      alloc := 0;
      code := new Byte[0];
      lines := new LineArray();
      constants := new ValueArray();
      lineOf := [];
    }

    /**
     * write_chunk: grow the code array when full, store the byte at `count`,
     * count it on its line, and advance `count`. Earlier bytes and the
     * constants are unchanged.
     */
    method Write(byte: Byte, line: nat)
      requires Valid()
      modifies this, code, lines, lines.items
      ensures Valid() && lines == old(lines) && constants == old(constants)
      ensures Code() == old(Code()) + [byte] && lineOf == old(lineOf) + [line]
      ensures alloc == if old(alloc) < old(count) + 1 then GrowCapacity(old(alloc)) else old(alloc)
      ensures (code == old(code) || fresh(code)) && (lines.items == old(lines.items) || fresh(lines.items))
    {
      if alloc < count + 1 {
        alloc := GrowCapacity(alloc);
        code := GrowBytes(code, count, alloc);
      }
      code[count] := byte;
      ghost var before := Code();
      lines.WriteLine(line);
      assert multiset(lineOf + [line]) == multiset(lineOf) + multiset{line};
      lineOf := lineOf + [line];
      count := count + 1;
      assert Code() == before + [byte];
    }

    /** add_constant: append the value to the pool and return its index, the old pool size. */
    method AddConstant(value: Value) returns (index: nat)
      requires Valid()
      modifies constants, constants.items
      ensures Valid() && Constants() == old(Constants()) + [value]
      ensures index == |old(Constants())| && Constants()[index] == value
      ensures constants.items == old(constants.items) || fresh(constants.items)
    {
      constants.Write(value);
      index := constants.count - 1;
    }
  }

  // ---------------------------------------------------------------------------
  // The counters as a whole

  /** With counters that count each byte's line, the counters below `r` add up to the bytes below line `r`. */
  lemma {:induction false} PrefixSumCountsBelow(items: seq<nat>, lines: seq<nat>, r: nat)
    requires forall l :: CountAt(items, l) == multiset(lines)[l]
    ensures PrefixSum(items, r) == CountBelow(lines, r)
  {
    if r > 0 {
      assert CountAt(items, r - 1) == multiset(lines)[r - 1];
      assert PrefixSum(items, r) == PrefixSum(items, r - 1) + CountAt(items, r - 1);
      PrefixSumCountsBelow(items, lines, r - 1);
      CountBelowStep(lines, r - 1);
      assert CountBelow(lines, r) == CountBelow(lines, r - 1) + multiset(lines)[r - 1];
    } else {
      CountBelowBounds(lines, r);
    }
  }

  lemma {:induction false} CountBelowStep(lines: seq<nat>, r: nat)
    ensures CountBelow(lines, r + 1) == CountBelow(lines, r) + multiset(lines)[r]
  {
    if lines != [] {
      var init := lines[..|lines| - 1];
      assert lines == init + [lines[|lines| - 1]];
      CountBelowStep(init, r);
    }
  }

  lemma {:induction false} CountBelowBounds(lines: seq<nat>, r: nat)
    ensures CountBelow(lines, r) <= |lines|
    ensures (forall i :: 0 <= i < |lines| ==> lines[i] < r) ==> CountBelow(lines, r) == |lines|
    ensures r == 0 ==> CountBelow(lines, r) == 0
  {
    if lines != [] {
      CountBelowBounds(lines[..|lines| - 1], r);
    }
  }

  ghost predicate NonDecreasing(s: seq<nat>) {
    forall i, j :: 0 <= i <= j < |s| ==> s[i] <= s[j]
  }

  /**
   * When the lines never go down, more than `k` bytes lie below line `r`
   * exactly when byte `k` itself does.
   */
  lemma {:induction false} CountBelowSorted(lines: seq<nat>, r: nat, k: nat)
    requires NonDecreasing(lines) && k < |lines|
    ensures CountBelow(lines, r) > k <==> lines[k] < r
  {
    var n := |lines| - 1;
    var init := lines[..n];
    CountBelowBounds(init, r);
    if k < n {
      CountBelowSorted(init, r, k);
    } else if lines[n] < r {
      CountBelowBounds(lines, r);
    }
  }

  /** The counters add up to the number of bytes written. */
  lemma TotalIsCount(c: Chunk)
    requires c.Valid()
    ensures PrefixSum(c.lines.items[..], c.lines.alloc) == c.count
  {
    PrefixSumCountsBelow(c.lines.items[..], c.lineOf, c.lines.alloc);
    forall i | 0 <= i < |c.lineOf|
      ensures c.lineOf[i] < c.lines.alloc
    {
      assert c.lineOf[i] in multiset(c.lineOf);
    }
    CountBelowBounds(c.lineOf, c.lines.alloc);
  }

  // ---------------------------------------------------------------------------
  // Stack effect of straight-line code

  /**
   * Simulates the stack depth over code[i..] starting at depth `d`: the final
   * depth, or None when an operand is missing, a constant index is outside
   * the pool, or the code holds OP_RETURN or an unknown byte.
   */
  function Run(code: seq<Byte>, nconst: nat, i: nat, d: nat): Option<nat>
    requires i <= |code|
    decreases |code| - i
  {
    if i == |code| then Some(d)
    else
      var op := code[i];
      if op == OP_CONSTANT then
        if i + 1 < |code| && code[i + 1] < nconst then Run(code, nconst, i + 2, d + 1) else None
      else if op == OP_NIL || op == OP_TRUE || op == OP_FALSE then Run(code, nconst, i + 1, d + 1)
      else if op == OP_NOT || op == OP_NEGATE then
        if d >= 1 then Run(code, nconst, i + 1, d) else None
      else if IsBinaryOp(op) then
        if d >= 2 then Run(code, nconst, i + 1, d - 1) else None
      else None
  }

  /** Code for one expression: it leaves exactly one more value on the stack. */
  ghost predicate ExprCode(code: seq<Byte>, nconst: nat) {
    ExprCodeAt(code, nconst, 2)
  }

  /** ExprCode, reached through `depth` steps the verifier takes only where a proof asks for them. */
  ghost predicate ExprCodeAt(code: seq<Byte>, nconst: nat, depth: nat)
    decreases depth
  {
    if depth > 0 then ExprCodeAt(code, nconst, depth - 1) else Run(code, nconst, 0, 0) == Some(1)
  }

  lemma ExprCodeIs(code: seq<Byte>, nconst: nat)
    ensures ExprCode(code, nconst) <==> Run(code, nconst, 0, 0) == Some(1)
  {
    assert ExprCodeAt(code, nconst, 2) == ExprCodeAt(code, nconst, 1) == ExprCodeAt(code, nconst, 0);
  }

  /** Extra values below do not change what straight-line code does to the stack. */
  lemma {:induction false} RunShift(code: seq<Byte>, nconst: nat, i: nat, d: nat, k: nat)
    requires i <= |code| && Run(code, nconst, i, d).Some?
    ensures Run(code, nconst, i, d + k) == Some(Run(code, nconst, i, d).value + k)
    decreases |code| - i
  {
    if i < |code| {
      var op := code[i];
      if op == OP_CONSTANT {
        RunShift(code, nconst, i + 2, d + 1, k);
      } else if op == OP_NIL || op == OP_TRUE || op == OP_FALSE {
        RunShift(code, nconst, i + 1, d + 1, k);
      } else if op == OP_NOT || op == OP_NEGATE {
        RunShift(code, nconst, i + 1, d, k);
      } else {
        RunShift(code, nconst, i + 1, d - 1, k);
      }
    }
  }

  /** Running a concatenation runs the second part from where the first one ends. */
  lemma {:induction false} RunConcat(a: seq<Byte>, b: seq<Byte>, nconst: nat, i: nat, d: nat)
    requires i <= |a| && Run(a, nconst, i, d).Some?
    ensures Run(a + b, nconst, i, d) == Run(b, nconst, 0, Run(a, nconst, i, d).value)
    decreases |a| - i
  {
    var ab := a + b;
    if i == |a| {
      RunSuffix(ab, |a|, b, nconst, 0, d);
    } else {
      var op := a[i];
      assert ab[i] == op;
      if op == OP_CONSTANT {
        assert ab[i + 1] == a[i + 1];
        RunConcat(a, b, nconst, i + 2, d + 1);
      } else if op == OP_NIL || op == OP_TRUE || op == OP_FALSE {
        RunConcat(a, b, nconst, i + 1, d + 1);
      } else if op == OP_NOT || op == OP_NEGATE {
        RunConcat(a, b, nconst, i + 1, d);
      } else {
        RunConcat(a, b, nconst, i + 1, d - 1);
      }
    }
  }

  /** Running from offset `off + j` of `code` runs its suffix `b` from `j`. */
  lemma {:induction false} RunSuffix(code: seq<Byte>, off: nat, b: seq<Byte>, nconst: nat, j: nat, d: nat)
    requires off <= |code| && code[off..] == b && j <= |b|
    ensures Run(code, nconst, off + j, d) == Run(b, nconst, j, d)
    decreases |b| - j
  {
    if j < |b| {
      assert code[off + j] == b[j];
      if j + 1 < |b| {
        assert code[off + j + 1] == b[j + 1];
      }
      if j + 2 <= |b| {
        RunSuffix(code, off, b, nconst, j + 2, d + 1);
      }
      RunSuffix(code, off, b, nconst, j + 1, d + 1);
      RunSuffix(code, off, b, nconst, j + 1, d);
      if d >= 1 {
        RunSuffix(code, off, b, nconst, j + 1, d - 1);
      }
    }
  }

  /** A larger constant pool keeps valid code valid. */
  lemma {:induction false} RunMorePool(code: seq<Byte>, n: nat, m: nat, i: nat, d: nat)
    requires n <= m && i <= |code| && Run(code, n, i, d).Some?
    ensures Run(code, m, i, d) == Run(code, n, i, d)
    decreases |code| - i
  {
    if i < |code| {
      var op := code[i];
      if op == OP_CONSTANT {
        RunMorePool(code, n, m, i + 2, d + 1);
      } else if op == OP_NIL || op == OP_TRUE || op == OP_FALSE {
        RunMorePool(code, n, m, i + 1, d + 1);
      } else if op == OP_NOT || op == OP_NEGATE {
        RunMorePool(code, n, m, i + 1, d);
      } else {
        RunMorePool(code, n, m, i + 1, d - 1);
      }
    }
  }

  /** OP_CONSTANT with an index inside the pool is an expression. */
  lemma ConstantIsExpr(index: Byte, nconst: nat)
    requires index < nconst
    ensures ExprCode([OP_CONSTANT, index], nconst)
  {
    ExprCodeIs([OP_CONSTANT, index], nconst);
  }

  /** A literal opcode alone is an expression. */
  lemma LiteralIsExpr(op: Byte, nconst: nat)
    requires op == OP_NIL || op == OP_TRUE || op == OP_FALSE
    ensures ExprCode([op], nconst)
  {
    ExprCodeIs([op], nconst);
  }

  /** An expression followed by OP_NEGATE or OP_NOT is an expression. */
  lemma UnaryIsExpr(a: seq<Byte>, op: Byte, nconst: nat)
    requires ExprCode(a, nconst) && (op == OP_NEGATE || op == OP_NOT)
    ensures ExprCode(a + [op], nconst)
  {
    ExprCodeIs(a, nconst);
    ExprCodeIs(a + [op], nconst);
    RunConcat(a, [op], nconst, 0, 0);
  }

  /** Two expressions followed by a binary opcode, and optionally OP_NOT, form an expression. */
  lemma BinaryIsExpr(a: seq<Byte>, b: seq<Byte>, ops: seq<Byte>, nconst: nat)
    requires ExprCode(a, nconst) && ExprCode(b, nconst)
    requires |ops| == 1 || |ops| == 2
    requires IsBinaryOp(ops[0]) && (|ops| == 2 ==> ops[1] == OP_NOT)
    ensures ExprCode(a + b + ops, nconst)
  {
    ExprCodeIs(a, nconst);
    ExprCodeIs(b, nconst);
    ExprCodeIs(a + b + ops, nconst);
    RunConcat(a, b + ops, nconst, 0, 0);
    RunShift(b, nconst, 0, 0, 1);
    RunConcat(b, ops, nconst, 0, 1);
    assert Run(ops, nconst, 1, 1) == Some(1) by {
      if |ops| == 2 {
        assert Run(ops, nconst, 2, 1) == Some(1);
      }
    }
    assert a + b + ops == a + (b + ops);
  }
}
