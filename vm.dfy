/**
 * The virtual machine (vm.c, include/vm.h): a fixed stack of 256 values,
 * the fetch-decode-execute loop over one chunk, and `interpret`, which
 * compiles a source text and runs it.
 *
 * The meaning of one instruction is the function `Step` over the code, the
 * constant pool, the offset of the next instruction and the stack (bottom first); `Exec`
 * runs `Step` until the program stops. The class `VM` is the machine with the
 * source's array and stack top, and its `Run` is proved to compute `Exec`.
 */
module VirtualMachine {
  import opened Common
  import opened Values
  import opened Chunks
  import Objects
  import Lexer
  import Compiler

  /** STACK_MAX: the number of slots in the value stack. */
  const STACK_MAX := 256

  datatype InterpretResult = InterpretOk | InterpretCompileError | InterpretRuntimeError

  /**
   * What one instruction, or a whole run, leads to:
   * `Next` continues at `ip` with `stack`; `Done` returns `result` with the
   * stack left behind and the value OP_RETURN printed; `Undefined` is a
   * read outside the stack, the code or the constant pool, which C leaves
   * undefined; `Overflow` is a push onto a full stack.
   */
  datatype Outcome =
    | Next(ip: nat, stack: seq<Value>)
    | Done(result: InterpretResult, stack: seq<Value>, printed: Option<Value>)
    | Undefined
    | Overflow

  /** The outcome of every runtime error: vm_error empties the stack. */
  const Failed := Done(InterpretRuntimeError, [], None)

  /** is_falsey: nil and false are falsey, every other value is truthy. */
  predicate IsFalsey(v: Value) {
    IsNil(v) || (IsBool(v) && !AsBool(v))
  }

  lemma FalseyValues(v: Value)
    ensures IsFalsey(v) <==> v == Nil || v == Bool(false)
  {
  }

  /** The arithmetic and comparison opcodes that go through binary_op. */
  predicate IsNumericOp(op: Byte) {
    op == OP_GREATER || op == OP_LESS || OP_ADD <= op <= OP_DIVIDE
  }

  /** The value binary_op pushes for two numbers. */
  function Apply(op: Byte, a: real, b: real): Value
    requires IsNumericOp(op)
  {
    if op == OP_GREATER then Bool(a > b)
    else if op == OP_LESS then Bool(a < b)
    else if op == OP_ADD then Number(a + b)
    else if op == OP_SUBTRACT then Number(a - b)
    else if op == OP_MULTIPLY then Number(a * b)
    else if b == 0.0 then Number(0.0)
    else Number(a / b)
  }

  /** push: a full stack is an overflow. */
  function PushOutcome(st: seq<Value>, v: Value, next: nat): Outcome {
    if |st| >= STACK_MAX then Overflow else Next(next, st + [v])
  }

  /** OP_EQUAL pops two values without looking at the stack's height. */
  function EqualOutcome(st: seq<Value>, next: nat): Outcome {
    if |st| < 2 then Undefined
    else Next(next, st[..|st| - 2] + [Bool(ValuesEqual(st[|st| - 2], st[|st| - 1]))])
  }

  /**
   * binary_op: peek(0) must be a number, then peek(1) must be one; the two
   * are replaced by the result. A peek below the stack is undefined.
   */
  function BinaryOpOutcome(op: Byte, st: seq<Value>, next: nat): Outcome
    requires IsNumericOp(op)
  {
    if |st| == 0 then Undefined
    else if !IsNumber(st[|st| - 1]) then Failed
    else if |st| == 1 then Undefined
    else if !IsNumber(st[|st| - 2]) then Failed
    else Next(next, st[..|st| - 2] + [Apply(op, st[|st| - 2].number, st[|st| - 1].number)])
  }

  /** OP_ADD .. OP_DIVIDE: fewer than two values is reported as a compile error. */
  function ArithOutcome(op: Byte, st: seq<Value>, next: nat): Outcome
    requires OP_ADD <= op <= OP_DIVIDE
  {
    if |st| <= 1 then Done(InterpretCompileError, st, None)
    else BinaryOpOutcome(op, st, next)
  }

  /** OP_NOT pops without looking at the stack's height. */
  function NotOutcome(st: seq<Value>, next: nat): Outcome {
    if |st| == 0 then Undefined
    else Next(next, st[..|st| - 1] + [Bool(IsFalsey(st[|st| - 1]))])
  }

  /** OP_NEGATE: an empty stack and a non-number are runtime errors. */
  function NegateOutcome(st: seq<Value>, next: nat): Outcome {
    if |st| == 0 then Failed
    else if !IsNumber(st[|st| - 1]) then Failed
    else Next(next, st[..|st| - 1] + [Number(-st[|st| - 1].number)])
  }

  /** OP_RETURN pops and prints the top value. */
  function ReturnOutcome(st: seq<Value>): Outcome {
    if |st| == 0 then Undefined
    else Done(InterpretOk, st[..|st| - 1], Some(st[|st| - 1]))
  }

  /** One pass of run's loop: read an opcode at `ip` and execute it. */
  function Step(code: seq<Byte>, constants: seq<Value>, ip: nat, st: seq<Value>): (r: Outcome)
    ensures r.Next? ==> ip < r.ip <= |code|
  {
    if ip >= |code| then Undefined
    else
      var op := code[ip];
      if op == OP_CONSTANT then
        if ip + 1 >= |code| || code[ip + 1] >= |constants| then Undefined
        else PushOutcome(st, constants[code[ip + 1]], ip + 2)
      else if op == OP_NIL then PushOutcome(st, Nil, ip + 1)
      else if op == OP_TRUE then PushOutcome(st, Bool(true), ip + 1)
      else if op == OP_FALSE then PushOutcome(st, Bool(false), ip + 1)
      else if op == OP_EQUAL then EqualOutcome(st, ip + 1)
      else if op == OP_GREATER || op == OP_LESS then BinaryOpOutcome(op, st, ip + 1)
      else if op == OP_NOT then NotOutcome(st, ip + 1)
      else if op == OP_NEGATE then NegateOutcome(st, ip + 1)
      else if OP_ADD <= op <= OP_DIVIDE then ArithOutcome(op, st, ip + 1)
      else if op == OP_RETURN then ReturnOutcome(st)
      else Done(InterpretCompileError, st, None)
  }

  /**
   * run: steps until an instruction stops the machine. A run always stops,
   * and every runtime error leaves the stack empty and prints nothing.
   */
  function Exec(code: seq<Byte>, constants: seq<Value>, ip: nat, st: seq<Value>): (r: Outcome)
    ensures !r.Next?
    ensures r.Done? && r.result == InterpretRuntimeError ==> r.stack == [] && r.printed == None
    decreases |code| - ip
  {
    var o := Step(code, constants, ip, st);
    if o.Next? then Exec(code, constants, o.ip, o.stack) else o
  }

  /** The corrected machine reports an overflow as a runtime error. */
  function Corrected(o: Outcome): Outcome {
    if o.Overflow? then Failed else o
  }

  // ---------------------------------------------------------------------------
  // The machine

  class VM {
    /** `Value stack[STACK_MAX]` and the index that `stack_top` points at. */
    const stack: array<Value>
    var stackTop: nat
    /** The chunk being run: its code and its constant pool. */
    var code: seq<Byte>
    var constants: seq<Value>
    /** `ip` as an offset into the code. */
    var ip: nat

    ghost predicate Valid()
      reads this
    {
      stack.Length == STACK_MAX && stackTop <= STACK_MAX
    }

    /** The live part of the stack, bottom first. */
    ghost function Stack(): seq<Value>
      reads this, stack
      requires Valid()
    {
      stack[..stackTop]
    }

    /** `VM vm;` and init_VM: an empty stack and no chunk. */
    constructor ()
      ensures Valid() && Stack() == [] && code == [] && constants == [] && ip == 0
    {
      stack := new Value[STACK_MAX](_ => Nil);
      stackTop := 0;
      code := [];
      constants := [];
      ip := 0;
    }

    /** reset_stack. */
    method ResetStack()
      requires Valid()
      modifies this
      ensures Valid() && Stack() == []
      ensures code == old(code) && constants == old(constants) && ip == old(ip)
    {
      stackTop := 0;
    }

    /** stack_is_empty. */
    method StackIsEmpty() returns (b: bool)
      requires Valid()
      ensures b <==> Stack() == []
    {
      b := stackTop == 0;
    }

    /** stack_has: exactly `items` values are on the stack. */
    method StackHas(items: int) returns (b: bool)
      requires Valid()
      ensures b <==> |Stack()| == items
    {
      b := stackTop == items;
    }

    /** peek: the value `distance` slots below the top. */
    method Peek(distance: nat) returns (v: Value)
      requires Valid() && distance < |Stack()|
      ensures v == Stack()[|Stack()| - 1 - distance]
    {
      v := stack[stackTop - 1 - distance];
    }

    /**
     * push, as written: it stores without a bound check, so the caller must
     * know that the stack is not full.
     */
    method Push(value: Value)
      requires Valid() && |Stack()| < STACK_MAX
      modifies this, stack
      ensures Valid() && Stack() == old(Stack()) + [value]
      ensures code == old(code) && constants == old(constants) && ip == old(ip)
    {
      stack[stackTop] := value;
      stackTop := stackTop + 1;
    }

    /** pop: the top value, removed. */
    method Pop() returns (v: Value)
      requires Valid() && |Stack()| > 0
      modifies this
      ensures Valid() && old(Stack()) == Stack() + [v]
      ensures code == old(code) && constants == old(constants) && ip == old(ip)
    {
      stackTop := stackTop - 1;
      v := stack[stackTop];
    }

    /** vm_error, less the message: the stack is reset. */
    method RuntimeError()
      requires Valid()
      modifies this
      ensures Valid() && Stack() == []
      ensures code == old(code) && constants == old(constants) && ip == old(ip)
    {
      ResetStack();
    }

    /** The machine's state after an instruction agrees with the outcome `o`. */
    ghost predicate Matches(o: Outcome, done: bool, result: InterpretResult, printed: Option<Value>)
      reads this, stack
      requires Valid()
    {
      if o.Next? then !done && ip == o.ip && Stack() == o.stack
      else
        var c := Corrected(o);
        done && c.Done? && result == c.result && Stack() == c.stack && printed == c.printed
    }

    /** push with the bound check the corrected machine adds. */
    method PushChecked(value: Value) returns (done: bool, result: InterpretResult)
      requires Valid()
      modifies this, stack
      ensures Valid() && code == old(code) && constants == old(constants)
      ensures Matches(PushOutcome(old(Stack()), value, old(ip)), done, result, None)
    {
      if stackTop == STACK_MAX {
        RuntimeError();
        return true, InterpretRuntimeError;
      }
      Push(value);
      return false, InterpretOk;
    }

    /** OP_EQUAL. */
    method Equal() returns (done: bool, result: InterpretResult)
      requires Valid() && EqualOutcome(Stack(), ip) != Undefined
      modifies this, stack
      ensures Valid() && code == old(code) && constants == old(constants)
      ensures Matches(EqualOutcome(old(Stack()), old(ip)), done, result, None)
    {
      var b := Pop();
      var a := Pop();
      Push(Bool(ValuesEqual(a, b)));
      return false, InterpretOk;
    }

    /** binary_op. */
    method BinaryOp(op: Byte) returns (done: bool, result: InterpretResult)
      requires Valid() && IsNumericOp(op) && BinaryOpOutcome(op, Stack(), ip) != Undefined
      modifies this, stack
      ensures Valid() && code == old(code) && constants == old(constants)
      ensures Matches(BinaryOpOutcome(op, old(Stack()), old(ip)), done, result, None)
    {
      var top := Peek(0);
      if !IsNumber(top) {
        RuntimeError();
        return true, InterpretRuntimeError;
      }
      var second := Peek(1);
      if !IsNumber(second) {
        RuntimeError();
        return true, InterpretRuntimeError;
      }
      var b := Pop();
      var a := Pop();
      Push(Apply(op, a.number, b.number));
      return false, InterpretOk;
    }

    /** OP_ADD, OP_SUBTRACT, OP_MULTIPLY and OP_DIVIDE. */
    method Arith(op: Byte) returns (done: bool, result: InterpretResult)
      requires Valid() && OP_ADD <= op <= OP_DIVIDE
      modifies this, stack
      ensures Valid() && code == old(code) && constants == old(constants)
      ensures Matches(ArithOutcome(op, old(Stack()), old(ip)), done, result, None)
    {
      var empty := StackIsEmpty();
      var one := StackHas(1);
      if empty || one {
        return true, InterpretCompileError;
      }
      done, result := BinaryOp(op);
    }

    /** OP_NOT. */
    method Not() returns (done: bool, result: InterpretResult)
      requires Valid() && NotOutcome(Stack(), ip) != Undefined
      modifies this, stack
      ensures Valid() && code == old(code) && constants == old(constants)
      ensures Matches(NotOutcome(old(Stack()), old(ip)), done, result, None)
    {
      var v := Pop();
      Push(Bool(IsFalsey(v)));
      return false, InterpretOk;
    }

    /** OP_NEGATE. */
    method Negate() returns (done: bool, result: InterpretResult)
      requires Valid()
      modifies this, stack
      ensures Valid() && code == old(code) && constants == old(constants)
      ensures Matches(NegateOutcome(old(Stack()), old(ip)), done, result, None)
    {
      var empty := StackIsEmpty();
      if empty {
        RuntimeError();
        return true, InterpretRuntimeError;
      }
      var top := Peek(0);
      if !IsNumber(top) {
        RuntimeError();
        return true, InterpretRuntimeError;
      }
      var v := Pop();
      Push(Number(-v.number));
      return false, InterpretOk;
    }

    /** One pass of run's loop: read_byte, then the instruction's case. */
    method Execute() returns (done: bool, result: InterpretResult, ghost printed: Option<Value>)
      requires Valid() && Step(code, constants, ip, Stack()) != Undefined
      modifies this, stack
      ensures Valid() && code == old(code) && constants == old(constants)
      ensures Matches(Step(old(code), old(constants), old(ip), old(Stack())), done, result, printed)
    {
      var instruction := code[ip];
      ip := ip + 1;
      printed := None;
      if instruction == OP_CONSTANT {
        var index := code[ip];
        ip := ip + 1;
        done, result := PushChecked(constants[index]);
      } else if instruction == OP_NIL {
        done, result := PushChecked(Nil);
      } else if instruction == OP_TRUE {
        done, result := PushChecked(Bool(true));
      } else if instruction == OP_FALSE {
        done, result := PushChecked(Bool(false));
      } else if instruction == OP_EQUAL {
        done, result := Equal();
      } else if instruction == OP_GREATER || instruction == OP_LESS {
        done, result := BinaryOp(instruction);
      } else if instruction == OP_NOT {
        done, result := Not();
      } else if instruction == OP_NEGATE {
        done, result := Negate();
      } else if OP_ADD <= instruction <= OP_DIVIDE {
        done, result := Arith(instruction);
      } else if instruction == OP_RETURN {
        var v := Pop();
        done, result, printed := true, InterpretOk, Some(v);
      } else {
        done, result := true, InterpretCompileError;
      }
    }

    /**
     * run, with the overflow check: the machine does what `Exec` says, and a
     * push onto a full stack becomes a runtime error.
     */
    method Run() returns (result: InterpretResult, ghost printed: Option<Value>)
      requires Valid() && Exec(code, constants, ip, Stack()) != Undefined
      modifies this, stack
      ensures Valid() && code == old(code) && constants == old(constants)
      ensures Corrected(Exec(old(code), old(constants), old(ip), old(Stack()))) == Done(result, Stack(), printed)
    {
      ghost var target := Exec(code, constants, ip, Stack());
      assert ip <= |code|;
      while true
        invariant Valid() && code == old(code) && constants == old(constants) && ip <= |code|
        invariant Exec(code, constants, ip, Stack()) == target
        decreases |code| - ip
      {
        var done;
        done, result, printed := Execute();
        if done {
          return;
        }
      }
    }

    /**
     * interpret: compile `source`; if that fails the result is a compile
     * error, otherwise the code runs from its first byte on the current stack.
     */
    method Interpret(source: seq<char>, heap: Objects.Heap)
        returns (result: InterpretResult, ghost errors: seq<Lexer.Token>, ghost printed: Option<Value>)
      requires Valid() && heap.Valid()
      modifies this, stack, heap, heap.strings, heap.strings.entries
      ensures Valid() && heap.Valid()
      ensures result == InterpretCompileError <==> errors != []
      ensures result == InterpretCompileError ==> Stack() == old(Stack())
      ensures result == InterpretOk ==> Stack() == old(Stack()) && printed.Some?
      ensures result == InterpretRuntimeError ==> Stack() == [] && printed == None
      ensures result == InterpretCompileError <==>
        !(Compiler.Parse(source).Some? && |Compiler.Pool(Compiler.Parse(source).value)| <= 256)
      ensures result != InterpretCompileError ==>
        var e := Compiler.Parse(source).value;
        code == Compiler.Code(e, 0) + [OP_RETURN] && Compiler.Shapes(constants) == Compiler.Pool(e) &&
        Corrected(Exec(code, constants, 0, old(Stack()))) == Done(result, Stack(), printed)
    {
      ghost var before := Stack();
      var ok, chunkCode, lines, pool;
      ghost var expr;
      ok, chunkCode, lines, pool, expr, errors := Compiler.Compile(source, heap);
      assert Stack() == before;
      if !ok {
        return InterpretCompileError, errors, None;
      }
      code, constants, ip := chunkCode, pool, 0;
      assert Stack() == before;
      CompiledRuns(expr, constants, before);
      result, printed := Run();
    }
  }

  // ---------------------------------------------------------------------------
  // Compiled code never does anything undefined

  /**
   * From any point of an expression's code that still has to leave one value,
   * with `d` temporaries above the caller's stack `s`, the expression and its
   * OP_RETURN overflow, fail at runtime, or return leaving exactly `s`.
   */
  lemma {:induction false} ExecExpr(expr: seq<Byte>, nconst: nat, constants: seq<Value>, i: nat, d: nat, s: seq<Value>, st: seq<Value>)
    requires i <= |expr| && Run(expr, nconst, i, d) == Some(1) && nconst <= |constants|
    requires |st| == |s| + d && st[..|s|] == s
    ensures var o := Exec(expr + [OP_RETURN], constants, i, st);
      o == Overflow || o == Failed || (o.Done? && o.result == InterpretOk && o.stack == s && o.printed.Some?)
    decreases |expr| - i
  {
    var code := expr + [OP_RETURN];
    var o := Step(code, constants, i, st);
    if i == |expr| {
      assert o == ReturnOutcome(st);
      assert st[..|st| - 1] == s;
    } else {
      var op := expr[i];
      assert code[i] == op;
      if op == OP_CONSTANT {
        assert code[i + 1] == expr[i + 1];
        if o.Next? {
          assert o.stack[..|s|] == s;
          ExecExpr(expr, nconst, constants, i + 2, d + 1, s, o.stack);
        }
      } else if op == OP_NIL || op == OP_TRUE || op == OP_FALSE {
        if o.Next? {
          assert o.stack[..|s|] == s;
          ExecExpr(expr, nconst, constants, i + 1, d + 1, s, o.stack);
        }
      } else if op == OP_NOT || op == OP_NEGATE {
        if o.Next? {
          assert o.stack[..|s|] == s;
          ExecExpr(expr, nconst, constants, i + 1, d, s, o.stack);
        }
      } else {
        assert IsBinaryOp(op);
        if o.Next? {
          assert o.stack[..|s|] == s;
          ExecExpr(expr, nconst, constants, i + 1, d - 1, s, o.stack);
        }
      }
    }
  }

  /**
   * The code the compiler emits for an expression never reads outside the
   * stack, the code or the pool and never reaches a compile error: it
   * overflows, fails at runtime, or returns leaving the stack as it found it.
   */
  lemma CompiledRuns(expr: seq<Byte>, constants: seq<Value>, s: seq<Value>)
    requires ExprCode(expr, |constants|)
    ensures var o := Exec(expr + [OP_RETURN], constants, 0, s);
      o == Overflow || o == Failed || (o.Done? && o.result == InterpretOk && o.stack == s && o.printed.Some?)
  {
    ExecExpr(expr, |constants|, constants, 0, 0, s, s);
  }

  // ---------------------------------------------------------------------------
  // Examples

  /** `1 + 2` prints 3 and leaves the stack as it was. */
  lemma AddExample()
    ensures Exec([OP_CONSTANT, 0, OP_CONSTANT, 1, OP_ADD, OP_RETURN], [Number(1.0), Number(2.0)], 0, [])
         == Done(InterpretOk, [], Some(Number(3.0)))
  {
    var code: seq<Byte> := [OP_CONSTANT, 0, OP_CONSTANT, 1, OP_ADD, OP_RETURN];
    var pool := [Number(1.0), Number(2.0)];
    assert Step(code, pool, 0, []) == Next(2, [Number(1.0)]);
    assert Step(code, pool, 2, [Number(1.0)]) == Next(4, [Number(1.0), Number(2.0)]);
    assert Step(code, pool, 4, [Number(1.0), Number(2.0)]) == Next(5, [Number(3.0)]);
    assert Exec(code, pool, 5, [Number(3.0)]) == Done(InterpretOk, [], Some(Number(3.0)));
    assert Exec(code, pool, 4, [Number(1.0), Number(2.0)]) == Exec(code, pool, 5, [Number(3.0)]);
    assert Exec(code, pool, 2, [Number(1.0)]) == Exec(code, pool, 4, [Number(1.0), Number(2.0)]);
  }

  /** `-nil` is a runtime error that empties the stack. */
  lemma NegateNilExample(s: seq<Value>)
    requires |s| < STACK_MAX
    ensures Exec([OP_NIL, OP_NEGATE, OP_RETURN], [], 0, s) == Failed
  {
    var code: seq<Byte> := [OP_NIL, OP_NEGATE, OP_RETURN];
    assert Step(code, [], 0, s) == Next(1, s + [Nil]);
  }

  // ---------------------------------------------------------------------------
  // push's missing bound check

  /** The code of `nil == (nil == ( ... nil))` with `k` equality signs. */
  function NestedEquals(k: nat): (r: seq<Byte>)
    ensures |r| == 2 * k + 1
    ensures forall j :: 0 <= j <= k ==> r[j] == OP_NIL
  {
    if k == 0 then [OP_NIL] else [OP_NIL] + NestedEquals(k - 1) + [OP_EQUAL]
  }

  /** The tokens of `nil == (nil == ( ... nil))` with `k` equality signs. */
  function NestedTokens(k: nat): (r: seq<Lexer.Token>)
    ensures r != [] && r[0] == Lexer.Token(Lexer.TokenKind.Nil, "nil", 1)
  {
    var nil := Lexer.Token(Lexer.TokenKind.Nil, "nil", 1);
    if k == 0 then [nil]
    else [nil, Lexer.Token(Lexer.EqualEqual, "==", 1), Lexer.Token(Lexer.LeftParen, "(", 1)] +
         NestedTokens(k - 1) + [Lexer.Token(Lexer.RightParen, ")", 1)]
  }

  /** The expression they parse to: `nil` compared with the next level. */
  function NestedExpr(k: nat): Compiler.Expr {
    if k == 0 then Compiler.LiteralExpr(Lexer.TokenKind.Nil)
    else Compiler.BinaryExpr(Lexer.EqualEqual, Compiler.LiteralExpr(Lexer.TokenKind.Nil), NestedExpr(k - 1))
  }

  /**
   * The nested comparison parses to NestedExpr at any precedence up to
   * equality's, when the token after it binds nothing (`)` or EOF).
   */
  lemma {:induction false} NestedParses(k: nat, rest: seq<Lexer.Token>, prec: Compiler.Precedence)
    requires Compiler.PREC_NONE < prec <= Compiler.PREC_EQUALITY
    requires rest != [] && rest[0].kind != Lexer.Error && Compiler.GetRule(rest[0].kind).precedence == Compiler.PREC_NONE
    ensures Compiler.ParseExpr(NestedTokens(k) + rest, prec) == Some((NestedExpr(k), rest))
  {
    if k == 0 {
      NestedLeaf(rest, prec);
    } else {
      var closing := [Lexer.Token(Lexer.RightParen, ")", 1)] + rest;
      Compiler.ExampleRules();
      assert closing[0].kind == Lexer.RightParen;
      NestedParses(k - 1, closing, Compiler.PREC_ASSIGNMENT);
      var group := NestedGroup(k - 1, rest);
      NestedComparison(k, rest, prec, group);
    }
  }

  /** A lone `nil` before a token that binds nothing. */
  lemma NestedLeaf(rest: seq<Lexer.Token>, prec: Compiler.Precedence)
    requires Compiler.PREC_NONE < prec
    requires rest != [] && rest[0].kind != Lexer.Error && Compiler.GetRule(rest[0].kind).precedence == Compiler.PREC_NONE
    ensures Compiler.ParseExpr(NestedTokens(0) + rest, prec) == Some((NestedExpr(0), rest))
  {
    var ts := NestedTokens(0) + rest;
    assert ts[1..] == rest;
    Compiler.ExampleRules();
    Compiler.LiteralFirst(ts, prec);
    Compiler.InfixStops(NestedExpr(0), rest, prec);
  }

  /** `( ... )` around level `k`, then a token that binds nothing, is level `k` as an operand of `==`. */
  lemma NestedGroup(k: nat, rest: seq<Lexer.Token>) returns (group: seq<Lexer.Token>)
    requires rest != [] && rest[0].kind != Lexer.Error && Compiler.GetRule(rest[0].kind).precedence == Compiler.PREC_NONE
    requires Compiler.ParseExpr(NestedTokens(k) + ([Lexer.Token(Lexer.RightParen, ")", 1)] + rest), Compiler.PREC_ASSIGNMENT)
          == Some((NestedExpr(k), [Lexer.Token(Lexer.RightParen, ")", 1)] + rest))
    ensures group == [Lexer.Token(Lexer.LeftParen, "(", 1)] + (NestedTokens(k) + ([Lexer.Token(Lexer.RightParen, ")", 1)] + rest))
    ensures Compiler.ParseExpr(group, Compiler.PREC_COMPARISON) == Some((NestedExpr(k), rest))
  {
    var closing := [Lexer.Token(Lexer.RightParen, ")", 1)] + rest;
    var inner := NestedTokens(k) + closing;
    group := [Lexer.Token(Lexer.LeftParen, "(", 1)] + inner;
    assert group[1..] == inner && closing[1..] == rest;
    Compiler.ExampleRules();
    assert inner[0] == NestedTokens(k)[0];
    Compiler.GroupFirst(group, Compiler.PREC_COMPARISON, NestedExpr(k), closing);
    Compiler.InfixStops(NestedExpr(k), rest, Compiler.PREC_COMPARISON);
  }

  /** `nil ==` followed by a group that parses to level `k - 1` is level `k`. */
  lemma NestedComparison(k: nat, rest: seq<Lexer.Token>, prec: Compiler.Precedence, group: seq<Lexer.Token>)
    requires k > 0 && Compiler.PREC_NONE < prec <= Compiler.PREC_EQUALITY
    requires rest != [] && Compiler.GetRule(rest[0].kind).precedence == Compiler.PREC_NONE
    requires group == [Lexer.Token(Lexer.LeftParen, "(", 1)] + (NestedTokens(k - 1) + ([Lexer.Token(Lexer.RightParen, ")", 1)] + rest))
    requires Compiler.ParseExpr(group, Compiler.PREC_COMPARISON) == Some((NestedExpr(k - 1), rest))
    ensures Compiler.ParseExpr(NestedTokens(k) + rest, prec) == Some((NestedExpr(k), rest))
  {
    var nil := Lexer.Token(Lexer.TokenKind.Nil, "nil", 1);
    var operator := [Lexer.Token(Lexer.EqualEqual, "==", 1)] + group;
    var ts := [nil] + operator;
    NestedTokensSplit(k, rest);
    assert ts[1..] == operator && operator[1..] == group;
    Compiler.ExampleRules();
    assert NestedExpr(k) == Compiler.BinaryExpr(Lexer.EqualEqual, Compiler.LiteralExpr(Lexer.TokenKind.Nil), NestedExpr(k - 1));
    Compiler.OperatorNext(Compiler.LiteralExpr(Lexer.TokenKind.Nil), operator, prec, NestedExpr(k - 1), rest);
    Compiler.InfixStops(NestedExpr(k), rest, prec);
    Compiler.LiteralFirst(ts, prec);
  }

  /** The tokens of level `k`, then `rest`, one at a time. */
  lemma NestedTokensSplit(k: nat, rest: seq<Lexer.Token>)
    requires k > 0
    ensures NestedTokens(k) + rest ==
      [Lexer.Token(Lexer.TokenKind.Nil, "nil", 1)] + ([Lexer.Token(Lexer.EqualEqual, "==", 1)] +
      ([Lexer.Token(Lexer.LeftParen, "(", 1)] + (NestedTokens(k - 1) + ([Lexer.Token(Lexer.RightParen, ")", 1)] + rest))))
  {
  }

  /** NestedExpr has no constants, and its code is NestedEquals. */
  lemma {:induction false} NestedCode(k: nat, j: nat)
    ensures Compiler.Pool(NestedExpr(k)) == [] && Compiler.Code(NestedExpr(k), j) == NestedEquals(k)
  {
    if k > 0 {
      NestedCode(k - 1, j);
    }
  }

  /**
   * The token list of `nil == (nil == ( ... nil))` followed by EOF is a
   * program: it parses to NestedExpr, needs no constants, and compiles to
   * NestedEquals.
   */
  lemma NestedProgram(k: nat)
    ensures var e := Compiler.ParseProgram(NestedTokens(k) + [Lexer.Token(Lexer.EOF, [], 1)]);
      e == Some(NestedExpr(k)) && Compiler.Pool(e.value) == [] && Compiler.Code(e.value, 0) == NestedEquals(k)
  {
    var eof := [Lexer.Token(Lexer.EOF, [], 1)];
    Compiler.ExampleRules();
    NestedParses(k, eof, Compiler.PREC_ASSIGNMENT);
    Compiler.ProgramOf(NestedTokens(k) + eof, NestedExpr(k), eof);
    NestedCode(k, 0);
  }

  lemma {:induction false} NestedEqualsIsExpr(k: nat)
    ensures ExprCode(NestedEquals(k), 0)
  {
    if k == 0 {
      LiteralIsExpr(OP_NIL, 0);
    } else {
      LiteralIsExpr(OP_NIL, 0);
      NestedEqualsIsExpr(k - 1);
      BinaryIsExpr([OP_NIL], NestedEquals(k - 1), [OP_EQUAL], 0);
    }
  }

  /** A run of OP_NIL pushes one nil each while the stack has room. */
  lemma {:induction false} ExecNils(code: seq<Byte>, constants: seq<Value>, i: nat, st: seq<Value>, m: nat)
    requires i + m <= |code| && |st| + m <= STACK_MAX
    requires forall j :: i <= j < i + m ==> code[j] == OP_NIL
    ensures Exec(code, constants, i, st) == Exec(code, constants, i + m, st + Compiler.Repeat(Nil, m))
    decreases m
  {
    if m > 0 {
      assert Step(code, constants, i, st) == Next(i + 1, st + [Nil]);
      assert Exec(code, constants, i, st) == Exec(code, constants, i + 1, st + [Nil]);
      ExecNils(code, constants, i + 1, st + [Nil], m - 1);
      assert st + [Nil] + Compiler.Repeat(Nil, m - 1) == st + Compiler.Repeat(Nil, m);
    } else {
      assert st + Compiler.Repeat(Nil, 0) == st;
    }
  }

  /**
   * push does not check STACK_MAX: the expression `nil == (nil == ...)` with
   * 256 equality signs compiles, and its 257th nil is pushed onto a full
   * stack, past the end of the array.
   */
  lemma OverflowReachable()
    ensures ExprCode(NestedEquals(256), 0)
    ensures Exec(NestedEquals(256) + [OP_RETURN], [], 0, []) == Overflow
  {
    NestedEqualsIsExpr(256);
    var code := NestedEquals(256) + [OP_RETURN];
    ExecNils(code, [], 0, [], 256);
    assert Step(code, [], 256, Compiler.Repeat(Nil, 256)) == Overflow;
  }
}
