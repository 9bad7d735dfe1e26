/**
 * The single-pass compiler (compiler.c): a Pratt parser over the scanner's
 * tokens that emits bytecode for one expression into a chunk, followed by
 * OP_RETURN. Errors set a flag and only the first one is reported (panic
 * mode is never cleared); compilation then runs to the end regardless.
 */
module Compiler {
  import opened Common
  import opened Values
  import opened Chunks
  import opened Lexer
  import Objects

  // ---------------------------------------------------------------------------
  // Precedences and the rule table

  /** Precedence levels, lowest first. */
  type Precedence = nat
  const PREC_NONE: Precedence := 0
  const PREC_ASSIGNMENT: Precedence := 1
  const PREC_OR: Precedence := 2
  const PREC_AND: Precedence := 3
  const PREC_EQUALITY: Precedence := 4
  const PREC_COMPARISON: Precedence := 5
  const PREC_TERM: Precedence := 6
  const PREC_FACTOR: Precedence := 7
  const PREC_UNARY: Precedence := 8
  const PREC_CALL: Precedence := 9
  const PREC_PRIMARY: Precedence := 10

  /** The parse functions a rule can name; NoFn is a NULL entry. */
  datatype ParseFn = NoFn | GroupingFn | UnaryFn | BinaryFn | NumberFn | StringFn | LiteralFn

  datatype ParseRule = ParseRule(prefix: ParseFn, infix: ParseFn, precedence: Precedence)

  /** get_rule: the row of the rule table for a token kind. */
  function GetRule(kind: TokenKind): ParseRule {
    RuleRow(kind, 2)
  }

  /**
   * The rules table. `depth` only delays the verifier, as HeapValid's
   * does: proofs about the parser see the rows through InfixRules and
   * PrefixRules, which open the table.
   */
  function RuleRow(kind: TokenKind, depth: nat): ParseRule
    decreases depth
  {
    if depth > 0 then RuleRow(kind, depth - 1) else
    match kind
    case LeftParen => ParseRule(GroupingFn, NoFn, PREC_NONE)
    case RightParen => ParseRule(NoFn, GroupingFn, PREC_NONE)
    case Minus => ParseRule(UnaryFn, BinaryFn, PREC_TERM)
    case Plus => ParseRule(NoFn, BinaryFn, PREC_TERM)
    case Slash => ParseRule(NoFn, BinaryFn, PREC_FACTOR)
    case Star => ParseRule(NoFn, BinaryFn, PREC_FACTOR)
    case Bang => ParseRule(UnaryFn, NoFn, PREC_NONE)
    case BangEqual => ParseRule(NoFn, BinaryFn, PREC_EQUALITY)
    case EqualEqual => ParseRule(NoFn, BinaryFn, PREC_EQUALITY)
    case Greater => ParseRule(NoFn, BinaryFn, PREC_COMPARISON)
    case GreaterEqual => ParseRule(NoFn, BinaryFn, PREC_COMPARISON)
    case Less => ParseRule(NoFn, BinaryFn, PREC_COMPARISON)
    case LessEqual => ParseRule(NoFn, BinaryFn, PREC_COMPARISON)
    case String => ParseRule(StringFn, NoFn, PREC_NONE)
    case Number => ParseRule(NumberFn, NoFn, PREC_NONE)
    case False => ParseRule(LiteralFn, NoFn, PREC_NONE)
    case Nil => ParseRule(LiteralFn, NoFn, PREC_NONE)
    case True => ParseRule(LiteralFn, NoFn, PREC_NONE)
    case _ => ParseRule(NoFn, NoFn, PREC_NONE)
  }

  /** The opcodes `binary` emits for an operator token (none for any other token). */
  function BinaryOps(kind: TokenKind): seq<Byte> {
    match kind
    case BangEqual => [OP_EQUAL, OP_NOT]
    case EqualEqual => [OP_EQUAL]
    case Greater => [OP_GREATER]
    case GreaterEqual => [OP_LESS, OP_NOT]
    case Less => [OP_LESS]
    case LessEqual => [OP_GREATER, OP_NOT]
    case Plus => [OP_ADD]
    case Minus => [OP_SUBTRACT]
    case Star => [OP_MULTIPLY]
    case Slash => [OP_DIVIDE]
    case _ => []
  }

  /** The opcode `unary` emits after its operand (none for any other token). */
  function UnaryOps(kind: TokenKind): seq<Byte> {
    match kind
    case Bang => [OP_NOT]
    case Minus => [OP_NEGATE]
    case _ => []
  }

  /** The opcode `literal` emits (none for any other token). */
  function LiteralOps(kind: TokenKind): seq<Byte> {
    match kind
    case True => [OP_TRUE]
    case False => [OP_FALSE]
    case Nil => [OP_NIL]
    case _ => []
  }

  /**
   * The table is consistent with the loop of parse_precedence: exactly the
   * tokens with a precedence above PREC_NONE have an infix rule that can
   * run, it is `binary`, and `binary` emits a complete operator for each of
   * them. (RIGHT_PAREN's infix entry has PREC_NONE and never runs.)
   */
  lemma InfixRules(kind: TokenKind)
    ensures GetRule(kind).precedence > PREC_NONE <==> GetRule(kind).infix == BinaryFn
    ensures GetRule(kind).precedence > PREC_NONE ==>
      GetRule(kind).precedence + 1 <= PREC_UNARY &&
      var ops := BinaryOps(kind);
      (|ops| == 1 || |ops| == 2) && IsBinaryOp(ops[0]) && (|ops| == 2 ==> ops[1] == OP_NOT)
    ensures GetRule(kind).precedence == PREC_NONE ==> BinaryOps(kind) == []
    ensures GetRule(kind).precedence > PREC_NONE ==> kind != EOF && kind != Error
  {
    assert GetRule(kind) == RuleRow(kind, 1) == RuleRow(kind, 0);
  }

  /**
   * Every prefix rule emits what its token needs: `unary` has an operator
   * for its tokens, `literal` one literal opcode for its tokens; neither EOF
   * nor an error token has a rule.
   */
  lemma PrefixRules(kind: TokenKind)
    ensures GetRule(kind).prefix == UnaryFn <==> UnaryOps(kind) != []
    ensures GetRule(kind).prefix == LiteralFn <==> LiteralOps(kind) != []
    ensures LiteralOps(kind) != [] ==>
      |LiteralOps(kind)| == 1 &&
      (LiteralOps(kind)[0] == OP_NIL || LiteralOps(kind)[0] == OP_TRUE || LiteralOps(kind)[0] == OP_FALSE)
    ensures UnaryOps(kind) != [] ==> UnaryOps(kind) == [OP_NOT] || UnaryOps(kind) == [OP_NEGATE]
    ensures GetRule(kind).prefix == StringFn <==> kind == TokenKind.String
    ensures GetRule(kind).prefix == NumberFn <==> kind == TokenKind.Number
    ensures GetRule(kind).prefix == GroupingFn <==> kind == LeftParen
    ensures GetRule(kind).prefix != NoFn ==> kind != EOF && kind != Error
  {
    assert GetRule(kind) == RuleRow(kind, 1) == RuleRow(kind, 0);
  }

  // ---------------------------------------------------------------------------
  // Number literals

  function DigitValue(c: char): nat {
    if '0' <= c <= '9' then c as int - '0' as int else 0
  }

  /** The decimal value of a run of digits. */
  function DigitsValue(s: seq<char>): nat {
    if s == [] then 0 else DigitsValue(s[..|s| - 1]) * 10 + DigitValue(s[|s| - 1])
  }

  function Pow10(n: nat): (r: nat)
    ensures r >= 1
  {
    if n == 0 then 1 else 10 * Pow10(n - 1)
  }

  /** The position of the first '.' in `s`, or |s|. */
  function DotIndex(s: seq<char>): (r: nat)
    ensures r <= |s| && (r < |s| ==> s[r] == '.') && forall p :: 0 <= p < r ==> s[p] != '.'
  {
    if s == [] then 0 else if s[0] == '.' then 0 else 1 + DotIndex(s[1..])
  }

  /** The exact value of a number lexeme: digits, optionally a '.' and more digits. */
  function NumberValue(lexeme: seq<char>): real {
    var d := DotIndex(lexeme);
    var whole := DigitsValue(lexeme[..d]) as real;
    if d < |lexeme| then
      whole + DigitsValue(lexeme[d + 1..]) as real / Pow10(|lexeme| - d - 1) as real
    else whole
  }

  lemma NumberValueExamples()
    ensures NumberValue("42") == 42.0
    ensures NumberValue("2.5") == 2.5
  {
    assert DotIndex("42") == 2;
    assert "42"[..2] == "42" && "42"[..1] == "4" && "4"[..0] == [];
    assert DigitsValue("4") == 4;
    assert DigitsValue("42") == 42;
    assert DotIndex("2.5") == 1;
    assert "2.5"[..1] == "2" && "2.5"[2..] == "5" && "2"[..0] == [] && "5"[..0] == [];
    assert DigitsValue("2") == 2 && DigitsValue("5") == 5;
  }

  /** `n` copies of `x`. */
  function Repeat<T>(x: T, n: nat): (r: seq<T>)
    ensures |r| == n && forall i :: 0 <= i < n ==> r[i] == x
  {
    if n == 0 then [] else Repeat(x, n - 1) + [x]
  }

  // ---------------------------------------------------------------------------
  // The expression a token list denotes, and its code

  /**
   * An expression as the parse functions build it: a number or string
   * constant, a literal, or an operator token applied to its operands. A
   * grouping is its inner expression.
   */
  datatype Expr =
    | NumberExpr(value: real)
    | StringExpr(chars: seq<char>)
    | LiteralExpr(kind: TokenKind)
    | UnaryExpr(op: TokenKind, operand: Expr)
    | BinaryExpr(op: TokenKind, left: Expr, right: Expr)

  /** Only operators and literals the rule table has rules for. */
  predicate WellFormed(e: Expr) {
    match e
    case NumberExpr(_) => true
    case StringExpr(_) => true
    case LiteralExpr(kind) => LiteralOps(kind) != []
    case UnaryExpr(op, a) => UnaryOps(op) != [] && WellFormed(a)
    case BinaryExpr(op, a, b) => GetRule(op).precedence > PREC_NONE && WellFormed(a) && WellFormed(b)
  }

  /** What a pool entry holds as far as the compiler is concerned: a number, or a string's characters. */
  datatype Constant = NumberConstant(number: real) | StringConstant(chars: seq<char>) | OtherConstant

  function ShapeOf(v: Value): Constant {
    match v
    case Number(x) => NumberConstant(x)
    case Obj(o) => StringConstant(o.chars)
    case _ => OtherConstant
  }

  function Shapes(vs: seq<Value>): (r: seq<Constant>)
    ensures |r| == |vs|
  {
    seq(|vs|, i requires 0 <= i < |vs| => ShapeOf(vs[i]))
  }

  /** The constants `e` adds to the pool, in the order the parse functions add them. */
  function Pool(e: Expr): seq<Constant> {
    match e
    case NumberExpr(x) => [NumberConstant(x)]
    case StringExpr(s) => [StringConstant(s)]
    case LiteralExpr(_) => []
    case UnaryExpr(_, a) => Pool(a)
    case BinaryExpr(_, a, b) => Pool(a) + Pool(b)
  }

  /** make_constant's index for a constant added to a pool of `n`: 0 once it does not fit a byte. */
  function ConstantIndex(n: nat): Byte {
    if n > 255 then 0 else n
  }

  /**
   * The code emitted for `e` when its first constant goes to index `k`:
   * operands first, then the operator's opcodes.
   */
  function Code(e: Expr, k: nat): seq<Byte> {
    match e
    case NumberExpr(_) => [OP_CONSTANT, ConstantIndex(k)]
    case StringExpr(_) => [OP_CONSTANT, ConstantIndex(k)]
    case LiteralExpr(kind) => LiteralOps(kind)
    case UnaryExpr(op, a) => Code(a, k) + UnaryOps(op)
    case BinaryExpr(op, a, b) => Code(a, k) + Code(b, k + |Pool(a)|) + BinaryOps(op)
  }

  /**
   * The code of a well-formed expression whose constants all fit below `n`
   * leaves exactly one value on the stack.
   */
  lemma {:induction false} CodeIsExpr(e: Expr, k: nat, n: nat)
    requires WellFormed(e) && k + |Pool(e)| <= n <= 256
    ensures ExprCode(Code(e, k), n)
  {
    match e
    case NumberExpr(_) =>
      ConstantIsExpr(k, n);
    case StringExpr(_) =>
      ConstantIsExpr(k, n);
    case LiteralExpr(kind) =>
      LiteralCodeIsExpr(kind, k, n);
    case UnaryExpr(op, a) =>
      CodeIsExpr(a, k, n);
      UnaryCodeIsExpr(op, a, k, n);
    case BinaryExpr(op, a, b) =>
      CodeIsExpr(a, k, n);
      CodeIsExpr(b, k + |Pool(a)|, n);
      BinaryCodeIsExpr(op, a, b, k, n);
  }

  lemma LiteralCodeIsExpr(kind: TokenKind, k: nat, n: nat)
    requires LiteralOps(kind) != []
    ensures ExprCode(Code(LiteralExpr(kind), k), n)
  {
    PrefixRules(kind);
    LiteralIsExpr(LiteralOps(kind)[0], n);
    assert LiteralOps(kind) == [LiteralOps(kind)[0]];
  }

  lemma UnaryCodeIsExpr(op: TokenKind, a: Expr, k: nat, n: nat)
    requires UnaryOps(op) != [] && ExprCode(Code(a, k), n)
    ensures ExprCode(Code(UnaryExpr(op, a), k), n)
  {
    PrefixRules(op);
    UnaryIsExpr(Code(a, k), UnaryOps(op)[0], n);
    assert UnaryOps(op) == [UnaryOps(op)[0]];
  }

  lemma BinaryCodeIsExpr(op: TokenKind, a: Expr, b: Expr, k: nat, n: nat)
    requires GetRule(op).precedence > PREC_NONE && ExprCode(Code(a, k), n) && ExprCode(Code(b, k + |Pool(a)|), n)
    ensures ExprCode(Code(BinaryExpr(op, a, b), k), n)
  {
    InfixRules(op);
    BinaryIsExpr(Code(a, k), Code(b, k + |Pool(a)|), BinaryOps(op), n);
  }


  /** A string token's characters between its quotes. */
  function Unquote(lexeme: seq<char>): seq<char> {
    if |lexeme| >= 2 then lexeme[1..|lexeme| - 1] else []
  }

  /**
   * consume on a token list: the list without its head, unless the next
   * token is an error token (which consume would report).
   */
  function Consumed(ts: seq<Token>): (r: Option<seq<Token>>)
    ensures r.Some? ==> r.value != [] && |r.value| < |ts|
  {
    if |ts| >= 2 && ts[1].kind != Error then Some(ts[1..]) else None
  }

  /**
   * parse_precedence on the token list `ts`, whose head is the current
   * token: the head's prefix rule, then infix rules while the next token
   * binds at least as tightly as `prec`. The expression and the tokens
   * left, or None where the compiler reports an error.
   */
  function ParseExpr(ts: seq<Token>, prec: Precedence): (r: Option<(Expr, seq<Token>)>)
    requires prec > PREC_NONE
    ensures r.Some? ==> |r.value.1| < |ts|
    decreases |ts|, 0
  {
    if ts == [] || GetRule(ts[0].kind).prefix == NoFn then None
    else match Consumed(ts)
      case None => None
      case Some(rest) =>
        match ParsePrefix(ts[0], rest)
        case None => None
        case Some((e, rest')) => ParseInfix(e, rest', prec)
  }

  /** The prefix rule of `t` on the tokens after it. */
  function ParsePrefix(t: Token, ts: seq<Token>): (r: Option<(Expr, seq<Token>)>)
    ensures r.Some? ==> |r.value.1| <= |ts|
    decreases |ts|, 1
  {
    PrefixRules(t.kind);
    match GetRule(t.kind).prefix
    case GroupingFn =>
      (match ParseExpr(ts, PREC_ASSIGNMENT)
       case None => None
       case Some((e, rest)) =>
         if rest != [] && rest[0].kind == RightParen && Consumed(rest).Some? then Some((e, Consumed(rest).value))
         else None)
    case UnaryFn =>
      (match ParseExpr(ts, PREC_UNARY)
       case None => None
       case Some((e, rest)) => Some((UnaryExpr(t.kind, e), rest)))
    case NumberFn => Some((NumberExpr(NumberValue(t.lexeme)), ts))
    case StringFn => Some((StringExpr(Unquote(t.lexeme)), ts))
    case LiteralFn => Some((LiteralExpr(t.kind), ts))
    case _ => None
  }

  /** The loop of parse_precedence: infix rules while the head binds at least as tightly as `prec`. */
  function ParseInfix(left: Expr, ts: seq<Token>, prec: Precedence): (r: Option<(Expr, seq<Token>)>)
    requires prec > PREC_NONE
    ensures r.Some? ==> |r.value.1| <= |ts| && |Pool(left)| <= |Pool(r.value.0)|
    decreases |ts|, 1
  {
    if ts == [] || GetRule(ts[0].kind).precedence < prec then Some((left, ts))
    else match InfixStep(left, ts)
      case None => None
      case Some((e, rest)) => ParseInfix(e, rest, prec)
  }

  /**
   * One turn of that loop: consume the operator at the head, parse the
   * right operand one level tighter (so one level associates to the left)
   * and combine.
   */
  function InfixStep(left: Expr, ts: seq<Token>): (r: Option<(Expr, seq<Token>)>)
    ensures r.Some? ==> |r.value.1| < |ts| && |Pool(left)| <= |Pool(r.value.0)|
    decreases |ts|, 0
  {
    match Consumed(ts)
    case None => None
    case Some(rest) =>
      match ParseExpr(rest, GetRule(ts[0].kind).precedence + 1)
      case None => None
      case Some((right, rest')) => Some((BinaryExpr(ts[0].kind, left, right), rest'))
  }

  /**
   * InfixStep in terms of the right operand: it fits the pool exactly when
   * the right operand does after the left one's constants, and then it is
   * the operator applied to both.
   */
  lemma InfixStepFits(left: Expr, ts: seq<Token>, base: nat)
    requires Consumed(ts).Some?
    ensures var right := ParseExpr(Consumed(ts).value, GetRule(ts[0].kind).precedence + 1);
      (Fits(InfixStep(left, ts), base) <==> Fits(right, base + |Pool(left)|)) &&
      (right.Some? ==> InfixStep(left, ts) == Some((BinaryExpr(ts[0].kind, left, right.value.0), right.value.1)))
  {
  }

  /**
   * The step `binary` takes, on the token list and on the code: with the
   * left operand's code and constants emitted, then the right operand's
   * for the tokens after the operator, the two with the operator are the
   * code and constants of InfixStep's expression.
   */
  lemma InfixFollows(ts: seq<Token>, rest: seq<Token>, after: seq<Token>, leftExpr: Expr, rightExpr: Expr,
                     left: seq<Byte>, right: seq<Byte>, ops: seq<Byte>, base: seq<Value>, middle: seq<Value>, constants: seq<Value>)
    requires ts != [] && Consumed(ts) == Some(rest)
    requires left == Code(leftExpr, |base|) && Shapes(middle) == Shapes(base) + Pool(leftExpr)
    requires ParseExpr(rest, GetRule(ts[0].kind).precedence + 1) == Some((rightExpr, after))
    requires right == Code(rightExpr, |middle|) && ops == BinaryOps(ts[0].kind)
    requires Shapes(constants) == Shapes(middle) + Pool(rightExpr)
    ensures InfixStep(leftExpr, ts) == Some((BinaryExpr(ts[0].kind, leftExpr, rightExpr), after))
    ensures left + (right + ops) == Code(BinaryExpr(ts[0].kind, leftExpr, rightExpr), |base|)
    ensures Shapes(constants) == Shapes(base) + Pool(BinaryExpr(ts[0].kind, leftExpr, rightExpr))
  {
    assert |middle| == |base| + |Pool(leftExpr)| by {
      assert |Shapes(middle)| == |Shapes(base)| + |Pool(leftExpr)|;
    }
    CodeOfBinary(ts[0].kind, leftExpr, rightExpr, |base|, left, right, ops);
    PoolOfBinary(ts[0].kind, leftExpr, rightExpr, Shapes(base), Shapes(middle), Shapes(constants));
    InfixStepOf(leftExpr, ts, rest, rightExpr, after);
  }

  /** InfixStep once the operator is consumed and the right operand parsed. */
  lemma InfixStepOf(left: Expr, ts: seq<Token>, rest: seq<Token>, right: Expr, after: seq<Token>)
    requires ts != [] && Consumed(ts) == Some(rest)
    requires ParseExpr(rest, GetRule(ts[0].kind).precedence + 1) == Some((right, after))
    ensures InfixStep(left, ts) == Some((BinaryExpr(ts[0].kind, left, right), after))
  {
  }

  /** The constants of a binary expression are its left operand's, then its right operand's. */
  lemma PoolOfBinary(op: TokenKind, a: Expr, b: Expr, base: seq<Constant>, middle: seq<Constant>, pool: seq<Constant>)
    requires middle == base + Pool(a) && pool == middle + Pool(b)
    ensures pool == base + Pool(BinaryExpr(op, a, b))
  {
    Associative(base, Pool(a), Pool(b));
  }

  /** The code of a binary expression is its operands' code and the operator's, in that order. */
  lemma CodeOfBinary(op: TokenKind, a: Expr, b: Expr, k: nat, left: seq<Byte>, right: seq<Byte>, ops: seq<Byte>)
    requires left == Code(a, k) && right == Code(b, k + |Pool(a)|) && ops == BinaryOps(op)
    ensures left + (right + ops) == Code(BinaryExpr(op, a, b), k)
  {
    Associative(left, right, ops);
  }

  /**
   * compile on a token list: the first token must not be an error token,
   * then one expression, then EOF.
   */
  function ParseProgram(ts: seq<Token>): Option<Expr> {
    if ts == [] || ts[0].kind == Error then None
    else match ParseExpr(ts, PREC_ASSIGNMENT)
      case None => None
      case Some((e, rest)) => if rest != [] && rest[0].kind == EOF then Some(e) else None
  }

  /** The expression a source text compiles to, read from the scanner's tokens. */
  function Parse(source: seq<char>): Option<Expr> {
    ParseProgram(Tokens(source, Cursor(0, 0, 1)))
  }

  /** A parse that succeeded with all its constants inside a pool of 256 after `n` entries. */
  predicate Fits(r: Option<(Expr, seq<Token>)>, n: nat) {
    r.Some? && n + |Pool(r.value.0)| <= 256
  }

  /**
   * A parse method followed the parse `r` of the token list. Its error
   * flag went from `wasError` to `isError`, and it reported no error
   * exactly when none was set before and `r` succeeded with its
   * constants fitting the pool after the `base` entries already there.
   * Then `r` is the expression `e` with the tokens `rest` left, `emitted`
   * is the code of `e` for that pool, and the pool, now `pool`, holds
   * `base` and then the constants of `e`. The parse methods pass it along
   * unopened; the lemmas below open it with ParsesIs.
   */
  ghost predicate Parses(r: Option<(Expr, seq<Token>)>, wasError: bool, isError: bool, base: seq<Value>,
                         e: Expr, emitted: seq<Byte>, pool: seq<Value>, rest: seq<Token>)
  {
    ParsesAt(r, wasError, isError, base, e, emitted, pool, rest, 2)
  }

  /** Parses, reached through `depth` steps the verifier takes only where a proof asks for them. */
  ghost predicate ParsesAt(r: Option<(Expr, seq<Token>)>, wasError: bool, isError: bool, base: seq<Value>,
                           e: Expr, emitted: seq<Byte>, pool: seq<Value>, rest: seq<Token>, depth: nat)
    decreases depth
  {
    if depth > 0 then ParsesAt(r, wasError, isError, base, e, emitted, pool, rest, depth - 1) else
    (!isError <==> !wasError && Fits(r, |base|)) &&
    (!isError ==> r == Some((e, rest)) && emitted == Code(e, |base|) && Shapes(pool) == Shapes(base) + Pool(e))
  }

  lemma ParsesIs(r: Option<(Expr, seq<Token>)>, wasError: bool, isError: bool, base: seq<Value>,
                 e: Expr, emitted: seq<Byte>, pool: seq<Value>, rest: seq<Token>)
    ensures Parses(r, wasError, isError, base, e, emitted, pool, rest) == ParsesAt(r, wasError, isError, base, e, emitted, pool, rest, 0)
  {
    assert ParsesAt(r, wasError, isError, base, e, emitted, pool, rest, 2) == ParsesAt(r, wasError, isError, base, e, emitted, pool, rest, 1);
  }

  /**
   * A prefix rule that reads nothing further, its code and constant
   * emitted: an error is added exactly when its constants overflow the
   * pool.
   */
  lemma LeafParses(r: Option<(Expr, seq<Token>)>, h0: bool, h1: bool, base: seq<Value>,
                   e: Expr, code: seq<Byte>, pool: seq<Value>, ts: seq<Token>)
    requires r == Some((e, ts)) && code == Code(e, |base|) && Shapes(pool) == Shapes(base) + Pool(e)
    requires h1 == (h0 || |base| + |Pool(e)| > 256)
    ensures Parses(r, h0, h1, base, e, code, pool, ts)
  {
    ParsesIs(r, h0, h1, base, e, code, pool, ts);
  }

  /**
   * `string` on the token list: the constant emitted for the interned
   * string `obj` between the quotes of `t` is StringExpr's code.
   */
  lemma StringParses(t: Token, ts: seq<Token>, h0: bool, h1: bool, base: seq<Value>, obj: ObjString,
                     code: seq<Byte>, pool: seq<Value>)
    requires t.kind == TokenKind.String && |t.lexeme| >= 2 && obj.chars == t.lexeme[1..|t.lexeme| - 1]
    requires code == Code(NumberExpr(0.0), |base|) && Shapes(pool) == Shapes(base) + [ShapeOf(Obj(obj))]
    requires h1 == (h0 || |base| > 255)
    ensures Parses(ParsePrefix(t, ts), h0, h1, base, StringExpr(Unquote(t.lexeme)), code, pool, ts)
  {
    PrefixRules(t.kind);
    PrefixLeaves(t, ts);
    LeafParses(ParsePrefix(t, ts), h0, h1, base, StringExpr(Unquote(t.lexeme)), code, pool, ts);
  }

  /** The prefix rules that read nothing further: a number, a string and a literal. */
  lemma PrefixLeaves(t: Token, ts: seq<Token>)
    ensures GetRule(t.kind).prefix == NumberFn ==> ParsePrefix(t, ts) == Some((NumberExpr(NumberValue(t.lexeme)), ts))
    ensures GetRule(t.kind).prefix == StringFn ==> ParsePrefix(t, ts) == Some((StringExpr(Unquote(t.lexeme)), ts))
    ensures GetRule(t.kind).prefix == LiteralFn ==> ParsePrefix(t, ts) == Some((LiteralExpr(t.kind), ts))
  {
  }

  /**
   * `unary` on the token list: the operand parsed at PREC_UNARY, followed
   * with the flag going from `h0` to `h1`, makes the operator's prefix
   * rule followed, its code being the operand's and the operator's.
   */
  lemma UnaryParses(t: Token, ts: seq<Token>, h0: bool, h1: bool, base: seq<Value>,
                    a: Expr, code: seq<Byte>, pool: seq<Value>, after: seq<Token>)
    requires GetRule(t.kind).prefix == UnaryFn
    requires Parses(ParseExpr(ts, PREC_UNARY), h0, h1, base, a, code, pool, after)
    ensures Parses(ParsePrefix(t, ts), h0, h1, base, UnaryExpr(t.kind, a), code + UnaryOps(t.kind), pool, after)
  {
    ParsesIs(ParseExpr(ts, PREC_UNARY), h0, h1, base, a, code, pool, after);
    ParsesIs(ParsePrefix(t, ts), h0, h1, base, UnaryExpr(t.kind, a), code + UnaryOps(t.kind), pool, after);
  }

  /**
   * `grouping` on the token list: the inner expression followed, then the
   * consume of `)` with the flag going from `h1` to `h2` (its
   * postcondition, for the tokens `mid` left by the inner expression),
   * make the prefix rule of `(` followed.
   */
  lemma GroupingParses(t: Token, ts: seq<Token>, h0: bool, h1: bool, h2: bool, base: seq<Value>, e: Expr,
                       code: seq<Byte>, pool: seq<Value>, close: Token, mid: seq<Token>, skipped: seq<Token>, after: seq<Token>)
    requires GetRule(t.kind).prefix == GroupingFn
    requires Parses(ParseExpr(ts, PREC_ASSIGNMENT), h0, h1, base, e, code, pool, mid)
    requires mid != [] && mid[0] == close && h2 == (h1 || close.kind != RightParen || skipped != [])
    requires close.kind != EOF ==>
      (skipped == [] <==> Consumed(mid).Some?) && (Consumed(mid).Some? ==> after == Consumed(mid).value)
    ensures Parses(ParsePrefix(t, ts), h0, h2, base, e, code, pool, after)
  {
    ParsesIs(ParseExpr(ts, PREC_ASSIGNMENT), h0, h1, base, e, code, pool, mid);
    ParsesIs(ParsePrefix(t, ts), h0, h2, base, e, code, pool, after);
  }

  /**
   * parse_precedence on the token list: consuming the head (the flag going
   * from `h0` to `h1`), its prefix rule followed from `h1`, and the infix
   * loop followed from `h2`, make ParseExpr followed from `h0`.
   */
  lemma ExprParses(ts: seq<Token>, prec: Precedence, h0: bool, h1: bool, h2: bool, h3: bool, t: Token, rest: seq<Token>,
                   base: seq<Value>, first: Expr, operand: seq<Byte>, middle: seq<Value>, mid: seq<Token>,
                   e: Expr, emitted: seq<Byte>, pool: seq<Value>, after: seq<Token>)
    requires prec > PREC_NONE && ts != [] && t == ts[0] && GetRule(t.kind).prefix != NoFn
    requires h1 == (h0 || Consumed(ts).None?) && (Consumed(ts).Some? ==> rest == Consumed(ts).value)
    requires Parses(ParsePrefix(t, rest), h1, h2, base, first, operand, middle, mid)
    requires Parses(ParseInfix(first, mid, prec), h2, h3, base, e, emitted, pool, after)
    ensures Parses(ParseExpr(ts, prec), h0, h3, base, e, emitted, pool, after)
  {
    ParsesIs(ParsePrefix(t, rest), h1, h2, base, first, operand, middle, mid);
    ParsesIs(ParseInfix(first, mid, prec), h2, h3, base, e, emitted, pool, after);
    ParsesIs(ParseExpr(ts, prec), h0, h3, base, e, emitted, pool, after);
    if !h0 && Consumed(ts).Some? && ParsePrefix(ts[0], rest).Some? {
      var (first', mid') := ParsePrefix(ts[0], rest).value;
      assert ParseExpr(ts, prec) == ParseInfix(first', mid', prec);
    }
  }

  /**
   * One turn of the loop of parse_precedence: from the left operand `e`
   * and the tokens `ts`, whose head binds at least as tightly as `prec`,
   * the step followed from `h` keeps what the loop knows about the parse
   * `whole` of the loop from where it started with the flag `h0`.
   */
  lemma InfixLoopStep(e: Expr, ts: seq<Token>, prec: Precedence, h0: bool, h: bool, h': bool, base: seq<Value>,
                      e': Expr, code: seq<Byte>, pool: seq<Value>, ts': seq<Token>, whole: Option<(Expr, seq<Token>)>)
    requires prec > PREC_NONE && ts != [] && GetRule(ts[0].kind).precedence >= prec
    requires Parses(InfixStep(e, ts), h, h', base, e', code, pool, ts')
    requires h && !h0 ==> !Fits(whole, |base|)
    requires !h ==> ParseInfix(e, ts, prec) == whole
    ensures h' && !h0 ==> !Fits(whole, |base|)
    ensures !h' ==> ParseInfix(e', ts', prec) == whole
  {
    ParsesIs(InfixStep(e, ts), h, h', base, e', code, pool, ts');
  }

  /** The loop of parse_precedence leaves once the head binds less tightly than `prec`. */
  lemma InfixLoopDone(e: Expr, ts: seq<Token>, prec: Precedence, h0: bool, h: bool, base: seq<Value>,
                      code: seq<Byte>, pool: seq<Value>, whole: Option<(Expr, seq<Token>)>)
    requires prec > PREC_NONE && ts != [] && GetRule(ts[0].kind).precedence < prec
    requires h0 ==> h
    requires h && !h0 ==> !Fits(whole, |base|)
    requires !h ==> ParseInfix(e, ts, prec) == whole && |pool| <= 256
    requires !h ==> code == Code(e, |base|) && Shapes(pool) == Shapes(base) + Pool(e)
    ensures Parses(whole, h0, h, base, e, code, pool, ts)
  {
    ParsesIs(whole, h0, h, base, e, code, pool, ts);
    if !h {
      assert |Shapes(pool)| == |Shapes(base)| + |Pool(e)|;
    }
  }

  /**
   * `binary` after the operator at the head of `ts` was consumed (the flag
   * going from `h0` to `h1`, leaving `rest`): the right operand followed
   * from `h1`, with the left operand's code and constants already in
   * place, makes InfixStep followed from `h0`.
   */
  lemma InfixParses(ts: seq<Token>, rest: seq<Token>, prec: Precedence, h0: bool, h1: bool, h2: bool,
                    leftExpr: Expr, left: seq<Byte>, base: seq<Value>, middle: seq<Value>,
                    right: Expr, rightCode: seq<Byte>, ops: seq<Byte>, pool: seq<Value>, after: seq<Token>)
    requires ts != [] && h1 == (h0 || Consumed(ts).None?) && (Consumed(ts).Some? ==> rest == Consumed(ts).value)
    requires !h0 ==> left == Code(leftExpr, |base|) && Shapes(middle) == Shapes(base) + Pool(leftExpr)
    requires prec == GetRule(ts[0].kind).precedence + 1 && ops == BinaryOps(ts[0].kind)
    requires Parses(ParseExpr(rest, prec), h1, h2, middle, right, rightCode, pool, after)
    ensures Parses(InfixStep(leftExpr, ts), h0, h2, base, BinaryExpr(ts[0].kind, leftExpr, right),
                   left + (rightCode + ops), pool, after)
  {
    ParsesIs(ParseExpr(rest, GetRule(ts[0].kind).precedence + 1), h1, h2, middle, right, rightCode, pool, after);
    ParsesIs(InfixStep(leftExpr, ts), h0, h2, base, BinaryExpr(ts[0].kind, leftExpr, right), left + (rightCode + ops), pool, after);
    if !h0 && Consumed(ts).Some? {
      InfixStepFits(leftExpr, ts, |base|);
      assert |middle| == |base| + |Pool(leftExpr)| by {
        assert |Shapes(middle)| == |Shapes(base)| + |Pool(leftExpr)|;
      }
      if !h2 {
        InfixFollows(ts, rest, after, leftExpr, right, left, rightCode, ops, base, middle, pool);
      }
    }
  }

  /** A list that starts with `head` and goes on with `skipped` and `first`. */
  lemma TailIs(whole: seq<Token>, head: Token, skipped: seq<Token>, first: seq<Token>)
    requires whole == [head] + skipped + first
    ensures whole[1..] == skipped + first
  {
  }

  /**
   * The outcome of compile on the token list `ts` after the set-up token:
   * no error exactly when ParseProgram succeeds with its constants
   * fitting the pool, and then `e` is its expression, `code` the code of
   * `e` and `pool` holds the constants of `e`.
   */
  ghost predicate Compiled(ts: seq<Token>, isError: bool, e: Expr, code: seq<Byte>, pool: seq<Value>) {
    CompiledAt(ts, isError, e, code, pool, 2)
  }

  /** Compiled, reached through `depth` steps the verifier takes only where a proof asks for them. */
  ghost predicate CompiledAt(ts: seq<Token>, isError: bool, e: Expr, code: seq<Byte>, pool: seq<Value>, depth: nat)
    decreases depth
  {
    if depth > 0 then CompiledAt(ts, isError, e, code, pool, depth - 1) else
    (!isError <==> ParseProgram(ts).Some? && |Pool(ParseProgram(ts).value)| <= 256) &&
    (!isError ==> ParseProgram(ts) == Some(e) && code == Code(e, 0) && Shapes(pool) == Pool(e) && WellFormed(e))
  }

  lemma CompiledIs(ts: seq<Token>, isError: bool, e: Expr, code: seq<Byte>, pool: seq<Value>)
    ensures Compiled(ts, isError, e, code, pool) == CompiledAt(ts, isError, e, code, pool, 0)
  {
    assert CompiledAt(ts, isError, e, code, pool, 2) == CompiledAt(ts, isError, e, code, pool, 1);
  }

  /**
   * compile on the token list `ts`: error tokens `skipped` before the
   * first real one, then one expression followed, then the consume of EOF
   * (the flag going from `h2` to `h3`). No error is left exactly when
   * ParseProgram succeeds with at most 256 constants, and then the code
   * and pool are its expression's, which is well formed.
   */
  lemma CompileParses(ts: seq<Token>, skipped: seq<Token>, first: seq<Token>, h1: bool, h2: bool, h3: bool, base: seq<Value>,
                      e: Expr, code: seq<Byte>, pool: seq<Value>, last: Token, after: seq<Token>, skipped': seq<Token>)
    requires ts == skipped + first && first != [] && first[0].kind != Error
    requires forall t :: t in skipped ==> t.kind == Error
    requires h1 == (skipped != []) && base == []
    requires Parses(ParseExpr(first, PREC_ASSIGNMENT), h1, h2, base, e, code, pool, after)
    requires after != [] && after[0] == last
    requires h3 == (h2 || last.kind != EOF || skipped' != []) && (last.kind == EOF ==> skipped' == [])
    ensures Compiled(ts, h3, e, code, pool)
  {
    CompiledIs(ts, h3, e, code, pool);
    ParsesIs(ParseExpr(first, PREC_ASSIGNMENT), h1, h2, base, e, code, pool, after);
    assert Shapes([]) == [];
    if skipped != [] {
      assert ts[0] == skipped[0];
    } else {
      assert ts == first;
      ParsedWellFormed(first, PREC_ASSIGNMENT);
    }
  }

  /** The parse functions build only well-formed expressions. */
  lemma {:induction false} ParsedWellFormed(ts: seq<Token>, prec: Precedence)
    requires prec > PREC_NONE
    ensures ParseExpr(ts, prec).Some? ==> WellFormed(ParseExpr(ts, prec).value.0)
    decreases |ts|, 0
  {
    if ts != [] && GetRule(ts[0].kind).prefix != NoFn && Consumed(ts).Some? {
      var rest := Consumed(ts).value;
      PrefixWellFormed(ts[0], rest);
      if ParsePrefix(ts[0], rest).Some? {
        var (e, rest') := ParsePrefix(ts[0], rest).value;
        InfixWellFormed(e, rest', prec);
      }
    }
  }

  lemma {:induction false} PrefixWellFormed(t: Token, ts: seq<Token>)
    ensures ParsePrefix(t, ts).Some? ==> WellFormed(ParsePrefix(t, ts).value.0)
    decreases |ts|, 1
  {
    PrefixRules(t.kind);
    ParsedWellFormed(ts, PREC_ASSIGNMENT);
    ParsedWellFormed(ts, PREC_UNARY);
  }

  lemma {:induction false} InfixWellFormed(left: Expr, ts: seq<Token>, prec: Precedence)
    requires prec > PREC_NONE && WellFormed(left)
    ensures ParseInfix(left, ts, prec).Some? ==> WellFormed(ParseInfix(left, ts, prec).value.0)
    decreases |ts|, 1
  {
    if ts != [] && GetRule(ts[0].kind).precedence >= prec {
      InfixStepWellFormed(left, ts);
      if InfixStep(left, ts).Some? {
        var (e, rest) := InfixStep(left, ts).value;
        InfixWellFormed(e, rest, prec);
      }
    }
  }

  lemma {:induction false} InfixStepWellFormed(left: Expr, ts: seq<Token>)
    requires WellFormed(left) && ts != [] && GetRule(ts[0].kind).precedence > PREC_NONE
    ensures InfixStep(left, ts).Some? ==> WellFormed(InfixStep(left, ts).value.0)
    decreases |ts|, 0
  {
    if Consumed(ts).Some? {
      ParsedWellFormed(Consumed(ts).value, GetRule(ts[0].kind).precedence + 1);
    }
  }

  // ---------------------------------------------------------------------------
  // The parser

  /**
   * `ts` is the current token followed by the tokens the scanner has still
   * to return from `c` (none after EOF). `depth` only delays the verifier,
   * as HeapValid's does: the parse methods pass it along unopened.
   */
  ghost predicate Lookahead(ts: seq<Token>, current: Token, src: seq<char>, c: Cursor, depth: nat)
    decreases depth
  {
    if depth == 0 then
      c.current <= |src| && ts == [current] + (if current.kind == EOF then [] else Tokens(src, c))
    else Lookahead(ts, current, src, c, depth - 1)
  }

  lemma LookaheadIs(ts: seq<Token>, current: Token, src: seq<char>, c: Cursor)
    ensures Lookahead(ts, current, src, c, 2) <==>
      c.current <= |src| && ts == [current] + (if current.kind == EOF then [] else Tokens(src, c))
  {
    assert Lookahead(ts, current, src, c, 2) == Lookahead(ts, current, src, c, 1) == Lookahead(ts, current, src, c, 0);
  }

  /**
   * The global Parser together with the code it emits, the scanner it reads
   * and the VM heap string constants are interned in. The chunk being
   * compiled is held as its three sequences: the code bytes, the line of
   * each byte and the constant pool. `reported` lists the tokens an error
   * was printed at.
   */
  class Parser {
    const scanner: Scanner
    const heap: Objects.Heap
    var current: Token
    var previous: Token
    var hadError: bool
    var panicMode: bool
    var code: seq<Byte>
    var lines: seq<nat>
    var constants: seq<Value>
    ghost var reported: seq<Token>
    ghost var upcoming: seq<Token>

    /**
     * The scanner is valid; every byte has its line; panic mode is on
     * exactly when an error occurred, and then exactly one error was
     * reported, while without one the pool fits a byte's indices; the
     * current token is never an error token, and a string token holds both
     * its quotes. `upcoming` is the current token followed by every token
     * the scanner has still to return (none after EOF).
     */
    ghost predicate Valid()
      reads this, scanner
    {
      scanner.Valid() && |lines| == |code| &&
      panicMode == hadError && |reported| == (if hadError then 1 else 0) &&
      (!hadError ==> |constants| <= 256) &&
      current.kind != Error &&
      (current.kind == EOF ==> AtEofAt(scanner.src, scanner.current)) &&
      Lookahead(upcoming, current, scanner.src, scanner.State(), 2) &&
      (current.kind == TokenKind.String ==> |current.lexeme| >= 2) &&
      (previous.kind == TokenKind.String ==> |previous.lexeme| >= 2)
    }

    /** The token list starts with the current token. */
    lemma UpcomingHead()
      requires Valid()
      ensures upcoming != [] && upcoming[0] == current
    {
      LookaheadIs(upcoming, current, scanner.src, scanner.State());
    }

    /**
     * Twice the characters left plus one for a pending token other than
     * EOF: every consume of such a token lowers it.
     */
    function Fuel(): nat
      reads this`current, scanner
    {
      2 * (if scanner.current <= |scanner.src| then |scanner.src| - scanner.current else 0) +
      (if current.kind != EOF then 1 else 0)
    }

    /**
     * The state `compile` sets up: a fresh scanner, an empty chunk, both
     * flags cleared. The tokens start as the zero-initialised global's.
     */
    constructor (scanner: Scanner, heap: Objects.Heap)
      requires scanner.Valid()
      ensures Valid() && this.scanner == scanner && this.heap == heap
      ensures !hadError && reported == [] && current.kind != EOF
      ensures upcoming[1..] == Tokens(scanner.src, scanner.State())
      ensures code == [] && constants == []
    {
      this.scanner := scanner;
      this.heap := heap;
      current := Token(LeftParen, [], 0);
      previous := Token(LeftParen, [], 0);
      hadError := false;
      panicMode := false;
      code := [];
      lines := [];
      constants := [];
      reported := [];
      upcoming := [Token(LeftParen, [], 0)] + Tokens(scanner.src, scanner.State());
      new;
      LookaheadIs(upcoming, current, scanner.src, scanner.State());
    }

    /**
     * error_at (and error_at_current, error_at_last): in panic mode nothing
     * happens; otherwise the error is reported at `token` and both flags
     * are set. The printed text is not modelled.
     */
    method ErrorAt(token: Token)
      requires panicMode == hadError && |reported| == (if hadError then 1 else 0)
      modifies this
      ensures hadError && panicMode && |reported| == 1
      ensures reported == old(reported) + (if old(panicMode) then [] else [token])
      ensures current == old(current) && previous == old(previous) && upcoming == old(upcoming)
      ensures code == old(code) && lines == old(lines) && constants == old(constants)
    {
      if panicMode {
        return;
      }
      panicMode := true;
      reported := reported + [token];
      hadError := true;
    }

    /**
     * One turn of the loop of consume: scan a token into `current` and
     * report it when it is an error token.
     */
    method ScanNext()
      requires scanner.Valid() && panicMode == hadError && |reported| == (if hadError then 1 else 0)
      modifies this, scanner
      ensures scanner.Valid() && panicMode == hadError && |reported| == (if hadError then 1 else 0)
      ensures (current, scanner.State()) == Scanned(scanner.src, old(scanner.State()), 1)
      ensures current.kind != EOF ==> scanner.current > old(scanner.current)
      ensures current.kind == EOF ==> AtEofAt(scanner.src, scanner.current)
      ensures current.kind == TokenKind.String ==> |current.lexeme| >= 2
      ensures hadError == (old(hadError) || current.kind == Error) && previous == old(previous)
      ensures reported == old(reported) + (if old(hadError) || current.kind != Error then [] else [current])
      ensures code == old(code) && lines == old(lines) && constants == old(constants) && upcoming == old(upcoming)
    {
      ScanFacts(scanner.src, scanner.State());
      ScannedIsScan(scanner.src, scanner.State());
      current := scanner.ScanToken();
      if current.kind == Error {
        ErrorAt(current);
      }
    }

    /**
     * consume: the current token becomes the previous one; then tokens are
     * scanned until one is not an error, each error token being reported.
     * `skipped` are the error tokens passed over; on the token list, the
     * head is dropped and `skipped` precede the new current token. Once
     * EOF is current the scanner keeps returning EOF and nothing is skipped.
     */
    method Consume() returns (ghost skipped: seq<Token>)
      requires Valid()
      modifies this, scanner
      ensures Valid() && previous == old(current)
      ensures forall t :: t in skipped ==> t.kind == Error
      ensures hadError == (old(hadError) || skipped != [])
      ensures reported == old(reported) + (if old(hadError) || skipped == [] then [] else [skipped[0]])
      ensures old(current).kind != EOF ==> old(upcoming) == [old(current)] + skipped + upcoming
      ensures old(current).kind == EOF ==> skipped == [] && current.kind == EOF
      ensures Fuel() <= old(Fuel()) && (old(current).kind != EOF ==> Fuel() < old(Fuel()))
      ensures code == old(code) && lines == old(lines) && constants == old(constants)
    {
      LookaheadIs(upcoming, current, scanner.src, scanner.State());
      previous := current;
      ghost var c0 := scanner.State();
      ghost var before;
      skipped, before := ScanPastErrors();
      Relist(c0, skipped, before, old(upcoming), previous);
    }

    /**
     * The token list after the loop of consume: the new current token and
     * the tokens the scanner has still to return. Before the loop it was
     * `head`, the error tokens `skipped` and this list.
     */
    ghost method Relist(c0: Cursor, skipped: seq<Token>, before: Cursor, ts: seq<Token>, head: Token)
      requires Scans(scanner.src, c0, skipped, before) && before.current <= |scanner.src|
      requires (current, scanner.State()) == Scanned(scanner.src, before, 1) && current.kind != Error
      requires forall t :: t in skipped ==> t.kind == Error
      requires head.kind != EOF ==> c0.current <= |scanner.src| && ts == [head] + Tokens(scanner.src, c0)
      modifies this`upcoming
      ensures Lookahead(upcoming, current, scanner.src, scanner.State(), 2)
      ensures head.kind != EOF ==> ts == [head] + skipped + upcoming
    {
      upcoming := [current] + (if current.kind == EOF then [] else Tokens(scanner.src, scanner.State()));
      if head.kind != EOF {
        TokensAfterSkip(scanner.src, c0, skipped, before, current, scanner.State(), head, ts, upcoming);
      }
      LookaheadIs(upcoming, current, scanner.src, scanner.State());
    }

    /**
     * The loop of consume: scan into `current` until a token is not an
     * error token, reporting the first error token. `skipped` are the error
     * tokens passed over and `before` the cursor of the last scan. With EOF
     * current the scanner is at the end and returns EOF again.
     */
    method ScanPastErrors() returns (ghost skipped: seq<Token>, ghost before: Cursor)
      requires scanner.Valid() && panicMode == hadError && |reported| == (if hadError then 1 else 0)
      requires current.kind == EOF ==> AtEofAt(scanner.src, scanner.current)
      modifies this, scanner
      ensures scanner.Valid() && panicMode == hadError && |reported| == (if hadError then 1 else 0)
      ensures Scans(scanner.src, old(scanner.State()), skipped, before) && before.current <= |scanner.src|
      ensures (current, scanner.State()) == Scanned(scanner.src, before, 1) && current.kind != Error
      ensures forall t :: t in skipped ==> t.kind == Error
      ensures hadError == (old(hadError) || skipped != [])
      ensures reported == old(reported) + (if old(hadError) || skipped == [] then [] else [skipped[0]])
      ensures current.kind == EOF ==> AtEofAt(scanner.src, scanner.current)
      ensures current.kind == TokenKind.String ==> |current.lexeme| >= 2
      ensures scanner.current >= old(scanner.current) && (current.kind != EOF ==> scanner.current > old(scanner.current))
      ensures old(current).kind == EOF ==> skipped == [] && current.kind == EOF
      ensures previous == old(previous) && code == old(code) && lines == old(lines) && constants == old(constants)
      ensures upcoming == old(upcoming)
    {
      skipped := [];
      ghost var c0 := scanner.State();
      before := c0;
      if current.kind == EOF {
        ScanAtEof(scanner.src, c0);
      }
      while true
        invariant scanner.Valid() && previous == old(previous)
        invariant panicMode == hadError && |reported| == (if hadError then 1 else 0)
        invariant Scans(scanner.src, c0, skipped, scanner.State())
        invariant forall t :: t in skipped ==> t.kind == Error
        invariant hadError == (old(hadError) || skipped != [])
        invariant reported == old(reported) + (if old(hadError) || skipped == [] then [] else [skipped[0]])
        invariant scanner.current >= c0.current
        invariant old(current).kind == EOF ==> skipped == [] && scanner.State() == c0
        invariant code == old(code) && lines == old(lines) && constants == old(constants) && upcoming == old(upcoming)
        decreases |scanner.src| - scanner.current
      {
        before := scanner.State();
        ScansSnoc(scanner.src, c0, skipped, before);
        ScanNext();
        if current.kind != Error {
          break;
        }
        skipped := skipped + [current];
      }
    }

    /**
     * consume as the parse functions rely on it: the current token moves
     * to `previous`, the new current token is not an error token, and the
     * input shrinks unless the token moved was EOF. On the token list it
     * is Consumed: an error exactly when it fails, and otherwise the tokens
     * left are what it returns.
     */
    method Advance()
      requires Valid()
      modifies this, scanner
      ensures Valid() && previous == old(current)
      ensures Fuel() <= old(Fuel()) && (old(current).kind != EOF ==> Fuel() < old(Fuel()))
      ensures (old(hadError) ==> hadError) && code == old(code) && lines == old(lines) && constants == old(constants)
      ensures old(current).kind != EOF ==>
        hadError == (old(hadError) || Consumed(old(upcoming)).None?) &&
        (Consumed(old(upcoming)).Some? ==> upcoming == Consumed(old(upcoming)).value)
    {
      ghost var skipped := Consume();
      if old(current).kind != EOF {
        UpcomingHead();
        ConsumedSkipping(old(upcoming), previous, skipped, upcoming);
      }
    }

    /**
     * consume_expected: report an error unless the current token has the
     * expected kind, then consume.
     */
    method ConsumeExpected(kind: TokenKind) returns (ghost skipped: seq<Token>)
      requires Valid()
      modifies this, scanner
      ensures Valid() && previous == old(current)
      ensures hadError == (old(hadError) || old(current).kind != kind || skipped != [])
      ensures old(reported) != [] ==> reported == old(reported)
      ensures old(current).kind == EOF ==> skipped == []
      ensures old(current).kind != EOF ==>
        (skipped == [] <==> Consumed(old(upcoming)).Some?) &&
        (Consumed(old(upcoming)).Some? ==> upcoming == Consumed(old(upcoming)).value)
      ensures Fuel() <= old(Fuel()) && (old(current).kind != EOF ==> Fuel() < old(Fuel()))
      ensures code == old(code) && lines == old(lines) && constants == old(constants)
    {
      if current.kind != kind {
        ErrorAt(current);
      }
      skipped := Consume();
      if old(current).kind != EOF {
        UpcomingHead();
        ConsumedSkipping(old(upcoming), previous, skipped, upcoming);
      }
    }

    /** emit_byte: append the byte, tagged with the line of the previous token. */
    method EmitByte(b: Byte)
      requires Valid()
      modifies this
      ensures Valid() && code == old(code) + [b] && lines == old(lines) + [previous.line]
      ensures constants == old(constants) && current == old(current) && previous == old(previous)
      ensures hadError == old(hadError) && reported == old(reported) && upcoming == old(upcoming)
    {
      code := code + [b];
      lines := lines + [previous.line];
    }

    /** emit_bytes: both bytes in order, on the previous token's line. */
    method EmitBytes(b1: Byte, b2: Byte)
      requires Valid()
      modifies this
      ensures Valid() && code == old(code) + [b1, b2] && lines == old(lines) + [previous.line, previous.line]
      ensures constants == old(constants) && current == old(current) && previous == old(previous)
      ensures hadError == old(hadError) && reported == old(reported) && upcoming == old(upcoming)
    {
      EmitByte(b1);
      EmitByte(b2);
    }

    /**
     * The opcodes of an operator, with emit_byte for one and emit_bytes for
     * two, as the cases of `unary`, `binary` and `literal` do.
     */
    method EmitOps(ops: seq<Byte>)
      requires Valid() && |ops| <= 2
      modifies this
      ensures Valid() && code == old(code) + ops && |lines| == |old(lines)| + |ops|
      ensures forall i :: |old(lines)| <= i < |lines| ==> lines[i] == previous.line
      ensures lines[..|old(lines)|] == old(lines)
      ensures constants == old(constants) && current == old(current) && previous == old(previous)
      ensures hadError == old(hadError) && reported == old(reported) && upcoming == old(upcoming)
    {
      if |ops| == 1 {
        EmitByte(ops[0]);
      } else if |ops| == 2 {
        EmitBytes(ops[0], ops[1]);
        assert ops == [ops[0], ops[1]];
      }
    }

    /**
     * make_constant: add the value to the pool; an index beyond a byte is
     * an error ("Too many constants in one chunk.") and yields index 0,
     * the value staying in the pool.
     */
    method MakeConstant(value: Value) returns (index: Byte)
      requires Valid()
      modifies this
      ensures Valid() && constants == old(constants) + [value]
      ensures index == if |old(constants)| > 255 then 0 else |old(constants)|
      ensures hadError == (old(hadError) || |old(constants)| > 255)
      ensures code == old(code) && lines == old(lines) && current == old(current) && previous == old(previous)
      ensures old(reported) != [] ==> reported == old(reported)
      ensures upcoming == old(upcoming)
    {
      constants := constants + [value];
      var constant := |constants| - 1;
      if constant > 255 {
        ErrorAt(previous);
        return 0;
      }
      index := constant;
    }

    /**
     * emit_constant: OP_CONSTANT and the constant's index, which is the
     * code of a constant expression whose constant goes to the pool's end.
     */
    method EmitConstant(value: Value) returns (ghost emitted: seq<Byte>)
      requires Valid()
      modifies this
      ensures Valid() && code == old(code) + emitted && constants == old(constants) + [value]
      ensures emitted == Code(NumberExpr(0.0), |old(constants)|)
      ensures Shapes(constants) == Shapes(old(constants)) + [ShapeOf(value)]
      ensures hadError == (old(hadError) || |old(constants)| > 255)
      ensures current == old(current) && previous == old(previous) && upcoming == old(upcoming)
      ensures old(reported) != [] ==> reported == old(reported)
    {
      var index := MakeConstant(value);
      EmitBytes(OP_CONSTANT, index);
      emitted := [OP_CONSTANT, index];
      assert Shapes(constants) == Shapes(old(constants)) + [ShapeOf(value)];
    }

    /**
     * number: the constant for the previous token's numeral; ParsePrefix
     * of a number token.
     */
    method NumberLiteral() returns (ghost emitted: seq<Byte>, ghost e: Expr)
      requires Valid() && previous.kind == TokenKind.Number
      modifies this
      ensures Valid() && code == old(code) + emitted
      ensures constants == old(constants) + [Value.Number(NumberValue(previous.lexeme))]
      ensures current == old(current) && previous == old(previous) && upcoming == old(upcoming)
      ensures Parses(ParsePrefix(old(previous), old(upcoming)), old(hadError), hadError, old(constants), e, emitted, constants, upcoming)
    {
      PrefixRules(previous.kind);
      PrefixLeaves(old(previous), old(upcoming));
      e := NumberExpr(NumberValue(previous.lexeme));
      emitted := EmitConstant(Value.Number(NumberValue(previous.lexeme)));
      LeafParses(ParsePrefix(old(previous), old(upcoming)), old(hadError), hadError, old(constants), e, emitted, constants, upcoming);
    }

    lemma HeapValidIsValid()
      ensures HeapValid(2) == heap.Valid()
    {
      assert HeapValid(2) == HeapValid(1) == HeapValid(0);
    }

    /** copy_string into the VM's string table, seen from the parser. */
    method Intern(chars: seq<char>) returns (r: ObjString)
      requires HeapValid(2)
      modifies heap, heap.strings, heap.strings.entries
      ensures HeapValid(2)
      ensures heap.strings.entries == old(heap.strings.entries) || fresh(heap.strings.entries)
      ensures r.chars == chars && r.hash == Objects.Fnv1a(chars)
    {
      assert HeapValid(1);
      assert HeapValid(0);
      r := heap.CopyStr(chars);
      assert HeapValid(0);
      assert HeapValid(1);
    }

    /**
     * The heap is valid (`heap.Valid()`), reached through `depth` steps the
     * verifier takes only where a proof asks for them: the parse functions
     * pass the string table's invariant along without unfolding it, and
     * only Intern, which calls copy_string, opens it.
     */
    ghost predicate HeapValid(depth: nat)
      reads heap, heap.strings, heap.strings.entries
      decreases depth
    {
      if depth == 0 then heap.Valid() else HeapValid(depth - 1)
    }

    /**
     * string: the constant for the interned string between the previous
     * token's quotes; ParsePrefix of a string token.
     */
    method StringLiteral() returns (ghost emitted: seq<Byte>, ghost e: Expr, ghost obj: ObjString)
      requires Valid() && HeapValid(2) && previous.kind == TokenKind.String
      modifies this, heap, heap.strings, heap.strings.entries
      ensures Valid() && HeapValid(2) && code == old(code) + emitted
      ensures heap.strings.entries == old(heap.strings.entries) || fresh(heap.strings.entries)
      ensures |previous.lexeme| >= 2 && constants == old(constants) + [Obj(obj)]
      ensures obj.chars == previous.lexeme[1..|previous.lexeme| - 1]
      ensures current == old(current) && previous == old(previous) && upcoming == old(upcoming)
      ensures Parses(ParsePrefix(old(previous), old(upcoming)), old(hadError), hadError, old(constants), e, emitted, constants, upcoming)
    {
      var s := previous.lexeme;
      e := StringExpr(Unquote(s));
      var str := Intern(s[1..|s| - 1]);
      emitted := EmitConstant(Obj(str));
      obj := str;
      StringParses(old(previous), old(upcoming), old(hadError), hadError, old(constants), obj, emitted, constants);
    }

    /** literal: the opcode for `true`, `false` or `nil`; ParsePrefix of such a token. */
    method Literal() returns (ghost emitted: seq<Byte>, ghost e: Expr)
      requires Valid() && GetRule(previous.kind).prefix == LiteralFn
      modifies this
      ensures Valid() && emitted == LiteralOps(previous.kind) && code == old(code) + emitted
      ensures constants == old(constants) && hadError == old(hadError) && reported == old(reported)
      ensures current == old(current) && previous == old(previous) && upcoming == old(upcoming)
      ensures Parses(ParsePrefix(old(previous), old(upcoming)), old(hadError), hadError, old(constants), e, emitted, constants, upcoming)
    {
      PrefixLeaves(old(previous), old(upcoming));
      e := LiteralExpr(previous.kind);
      var bytes := LiteralOps(previous.kind);
      EmitOps(bytes);
      emitted := bytes;
      LeafParses(ParsePrefix(old(previous), old(upcoming)), old(hadError), hadError, old(constants), e, emitted, constants, upcoming);
    }

    /**
     * parse_precedence: consume a token and run its prefix rule ("Expected
     * expression." when it has none); then, while the current token's
     * precedence is at least `precedence`, consume it and run its infix
     * rule. This is ParseExpr on the token list: no error exactly when it
     * succeeds with the constants fitting the pool, and then the code and
     * constants are those of its expression `e`.
     */
    method ParsePrecedence(precedence: Precedence) returns (ghost emitted: seq<Byte>, ghost e: Expr)
      requires Valid() && HeapValid(2) && precedence >= PREC_ASSIGNMENT
      modifies this, scanner, heap, heap.strings, heap.strings.entries
      decreases Fuel(), 0
      ensures Valid() && HeapValid(2)
      ensures heap.strings.entries == old(heap.strings.entries) || fresh(heap.strings.entries)
      ensures Fuel() <= old(Fuel()) && code == old(code) + emitted
      ensures Parses(ParseExpr(old(upcoming), precedence), old(hadError), hadError, old(constants), e, emitted, constants, upcoming)
    {
      UpcomingHead();
      ghost var ts := upcoming;
      Advance();
      var prefix := GetRule(previous.kind).prefix;
      if prefix == NoFn {
        ErrorAt(previous);
        return [], LiteralExpr(TokenKind.Nil);
      }
      PrefixRules(previous.kind);
      emitted, e := Climb(precedence, prefix, ts, old(hadError));
    }

    /**
     * parse_precedence once the first token `ts[0]` is consumed: its prefix
     * rule, then the infix loop. ParseExpr of `ts`, where `h0` was hadError
     * before the token was consumed.
     */
    method Climb(precedence: Precedence, prefix: ParseFn, ghost ts: seq<Token>, ghost h0: bool)
        returns (ghost emitted: seq<Byte>, ghost e: Expr)
      requires Valid() && HeapValid(2) && precedence >= PREC_ASSIGNMENT
      requires ts != [] && previous == ts[0] && prefix == GetRule(previous.kind).prefix && prefix != NoFn
      requires hadError == (h0 || Consumed(ts).None?) && (Consumed(ts).Some? ==> upcoming == Consumed(ts).value)
      modifies this, scanner, heap, heap.strings, heap.strings.entries
      decreases Fuel(), 5
      ensures Valid() && HeapValid(2)
      ensures heap.strings.entries == old(heap.strings.entries) || fresh(heap.strings.entries)
      ensures Fuel() <= old(Fuel()) && code == old(code) + emitted
      ensures Parses(ParseExpr(ts, precedence), h0, hadError, old(constants), e, emitted, constants, upcoming)
    {
      ghost var start, h1, t, rest := code, hadError, previous, upcoming;
      var operand, first := Prefix(prefix);
      ghost var h2, middle, mid := hadError, constants, upcoming;
      ghost var more;
      more, e := InfixLoop(precedence, operand, first, old(constants));
      emitted := operand + more;
      Associative(start, operand, more);
      ExprParses(ts, precedence, h0, h1, h2, hadError, t, rest, old(constants), first, operand, middle, mid,
                 e, emitted, constants, upcoming);
    }

    /**
     * The loop of parse_precedence: while the current token's precedence is
     * at least `precedence`, extend the left operand by an infix rule. This
     * is ParseInfix from the left operand `leftExpr`, whose code `left` was
     * emitted for a pool that held `base`.
     */
    method InfixLoop(precedence: Precedence, ghost left: seq<Byte>, ghost leftExpr: Expr, ghost base: seq<Value>)
        returns (ghost more: seq<Byte>, ghost e: Expr)
      requires Valid() && HeapValid(2) && precedence >= PREC_ASSIGNMENT
      requires !hadError ==> left == Code(leftExpr, |base|) && Shapes(constants) == Shapes(base) + Pool(leftExpr)
      modifies this, scanner, heap, heap.strings, heap.strings.entries
      decreases Fuel(), 4
      ensures Valid() && HeapValid(2)
      ensures heap.strings.entries == old(heap.strings.entries) || fresh(heap.strings.entries)
      ensures Fuel() <= old(Fuel()) && code == old(code) + more
      ensures Parses(ParseInfix(leftExpr, old(upcoming), precedence), old(hadError), hadError, base, e, left + more, constants, upcoming)
    {
      more := [];
      e := leftExpr;
      assert left + more == left;
      ghost var whole := ParseInfix(leftExpr, upcoming, precedence);
      UpcomingHead();
      while precedence <= GetRule(current.kind).precedence
        invariant Valid() && HeapValid(2) && upcoming != [] && upcoming[0] == current
        invariant heap.strings.entries == old(heap.strings.entries) || fresh(heap.strings.entries)
        invariant Fuel() <= old(Fuel()) && code == old(code) + more
        invariant old(hadError) ==> hadError
        invariant hadError && !old(hadError) ==> !Fits(whole, |base|)
        invariant !hadError ==> ParseInfix(e, upcoming, precedence) == whole
        invariant !hadError ==> left + more == Code(e, |base|) && Shapes(constants) == Shapes(base) + Pool(e)
        decreases Fuel()
      {
        ghost var ts, h := upcoming, hadError;
        var next, e' := Infix(left + more, e, base);
        InfixLoopStep(e, ts, precedence, old(hadError), h, hadError, base, e', left + more + next, constants, upcoming, whole);
        Associative(left, more, next);
        Associative(old(code), more, next);
        more := more + next;
        e := e';
        UpcomingHead();
      }
      InfixLoopDone(e, upcoming, precedence, old(hadError), hadError, base, left + more, constants, whole);
    }

    /**
     * The call `prefix_rule()` of parse_precedence, for the rule of the
     * token just consumed: ParsePrefix on the tokens after it.
     */
    method Prefix(prefix: ParseFn) returns (ghost emitted: seq<Byte>, ghost e: Expr)
      requires Valid() && HeapValid(2) && prefix == GetRule(previous.kind).prefix && prefix != NoFn
      modifies this, scanner, heap, heap.strings, heap.strings.entries
      decreases Fuel(), 3
      ensures Valid() && HeapValid(2)
      ensures heap.strings.entries == old(heap.strings.entries) || fresh(heap.strings.entries)
      ensures Fuel() <= old(Fuel()) && code == old(code) + emitted
      ensures Parses(ParsePrefix(old(previous), old(upcoming)), old(hadError), hadError, old(constants), e, emitted, constants, upcoming)
    {
      PrefixRules(previous.kind);
      match prefix {
        case GroupingFn => emitted, e := Grouping();
        case UnaryFn => emitted, e := Unary();
        case NumberFn | StringFn | LiteralFn => emitted, e := Operand(prefix);
      }
    }

    /** The prefix rules that emit one operand: number, string and literal. */
    method Operand(prefix: ParseFn) returns (ghost emitted: seq<Byte>, ghost e: Expr)
      requires Valid() && HeapValid(2) && prefix == GetRule(previous.kind).prefix
      requires prefix == NumberFn || prefix == StringFn || prefix == LiteralFn
      modifies this, scanner, heap, heap.strings, heap.strings.entries
      decreases Fuel(), 2
      ensures Valid() && HeapValid(2)
      ensures heap.strings.entries == old(heap.strings.entries) || fresh(heap.strings.entries)
      ensures Fuel() <= old(Fuel()) && code == old(code) + emitted
      ensures Parses(ParsePrefix(old(previous), old(upcoming)), old(hadError), hadError, old(constants), e, emitted, constants, upcoming)
    {
      PrefixRules(previous.kind);
      if prefix == NumberFn {
        emitted, e := NumberLiteral();
      } else if prefix == StringFn {
        ghost var obj;
        emitted, e, obj := StringLiteral();
      } else {
        emitted, e := Literal();
      }
    }

    /**
     * One turn of the loop of parse_precedence: consume the operator and
     * run its infix rule, which is `binary`. This is InfixStep from the
     * left operand `leftExpr`, whose code `left` was emitted for a pool
     * that held `base`.
     */
    method Infix(ghost left: seq<Byte>, ghost leftExpr: Expr, ghost base: seq<Value>) returns (ghost more: seq<Byte>, ghost e: Expr)
      requires Valid() && HeapValid(2) && GetRule(current.kind).precedence > PREC_NONE
      requires !hadError ==> left == Code(leftExpr, |base|) && Shapes(constants) == Shapes(base) + Pool(leftExpr)
      modifies this, scanner, heap, heap.strings, heap.strings.entries
      decreases Fuel(), 3
      ensures Valid() && HeapValid(2)
      ensures heap.strings.entries == old(heap.strings.entries) || fresh(heap.strings.entries)
      ensures Fuel() < old(Fuel()) && code == old(code) + more
      ensures Parses(InfixStep(leftExpr, old(upcoming)), old(hadError), hadError, base, e, left + more, constants, upcoming)
    {
      InfixRules(current.kind);
      UpcomingHead();
      ghost var ts := upcoming;
      Advance();
      var infix := GetRule(previous.kind).infix;
      assert infix == BinaryFn;
      ghost var h1, middle, rest := hadError, constants, upcoming;
      var right, rightExpr, prec := Binary();
      more := right.0 + right.1;
      e := BinaryExpr(ts[0].kind, leftExpr, rightExpr);
      Associative(old(code), right.0, right.1);
      InfixParses(ts, rest, prec, old(hadError), h1, hadError, leftExpr, left, base, middle, rightExpr, right.0, right.1,
                  constants, upcoming);
    }

    /**
     * expression: parse at the lowest precedence that runs infix rules,
     * ParseExpr at PREC_ASSIGNMENT.
     */
    method Expression() returns (ghost emitted: seq<Byte>, ghost e: Expr)
      requires Valid() && HeapValid(2)
      modifies this, scanner, heap, heap.strings, heap.strings.entries
      decreases Fuel(), 1
      ensures Valid() && HeapValid(2)
      ensures heap.strings.entries == old(heap.strings.entries) || fresh(heap.strings.entries)
      ensures Fuel() <= old(Fuel()) && code == old(code) + emitted
      ensures Parses(ParseExpr(old(upcoming), PREC_ASSIGNMENT), old(hadError), hadError, old(constants), e, emitted, constants, upcoming)
    {
      emitted, e := ParsePrecedence(PREC_ASSIGNMENT);
    }

    /**
     * grouping: an expression and its closing parenthesis, which is an
     * error when missing; ParsePrefix of `(`.
     */
    method Grouping() returns (ghost emitted: seq<Byte>, ghost e: Expr)
      requires Valid() && HeapValid(2) && previous.kind == LeftParen
      modifies this, scanner, heap, heap.strings, heap.strings.entries
      decreases Fuel(), 2
      ensures Valid() && HeapValid(2)
      ensures heap.strings.entries == old(heap.strings.entries) || fresh(heap.strings.entries)
      ensures Fuel() <= old(Fuel()) && code == old(code) + emitted
      ensures Parses(ParsePrefix(old(previous), old(upcoming)), old(hadError), hadError, old(constants), e, emitted, constants, upcoming)
    {
      PrefixRules(previous.kind);
      emitted, e := Expression();
      UpcomingHead();
      ghost var h1, close, mid := hadError, current, upcoming;
      ghost var skipped := ConsumeExpected(RightParen);
      GroupingParses(old(previous), old(upcoming), old(hadError), h1, hadError, old(constants), e, emitted, constants,
                     close, mid, skipped, upcoming);
    }

    /**
     * unary: the operand at PREC_UNARY, then NOT for `!` or NEGATE for `-`;
     * only a tighter operand, so `-a + b` negates `a` alone. ParsePrefix
     * of the operator.
     */
    method Unary() returns (ghost emitted: seq<Byte>, ghost e: Expr)
      requires Valid() && HeapValid(2) && (previous.kind == Bang || previous.kind == Minus)
      modifies this, scanner, heap, heap.strings, heap.strings.entries
      decreases Fuel(), 2
      ensures Valid() && HeapValid(2)
      ensures heap.strings.entries == old(heap.strings.entries) || fresh(heap.strings.entries)
      ensures Fuel() <= old(Fuel()) && code == old(code) + emitted
      ensures Parses(ParsePrefix(old(previous), old(upcoming)), old(hadError), hadError, old(constants), e, emitted, constants, upcoming)
    {
      PrefixRules(previous.kind);
      var opKind := previous.kind;
      var operand, operandExpr := ParsePrecedence(PREC_UNARY);
      var ops := UnaryOps(opKind);
      EmitOps(ops);
      emitted := operand + ops;
      e := UnaryExpr(opKind, operandExpr);
      UnaryParses(old(previous), old(upcoming), old(hadError), hadError, old(constants), operandExpr, operand,
                  constants, upcoming);
    }

    /**
     * binary: the right operand one level tighter than the operator (so
     * operators of one level associate to the left), then the operator's
     * opcodes. Returns the right operand's code, which is ParseExpr's one
     * level up, and the opcodes.
     */
    method Binary() returns (ghost emitted: (seq<Byte>, seq<Byte>), ghost right: Expr, ghost prec: Precedence)
      requires Valid() && HeapValid(2)
      modifies this, scanner, heap, heap.strings, heap.strings.entries
      decreases Fuel(), 2
      ensures Valid() && HeapValid(2)
      ensures heap.strings.entries == old(heap.strings.entries) || fresh(heap.strings.entries)
      ensures Fuel() <= old(Fuel()) && code == old(code) + emitted.0 + emitted.1
      ensures prec == GetRule(old(previous).kind).precedence + 1 && emitted.1 == BinaryOps(old(previous).kind)
      ensures Parses(ParseExpr(old(upcoming), prec), old(hadError), hadError, old(constants), right, emitted.0, constants, upcoming)
    {
      InfixRules(previous.kind);
      var opKind := previous.kind;
      var precedence := GetRule(opKind).precedence + 1;
      ghost var operand;
      operand, right := ParsePrecedence(precedence);
      prec := precedence;
      var ops := BinaryOps(opKind);
      EmitOps(ops);
      emitted := (operand, ops);
    }

    /**
     * The body of compile after its set-up: advance, expression, consume
     * of EOF and end_compiler. On the token list after the set-up token
     * this is ParseProgram: Compiled.
     */
    method Program() returns (ghost expr: seq<Byte>, ghost e: Expr)
      requires Valid() && HeapValid(2) && !hadError && current.kind != EOF && code == [] && constants == []
      modifies this, scanner, heap, heap.strings, heap.strings.entries
      ensures Valid() && HeapValid(2)
      ensures heap.strings.entries == old(heap.strings.entries) || fresh(heap.strings.entries)
      ensures code == expr + [OP_RETURN]
      ensures Compiled(old(upcoming)[1..], hadError, e, expr, constants)
    {
      ghost var skipped, first;
      skipped, first, expr, e := Start();
      Finish(old(upcoming)[1..], skipped, first, skipped != [], [], e, expr);
    }

    /**
     * The start of compile: advance to the first token, then one
     * expression. The tokens after the set-up token are the error tokens
     * `skipped` and then `first`, from which the expression `e` parsed.
     */
    method Start() returns (ghost skipped: seq<Token>, ghost first: seq<Token>, ghost expr: seq<Byte>, ghost e: Expr)
      requires Valid() && HeapValid(2) && !hadError && current.kind != EOF && code == [] && constants == []
      modifies this, scanner, heap, heap.strings, heap.strings.entries
      ensures Valid() && HeapValid(2)
      ensures heap.strings.entries == old(heap.strings.entries) || fresh(heap.strings.entries)
      ensures old(upcoming)[1..] == skipped + first && first != [] && first[0].kind != Error
      ensures forall t :: t in skipped ==> t.kind == Error
      ensures code == expr
      ensures Parses(ParseExpr(first, PREC_ASSIGNMENT), skipped != [], hadError, [], e, expr, constants, upcoming)
    {
      skipped := Consume();
      ghost var h1, base := hadError, constants;
      first := upcoming;
      UpcomingHead();
      expr, e := Expression();
      assert code == expr;
      TailIs(old(upcoming), old(current), skipped, first);
    }

    /**
     * The end of compile: consume of EOF ("Expect end of expression.")
     * and end_compiler, after the expression `e` parsed from `first`,
     * which followed the error tokens `skipped` in the token list `ts`.
     */
    method Finish(ghost ts: seq<Token>, ghost skipped: seq<Token>, ghost first: seq<Token>,
                  ghost h1: bool, ghost base: seq<Value>, ghost e: Expr, ghost expr: seq<Byte>)
      requires Valid() && code == expr && base == []
      requires ts == skipped + first && first != [] && first[0].kind != Error
      requires forall t :: t in skipped ==> t.kind == Error
      requires h1 == (skipped != [])
      requires Parses(ParseExpr(first, PREC_ASSIGNMENT), h1, hadError, base, e, expr, constants, upcoming)
      modifies this, scanner
      ensures Valid() && code == expr + [OP_RETURN]
      ensures Compiled(ts, hadError, e, expr, constants)
    {
      UpcomingHead();
      ghost var h2, last, after := hadError, current, upcoming;
      ghost var skipped' := ConsumeExpected(EOF);
      CompileParses(ts, skipped, first, h1, h2, hadError, base, e, expr, constants, last, after, skipped');
      EndCompiler();
    }

    /** end_compiler: emit_return, the single byte OP_RETURN. */
    method EndCompiler()
      requires Valid()
      modifies this
      ensures Valid() && code == old(code) + [OP_RETURN] && constants == old(constants)
      ensures hadError == old(hadError) && reported == old(reported)
    {
      EmitByte(OP_RETURN);
    }
  }

  /**
   * The loop of consume on the token list: the list `ts` before it is the
   * old current token `head`, the error tokens skipped and the list `ts'`
   * from the token that stopped the loop.
   */
  lemma TokensAfterSkip(src: seq<char>, c0: Cursor, skipped: seq<Token>, before: Cursor, t: Token, c: Cursor,
                        head: Token, ts: seq<Token>, ts': seq<Token>)
    requires c0.current <= |src| && Scans(src, c0, skipped, before)
    requires forall s :: s in skipped ==> s.kind == Error
    requires ts == [head] + Tokens(src, c0)
    requires before.current <= |src| && (t, c) == Scanned(src, before, 1) && t.kind != Error
    requires ts' == [t] + (if t.kind == EOF then [] else Tokens(src, c))
    ensures ts == [head] + skipped + ts'
  {
    TokensSkip(src, c0, skipped, before);
    Associative([head], skipped, ts');
  }

  /**
   * consume on the token list: with no error token skipped it drops the
   * head; skipping one is exactly where Consumed fails.
   */
  lemma ConsumedSkipping(ts: seq<Token>, head: Token, skipped: seq<Token>, rest: seq<Token>)
    requires ts == [head] + skipped + rest && rest != [] && rest[0].kind != Error
    requires forall t :: t in skipped ==> t.kind == Error
    ensures Consumed(ts).Some? <==> skipped == []
    ensures skipped == [] ==> Consumed(ts) == Some(rest)
  {
    if skipped != [] {
      assert ts[1] == skipped[0];
    } else {
      assert ts[1] == rest[0];
      assert ts[1..] == rest;
    }
  }

  /**
   * compile: scan and parse one expression of `source`, then OP_RETURN.
   * The code is the expression's code followed by OP_RETURN whether or not
   * an error occurred; at most one error is reported. Compilation succeeds
   * exactly when the scanner's tokens parse as one expression and EOF
   * (Parse) with at most 256 constants, and then the code and the pool
   * are that expression's.
   */
  method Compile(source: seq<char>, heap: Objects.Heap)
      returns (ok: bool, code: seq<Byte>, lines: seq<nat>, constants: seq<Value>, ghost expr: seq<Byte>, ghost errors: seq<Token>)
    requires heap.Valid()
    modifies heap, heap.strings, heap.strings.entries
    ensures heap.Valid()
    ensures code == expr + [OP_RETURN] && |lines| == |code|
    ensures ok <==> errors == []
    ensures |errors| <= 1
    ensures ok <==> Parse(source).Some? && |Pool(Parse(source).value)| <= 256
    ensures ok ==> expr == Code(Parse(source).value, 0) && Shapes(constants) == Pool(Parse(source).value)
    ensures ok ==> ExprCode(expr, |constants|)
  {
    var scanner := new Scanner(source);
    var parser := new Parser(scanner, heap);
    parser.HeapValidIsValid();
    ghost var ts := parser.upcoming[1..];
    ghost var e;
    expr, e := parser.Program();
    parser.HeapValidIsValid();
    CompiledIs(ts, parser.hadError, e, expr, parser.constants);
    ok := !parser.hadError;
    errors := parser.reported;
    code, lines, constants := parser.code, parser.lines, parser.constants;
    if ok {
      CodeIsExpr(e, 0, |constants|);
    }
  }

  // ---------------------------------------------------------------------------
  // Examples on token lists (the tokens after the set-up token)

  /** A number token at the head of `ts`: its constant is the left operand of the infix loop. */
  lemma NumberFirst(ts: seq<Token>, prec: Precedence)
    requires prec > PREC_NONE && |ts| >= 2 && ts[0].kind == TokenKind.Number && ts[1].kind != Error
    ensures ParseExpr(ts, prec) == ParseInfix(NumberExpr(NumberValue(ts[0].lexeme)), ts[1..], prec)
  {
    PrefixRules(ts[0].kind);
  }

  /** The rules the examples below rely on. */
  lemma ExampleRules()
    ensures GetRule(TokenKind.Nil).prefix == LiteralFn && GetRule(TokenKind.Nil).precedence == PREC_NONE
    ensures GetRule(EqualEqual).precedence == PREC_EQUALITY && GetRule(LeftParen).prefix == GroupingFn
    ensures GetRule(RightParen).precedence == PREC_NONE && GetRule(EOF).precedence == PREC_NONE
    ensures GetRule(EOF).prefix == NoFn
    ensures GetRule(Plus).precedence == PREC_TERM && GetRule(Minus).precedence == PREC_TERM
    ensures GetRule(Star).precedence == PREC_FACTOR
  {
  }

  /** A literal token at the head of `ts`: the literal is the left operand of the infix loop. */
  lemma LiteralFirst(ts: seq<Token>, prec: Precedence)
    requires prec > PREC_NONE && |ts| >= 2 && GetRule(ts[0].kind).prefix == LiteralFn && ts[1].kind != Error
    ensures ParseExpr(ts, prec) == ParseInfix(LiteralExpr(ts[0].kind), ts[1..], prec)
  {
  }

  /**
   * A parenthesised expression at the head of `ts`: the expression inside
   * is the left operand of the infix loop after the closing parenthesis.
   */
  lemma GroupFirst(ts: seq<Token>, prec: Precedence, e: Expr, rest: seq<Token>)
    requires prec > PREC_NONE && |ts| >= 2 && ts[0].kind == LeftParen && ts[1].kind != Error
    requires ParseExpr(ts[1..], PREC_ASSIGNMENT) == Some((e, rest))
    requires |rest| >= 2 && rest[0].kind == RightParen && rest[1].kind != Error
    ensures ParseExpr(ts, prec) == ParseInfix(e, rest[1..], prec)
  {
  }

  /** The infix loop stops at a token that binds less tightly than `prec`, leaving it. */
  lemma InfixStops(left: Expr, ts: seq<Token>, prec: Precedence)
    requires prec > PREC_NONE && ts != [] && GetRule(ts[0].kind).precedence < prec
    ensures ParseInfix(left, ts, prec) == Some((left, ts))
  {
  }

  /** The infix loop at an operator that binds at least as tightly as `prec`, with its right operand. */
  lemma OperatorNext(left: Expr, ts: seq<Token>, prec: Precedence, right: Expr, after: seq<Token>)
    requires prec > PREC_NONE && |ts| >= 2 && GetRule(ts[0].kind).precedence >= prec && ts[1].kind != Error
    requires ParseExpr(ts[1..], GetRule(ts[0].kind).precedence + 1) == Some((right, after))
    ensures ParseInfix(left, ts, prec) == ParseInfix(BinaryExpr(ts[0].kind, left, right), after, prec)
  {
    InfixStepOf(left, ts, ts[1..], right, after);
  }

  /** A whole program: one expression whose tokens are followed by EOF. */
  lemma ProgramOf(ts: seq<Token>, e: Expr, eof: seq<Token>)
    requires ts != [] && ts[0].kind != Error && eof != [] && eof[0].kind == EOF
    requires ParseExpr(ts, PREC_ASSIGNMENT) == Some((e, eof))
    ensures ParseProgram(ts) == Some(e)
  {
  }

  /**
   * `2 + 3 * 4`, for any three numerals: `*` binds tighter, so the product
   * is the right operand of `+`.
   */
  lemma PrecedenceExample(x: seq<char>, y: seq<char>, z: seq<char>)
    ensures var ts := [Token(TokenKind.Number, x, 1), Token(Plus, "+", 1), Token(TokenKind.Number, y, 1),
                       Token(Star, "*", 1), Token(TokenKind.Number, z, 1), Token(EOF, [], 1)];
      ParseProgram(ts) == Some(BinaryExpr(Plus, NumberExpr(NumberValue(x)),
                                          BinaryExpr(Star, NumberExpr(NumberValue(y)), NumberExpr(NumberValue(z)))))
  {
    var ts := [Token(TokenKind.Number, x, 1), Token(Plus, "+", 1), Token(TokenKind.Number, y, 1),
               Token(Star, "*", 1), Token(TokenKind.Number, z, 1), Token(EOF, [], 1)];
    var a, b, c := NumberExpr(NumberValue(x)), NumberExpr(NumberValue(y)), NumberExpr(NumberValue(z));
    var product := BinaryExpr(Star, b, c);
    var t1 := ts[1..];
    var t2 := t1[1..];
    var t3 := t2[1..];
    var t4 := t3[1..];
    var eof := t4[1..];
    ExampleRules();
    NumberFirst(t4, PREC_UNARY);
    InfixStops(c, eof, PREC_UNARY);
    OperatorNext(b, t3, PREC_FACTOR, c, eof);
    InfixStops(product, eof, PREC_FACTOR);
    NumberFirst(t2, PREC_FACTOR);
    OperatorNext(a, t1, PREC_ASSIGNMENT, product, eof);
    InfixStops(BinaryExpr(Plus, a, product), eof, PREC_ASSIGNMENT);
    NumberFirst(ts, PREC_ASSIGNMENT);
    ProgramOf(ts, BinaryExpr(Plus, a, product), eof);
  }

  /** The code for `2 + 3 * 4`: three constants, then the multiplication, then the addition. */
  lemma PrecedenceCode(x: real, y: real, z: real)
    ensures Code(BinaryExpr(Plus, NumberExpr(x), BinaryExpr(Star, NumberExpr(y), NumberExpr(z))), 0) ==
            [OP_CONSTANT, 0, OP_CONSTANT, 1, OP_CONSTANT, 2, OP_MULTIPLY, OP_ADD]
  {
    assert Code(BinaryExpr(Star, NumberExpr(y), NumberExpr(z)), 1) == [OP_CONSTANT, 1] + [OP_CONSTANT, 2] + [OP_MULTIPLY];
  }

  /**
   * `10 - 2 - 3`, for any three numerals: operators of one level
   * associate to the left.
   */
  lemma AssociativityExample(x: seq<char>, y: seq<char>, z: seq<char>)
    ensures var ts := [Token(TokenKind.Number, x, 1), Token(Minus, "-", 1), Token(TokenKind.Number, y, 1),
                       Token(Minus, "-", 1), Token(TokenKind.Number, z, 1), Token(EOF, [], 1)];
      ParseProgram(ts) == Some(BinaryExpr(Minus, BinaryExpr(Minus, NumberExpr(NumberValue(x)), NumberExpr(NumberValue(y))),
                                          NumberExpr(NumberValue(z))))
  {
    var ts := [Token(TokenKind.Number, x, 1), Token(Minus, "-", 1), Token(TokenKind.Number, y, 1),
               Token(Minus, "-", 1), Token(TokenKind.Number, z, 1), Token(EOF, [], 1)];
    var a, b, c := NumberExpr(NumberValue(x)), NumberExpr(NumberValue(y)), NumberExpr(NumberValue(z));
    var difference := BinaryExpr(Minus, a, b);
    var t1 := ts[1..];
    var t2 := t1[1..];
    var t3 := t2[1..];
    var t4 := t3[1..];
    var eof := t4[1..];
    ExampleRules();
    NumberFirst(t4, PREC_FACTOR);
    InfixStops(c, eof, PREC_FACTOR);
    OperatorNext(difference, t3, PREC_ASSIGNMENT, c, eof);
    InfixStops(BinaryExpr(Minus, difference, c), eof, PREC_ASSIGNMENT);
    NumberFirst(t2, PREC_FACTOR);
    InfixStops(b, t3, PREC_FACTOR);
    OperatorNext(a, t1, PREC_ASSIGNMENT, b, t3);
    NumberFirst(ts, PREC_ASSIGNMENT);
    ProgramOf(ts, BinaryExpr(Minus, difference, c), eof);
  }

  /** The code for `10 - 2 - 3`: the first difference is computed before the third constant is loaded. */
  lemma AssociativityCode(x: real, y: real, z: real)
    ensures Code(BinaryExpr(Minus, BinaryExpr(Minus, NumberExpr(x), NumberExpr(y)), NumberExpr(z)), 0) ==
            [OP_CONSTANT, 0, OP_CONSTANT, 1, OP_SUBTRACT, OP_CONSTANT, 2, OP_SUBTRACT]
  {
    var difference := BinaryExpr(Minus, NumberExpr(x), NumberExpr(y));
    assert Code(difference, 0) == [OP_CONSTANT, 0] + [OP_CONSTANT, 1] + [OP_SUBTRACT];
    assert |Pool(difference)| == 2;
  }

  /** `1 +`, for any numeral: the right operand is missing ("Expect expression." at EOF), so nothing compiles. */
  lemma MissingOperandExample(x: seq<char>)
    ensures ParseProgram([Token(TokenKind.Number, x, 1), Token(Plus, "+", 1), Token(EOF, [], 1)]) == None
  {
    var ts := [Token(TokenKind.Number, x, 1), Token(Plus, "+", 1), Token(EOF, [], 1)];
    var t1 := ts[1..];
    var eof := t1[1..];
    ExampleRules();
    assert ParseExpr(eof, PREC_FACTOR) == None;
    assert InfixStep(NumberExpr(NumberValue(x)), t1) == None;
    NumberFirst(ts, PREC_ASSIGNMENT);
  }
}
