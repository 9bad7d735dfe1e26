# clox, modelled in Dafny

A model of the core of `clox`, a bytecode interpreter in C for the expression
subset of Lox. The model covers:

- the scanner, which turns the source text into tokens;
- the single-pass Pratt compiler, which emits bytecode for one expression
  into a chunk;
- the chunk, with its run-length line counters and its constant pool;
- the disassembler's line and offset arithmetic;
- string objects, with FNV-1a hashing and interning;
- the open-addressing intern table, with its tombstones;
- the values;
- the stack virtual machine that runs a chunk.

Each C file keeps its form:

- Code that updates state in place is a Dafny `class` with the source's
  fields: the table's slot array, the chunk's code array, the line counters,
  the VM's 256-slot stack, the scanner's cursor and the parser's flags. Its
  methods carry `modifies` clauses, and their loops carry invariants.
- Each method is proved against a specification function: `FindSlot` for the
  probe loop, `Scan` for `scan_token`, `ParseExpr`/`ParseProgram` for the
  parse functions, `Step`/`Exec` for the interpreter loop, `Fnv1a` for
  `hash_string`.
- The properties the program relies on are lemmas about those functions.

What is proved, module by module:

- `Tables`: the table is a finite map from string objects to values. `set`,
  `get`, `delete`, `add_all` and resizing act on that map as a dictionary
  does. The probe always lands on the key or on a free slot, and `count`
  counts live entries plus tombstones.
- `Objects`: interning gives one object per character sequence, and every
  interned object is on the VM's object list.
- `Compiler`: a reference parser over the scanner's token list
  (`ParseExpr`, `ParsePrefix`, `ParseInfix`, `ParseProgram`) builds an
  expression tree whose postfix code is `Code`. Each parse method is proved
  to follow the reference function of the same C function. Compile succeeds
  exactly when the tokens parse as one expression with at most 256
  constants, and then it emits that expression's code and `OP_RETURN`.
  That code has exactly one expression's stack effect. Examples fix
  precedence (`2 + 3 * 4`), left associativity (`10 - 2 - 3`) and a
  missing operand (`1 +`).
- `VirtualMachine`: `interpret` runs exactly the compiled expression's
  code. Such code never reads outside the stack, the code or the
  pool. Running it leaves the caller's stack as it was, or reports a runtime
  error with an empty stack. It can still overflow the stack; see Findings.

Files:

- `common.dfy`: `Byte`, `U32`, `Option`;
- `memory.dfy`: `GROW_CAPACITY`;
- `value.dfy`: values, `ValueArray`, the string object;
- `table.dfy`: the intern table;
- `object.dfy`: hashing and interning;
- `chunk.dfy`: opcodes, line counters, chunks, the stack effect of code;
- `debug.dfy`: `get_line` and the disassembler's offsets;
- `scanner.dfy`: the scanner;
- `compiler.dfy`: the compiler;
- `vm.dfy`: the virtual machine.

## Model

| member | source | states |
|---|---|---|
| Memory.GrowCapacityBounds | memory.h:9 | Growth always makes room. It gives 8 below 8 and doubles from 8 on. |
| Memory.GrowthFromEmptyDoubles | memory.h:9 | An array grown `n` times from empty holds 8·2^(n-1) slots. |
| Values.ObjString.constructor | include/object.h:23-28 | A string object holds the given characters, hash and next link. |
| Values.NilValTag | include/value.h:29-37 | `NIL_VAL` satisfies `IS_NIL` and no other tag test. |
| Values.ConstructorsRoundTrip | include/value.h:25-37 | `BOOL_VAL`, `NUMBER_VAL` and `OBJ_VAL` pass their tag test, and the matching `AS_*` reads the payload back. |
| Values.ExactlyOneTag | include/value.h:34-37 | Every value satisfies exactly one of the four tag tests. |
| Values.ValuesEqualIsIdentity | src/value.c:40-49 | `values_equal` holds exactly when the values are equal: objects compare by identity. It is false across tags and symmetric. |
| Values.ValueArray.constructor | src/value.c:6-10 | A new array has count 0, capacity 0 and no contents. |
| Values.ValueArray.Write | src/value.c:17-26 | Appends the value and keeps the earlier ones. It grows to `GROW_CAPACITY` only when full. |
| Tables.ProbeStep | src/table.c:35 | `index = (index + 1) % alloc` moves to the next slot of the probe sequence. |
| Tables.FindFromLands | src/table.c:24-36 | Wherever the probe stops, the slot holds the key or no key, and no earlier slot on the path is never-used. |
| Tables.FindFromLive | src/table.c:32-33 | The probe returns the slot of a key that is reachable from its home slot. |
| Tables.Lookup | src/table.c:20-37 | In a well-formed table with a free slot, `find_entry` returns a slot holding the key exactly when the key is present. |
| Tables.FindEntry | src/table.c:20-37 | The probe loop returns `FindSlot` of the slots. |
| Tables.CountLiveAtMostUsed | src/table.c:73 | Live entries never outnumber the used slots that `count` counts. |
| Tables.FreeSlotExists | src/table.c:65-68 | While fewer slots are used than exist, a never-used slot remains, so every probe ends. |
| Tables.CountUpdate | src/table.c:73-76 | Writing one slot changes the used and live counts by what that slot loses and gains. |
| Tables.MapOfStore | src/table.c:75-76 | Storing a key in a free slot or its own slot maps the key to the value, and nothing else changes. |
| Tables.MapOfClear | src/table.c:97-98 | Turning a live slot into a tombstone removes exactly its key. |
| Tables.ReachableStore | src/table.c:75-76 | A key stored on a clear probe path stays reachable, and so does every other key. |
| Tables.ReachableClear | src/table.c:97-98 | A tombstone breaks no probe path. |
| Tables.Insert | src/table.c:70-77 | Storing at the slot `find_entry` chose keeps the table well formed and maps the key to the value. `key_is_new` holds exactly when the key was absent. The count rises only for a never-used slot. |
| Tables.Remove | src/table.c:92-99 | A tombstone at the key's slot removes exactly that key. It keeps the table well formed and the used count unchanged. |
| Tables.MapOfEmpty | src/table.c:81 | With `count` zero the table holds nothing, so returning early is right. |
| Tables.RehashRoom | src/table.c:48-56 | While rehashing, the new slots keep a never-used one. |
| Tables.RehashStep | src/table.c:52-55 | Each rehashed live entry lands where `find_entry` puts it, and the new slots then hold the old entries seen so far. |
| Tables.GrowRoom | src/table.c:65-67 | After growing, one more entry fits under the 0.75 load factor. |
| Tables.EmptySlots | src/table.c:40-45 | The new slot array has every slot with no key and value nil. |
| Tables.Table.constructor | src/table.c:9-13 | `init_table` makes an empty table with count 0 and capacity 0. |
| Tables.Table.FreeSlot | src/table.c:65 | A valid, allocated table keeps a never-used slot. |
| Tables.Table.Resize | src/table.c:39-62 | Rehashing into fresh slots keeps the mapping and drops the tombstones. `count` becomes the number of live entries. |
| Tables.Table.Set | src/table.c:64-78 | Grows past the 0.75 load factor, then maps the key to the value. The result is true exactly when the key was new, and the capacity changes only by growth. |
| Tables.Table.Store | src/table.c:70-77 | Writes at `FindSlot`. The count rises exactly when that slot was never used. |
| Tables.Table.Get | src/table.c:80-87 | Found exactly when the key is present, and then the stored value is returned. |
| Tables.Table.Delete | src/table.c:89-100 | Removes exactly the key and reports whether it was present. Count and capacity stay. |
| Tables.Table.FindString | src/table.c:109-125 | Returns a key with these characters and this hash, or null exactly when none is present. |
| Tables.FindMatch | src/table.c:113-124 | The probe loop of `table_find_string`, with the same two facts stated over the slots. |
| Tables.NoMatchBeyond | src/table.c:117-118 | Reaching a never-used slot without a match proves that no key matches. |
| Tables.AddAll | src/table.c:102-107 | The target becomes its old mapping overridden by the source's mapping. |
| Objects.XorByte | src/object.c:34 | `hash ^= (u8)c` changes only the low eight bits. |
| Objects.FnvFoldAppend | src/object.c:33-36 | Hashing a concatenation continues from the first part's hash. |
| Objects.Fnv1aSnoc | src/object.c:31-38 | The empty string hashes to the offset basis. One more character is one more round. |
| Objects.Fnv1aOfA | src/object.c:31-38 | "a" hashes to 0xe40c292c, the published FNV-1a value. |
| Objects.HashString | src/object.c:31-38 | The loop computes FNV-1a with 32-bit wrap-around. |
| Objects.LinkedCons | src/object.c:17-18 | Linking a new object before the head keeps the object list linked. |
| Objects.InterningAdd | src/object.c:22-28 | Interning a string with new characters keeps the invariant: one object per character sequence, its own hash, value nil, on the object list. |
| Objects.Heap.constructor | include/vm.h:16-17 | The VM starts with an empty intern table and no objects. |
| Objects.Heap.AllocateString | src/object.c:22-29 | A fresh object, pushed on the object list and interned with value nil. |
| Objects.Heap.CopyStr | src/object.c:51-62 | Returns the interned string with these characters if there is one, with nothing changed. Otherwise it returns a fresh object that is now interned and listed. |
| Objects.Heap.TakeStr | src/object.c:40-49 | The same outcomes as `copy_str`, for a buffer handed over by the caller. |
| Chunks.GrowToAtLeast | src/chunk.c:39-40 | The growth loop as written stops at a capacity of at least `line`. |
| Chunks.GrowPast | src/chunk.c:37-41 | The corrected loop stops above `line`. |
| Chunks.GrowToAtLeastOverrun | src/chunk.c:37-47 | From empty, line 8 gets capacity 8, so `items[8]` is one past the end. |
| Chunks.GrowPastAgrees | src/chunk.c:39-40 | The two loops differ only when the capacity lands exactly on `line`. |
| Chunks.LineArray.constructor | src/chunk.c:5-9 | `init_LineArray` makes no counters. |
| Chunks.LineArray.WriteLine | src/chunk.c:32-48 | Corrected: grows while the capacity is not above `line`, then adds one to the counter of `line` and leaves every other counter, zero-filling the growth. |
| Chunks.GrowBytes | src/chunk.c:51-55 | `GROW_ARRAY` on the code keeps the bytes written so far. |
| Chunks.Chunk.constructor | src/chunk.c:11-17 | `init_chunk` makes empty code, counters and pool. |
| Chunks.Chunk.Write | src/chunk.c:50-60 | Appends the byte, counts it on its line, and grows only when full. |
| Chunks.Chunk.AddConstant | src/chunk.c:63-66 | Appends to the pool and returns the new value's index. |
| Chunks.PrefixSumCountsBelow | include/chunk.h:24-30 | The run-length counters below line `r` add up to the bytes written on lines below `r`. |
| Chunks.CountBelowSorted | include/chunk.h:24-30 | With lines in order, byte `k` lies below line `r` exactly when more than `k` bytes do. |
| Chunks.TotalIsCount | src/chunk.c:57-59 | The counters add up to `count`. |
| Chunks.RunShift | vm.c:66-129 | Extra values below the stack top do not change what straight-line code does. |
| Chunks.RunConcat | vm.c:66-129 | Running a concatenation runs the second part from the depth where the first ends. |
| Chunks.RunSuffix | vm.c:66-129 | Running from an offset inside the code is running its suffix. |
| Chunks.RunMorePool | vm.c:66-70 | A larger pool keeps valid constant indices valid. |
| Chunks.ConstantIsExpr | compiler.c:152-154 | `OP_CONSTANT i` with `i` in the pool pushes one value. |
| Chunks.LiteralIsExpr | compiler.c:261-275 | A literal opcode pushes one value. |
| Chunks.UnaryIsExpr | compiler.c:203-218 | An expression followed by `OP_NOT` or `OP_NEGATE` is an expression. |
| Chunks.BinaryIsExpr | compiler.c:220-259 | Two expressions and a binary opcode, optionally followed by `OP_NOT`, form an expression. |
| Debug.GetLine | src/debug.c:19-26 | As written, the result is the least `r` whose counters 0..r-1 add up to more than `offset`. |
| Debug.GetLineMonotone | src/debug.c:19-26 | A later offset never gets an earlier line. |
| Debug.GetLineOffByOne | src/debug.c:19-26 | With lines in order, `get_line` answers the byte's line plus one. |
| Debug.GetLineCounterexample | src/debug.c:19-26 | One byte on line 1 makes `get_line` report 2. |
| Debug.SourceLine | src/debug.c:19-26 | The corrected line: exactly the line the byte was written on, when lines are in order. |
| Debug.NextOffsetAgrees | src/debug.c:11-17 | The `u8` offset and the true offset agree exactly below 256 or off `OP_CONSTANT`. |
| Debug.DisassemblyCycles | src/debug.c:11-17 | At offset 256, `OP_CONSTANT` sends the as-written disassembler back to offset 2, which then walks up to 256 again. |
| Debug.VisitsIncreasing | src/debug.c:32-34 | With the corrected step, the offsets visited rise strictly and stay inside the code. |
| Debug.DisassembleChunk | src/debug.c:28-35 | Corrected: with the true offset after `OP_CONSTANT`, the loop visits exactly the instruction offsets, `Visits(code, 0)`. |
| Lexer.ScanAt | src/scanner.c:160-193 | A token starts where whitespace ended, and the cursor stays inside the source. |
| Lexer.Scan | src/scanner.c:156-158 | The cursor never moves back and the line never decreases. |
| Lexer.IdentifierTypeIsKeywordTable | src/scanner.c:107-149 | `identifier_type` equals the whole-word keyword table. |
| Lexer.IfKeywordQuirk | src/scanner.c:130 | "ii" is the keyword `if` and "if" is an identifier; only "ii" scans as `if`. |
| Lexer.SkipWsAtEof | src/scanner.c:63-80 | At the end of input, skipping whitespace does nothing. |
| Lexer.EofIsSticky | src/scanner.c:156-160 | After EOF the scanner keeps returning EOF without moving. |
| Lexer.ScanProgress | src/scanner.c:156-194 | A token other than EOF consumes at least one character, and EOF consumes none. |
| Lexer.PairTokens | src/scanner.c:179-190 | `!`, `=`, `<` and `>` take a following `=` into a two-character token. |
| Lexer.NumberShape | src/scanner.c:96-105 | A number is digits, then optionally `.` and at least one digit. A trailing `.` is left over. |
| Lexer.StringToken | src/scanner.c:82-94 | A string token spans both quotes with no quote between and ends on the line after its newlines. Without a closing quote the result is "Unterminated string.". |
| Lexer.IdentifierToken | src/scanner.c:151-154 | A word runs over letters, digits, `_` and `-` and takes its kind from the keyword table. |
| Lexer.CommentStopsAtNewline | src/scanner.c:73-77 | A `//` comment stops skipping at its newline. The same `scan_token` call then returns that newline as an unexpected character. |
| Lexer.UnexpectedToken | src/scanner.c:193 | Any other character gives "Unexpected character." and is consumed. |
| Lexer.TokensSpanTheirLexeme | src/scanner.c:11-18 | Every non-error token is exactly `source[start..current]`, on the current line. |
| Lexer.ScanFacts | src/scanner.c:156-194 | Only EOF leaves the cursor in place, and a string token holds both quotes. |
| Lexer.ScanAtEof | src/scanner.c:156-160 | At the terminator, `scan_token` returns EOF and leaves the cursor where it is. |
| Lexer.ScansSnoc | src/scanner.c:156-194 | One more call of `scan_token` extends a chain of calls by its token. |
| Lexer.TokensSkip | src/scanner.c:156-194 | When the calls from one cursor to another return only error tokens, the token list from the first is those tokens followed by the list from the second. |
| Lexer.Scanner.constructor | src/scanner.c:5-9 | `init_scanner` puts the lexeme start and the cursor at the beginning, on line 1. |
| Lexer.Scanner.Consume | src/scanner.c:48-53 | Returns the character under the cursor and steps past it. |
| Lexer.Scanner.MatchAndConsume | src/scanner.c:55-61 | Steps past the next character exactly when it is the expected one before the end. |
| Lexer.Scanner.ConsumeWhitespace | src/scanner.c:63-80 | The loop reaches `SkipWs` of the cursor. |
| Lexer.Scanner.ConsumeString | src/scanner.c:82-94 | The loop reaches `StringEnd`, returning the string token or the error token. |
| Lexer.Scanner.ConsumeNumber | src/scanner.c:96-105 | The loops reach `NumberEnd`. |
| Lexer.Scanner.ConsumeIdentifier | src/scanner.c:151-154 | The loop reaches `IdentEnd`, and the kind is `identifier_type` of the lexeme. |
| Lexer.Scanner.ScanToken | src/scanner.c:156-194 | Returns the token and cursor that `Scan` gives. |
| Compiler.InfixRules | compiler.c:43-85 | Exactly the tokens with a precedence above NONE have the infix rule `binary`, with a full operator. RIGHT_PAREN's `grouping` infix entry has PREC_NONE and never runs. |
| Compiler.PrefixRules | compiler.c:43-85 | `unary`, `literal` and `string` are the prefix rules of exactly their tokens. EOF and error tokens have no rule. |
| Compiler.NumberValueExamples | compiler.c:191-194 | "42" reads as 42 and "2.5" as 2.5. |
| Compiler.CodeIsExpr | compiler.c:152-275 | The code of every expression the parse functions build, with its constants inside the pool, has one expression's stack effect. |
| Compiler.InfixStepFits | compiler.c:220-223 | One infix step fits the pool exactly when its right operand fits after the left operand's constants. It then builds the operator applied to both operands. |
| Compiler.InfixFollows | compiler.c:220-259 | The left operand's code, then the right operand's, then the operator's opcodes are the code of the binary expression. Its constants come in the same order. |
| Compiler.LeafParses | compiler.c:191-194 | A prefix rule that reads no further token, with its code and constant emitted, follows the reference parse. An error is added exactly when its constant overflows the pool. |
| Compiler.StringParses | compiler.c:196-201 | The constant for the interned characters between the quotes is the code of the string token's expression. |
| Compiler.UnaryParses | compiler.c:203-218 | The operand parsed at UNARY precedence, then `OP_NOT` or `OP_NEGATE`, follow the prefix rule of `!` or `-` on the token list, with the same error outcome. |
| Compiler.GroupingParses | compiler.c:186-189 | The inner expression and its `)` follow the prefix rule of `(`. A missing `)` is an error exactly where the reference fails. |
| Compiler.ExprParses | compiler.c:165-180 | Consuming the head, running its prefix rule and then the infix loop follow ParseExpr. |
| Compiler.InfixLoopStep | compiler.c:175-179 | Each turn of the loop keeps its invariant. Without an error, the rest of the loop on the tokens left gives the whole loop's parse. |
| Compiler.InfixLoopDone | compiler.c:175 | Leaving the loop at a token that binds less tightly ends the loop's parse. The code and constants are those of the expression built so far. |
| Compiler.InfixParses | compiler.c:220-259 | `binary`'s right operand, with the left operand's code in place, follows InfixStep. The result is the operator applied to both operands, and its code is the operands' code and then the opcodes. |
| Compiler.CompileParses | compiler.c:282-286 | After the error tokens before the first real one, one expression and the consume of EOF: no error is left exactly when ParseProgram succeeds with at most 256 constants. Then the code and pool are its expression's. |
| Compiler.ParsedWellFormed | compiler.c:43-85 | The parse functions build only expressions whose operators and literals have rules. |
| Compiler.ConsumedSkipping | compiler.c:114-122 | `consume` on the token list drops the head. It skips an error token exactly where Consumed fails. |
| Compiler.TokensAfterSkip | compiler.c:116-121 | The token list before `consume` is the old current token, the error tokens skipped, and the list from the new current token. |
| Compiler.Parser.constructor | compiler.c:277-281 | A fresh scanner, an empty chunk, both flags cleared. |
| Compiler.Parser.ErrorAt | compiler.c:89-104 | In panic mode nothing happens. Otherwise the token is reported once and both flags are set. |
| Compiler.Parser.ScanNext | compiler.c:116-121 | One scan into `current`, reported when it is an error token. |
| Compiler.Parser.Relist | compiler.c:114-122 | After the loop of `consume`, the token list starts with the new current token. The old list was the consumed token, the skipped error tokens and the new list. |
| Compiler.Parser.ScanPastErrors | compiler.c:116-121 | The loop of `consume` stops at the first token that is not an error token. The tokens passed over are error tokens, and only the first is reported. |
| Compiler.Parser.Consume | compiler.c:114-122 | `previous` takes `current`. On the token list the head is dropped and the skipped error tokens precede the new current token. Only the first error token is reported, and the input shrinks unless at EOF. |
| Compiler.Parser.Advance | compiler.c:114-122 | `consume` on the token list is Consumed: an error exactly when Consumed fails, and otherwise the tokens left are its result. |
| Compiler.Parser.ConsumeExpected | compiler.c:124-129 | A wrong kind sets the error flag, then `consume`. On the token list, no error token is skipped exactly when Consumed succeeds. |
| Compiler.Parser.EmitByte | compiler.c:131-133 | Appends the byte on the previous token's line. |
| Compiler.Parser.EmitBytes | compiler.c:135-138 | Appends both bytes in order. |
| Compiler.Parser.EmitOps | compiler.c:225-258 | Appends an operator's one or two opcodes on the previous token's line. |
| Compiler.Parser.MakeConstant | compiler.c:142-150 | Adds the value to the pool. An index past 255 is an error and yields 0. |
| Compiler.Parser.EmitConstant | compiler.c:152-154 | Emits `OP_CONSTANT` and the index: the code of a constant whose value is appended to the pool. |
| Compiler.Parser.NumberLiteral | compiler.c:191-194 | The constant is the numeral's exact value. The code and pool follow ParsePrefix of the number token. |
| Compiler.Parser.Intern | compiler.c:199-200 | The interned string has exactly these characters and their hash. |
| Compiler.Parser.StringLiteral | compiler.c:196-201 | The constant is the interned string between the quotes. The code and pool follow ParsePrefix of the string token. |
| Compiler.Parser.Literal | compiler.c:261-275 | Emits `OP_TRUE`, `OP_FALSE` or `OP_NIL` for the previous token, following ParsePrefix of that token. |
| Compiler.Parser.ParsePrecedence | compiler.c:165-180 | Follows ParseExpr on the token list at `precedence`. There is no new error exactly when ParseExpr succeeds with the constants fitting the pool. Then the code emitted and the constants added are those of its expression. |
| Compiler.Parser.Climb | compiler.c:173-179 | Once the first token is consumed, its prefix rule and the infix loop follow ParseExpr on the token list that began with that token. |
| Compiler.Parser.InfixLoop | compiler.c:175-179 | Follows ParseInfix from the left operand. |
| Compiler.Parser.Prefix | compiler.c:167-173 | Follows ParsePrefix of the token just consumed. |
| Compiler.Parser.Operand | compiler.c:173 | The number, string and literal prefix rules follow ParsePrefix of the token just consumed. |
| Compiler.Parser.Infix | compiler.c:176-178 | Follows InfixStep: the operator applied to the left operand and the right operand. |
| Compiler.Parser.Expression | compiler.c:182 | Follows ParseExpr at ASSIGNMENT precedence. |
| Compiler.Parser.Grouping | compiler.c:186-189 | Follows ParsePrefix of `(`: the inner expression and its `)`, where a missing `)` is an error. |
| Compiler.Parser.Unary | compiler.c:203-218 | Follows ParsePrefix of `!` or `-`: the operand at UNARY precedence, then `OP_NOT` or `OP_NEGATE`. |
| Compiler.Parser.Binary | compiler.c:220-259 | Follows ParseExpr one level tighter than the operator (left associativity), then emits the operator's opcodes. |
| Compiler.Parser.Program | compiler.c:282-285 | Follows ParseProgram on the tokens: no error exactly when it succeeds with at most 256 constants. Then the code is its expression's code followed by `OP_RETURN`. |
| Compiler.Parser.Start | compiler.c:282-283 | The first `consume` skips error tokens. The expression after them follows ParseExpr. |
| Compiler.Parser.Finish | compiler.c:284-285 | The consume of EOF and `OP_RETURN` complete ParseProgram. |
| Compiler.Parser.EndCompiler | compiler.c:156-163 | Appends `OP_RETURN`. |
| Compiler.Compile | compiler.c:277-287 | Succeeds exactly when the scanner's tokens parse as one expression followed by EOF with at most 256 constants. Then the code is that expression's code followed by `OP_RETURN`, and the pool holds its constants. At most one error is reported, and the code has one line per byte. |
| Compiler.PrecedenceExample | compiler.c:175-179 | `2 + 3 * 4`, for any three numerals, parses as `2 + (3 * 4)`. |
| Compiler.PrecedenceCode | compiler.c:220-259 | Its code is the three constants, then `OP_MULTIPLY`, then `OP_ADD`. |
| Compiler.AssociativityExample | compiler.c:223 | `10 - 2 - 3`, for any three numerals, parses as `(10 - 2) - 3`. |
| Compiler.AssociativityCode | compiler.c:220-259 | Its code subtracts the second constant before the third is loaded. |
| Compiler.MissingOperandExample | compiler.c:165-171 | `1 +` does not compile: the right operand starts at EOF, which has no prefix rule. |
| VirtualMachine.FalseyValues | vm.c:17-19 | Only nil and false are falsey. |
| VirtualMachine.Step | vm.c:64-136 | An instruction that continues moves `ip` forward, inside the code. |
| VirtualMachine.Exec | vm.c:52-137 | A run always stops. Every runtime error leaves the stack empty and prints nothing. |
| VirtualMachine.VM.constructor | vm.c:34 | `init_VM` makes an empty stack. |
| VirtualMachine.VM.ResetStack | vm.c:9 | Empties the stack. |
| VirtualMachine.VM.StackIsEmpty | vm.c:11 | True exactly when the stack is empty. |
| VirtualMachine.VM.StackHas | vm.c:13 | True exactly when the stack holds `items` values. |
| VirtualMachine.VM.Peek | vm.c:15 | Returns the value `distance` slots below the top. |
| VirtualMachine.VM.Push | vm.c:168-171 | As written: appends the value. Its caller must know the stack is not full. |
| VirtualMachine.VM.Pop | vm.c:173-176 | Removes and returns the top value. |
| VirtualMachine.VM.RuntimeError | vm.c:21-32 | `vm_error` resets the stack. |
| VirtualMachine.VM.PushChecked | vm.c:168-171 | The corrected push: a full stack becomes a runtime error. |
| VirtualMachine.VM.Equal | vm.c:80-84 | Replaces the top two values by their `values_equal`. |
| VirtualMachine.VM.BinaryOp | vm.c:41-50 | Two numbers are replaced by the result. A non-number is a runtime error with an empty stack. |
| VirtualMachine.VM.Arith | vm.c:106-129 | Fewer than two values is a compile error. Otherwise it acts as `binary_op`. |
| VirtualMachine.VM.Not | vm.c:91-93 | Replaces the top value by its falseyness. |
| VirtualMachine.VM.Negate | vm.c:94-105 | An empty stack or a non-number is a runtime error. Otherwise the top value is negated. |
| VirtualMachine.VM.Execute | vm.c:64-136 | One instruction does what `Step` says. |
| VirtualMachine.VM.Run | vm.c:38-142 | The loop ends in the result, stack and printed value of `Exec`, with an overflow reported as a runtime error. |
| VirtualMachine.VM.Interpret | vm.c:144-166 | A compile error exactly when the source's tokens do not parse as one expression with at most 256 constants, and then the stack is unchanged. Otherwise the chunk is that expression's code and `OP_RETURN` over its constants, and the result, stack and printed value are those of `Exec` on it, with an overflow reported as a runtime error. OK leaves the stack as it was. A runtime error empties it. |
| VirtualMachine.CompiledRuns | vm.c:52-136 | Compiled code never reads outside the stack, the code or the pool and never reaches a compile error. It overflows, fails at runtime, or returns with the caller's stack intact. |
| VirtualMachine.AddExample | vm.c:106-111 | `1 + 2` prints 3 and leaves the stack empty. |
| VirtualMachine.NegateNilExample | vm.c:94-102 | `-nil` is a runtime error with an empty stack. |
| VirtualMachine.ExecExpr | vm.c:64-136 | From any point of an expression's code, the rest of the run overflows, fails at runtime, or returns leaving exactly the caller's stack. |
| VirtualMachine.NestedParses | compiler.c:165-189 | The tokens of `nil == (nil == ( ... nil))` parse to the nested comparison at any precedence up to EQUALITY, when the next token binds nothing. |
| VirtualMachine.NestedCode | compiler.c:220-231 | The nested comparison has no constants, and its code is `NestedEquals`: the nils, then the `OP_EQUAL`s. |
| VirtualMachine.NestedProgram | compiler.c:277-287 | For every `k`, the tokens of `nil == (nil == ( ... nil))` with `k` `==` and then EOF form a program that compiles to `NestedEquals(k)`. |
| VirtualMachine.NestedEqualsIsExpr | compiler.c:220-231 | The bytes `NestedEquals(k)` have one expression's stack effect. |
| VirtualMachine.ExecNils | vm.c:71-73 | A run of `OP_NIL` pushes one nil each while there is room. |
| VirtualMachine.OverflowReachable | vm.c:168-171 | As written: `NestedEquals(256)`, the code of `nil == (nil == ...)` with 256 `==`, has one expression's stack effect, and its 257th nil overflows the stack. |

## Left out

- `DEBUG_PRINT_CODE` (include/common.h:13) makes `end_compiler` (compiler.c:156-163) disassemble every chunk that compiled. Compile does not disassemble. With the `u8` offset of the disassembler (see Findings), the source's `interpret` on `nil == (... (nil == 1))` with 256 nils loops forever, or crashes on the undefined read below, while the model's Interpret always returns. Each time the walk reaches offset 256, `instruction_constant` (src/debug.c:12-14) reads `code[1]`, an `OP_NIL` byte, as the constant index. It then prints `constants.items[1]`, which lies past the one constant in the pool and was never written.
- Printing is not modelled: `print_Value`, `print_obj`, the disassembler's and the error reporters' text, and `DEBUG_TRACE_EXECUTION`. The value `OP_RETURN` prints is returned as a ghost `printed`.
- Numbers are exact reals, not IEEE doubles. The parser reads a numeral's exact decimal value where `strtod` rounds.
- VirtualMachine.Apply: division by zero yields 0, because reals have no infinity or NaN.
- The allocator and `free_*`/`FREE_ARRAY` are not modelled: `reallocate`, freeing the chunk after `interpret`, and freeing the buffer `take_str` is handed. Arrays are fresh Dafny arrays.
- The `ObjType` tag and `is_obj_type` are left out, because strings are the only object kind.
- Tables.AddAll: requires two distinct tables, because adding a table to itself is not modelled.
- `LineArray.count` is never read or written by the source, so the model omits it.
- The token kinds' header (`scanner.h`) is not part of this model. Its kinds are taken in the order of the compiler's rule table.
- Objects.HashString: a character contributes its low eight bits, `(u8)c`. Characters are not bytes of a UTF-8 encoding.
- The compiler emits into three sequences (code, lines, constants) rather than into a `Chunk`. The chunk's own arrays are modelled in `Chunks.Chunk`.
- Compiler.Parser.Advance: states only what the parse functions use of `consume`. `Consume` states all of it.
- Compiler.Parser.Intern: states only the interned string's characters and hash. The interning itself is stated by `Objects.Heap.CopyStr`.
- Compiler.Parser.StringLiteral: states the constant's characters, not which object it is.
- VirtualMachine.NestedProgram: states the parse of the token list. It does not prove that the scanner returns these tokens for the text `nil == (nil == ...)`.
- Compiler.PrecedenceExample: states the parse of the token list, not of the text `2 + 3 * 4`.
- Compiler.AssociativityExample: states the parse of the token list, not of the text `10 - 2 - 3`.
- Compiler.MissingOperandExample: states the parse of the token list, not of the text `1 +`.
- Compiler.Parser.HeapValid: unfolds to the heap's validity in two steps. It is a proof device with no counterpart in the source.
- Lexer.Scanner.Consume: requires not being at the end of input, which every caller in the scanner ensures.
- Reads outside the stack, the code or the pool are undefined behaviour in C. The model gives them the outcome `Undefined` and proves that compiled code never reaches it.
- `vm_error`'s message and its `get_line` call are left out. Only the stack reset is modelled.

## Findings

| source | as written | input that shows it | evidently intended | confidence | as-written member | corrected member |
|---|---|---|---|---|---|---|
| src/chunk.c:37-47 | The growth loop stops when the capacity reaches `line`, then writes `items[line]` | writing line 8 into an empty counter array: capacity 8, index 8 | grow while the capacity is not above `line` | high, not executed | Chunks.GrowToAtLeastOverrun | Chunks.LineArray.WriteLine |
| src/debug.c:19-26 | returns the number of counters added, one more than the line | one byte on line 1 (counters [0, 1]), offset 0: returns 2 | the line the byte was written on | high, not executed | Debug.GetLineCounterexample | Debug.SourceLine |
| src/debug.c:11-17 | `instruction_constant` takes the offset as `u8`, returning `offset % 256 + 2` | 256 × `OP_NIL` then `OP_CONSTANT 0`: offset 256 goes back to 2, and the walk repeats (unless the read of constant `code[1]` past the pool crashes first) | `offset + 2` | high, not executed | Debug.DisassemblyCycles | Debug.DisassembleChunk |
| vm.c:168-171 | `push` writes without checking `STACK_MAX` | `nil == (nil == ( ... nil))` with 256 `==`, whose tokens compile to 257 `OP_NIL` and 256 `OP_EQUAL` (NestedProgram): the 257th nil is written past the array | a runtime error on a full stack | high, not executed | VirtualMachine.OverflowReachable | VirtualMachine.VM.Run |
