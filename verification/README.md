# FinSH in Dafny

A model of FinSH, the C-expression shell under `rt-thread/shell`, and proofs about it.
A line typed at the prompt goes through these parts, each modelled in the form it has in C
(classes and in-place arrays where the code updates state) beside a specification it is
proved against:

| part | specification | code |
|---|---|---|
| line editor, history, completion | `EditorSpec`, `Completion` | `Shell`, `Completion` |
| lexer and number conversion | `LexerSpec`, `Spelling`, `Literals`, `Numerals` | `Lexer`, `Numerals` |
| names and the variable table | `Symbols` | `Symbols` |
| recursive-descent parser over a 16-node pool | `Derivations`, `Grammar`, `ParserSpec`, `Acceptance`, `Ast` | `Parser` |
| annotation and code generation | `Semantics`, `CodeGen`, `Bounds` | `Compiler` |
| meaning of expressions and operators | `Evaluation`, `Operators` | |
| byte-fetching stack machine | `Bytecode`, `Correctness`, `StackUse` | `Machine` |
| the whole path, string literals | `Handles` | `RunLine` |
| free-list heap with collector, string literals | `HeapSpec`, `HeapLists`, `HeapSteps` | `Heap`, `StringStore` |
| argument splitting, audio ring reader | `ArgSplit`, `RingBuffer` | `ArgSplit`, `RingBuffer` |

`dafny verify dfyconfig.toml` checks the whole project.

Conventions. The target is 32-bit ARM: `long`, `int` and pointers have 32 bits, `char` is
unsigned, `short` and `long` are signed, memory is little endian; words are naturals below
2^32 and every wrap-around is written out. `None` stands for what C leaves undefined:
division by zero, the smallest long divided by -1, a shift count outside 0..31, more than 16
arguments, a stack underflow or overflow. Byte and word instructions write only the low part
of a stack slot, so each expression has a width to which its slot is determined (`Known`), and
well-formedness asks of every operand the width its operator reads. Trees that are all double
words have exact equality. Signed overflow of `+`, `-` and `*` and left shifts of negative
values, undefined in C as well, wrap in the model, as the target's instructions do.

Reading the two ends. What is read is a line of the grammar in the parser's comments
(`Derivations.LineText`), one relation between token texts and trees for each nonterminal,
with its operators spelled out; `LineExact` shows that its lines are exactly the printed normal
forms. What comes out is an outcome of that tree (`Evaluation.EvaluatesLine`), a relation over
bytes in memory and over what each operator computes; `EvalLineExact` shows that evaluation is
exactly that relation. `RunLine.Execute` joins the two, so neither the tables of precedence and
operators nor the order of operands and arguments is taken for granted in between.

Reading the parser. Its methods take a ghost `goal`, an expression that may lie ahead. With
no goal the contract is totality on every token sequence; with a goal whose text is next the
method reads exactly that text and stores exactly its tree. The other way round, each method
hands out as a ghost result the expression it has read, and `Accepts` says that without an error
the text read is that expression's and its tree is in the pool; so `RunLine.Recognise` is an
equivalence. A unary plus and a cast take no node (`Wrapped`); a cast leaves its type at the
root of its operand, where annotation overwrites it, unless the operand is the bare name of a
function, and such a cast is not well formed. A statement may
be a declaration: an assignment with the names without a value around it in `decl` and the
further initial values of its list in `more`; its value is read before the node of its target
is taken. `Executed` is what is left of a line once its statements are linked, and `Located` a
line with its string literals at given addresses.

Findings where the code does less than its comments or its name suggest, each with an input
that shows it and the exact condition:

- Parentheses do not group: at operand position `(` is read as a cast, and then every line with a
  parenthesis that opens neither arguments nor a type ends with an error (`Recognise`,
  `GroupRefused`), such as `(2 + 3) * 4` (`GroupExample`).
- A full line is said to be cleared but only the cursor is reset; the buffers then represent
  no editor state (`HandleKey`, `RunKeys`). Eighty letters do it (`LongLineFills`).
- A line of 79 characters leaves no room for a NUL behind its semicolon and is read past its
  end (`EnterLine`, `ReadBack`). A word that runs to the end of what is read sends the lexer
  back (`LexLine`), and the parser, once it has a root, then never stops (`ParseAgain`): 78
  blanks and `1` do it (`FullLineReadAgain`, `FullLineGoesRound`).
- The statement behind a declaration is linked to its first assignment and takes the place of
  the others: of `long x = 1, y = 2; y` the second value is lost (`ValuesKept`,
  `SecondValueLost`).
- A declaration without a value leaves no node, so as the first statement it ends the line: what
  stands behind `long x;` is not read (`Run`, `ParseDeclared`).
- A name of 16 characters or more goes through its buffer without a NUL, so only variables of
  that length are sure to be found (`FoundWhole`, `UnreliableMissed`); a system call of 16
  characters is missed (`SixteenMissed`), and `w_get_channel_plan`, with 18, is exported.
- `0L` is two tokens, and the suffix of a hexadecimal literal is taken for a digit, so that
  `0x1L` is 28 (`SuffixRead`, `ZeroLong`, `HexLong`).
- A backslash, an apostrophe and a question mark cannot be escaped in a string (`EscapeRead`,
  `DoubledBackslash`), and an octal escape does not stop at three digits: 1011 is one byte, 9
  (`OctalEscapeRead`, `FourOctalDigits`).
- Six `x++` overflow the text segment although they fit the node pool (`StepsOverflowText`);
  the emitter leaves the segment exactly when the code is longer (`RunLine.Compile`).
- The insertion routine leaves a stale link at the tail of a list (`InsertLinked`,
  `StaleLink`); the heap is safe only because its highest block is always free
  (`SlotBelowTop`).
- Requests of 0xFFFFFFF1 to 0xFFFFFFF8 bytes wrap in the size comparison and put a block on
  both lists (`WrapBreaks`, `Allocate`); larger ones are rounded to zero (`AlignHolds`).
- A string literal is no root of the collector until a variable holds it (`StoredSafely`): of two
  of 61 bytes the second takes the block of the first (`SecondCollectsFirst`, `TwoLines`).
- The block of a string literal is written without a look at the result of the allocation
  (`finsh_node.c:163-165`), which is NULL exactly if what the collection leaves has no room
  (`NewString`): so it is for the second literal of 61 bytes when a variable holds the first
  (`SecondRefused`).

## Model
| member | source | states |
|---|---|---|
| `RunLine.ExecuteText` | rt-thread/shell/shell.c:360-402 | From typed characters to effect, for every runnable line and every way of writing its tokens. Its string literals are stored in order, each with the collection it needs and the variables declared by then; it faults if and only if one is refused where its turn comes. What a variable held before the line stays, contents included, in any case. Without a fault, lexing, parsing, annotating, compiling and running the bytes is defined exactly when the statements with the addresses have an outcome, and then leaves just its memory and, in slot 0, its value; the variable table has what the line declares |
| `RunLine.AssignText` | rt-thread/shell/finsh_node.c:151-168 | A line that assigns a string literal to a variable, or declares the variable with it, faults if and only if the text is refused; otherwise a live block holds the text, and the variable its address, where the collector looks |
| `RunLine.AssignThenStore` | rt-thread/shell/finsh_heap.c:114-142 | That block, with its text, then survives whatever string literals the next line stores, however many collections they need and even if one is refused |
| `RunLine.TwoLines` | rt-thread/shell/finsh_heap.c:54-91 | Two lines that each store a text of 60 characters no variable holds both run; the second collects the first and gets its block |
| `RunLine.LineHasText` | rt-thread/shell/finsh_token.c:130-293 | Every line whose tokens can be spelled has such a text, whatever clean texts its string literals have |
| `RunLine.HandedAt` | rt-thread/shell/finsh_token.c:263-272 | Where a line has its j-th string literal the parser is handed the j-th address, and the text stored there is the literal's, all of it if it holds no NUL |
| `RunLine.ParseText` | rt-thread/shell/finsh_parser.c:897-979 | On every line no word of which runs to its end, well formed or not and with declarations, the lexer reaches the end and the parser stops, with its root inside the pool; with a root and no bad token it has read every token. `ParseAgain` is the other case |
| `RunLine.Execute` | rt-thread/shell/shell.c:360-402 | From any token text that the grammar derives a line from to its outcome: defined if and only if the statements have one, and then with just that value and memory. Declarations with initial values may stand anywhere in the line |
| `RunLine.Parse` | rt-thread/shell/finsh_parser.c:897-979 | Round trip: on any token text that the grammar derives a line from, declarations included, if its names are known and it fits the pool, the parser leaves in the pool exactly the tree of what is left of the line, no node shared, no error, and the table with all variables declared |
| `RunLine.Recognise` | rt-thread/shell/finsh_parser.c:393-979 | Soundness and completeness: on any tokens in which no statement is empty and none begins with a type, the parser ends with a root and no error only if the grammar derives the text, its names are known and the pool has room, with the pool then holding exactly its tree; with reliable names it does so if and only if that is so |
| `RunLine.ValuesKept` | rt-thread/shell/finsh_parser.c:939-949 | Every initial value of a line is left in it if and only if no declaration but the last statement has more than one |
| `RunLine.SecondValueLost` | rt-thread/shell/finsh_parser.c:939-965 | `long x = v, y = w; y` is runnable, stores v in x and yields what y held before; without the last statement y gets w |
| `RunLine.ParseDeclared` | rt-thread/shell/finsh_parser.c:947-975 | `long x;` in front of anything declares x, leaves no root, and what stands behind its semicolon is not read |
| `RunLine.ParseAgain` | rt-thread/shell/finsh_parser.c:897-979 | A line that sends the lexer back and has no bad token never lets the parser stop once it has a root: n times over the line, for every n, it still asks for a token |
| `RunLine.FullLineGoesRound` | rt-thread/shell/shell.c:674-677 | The full line of 78 blanks and a digit does that, whatever variables there are |
| `RunLine.Compile` | rt-thread/shell/finsh_compiler.c:884-918 | On that pool the emitter leaves the text segment if and only if the line's code is longer than 128 bytes; otherwise the segment holds exactly the encoded code followed by zeros, and no error is set |
| `RunLine.SegmentRuns` | rt-thread/shell/finsh_vm.c:43-52 | The bytes of a compiled line, run from an empty stack with the zero tail, push exactly the line's outcome |
| `Words.BytesRoundTrip` | rt-thread/shell/finsh.h:29-47 | The four bytes written for a double word, and the two for a word, read back as the same value |
| `Words.LoadStore` | rt-thread/shell/finsh_ops.c:385-416 | A load after a store of the same width and address gives the stored value, cut to that width |
| `Words.LoadNarrow` | rt-thread/shell/finsh_ops.c:308-383 | A narrow load agrees with the low part of a wide one (little endian) |
| `Words.MergeLow` | rt-thread/shell/finsh_ops.c:278-296 | Writing a byte or word into a slot fixes exactly its low part |
| `Words.ApplyLow` | rt-thread/shell/finsh_ops.c:13-26 | An operator of some width depends on no more than that width of its operands, undefined cases included |
| `Operators.ApplyExact` | rt-thread/shell/finsh_ops.c:13-275 | A binary instruction has the result v if and only if it is defined on its operands and v is, cut to its width, what the operator computes: a sum, a difference, the left operand counted as often as the right one says, a quotient or remainder that truncates toward zero, bit by bit a conjunction, disjunction or exclusive disjunction, so many doublings, a division by a power of two that rounds down. It is undefined exactly for a division by zero, the smallest long divided by -1, and a shift count outside 0..31 |
| `Operators.ComputesUnique` | rt-thread/shell/finsh_ops.c:13-275 | Of each width there is only one such result |
| `Operators.PromoteExact` | rt-thread/shell/finsh_ops.c:13-26 | A promoted union member is the number its bits denote: a byte is unsigned, wider members are signed |
| `Operators.MulNext` | rt-thread/shell/finsh_ops.c:124-142 | A product by zero is zero, and by one more it is the left operand more |
| `Operators.DivRem` | rt-thread/shell/finsh_ops.c:80-120 | Quotient and remainder of longs put the dividend together again; the remainder is less than the divisor and never of the other sign than the dividend; both are undefined exactly for zero and for the smallest long by -1 |
| `Operators.ShlNext` | rt-thread/shell/finsh_ops.c:234-252 | A shift by zero is the operand, and one place more doubles it |
| `Operators.ShrFloors` | rt-thread/shell/finsh_ops.c:256-274 | A shift to the right divides a long by a power of two and rounds down |
| `Operators.ComplementBits` | rt-thread/shell/finsh_ops.c:212-230 | The complement has exactly the bits its operand lacks |
| `Operators.MergeKeeps` | rt-thread/shell/finsh_ops.c:278-296 | Writing a byte or word into a slot leaves what lies above it |
| `Ast.LayoutUnshared` | rt-thread/shell/finsh_parser.c:878-892 | The tree the parser builds for an expression uses each node of its own pool range once |
| `Ast.LayoutArgsUnshared` | rt-thread/shell/finsh_parser.c:845-868 | The same for argument lists and statement chains |
| `Bytecode.DecodeEncode` | rt-thread/shell/finsh_ops.c:552-603 | The opcode table and operand fetches decode every encoded instruction, in front of any bytes, and nothing more |
| `Bytecode.OpcodePlace` | rt-thread/shell/finsh_ops.c:552-603 | Each instruction has the number of its place in the dispatch table |
| `Bytecode.EncodeAppend` | rt-thread/shell/finsh_compiler.c:20-22 | Encoding a sequence is encoding its parts one after the other |
| `Bytecode.ExecAppend` | rt-thread/shell/finsh_vm.c:43-52 | Running a sequence is running its parts in order, stopping at the first undefined instruction |
| `Bytecode.RunsZeros` | rt-thread/shell/finsh_vm.c:43-52 | A tail of zero bytes does nothing |
| `Bytecode.RunsEncoded` | rt-thread/shell/finsh_vm.c:43-52 | The fetch loop over encoded code and a zero tail executes exactly the instructions, so opcodes are read only at instruction boundaries |
| `StackUse.CompPushes` | rt-thread/shell/finsh_compiler.c:24-738 | The code of an expression pushes one slot, never goes below where it began and never above its depth |
| `StackUse.RunsBetween` | rt-thread/shell/finsh_vm.c:43-52 | Every state of a run, also one that stops as undefined, has its stack pointer within the bounds of its code |
| `StackUse.StackStays` | rt-thread/shell/finsh.h:18-25 | Over every run of a line, from any stack, the stack pointer stays between its start and the line's node count plus three |
| `Semantics.DepthBound` | rt-thread/shell/finsh.h:18-25 | The depth of an expression is at most its node count plus three |
| `Semantics.DepthLineBound` | rt-thread/shell/finsh.h:18-25 | The same for a line of statements |
| `Evaluation.EvalExact` | rt-thread/shell/finsh_ops.c:13-550 | Evaluation is exactly a relation over bytes in memory: variables and dereferences read and assignments write as many bytes as their type has, lowest first, operators yield what they compute, steps add or take away one, operands and arguments come in source order, and a callee is given all argument values in order or one zero |
| `Evaluation.EvalLineExact` | rt-thread/shell/finsh_compiler.c:899-915 | The same for lines: statement after statement, the last one has the value |
| `Evaluation.ArgumentValue` | rt-thread/shell/finsh_ops.c:439-447 | There are as many argument values as arguments, and each is the value of the argument in its place |
| `Evaluation.TypeWidthLoads` | rt-thread/shell/finsh_compiler.c:118-173 | The load of a variable is as wide as the last word of its type says, a pointer as wide as a long, and there is none for `void` and `void *` |
| `Evaluation.SizedWidth` | rt-thread/shell/finsh_compiler.c:772-776 | The width of an operator is that of the type of its leftmost leaf |
| `Evaluation.LongWellFormed` | rt-thread/shell/finsh_compiler.c:740-882 | Every expression of `int`, `long` and pointer variables and literals other than characters, with calls anywhere but leftmost, is well formed, and its value is a whole word |
| `Evaluation.LoadNumber` | rt-thread/shell/finsh_ops.c:308-383 | A load is the number in its bytes, the first the lowest |
| `Evaluation.StoreLaid` | rt-thread/shell/finsh_ops.c:385-416 | A store lays the bytes of the value one behind the other, the lowest first, and touches no other |
| `Correctness.Compiles` | rt-thread/shell/finsh_compiler.c:24-738 | Compiler correctness: for every well-formed expression and stack with room, the code is undefined exactly when evaluation is; otherwise it pushes one slot holding the value (exactly its determined low part), leaves the slots below alone and changes memory as evaluation does |
| `Correctness.CompilesMeaning` | rt-thread/shell/finsh_compiler.c:24-738 | So running the code of a well-formed expression, from any stack with room, gives exactly the outcomes the relation of `Evaluation` has for it, and none when that has none |
| `Correctness.CompilesBin` | rt-thread/shell/finsh_compiler.c:198-263 | Binary operators: the left operand, then the right one, then what the operator computes at the left operand's width, and undefined if it is not defined on them |
| `Correctness.CompilesSet` | rt-thread/shell/finsh_compiler.c:292-351 | Assignment stores through the target and yields the stored value, so assignments chain |
| `Correctness.CompilesPlace` | rt-thread/shell/finsh_compiler.c:699-725 | The code of an assignment target pushes its address |
| `Correctness.CompilesNeg` | rt-thread/shell/finsh_parser.c:707-709 | Unary minus, built as zero minus operand, negates in 32 bits |
| `Correctness.CompilesUnary` | rt-thread/shell/finsh_compiler.c:247-251 | Complement, dereference and address-of |
| `Correctness.CompilesPre` | rt-thread/shell/finsh_compiler.c:354-514 | Pre-increment and pre-decrement change the variable and yield the new value |
| `Correctness.CompilesPost` | rt-thread/shell/finsh_compiler.c:516-693 | Post-increment and post-decrement change the variable and yield the old value |
| `Correctness.CompilesArgs` | rt-thread/shell/finsh_compiler.c:730-735 | Arguments are evaluated in source order onto consecutive slots |
| `Correctness.CompilesCall` | rt-thread/shell/finsh_ops.c:425-550 | A call pops the arguments and the entry and pushes what the callee returns for a sequence as long as the argument list with the value of the i-th argument at place i, or for a single zero without arguments |
| `Correctness.CompilesLine` | rt-thread/shell/finsh_compiler.c:899-915 | Statements run in order with a pop between them and the last value stays |
| `Correctness.PlaceLaws` | rt-thread/shell/finsh_compiler.c:699-725 | `*&x` is `x`, also as an assignment target (same code), and `&*p` is `p` |
| `CodeGen.AnnotateLeftmost` | rt-thread/shell/finsh_compiler.c:772-776 | Node by node, an annotated tree has the data types of its leftmost leaves, for any tree |
| `CodeGen.AnnotateFlags` | rt-thread/shell/finsh_compiler.c:745-770 | In well-formed trees a variable or dereference carries the address flag exactly when it is the target of an assignment, a pre-step or `&` |
| `CodeGen.AnnotateClean` | rt-thread/shell/finsh_compiler.c:778-868 | Annotating a well-formed tree reports no unknown type |
| `CodeGen.WrapAnnotated` | rt-thread/shell/finsh_compiler.c:740-882 | After annotation the tree of a well-formed cast or unary plus is that of its operand, so both give its code and value |
| `CodeGen.CastUndone` | rt-thread/shell/finsh_compiler.c:740-882 | Annotation overwrites the data type a cast left at a node if and only if that is not a leaf without a type of its own, such as the name of a function |
| `CodeGen.GeneratesValue` | rt-thread/shell/finsh_compiler.c:24-738 | Annotating and then flattening the pool tree of a well-formed expression gives the compilation scheme's code |
| `CodeGen.GeneratesPlace` | rt-thread/shell/finsh_compiler.c:292-351 | The same for assignment targets, which yield their address |
| `CodeGen.GeneratesLine` | rt-thread/shell/finsh_compiler.c:884-918 | The same for whole lines, with separating pops |
| `Bounds.CodeSize` | rt-thread/shell/finsh_compiler.c:20-22 | Emitted size is the exact sum of per-node sizes |
| `Bounds.LineSize` | rt-thread/shell/finsh_compiler.c:899-915 | The same for a line: its statements plus one byte per pop |
| `Bounds.LineFits` | rt-thread/shell/finsh.h:18-25 | A line from the 16-node pool without `++`/`--` needs at most 95 text bytes, and any line has a depth of at most nodes + 3, within the 64 slots |
| `Bounds.StepsOverflowText` | rt-thread/shell/finsh_compiler.c:576-604 | With `++` the pool does not bound the code: six `x++` of a long take 12 nodes and 143 bytes |
| `Compiler.Compiler.TypeCheck` | rt-thread/shell/finsh_compiler.c:740-882 | Recursive annotation in place: the pool then holds exactly the annotated tree, other nodes unchanged, errors as annotated |
| `Compiler.Compiler.SetAttributes` | rt-thread/shell/finsh_compiler.c:767-868 | One node's address flag, data type and error |
| `Compiler.Compiler.EmitIdent` | rt-thread/shell/finsh_compiler.c:35-177 | Appends the load an identifier selects by kind, type and address flag |
| `Compiler.Compiler.CountParameters` | rt-thread/shell/finsh_compiler.c:266-290 | Counts the siblings of the callee |
| `Compiler.Compiler.EmitOwn` | rt-thread/shell/finsh_compiler.c:33-728 | Appends exactly a node's own code to what has been emitted, past the end of the segment if need be, which is recorded |
| `Compiler.Compiler.Compile` | rt-thread/shell/finsh_compiler.c:24-738 | Post-order flattening emits exactly the code of the tree; the segment holds as much of it as fits |
| `Compiler.Compiler.CompileLine` | rt-thread/shell/finsh_compiler.c:899-915 | The statement loop, which detaches each root, emits the line's code |
| `Compiler.Compiler.Run` | rt-thread/shell/finsh_compiler.c:884-918 | Annotate, clear, compile: what is emitted is the annotated line's code, and a byte leaves the segment exactly if that is longer |
| `Machine.Machine.Execute` | rt-thread/shell/finsh_ops.c:29-550 | Each instruction in place equals its effect on the abstract state; false exactly if undefined |
| `Machine.Machine.OpBinary` | rt-thread/shell/finsh_ops.c:13-275 | The low part of the result slot is what the operator computes from the two slots, left one first; the part above stays |
| `Machine.Machine.OpCall` | rt-thread/shell/finsh_ops.c:425-550 | With up to 16 arguments and an entry on the stack the callee is given the slots above the entry in order, or one zero, and its result takes the place of the entry |
| `Machine.Machine.Run` | rt-thread/shell/finsh_vm.c:28-53 | The dispatch loop terminates and equals the run function on the segment |
| `Handles.PrintLineLocated` | rt-thread/shell/finsh_token.c:366-393 | The text of a line does not depend on where its string literals are: with other addresses only the handles among its tokens change |
| `Handles.AlikeLine` | rt-thread/shell/finsh_node.c:151-168 | Nor do its normal form, the names it needs and the variables it declares |
| `Handles.AlikeRun` | rt-thread/shell/finsh_compiler.c:60-75 | Nor whether it is well formed, and the size of its code |
| `Handles.TablesGrow` | rt-thread/shell/finsh_var.c:25-51 | No variable is lost on the way through a line, so the table at each literal has all those before the line |
| `Grammar.FoldTail` | rt-thread/shell/finsh_parser.c:568-607 | A left-associative chain is its first operand folded with its operators |
| `Grammar.SpineNormal` | rt-thread/shell/finsh_parser.c:448-655 | The operands of a normal-form chain at one level belong to the next tighter level |
| `Grammar.PrintFold` | rt-thread/shell/finsh_parser.c:568-607 | Printing a fold prints operand, operator, operand in order |
| `Grammar.PrintFoldPost` | rt-thread/shell/finsh_parser.c:739-793 | The same for chains of postfix operators and calls |
| `Grammar.FirstToken` | rt-thread/shell/finsh_parser.c:691-731 | An expression of postfix level begins with a literal or a name, any other with one of these, a prefix operator, a plus sign or the parenthesis of a cast |
| `Derivations.DerivesExact` | rt-thread/shell/finsh_parser.c:417-838 | At each level of the grammar in the comments, from assignment through casts to postfix expressions, a text derives a tree if and only if the tree is in precedence normal form, binds at least so tightly and prints to that text |
| `Derivations.ParamListExact` | rt-thread/shell/finsh_parser.c:840-868 | The same for argument lists |
| `Derivations.TypeExact` | rt-thread/shell/finsh_parser.c:245-253 | The same for types: a basic one, one behind `unsigned`, a pointer |
| `Derivations.StatementExact` | rt-thread/shell/finsh_parser.c:69-76 | The same for statements, declarations with any list of names included |
| `Derivations.LineExact` | rt-thread/shell/finsh_parser.c:893-896 | The lines of the grammar are exactly the printed lines in normal form |
| `Derivations.Grouping` | rt-thread/shell/finsh_parser.c:448-655 | For every two operators, `a op b op' c` groups to the left if and only if op binds no looser than op', and otherwise to the right |
| `Acceptance.BinAccepted` | rt-thread/shell/finsh_parser.c:568-607 | Two operands read without an error, an operator between them and a node above them without an error: the text is that of the binary expression at its level, and its tree is stored |
| `Acceptance.CallAccepted` | rt-thread/shell/finsh_parser.c:761-777 | The same for a callee and its arguments |
| `Acceptance.CastAccepted` | rt-thread/shell/finsh_parser.c:663-674 | The same for a cast: the type in its parentheses, the operand, and the type left at the operand's root |
| `Acceptance.NextArgAccepted` | rt-thread/shell/finsh_parser.c:854-864 | The same for one more argument behind a comma |
| `Acceptance.LineAccepted` | rt-thread/shell/finsh_parser.c:913-972 | The same for one more statement linked to the line |
| `Acceptance.AcceptedSentence` | rt-thread/shell/finsh_parser.c:897-979 | A line accepted up to a closing token is a sentence of the grammar, its tree is in the pool, and each of its opening parentheses begins arguments behind an operand or a cast |
| `Acceptance.SentenceReady` | rt-thread/shell/finsh_parser.c:897-979 | A sentence with reliable names lies ahead as a printed line, which the parser reads |
| `Acceptance.GroupRefused` | rt-thread/shell/finsh_parser.c:662-674 | A line with an opening parenthesis that stands neither behind an operand nor in front of a type is no sentence |
| `Acceptance.GroupExample` | rt-thread/shell/finsh_parser.c:809-812 | `(2 + 3) * 4;` is no sentence, although the grammar in the comment groups so |
| `ParserSpec.WrapDone` | rt-thread/shell/finsh_parser.c:663-703 | Behind a unary plus the operand's tree is that of the whole; behind a cast it is so with the type at its root |
| `ParserSpec.PairDone` | rt-thread/shell/finsh_parser.c:878-892 | Linking two parsed subtrees under a new node gives the parent's tree, earlier nodes unchanged |
| `ParserSpec.SpineNext` | rt-thread/shell/finsh_parser.c:568-607 | After i operators either the next operator token follows or the expression is complete |
| `ParserSpec.NegDone` | rt-thread/shell/finsh_parser.c:707-709 | The zero node and the operand become a subtraction |
| `ParserSpec.CallDone` | rt-thread/shell/finsh_parser.c:761-777 | The callee with the argument chain as siblings becomes a call node |
| `ParserSpec.ChainExtends` | rt-thread/shell/finsh_parser.c:845-868 | Appending one sibling extends the chain by exactly one tree |
| `Parser.Parser.NextToken` | rt-thread/shell/finsh_token.c:62-68 | Hands out the token under the cursor, the pushed-back one first |
| `Parser.Parser.Allocate` | rt-thread/shell/finsh_node.c:26-43 | First free pool entry, or none when all 16 are taken; other entries unchanged |
| `Symbols.FoundWhole` | rt-thread/shell/finsh_parser.c:378-387 | A name in the tables is found as written whatever the name buffer held if and only if it is shorter than 16 characters or a variable |
| `Symbols.UnreliableMissed` | rt-thread/shell/finsh_parser.c:803-809 | Any other name is missed for some contents of the buffer, although a table has it |
| `Symbols.SixteenMissed` | rt-thread/shell/finsh_parser.c:803-809 | A system call with a name of 16 characters is in the table and missed when the buffer holds a letter behind them |
| `Symbols.LookupOrder` | rt-thread/shell/finsh_node.c:56-66 | A variable hides everything of its name, a system variable the system calls, and what is built in what was added at run time; a name in none of the tables is unknown |
| `Symbols.DeclaredFound` | rt-thread/shell/finsh_var.c:25-51 | A declared variable is found with its type in the first empty slot, and all others as before |
| `Symbols.DeclaredRefused` | rt-thread/shell/finsh_var.c:25-51 | A declaration is refused if and only if the name is in the table or no slot is empty |
| `Symbols.VarLookup` | rt-thread/shell/finsh_var.c:71-85 | The first slot with the name, compared over 16 characters |
| `Symbols.VarInsert` | rt-thread/shell/finsh_var.c:25-51 | Refuses a known name and a full table, otherwise fills the first empty slot |
| `Parser.Parser.NewId` | rt-thread/shell/finsh_node.c:45-104 | User variable, then system variable, then system call; an unknown name and a full pool give their errors and change nothing else |
| `Parser.Parser.MakeSysNode` | rt-thread/shell/finsh_parser.c:878-892 | Operands become child and sibling; without a first operand or a free node the error is set, and the whole new state is given in each case |
| `Parser.Parser.ProcType` | rt-thread/shell/finsh_parser.c:254-373 | On any tokens: exactly the type, the tokens read and the error of the type grammar |
| `Parser.TypeTokensRead` | rt-thread/shell/finsh_parser.c:254-373 | The tokens of every type are read as that type |
| `Parser.Parser.TypeCast` | rt-thread/shell/finsh_parser.c:663-674 | On any tokens: a cast read without an error is the text of a cast, type and operand, and no node comes only with an error; on the text of a cast, its tree: the operand's, the data type of its root overwritten with the type read |
| `Parser.Parser.Declare` | rt-thread/shell/finsh_parser.c:93-101 | One declarator: the variable table and the error afterwards, also when no identifier comes |
| `Parser.Parser.ProcVariableDecl` | rt-thread/shell/finsh_parser.c:77-243 | On any tokens it terminates inside the pool. On a type and any list of names, each with or without an initial value, it enters all of them with that type, reads exactly that text, and returns the chain of the assignments in order, or no node. A single name that exists, or that finds the table full, is reported |
| `Parser.Parser.ProcDeclarators` | rt-thread/shell/finsh_parser.c:104-232 | The comma loops: behind the first name, any further names with or without a value are entered in turn and the assignments linked in order |
| `Parser.Parser.NextDeclarator` | rt-thread/shell/finsh_parser.c:134-172 | One name behind a comma, and its value if an equals sign follows, take the list one step on |
| `Parser.Parser.Initialiser` | rt-thread/shell/finsh_parser.c:181-212 | One initial value: the value's tree, then the node of the name, then the assignment above them, linked behind the one before |
| `ParserSpec.DeclarationDone` | rt-thread/shell/finsh_parser.c:181-187 | The value's tree, the leaf of the name and the node above them are the tree of the assignment |
| `ParserSpec.LineExtends` | rt-thread/shell/finsh_parser.c:939-949 | Linking a statement behind the first node of a declaration takes its further initial values out of the line |
| `Parser.Parser.Statement` | rt-thread/shell/finsh_parser.c:913-972 | One declaration or expression statement becomes the root or the sibling of the one before, and what is left of the line so far is stored |
| `Parser.Parser.ProcAssign` | rt-thread/shell/finsh_parser.c:423-446 | On any tokens it terminates, and without an error it has read the text of an expression in normal form and stored its tree; on the text of such an expression it reads exactly that text and stores exactly its tree, right-associatively, with no error |
| `Parser.Parser.ProcBinary` | rt-thread/shell/finsh_parser.c:448-655 | The same for the six binary levels, left-associatively |
| `Parser.Parser.ProcCast` | rt-thread/shell/finsh_parser.c:656-689 | The same for casts, an opening parenthesis being taken for one |
| `Parser.Parser.ProcUnary` | rt-thread/shell/finsh_parser.c:691-731 | The same for prefix operators and the unary plus |
| `Parser.Parser.ProcPostfix` | rt-thread/shell/finsh_parser.c:739-793 | The same for `++`, `--` and calls |
| `Parser.Parser.ProcParamList` | rt-thread/shell/finsh_parser.c:845-868 | Argument lists become sibling chains in order |
| `Parser.Parser.ProcPrimary` | rt-thread/shell/finsh_parser.c:795-838 | Names, as they come through the name buffer, and literals become leaves |
| `Parser.Parser.ProcExprStatement` | rt-thread/shell/finsh_parser.c:393-412 | An expression and its semicolon, both ways |
| `Parser.Parser.Run` | rt-thread/shell/finsh_parser.c:897-979 | Terminates on every token sequence, and only at the end or a bad token once it has a root. On a printed line, declarations included, the pool then holds what is left of it, chained in order from the root, with no error; a line that goes on behind its first statements has their root. A first declaration without any value leaves no root and stops it |
| `LexerSpec.LexAdvances` | rt-thread/shell/finsh_token.c:130-293 | Every token takes at least one character and ends inside the line |
| `Lexer.Lexer.NextChar` | rt-thread/shell/finsh_token.c:108-120 | One character forward, NUL from the end on; the end flag is set exactly when a read meets the end |
| `Lexer.Lexer.PrevChar` | rt-thread/shell/finsh_token.c:122-128 | Undoes the last read, also at the end |
| `Lexer.Lexer.TrimSpace` | rt-thread/shell/finsh_token.c:312-320 | Stops at the first non-blank |
| `Lexer.Lexer.GetString` | rt-thread/shell/finsh_token.c:75-103 | Reads exactly the word at the cursor, and sends the position back to the start if and only if the word runs to the end of the line |
| `Lexer.Lexer.ProcNumber` | rt-thread/shell/finsh_token.c:459-544 | The number token of the base announced, with its suffix |
| `Lexer.Lexer.ProcChar` | rt-thread/shell/finsh_token.c:322-364 | A character literal and its escapes, or the missing-quote error; the digit buffer is overrun exactly by more than three digits |
| `Lexer.Lexer.ProcEscape` | rt-thread/shell/finsh_token.c:395-454 | String escapes: letters, hexadecimal and octal runs |
| `Lexer.Lexer.ProcString` | rt-thread/shell/finsh_token.c:366-393 | A string literal up to its quote, its length limit or the end of input |
| `Lexer.Lexer.Run` | rt-thread/shell/finsh_token.c:130-293 | Reads exactly the next token of the line, with its error |
| `Lexer.LexLine` | rt-thread/shell/finsh_token.c:130-293 | Any line is read once through as exactly its tokens; the lexer is then sent back to read it again if and only if some word runs to its end |
| `Lexer.LexAgain` | rt-thread/shell/finsh_token.c:91-99 | A line that sends the lexer back gives its tokens over and over, any number of times |
| `LexerSpec.SeparatorEnds` | rt-thread/shell/finsh_token.c:91-99 | A line that ends in a separator never sends the lexer back |
| `Spelling.ReadsSpelled` | rt-thread/shell/finsh_token.c:130-293 | Wherever a token is written, in any of its spellings and behind any blanks, the lexer reads that token and stops right behind it |
| `Spelling.NumeralRead` | rt-thread/shell/finsh_token.c:459-544 | A number of any size written by division in base ten, two, eight or sixteen, with the mark of its base, is read as its value modulo 2^32 |
| `Spelling.NumeralReadLong` | rt-thread/shell/finsh_token.c:525-540 | The same with a suffix, outside the two cases where the lexer parts from C |
| `Spelling.WordCharacters` | rt-thread/shell/finsh_token.c:17-29 | Words are made of letters, digits and the underscore; blank, tab and carriage return separate them |
| `Spelling.DigitCharacters` | rt-thread/shell/finsh_token.c:17-29 | The digits of each base, and the two suffixes |
| `Spelling.WordKinds` | rt-thread/shell/finsh_token.c:31-42 | Eight words are keywords and every other word is a name |
| `Spelling.OperatorKinds` | rt-thread/shell/finsh_token.c:150-290 | A character is no operator but the one it is written with; a single `<` or `>` is none, and two slashes end the line |
| `Spelling.LexesWritten` | rt-thread/shell/finsh_token.c:62-68 | A line written token by token, string literals included, is read back as those tokens with no error |
| `Literals.SuffixRead` | rt-thread/shell/finsh_token.c:459-544 | A suffixed number is read as one long literal if and only if its digits are neither a lone zero nor hexadecimal |
| `Literals.ZeroLong` | rt-thread/shell/finsh_token.c:508-516 | `0L` is a zero and the name L |
| `Literals.SuffixedHex` | rt-thread/shell/finsh_token.c:477-481 | The suffix of a hexadecimal number is read as one more digit |
| `Literals.HexLong` | rt-thread/shell/finsh_token.c:584-584 | `0x1L` is the number 28 |
| `Literals.EscapeRead` | rt-thread/shell/finsh_token.c:395-454 | An escape of C is read as C reads it if and only if it is not a backslash, an apostrophe or a question mark, which become NUL |
| `Literals.CharEscapeRead` | rt-thread/shell/finsh_token.c:322-364 | In a character literal a letter escape is read as C reads it if and only if it is not a double quote, a question mark, an alert or a form feed |
| `Literals.DigitEscapeNul` | rt-thread/shell/finsh_token.c:342-352 | Digits behind a backslash make a NUL of a character literal, whatever they are |
| `Literals.DoubledBackslash` | rt-thread/shell/finsh_token.c:438-450 | The string literal of two backslashes holds one NUL |
| `Literals.OctalEscapeRead` | rt-thread/shell/finsh_token.c:439-449 | An octal escape is read as C reads it if and only if it has at most three digits |
| `Literals.FourOctalDigits` | rt-thread/shell/finsh_token.c:439-449 | The digits 1011 give the one byte 9 |
| `Literals.HexEscapeRead` | rt-thread/shell/finsh_token.c:427-437 | A hexadecimal escape takes all its digits and keeps the low byte of their value |
| `Spelling.ReadsString` | rt-thread/shell/finsh_token.c:366-393 | A string literal of plain characters and letter escapes, shorter than the buffer, is read back as exactly those characters |
| `Spelling.SpellSpells` | rt-thread/shell/finsh_token.c:31-42 | Every token that is not an error, the end or a string handle has a spelling without NUL and newline |
| `Spelling.PiecesWritten` | rt-thread/shell/finsh_token.c:130-293 | Printing tokens with a blank before each is such a written line |
| `Spelling.PrintedSubmitted` | rt-thread/shell/finsh_token.c:130-293 | Tokens that end in a semicolon print as a line the shell may submit |
| `Numerals.LimbsAreValue` | rt-thread/shell/finsh_token.c:586-591 | For any number of valid digits the two limbs equal the positional value modulo 2^64 |
| `Numerals.LowLimbIsValue` | rt-thread/shell/finsh_token.c:595-597 | The returned limb is the value modulo 2^32 |
| `Numerals.OrIsAdd` | rt-thread/shell/finsh_token.c:589-589 | Or-ing a digit into shifted-out bits is adding it |
| `Numerals.DigitWorth` | rt-thread/shell/finsh_token.c:570-580 | The sixteen digits are worth 0 to 15, small or capital |
| `Numerals.NumeralValue` | rt-thread/shell/finsh_token.c:549-598 | The value of a number written by division is that number |
| `Numerals.SpecNumber` | rt-thread/shell/finsh_token.c:549-598 | The nested loops compute those limbs, for every character string |
| `HeapSpec.CutArranged` | rt-thread/shell/finsh_heap.c:213-227 | Splitting a free block, also with an empty remainder, keeps the tiling, no adjacent free blocks, and a free highest block |
| `HeapSpec.JoinPrevious` | rt-thread/shell/finsh_heap.c:250-270 | Joining with the block before keeps the tiling; only the block behind may still be adjacent |
| `HeapSpec.JoinNext` | rt-thread/shell/finsh_heap.c:271-278 | Joining with the block behind restores the whole arrangement |
| `HeapSpec.CellOwned` | rt-thread/shell/finsh_heap.c:36-109 | No gap and no overlap: every cell of the heap lies in exactly one block |
| `HeapSpec.Conserved` | rt-thread/shell/finsh_heap.c:36-109 | Headers and data of free and live blocks add up to FINSH_HEAP_MAX |
| `HeapSpec.FreeDetermined` | rt-thread/shell/finsh_heap.c:229-279 | The live blocks determine the free ones: two arranged heaps with the same live blocks have the same free blocks |
| `HeapSpec.LiveBelowFree` | rt-thread/shell/finsh_heap.c:96-109 | Some free block lies above every live block |
| `HeapLists.InsertLinked` | rt-thread/shell/finsh_heap.c:147-181 | Inserting gives a NULL-terminated list if and only if it is not at the tail or the block came with a NULL link |
| `HeapLists.StaleLink` | rt-thread/shell/finsh_heap.c:200-207 | A block removed from the middle of a list and appended to another would break that list |
| `HeapLists.RemoveLinked` | rt-thread/shell/finsh_heap.c:186-208 | Removing any position leaves the list of the others |
| `HeapLists.SplitLinked` | rt-thread/shell/finsh_heap.c:213-227 | After a split the remainder follows its front on the list |
| `HeapLists.MergedArranged` | rt-thread/shell/finsh_heap.c:229-279 | Merging in all four neighbour cases restores linked, sorted lists and full coalescing |
| `HeapSteps.SlotBelowTop` | rt-thread/shell/finsh_heap.c:96-109 | A released block never goes to the tail of the free list, so no stale link is ever kept |
| `HeapSteps.ReleasedValid` | rt-thread/shell/finsh_heap.c:96-109 | Freeing keeps every invariant and every other live block, extent and contents |
| `HeapSteps.TakenValid` | rt-thread/shell/finsh_heap.c:78-91 | Taking a block keeps every invariant and every live block; the new block has the size asked for and is zero |
| `HeapSteps.FreeListDetermined` | rt-thread/shell/finsh_heap.c:54-109 | Valid heaps with equal live blocks have equal free lists, whatever their history |
| `HeapSteps.ReleaseUndoesTake` | rt-thread/shell/finsh_heap.c:54-109 | Freeing what was just allocated restores the free list exactly |
| `HeapLists.ReachedIsListed` | rt-thread/shell/finsh_heap.c:170-207 | What the links lead to is on every list they form |
| `HeapLists.SplitAtItself` | rt-thread/shell/finsh_heap.c:221-226 | Splitting by 0xFFFFFFF8 puts the remainder at the block itself, which then links to itself |
| `HeapSteps.WrapBreaks` | rt-thread/shell/finsh_heap.c:78-86 | After that the block is reached from both lists, so no arrangement of them is valid |
| `Heap.Heap.constructor` | rt-thread/shell/finsh_heap.c:36-49 | One free block that is the whole heap |
| `Heap.Heap.BlockInsert` | rt-thread/shell/finsh_heap.c:147-181 | Writes exactly the links of an insertion at the sorted position |
| `Heap.Heap.BlockRemove` | rt-thread/shell/finsh_heap.c:186-208 | Writes exactly the links of a removal; nothing if the block is not on the list |
| `Heap.Heap.BlockSplit` | rt-thread/shell/finsh_heap.c:213-227 | Writes exactly the two headers of a split, at the address computed in 32 bits |
| `Heap.Heap.BlockMerge` | rt-thread/shell/finsh_heap.c:229-279 | Writes exactly the headers of a merge with neither, either or both neighbours |
| `Heap.Heap.Free` | rt-thread/shell/finsh_heap.c:96-109 | The block leaves the live list, the heap stays valid, all other live blocks are intact |
| `Heap.Heap.Gc` | rt-thread/shell/finsh_heap.c:114-142 | Freeing while walking, it keeps exactly the rooted blocks in order and their contents |
| `Heap.SurvivorsExact` | rt-thread/shell/finsh_heap.c:124-140 | A block survives if and only if some known variable holds its data address |
| `Heap.Heap.FirstFit` | rt-thread/shell/finsh_heap.c:60-72 | The first free block of at least the given length |
| `Heap.Heap.FindRoom` | rt-thread/shell/finsh_heap.c:60-76 | With the sum taken in 32 bits: collects exactly when the strict first fit fails, then takes the first block that just suffices; NULL if and only if none does |
| `Heap.Heap.Allocate` | rt-thread/shell/finsh_heap.c:54-91 | For every size: it faults, leaving lists of no valid heap, if and only if the size is 0xFFFFFFF1 to 0xFFFFFFF8. Otherwise it collects exactly when no free block is longer than size + header, returns NULL if and only if then no free block reaches that, and else the first fit is cut, zeroed and made live, all other live blocks intact |
| `Heap.AlignHolds` | rt-thread/shell/finsh_heap.c:24-24 | Rounding holds the request, and adding a header does not wrap, exactly outside the named sizes near 2^32 |
| `StringStore.NewString` | rt-thread/shell/finsh_node.c:151-168 | The result, which the code writes through unseen, is NULL if and only if the text is refused: no room at once, and none in what the collection leaves. Otherwise the first block that fits holds the text with its NUL. An earlier block survives, contents included, if and only if no collection was needed or a variable holds it |
| `StringStore.NewStrings` | rt-thread/shell/finsh_node.c:151-168 | All literals of a line one after the other, each with the variable table of its moment; a fault if and only if one is refused where its turn comes |
| `StringStore.StoredSafely` | rt-thread/shell/finsh_node.c:151-168 | The texts end up in distinct live blocks beside everything live before, contents intact, if and only if at every step room was found at once, or all live blocks were rooted and one free block just sufficed |
| `StringStore.RoomySafe` | rt-thread/shell/finsh_heap.c:60-63 | One free block longer than all texts with their headers is enough for that |
| `StringStore.StoredRooted` | rt-thread/shell/finsh_heap.c:124-140 | What variables hold throughout stays with its contents, whatever is collected and even if a text is refused |
| `StringStore.Determined` | rt-thread/shell/finsh_heap.c:54-142 | The same live blocks, texts and variables give the same addresses and NULL at the same text, however the heap came about |
| `StringStore.TextRead` | rt-thread/shell/finsh_node.c:164-165 | Read byte by byte a block is the text, ended by a NUL |
| `StringStore.SecondCollectsFirst` | rt-thread/shell/finsh_node.c:151-168 | Without that room: of two literals of 61 bytes on an empty heap the second is stored at the address of the first |
| `StringStore.SecondRefused` | rt-thread/shell/finsh_node.c:163-165 | With the first of them held by a variable the second gets NULL |
| `Heap.Heap.Store` | rt-thread/shell/finsh_heap.c:54-91 | A client writing its own data harms no other block and no list |
| `Heap.Heap.Run` | rt-thread/shell/finsh_heap.c:36-142 | Every sequence of allocations, frees, collections and client writes keeps the heap valid and its sizes summing to 128, if and only if it has no allocation of a wrapping size; that one breaks it |
| `EditorSpec.HistoryNext` | rt-thread/shell/shell.c:423-462 | One more line: dropped if it repeats the last, appended otherwise, the sixth pushing out the oldest |
| `EditorSpec.HistoryEnds` | rt-thread/shell/shell.c:423-462 | The line entered last ends the history |
| `EditorSpec.HistoryNeighbours` | rt-thread/shell/shell.c:430-431 | No two neighbouring history entries are equal |
| `EditorSpec.StepsGood` | rt-thread/shell/shell.c:507-725 | Over every run that does not fill the line, recall stays within the history and the line within the buffer |
| `EditorSpec.StepsAfter` | rt-thread/shell/shell.c:507-725 | A run is what its keys, one after the other, make of the empty editor, so the laws below hold inside every run |
| `EditorSpec.TypesText` | rt-thread/shell/shell.c:689-716 | What is typed stands left of the cursor, in order |
| `EditorSpec.LeftThenRight` | rt-thread/shell/shell.c:583-602 | The left key moves one character over the cursor and the right key moves it back |
| `EditorSpec.RightThenLeft` | rt-thread/shell/shell.c:583-602 | The same the other way round |
| `EditorSpec.CursorStops` | rt-thread/shell/shell.c:583-602 | At the ends of the line these keys change nothing |
| `EditorSpec.EscapeGivenUp` | rt-thread/shell/shell.c:522-540 | A key that ends an escape sequence early counts as if it had been typed alone |
| `EditorSpec.NoKey` | rt-thread/shell/shell.c:507-512 | NUL and 0xff change nothing |
| `EditorSpec.EntersLine` | rt-thread/shell/shell.c:657-687 | Either line end enters the whole line, wherever the cursor is, and starts a new one |
| `EditorSpec.UpWalks` | rt-thread/shell/shell.c:541-560 | n times Up brings the n-th last line of the history |
| `EditorSpec.UpStops` | rt-thread/shell/shell.c:541-560 | At the first line Up changes nothing |
| `EditorSpec.DownWalks` | rt-thread/shell/shell.c:561-582 | Down then goes forward by one line and stays at the last |
| `EditorSpec.DownRecalls` | rt-thread/shell/shell.c:561-582 | Two different lines entered one after the other: two times Up brings the first, and Down then the second |
| `EditorSpec.TabExtends` | rt-thread/shell/shell.c:608-621 | Tab keeps what was typed and puts the cursor behind the line |
| `EditorSpec.EraseStops` | rt-thread/shell/shell.c:623-628 | Left of the line there is nothing to erase |
| `EditorSpec.TypeErase` | rt-thread/shell/shell.c:623-654 | Either erase key undoes typing anywhere in the line |
| `EditorSpec.EnterRecalls` | rt-thread/shell/shell.c:541-560 | Up after Enter brings the line back |
| `Shell.Shell.PushHistory` | rt-thread/shell/shell.c:423-462 | The stored rows are the last five of the entered lines without consecutive repeats |
| `Shell.Shell.InsertChar` | rt-thread/shell/shell.c:689-724 | Typing at the cursor matches the two-string editor if and only if the line does not become full |
| `Shell.Shell.EraseChar` | rt-thread/shell/shell.c:623-654 | Backspace matches the two-string editor |
| `Shell.Shell.EnterLine` | rt-thread/shell/shell.c:657-687 | Enter updates the history and clears the line. A line with text is handed over as the C string at its start, which is the text and a semicolon, and then a line the lexer accepts, if and only if the text is shorter than 79 characters; an empty line is not handed over |
| `Shell.ReadBack` | rt-thread/shell/shell.c:674-677 | What a read up to the first NUL yields of a line with its semicolon in place, cursor bytes and memory behind it |
| `Shell.FullLineReadAgain` | rt-thread/shell/shell.c:674-677 | The line of 78 blanks and a digit, entered with the cursor at its end and a NUL behind the cursor bytes, is read as that digit, a semicolon and the word OO, which sends the lexer back to the start |
| `Shell.Shell.CompleteLine` | rt-thread/shell/shell.c:608-621 | Tab replaces the line by its completion |
| `Shell.Shell.ArrowKey` | rt-thread/shell/shell.c:541-602 | Up and down recall, left and right move the cursor |
| `Shell.Shell.HandleKey` | rt-thread/shell/shell.c:507-725 | One key: the buffers follow the editor for every key that does not fill the line; after one that does they represent no editor state at all |
| `EditorSpec.LongLineFills` | rt-thread/shell/shell.c:719-724 | 79 letters and one more: a run of keys that fills the line |
| `Shell.RunKeys` | rt-thread/shell/shell.c:507-725 | Over every run of keys: zero-padded line, cursor, escape state and history match the editor to the end if and only if no key fills the line; behind one that does they match no editor state |
| `Shell.HoldsUnique` | rt-thread/shell/shell.c:431-431 | Comparing whole rows compares the texts |
| `Completion.LongestCommon` | rt-thread/shell/cmd.c:934-1102 | Comparing each match with the first only still gives the longest common prefix of all matches in the four tables |
| `Completion.CompleteCompletes` | rt-thread/shell/cmd.c:934-1102 | The completion is the longest text that all names beyond the prefix begin with, over all four tables without the built-in functions that begin with two underscores; without such a name it is the prefix |
| `Completion.CompleteExtends` | rt-thread/shell/cmd.c:1099-1101 | Completion never loses what was typed |
| `Completion.CompleteTwice` | rt-thread/shell/cmd.c:934-1102 | Completing again changes nothing |
| `Completion.StrIsPrefix` | rt-thread/shell/cmd.c:907-919 | Decides the prefix relation |
| `Completion.StrCommon` | rt-thread/shell/cmd.c:921-932 | Length of the common prefix of two names |
| `Completion.Search` | rt-thread/shell/cmd.c:947-989 | One table scanned: first match over all tables so far and the least length shared with it |
| `Completion.ListPrefix` | rt-thread/shell/cmd.c:934-1102 | The four scans and the copy compute just that text |
| `RingBuffer.WriteKeeps` | rt-thread/shell/acw_dump.c:324-374 | A writer step into free space, at any moment of a sweep, keeps the unread bytes and the reader's range |
| `RingBuffer.CopyKeeps` | rt-thread/shell/acw_dump.c:351-360 | Each byte offered to the file is the next one written, whether the file takes it or not |
| `RingBuffer.EndKeeps` | rt-thread/shell/acw_dump.c:362-373 | The sweep publishes the write index it sampled |
| `RingBuffer.FileIsPrefix` | rt-thread/shell/acw_dump.c:324-374 | In every interleaving the reader offers what was written in order, nothing left out or repeated; with the reader idle exactly the unread bytes are missing; the file is short by exactly the bytes it refused, and is complete if and only if it refused none; a sweep takes at most two chunks |
| `RingBuffer.Drains` | rt-thread/shell/acw_dump.c:324-374 | With anything to read a sweep begins, and undisturbed it ends with everything written so far offered and the ring empty |
| `RingBuffer.SweepEnds` | rt-thread/shell/acw_dump.c:351-374 | From any point of a sweep an undisturbed reader comes to its end, at the index it sampled |
| `RingBuffer.PutTaken` | rt-thread/shell/acw_dump.c:324-374 | A byte is taken if and only if more than one place is free, and is then the last of the unread ones |
| `RingBuffer.Sweep` | rt-thread/shell/acw_dump.c:324-374 | An undisturbed sweep writes exactly the unread bytes in at most two non-empty chunks and ends at the sampled index |
| `ArgSplit.Split` | rt-thread/shell/msh.c:92-160 | In place: argv receives the argument starts, each text stands there with a NUL behind it unless it ends with the command, nothing at or behind the end is written |
| `ArgSplit.Take` | rt-thread/shell/msh.c:124-156 | One argument, quoted with escapes or plain |
| `ArgSplit.Strip` | rt-thread/shell/msh.c:104-109 | Blanks become NULs and end the argument before them |
| `ArgSplit.SplitsJoined` | rt-thread/shell/msh.c:92-160 | Splitting joined words, plain or quoted, separated by blanks and tabs, gives exactly their texts in order, and of more than eight the first eight |
| `ArgSplit.OpenQuote` | rt-thread/shell/msh.c:124-144 | A quote that is not closed takes the rest of the command |

## Left out
- Derivations.TypeText: `unsigned` with a star is not among the types of a declaration; among those of a cast it is.
- RingBuffer.Drains: the ring is taken to be ready, as `Sweep` asks.
- Parser.Parser.Run: a declaration without any initial value is described as the first statement of a line, not behind others.
- RunLine.ExecuteText: the heap's cells and the memory the line runs on are kept apart, and the variable tables at the literals are given to it, as the model stores them before it parses.
- RunLine.Recognise: lines with empty statements, behind which the parser swallows a token, and with declarations are left to `Parse` and `ParseText`, which speak of one direction.
- Semantics.WellFormed: a cast of a target or of a stepped variable, and one of the bare name of a function, have no meaning here.
- `++` and `--` on system variables and dereferences, and calls as the leftmost operand of an operator: the code emits nothing usable for them, so they are not well formed.
- Lazy lexing: the parser model reads a token sequence, the lexer model produces it; the code interleaves the two, and the lexer keeps no state but its position and its word buffer, which the parser model is given.
- Lexer.Lexer.ProcNumber: a decimal literal beyond the range of long, undefined in C, wraps modulo 2^32.
- Machine.Machine.Run: addresses stored to by a program are not taken to alias the text segment or the machine's own stack.
- Machine.Machine.OpCall: system calls are arbitrary functions of the entry, the arguments and the memory; a call without arguments passes one zero.
- Parser.Parser.ProcCast: when a cast yields no node the code reads on as if there had been none; the contract then says no more than that the error stays.
- ArgSplit.Split: the position in the command and the pointer into it are one value, so that they agree holds by construction.
- Heap.Heap.Free: asks for a live block, as the code does without checking.
- Heap.Heap.Allocate: on a wrapping size the model stops before the clearing of memory outside the heap.
- Heap.Heap.Run: the client frees only what it owns, and writes whole eight-byte cells; the heap is a row of such cells, each holding the two words of a header.
- Shell.RunKeys: stops behind a key that fills the line; what the code does from there on is not described. The names in the symbol tables are taken to fit the line.
- RingBuffer.FileIsPrefix: the writer is taken to advance only into free space.
- Shell output, echo, prompts, devices, semaphores and the password prompt: input and output.
- Path and msh command completion, module execution, kernel object listings, memory-mapped register access, audio setup: wrappers over code outside the repository.
