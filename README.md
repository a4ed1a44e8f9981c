# lip: value model and tree-to-value converter

lip is a toy Lisp REPL. It reads a line, parses it with a grammar library into a
generic parse tree, converts that tree into a tree of `lval` records and prints
the result. Its `lval` is a tagged record with four variants: Number holds a C
`long`, Error holds a message, Symbol holds a name, and S-expression holds an
ordered, owned array of child records.

This project models that value model and the converter in Dafny:

- `numbers.dfy` (module `Numbers`) covers the integers of the REPL. It has the
  64-bit `long` as a newtype, the text `printf("%li")` prints for one, and what
  `strtol(s, NULL, 10)` returns for text of the grammar rule `number : /-?[0-9]+/`,
  including its range error. It proves that printing and reading numbers are
  inverse to each other.
- `values.dfy` (module `Values`) defines the abstract value an `lval` denotes and
  its rendering as a string. A Number renders as its decimal literal, an Error as
  `Error: ` and the message, a Symbol as its raw name. An S-expression renders as
  `(`, its children's renders separated by single spaces, and `)`.
- `lvals.dfy` (module `Lvals`) has the heap record as a class `Lval`. It has the
  C fields `num`, `err`, `sym`, `count` and `cell`, and `kind` for the C field
  `type` (a reserved word in Dafny), with a ghost `value` and a ghost footprint
  `Repr`. `Valid()` states exclusive ownership: the records form a
  tree and no record is shared. The class has the four constructors,
  `lval_expand` as an in-place append, and `lval_show`, `lval_expr_print` and
  `lval_print` as methods that build the printed text in the same order as the C
  code and are proved equal to the rendering function.
- `reader.dfy` (module `Reader`) has the parse tree as
  `Node(tag, contents, children)`, `strstr` as `Contains`, and `ast_read_num` and
  `ast_parse_node` as methods over `Lval` records. Each is proved against a
  function on values. `Convert` returns `None` where the C returns NULL.

The REPL has no evaluator: the arithmetic operators exist only in commented-out
code, and `main` prints the converted tree as it is. So a line holding `5` prints
`(5)`, the root S-expression around one number (`Reader.EchoOneNumber`). That
lemma takes as given the grammar library's tree shape for such a line: the `regex` anchors
around one `expr|number|regex` leaf under `>`.
Evaluation, child removal and the operator error messages that a fuller design
would have are not in this code and are not modelled.

## Model

| member | source | states |
|---|---|---|
| Lvals.Lval.Num | repl.c:33-38 | a fresh, valid Number record holding the given `long` unchanged |
| Lvals.Lval.Err | repl.c:40-46 | a fresh, valid Error record holding the message verbatim |
| Lvals.Lval.Sym | repl.c:48-54 | a fresh, valid Symbol record holding the name verbatim |
| Lvals.Lval.Sexpr | repl.c:56-62 | a fresh, valid S-expression record with count 0 and no children |
| Lvals.Lval.Expand | repl.c:138-143 | the count grows by exactly one; the new child is at the last index; every earlier child is unchanged; the denoted value gains the child's value at the end; the tree stays valid with the child's records now owned by the parent |
| Values.RenderAppend | repl.c:138-143 | appending a child changes the render only by replacing the closing `)` with a space (no space if the list was empty), the child's render and `)` |
| Lvals.Lval.Show | repl.c:85-100 | the text printed for any valid record equals Render of its value: decimal literal, `Error: ` plus message, raw symbol name, or the bracketed children |
| Lvals.Lval.ExprPrint | repl.c:102-111 | the text is the open character, the children's renders joined by single spaces with none after the last, and the close character |
| Values.EmittedStep | repl.c:104-109 | one turn of the print loop adds the next child's render and a space unless that child is the last |
| Values.JoinedSnoc | repl.c:104-109 | adding one part to a space-joined text adds exactly one space, or none when the text was empty |
| Values.SplitJoined | repl.c:104-109 | the separator is exactly one space: splitting the joined text at spaces gives back the parts when none contains a space |
| Lvals.Lval.Print | repl.c:113-116 | the printed text is Render of the value followed by one newline |
| Values.RenderLine | repl.c:113-116 | the text ends in exactly one added newline, and everything before it is the render |
| Numbers.Strtol | repl.c:146-148 | for number text, the range flag is set iff the value is outside the `long` range; otherwise the result is the text's value; on overflow it is clamped to LONG_MIN or LONG_MAX |
| Reader.ReadNum | repl.c:145-153 | the record is a Number with the text's value when it fits in a `long`, and the Error "Bad number" otherwise |
| Reader.ReadBackRender | repl.c:145-153 | reading back the decimal literal a Number renders to gives the same Number, for every `long` |
| Reader.RenderNumberOf | repl.c:145-153 | canonical number text that is read and then rendered comes back unchanged when it fits in a `long`, and as `Error: Bad number` otherwise |
| Numbers.LiteralRoundTrip | repl.c:88 | the `%li` text of every integer is canonical number text whose value is that integer |
| Numbers.TextRoundTrip | repl.c:190 | printing the value of canonical `-?[0-9]+` text gives back that text |
| Reader.ContainsIffOccurs | repl.c:156-157 | the `strstr` scan succeeds iff the needle occurs at some position of the tag (both directions) |
| Reader.Convert | repl.c:155-178 | the result is NULL (None) iff no tag test matches; it is an S-expression iff the tag is `>` or contains `sexpr` and contains neither `number` nor `sym`, so a `number` or `sym` tag always gives a leaf |
| Reader.ParseNode | repl.c:155-178 | returns NULL exactly when Convert gives None; otherwise a fresh valid record tree whose value is Convert's |
| Reader.ExpandParsed | repl.c:172 | converting a kept child and appending it leaves a valid S-expression whose value gains that child's conversion at the end |
| Reader.KeptMembers | repl.c:166-171 | the kept children are exactly the children whose contents are not `(`, `)`, `{`, `}` and whose tag is not exactly `regex` |
| Reader.ConvertKeepsOrder | repl.c:166-173 | a root or `sexpr` node yields an S-expression whose children are the conversions of its kept children, in left-to-right order, so the child count is the kept count and zero kept children give the empty S-expression |
| Reader.EchoOneNumber | repl.c:208-210 | a line holding one canonical in-range number converts to the root S-expression around that Number and prints as `(` the number `)` and a newline |

## Left out

- `main`, the readline and history loop, the prompt and the version banner are interactive I/O.
- Building the grammar, parsing, `mpc_ast_delete` and the parser's error printing belong to the grammar library. The parse tree is an input (`Reader.Node`).
- `lval_free` releases memory by hand. Dafny's heap is garbage-collected. The ownership that makes one recursive release correct is kept as `Lval.Valid()`: every record belongs to exactly one parent.
- The commented-out `e_operator` is dead code. The REPL has no evaluator, so no evaluation, operator semantics or error propagation is modelled.
- The "It returned null" diagnostic is console output. Only the NULL result (`None`) is modelled.
- `strtol` is modelled only on the text the `number` rule admits (`-?[0-9]+`): its decimal value, or the range error. Whitespace skipping, a `+` sign and `endptr` are not modelled.
- Reader.ParseNode: requires `WellFormed(t)`. Two of its clauses exclude undefined behaviour in the C code: a node that matches no tag test but has a kept child (`lval_expand` on NULL), and a kept child that converts to NULL (stored, then dereferenced when printed). The third clause, that a `number` node holds `-?[0-9]+` text, is a modelling restriction. It rests on the grammar rule at repl.c:190. The C code is defined for other text too: `strtol` gives 0 for "abc" and 12 for "12x", and `ast_read_num` returns that Number. The grammar never produces a tree that breaks any of the three clauses.
- Lvals.Lval.Expand: `cell` is a sequence that is reassigned, not a `realloc`ed array, so allocation failure is not modelled. `count` is an unbounded integer, so overflow of a C `int` child count is not modelled.
- For Number, Error and Symbol records, the C code leaves `count` and `cell` uninitialised. The model sets them to 0 and empty.
- The loop of `ast_parse_node` tests the five skip conditions as one predicate, `Skipped`, instead of five `continue` statements. The result is the same.
- Reader.ExpandParsed: the single C statement `x = lval_expand(x, ast_parse_node(...))` is a method of its own.
- Tags and contents are sequences of characters. `strcmp` and `strstr` compare characters exactly, as the C functions compare bytes.
