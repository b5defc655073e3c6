# A verified model of the 9cc parser

This project models `parse.c`, the single-pass recursive-descent parser of the
9cc C compiler, in Dafny. The parser turns a token sequence into functions and
global variables. While it reads the tokens it also:

- resolves names against a chain of block scopes;
- builds types and lays out structs;
- desugars `x++`, `x--`, `++x`, `--x` and `x op= y` into statement
  expressions over fresh temporaries;
- tracks the enclosing loops and switches that `break`, `continue` and `case`
  refer to.

The model keeps the form of the C code. The parser's global state becomes the
fields of one `Parser` object, which are updated in place:

- the cursor `pos`;
- the scope chain `env`;
- the stacks `breaks`, `continues` and `switches`;
- the locals `lvars`, the globals `gvars` and the functions `funcs`;
- the struct arena `structs`.

Each grammar rule is a method. Its contract says how far the cursor moves and
which parts of the state the rule may change. The pure parts are functions with
lemmas about them: the scope lookups, struct layout, array types, the trees the
desugarings build, and the precedence shape of expression trees. A small
reference evaluator (`Eval`) states what the desugared trees compute.

Module `Syntax` is a reference reading of the token spans that the parser reads
without side effects:

- expressions made of numbers, bound names, prefix operators, the binary
  operators, `?:`, `=` and `,`;
- declarators made of type keywords, typedef names, stars, names, parentheses
  and constant array lengths.

Each of its functions yields the tree and the index just past the span, or
nothing. The parser's rules are proved to agree with it: wherever the reading
yields a tree, the rule returns that tree and stops at that index. Lemmas about
the reading state precedence, associativity and the `>` swap.

Files:

| file | contents |
|---|---|
| `wrappers.dfy` | `Option`, `Result` and `Outcome`: a fatal diagnostic is a `Failure` |
| `tokens.dfy` | token kinds, tokens, and token streams that end in `Eof` |
| `types.dfy` | types, size and alignment, `RoundUp`, array types built from bracket lists, declarator placeholders |
| `layout.dfy` | the struct layout algorithm and its properties |
| `ast.dfy` | nodes, the desugared trees, and the precedence and associativity shape of expressions |
| `scope.dfy` | the scope chain, its lookups and declarations |
| `eval.dfy` | a reference semantics for integer and pointer expressions |
| `syntax.dfy` | the reference reading of expressions and declarators, and its precedence lemmas |
| `parser.dfy` | the `Parser` class: cursor, scopes, expressions, declarations, statements, top level |

Some fixed choices:

- Token kinds are a reduced datatype.
- Primitive sizes and alignments are 0/0 for void, 1/1 for bool and char, 4/4 for int and 8/8 for pointers.
- `roundup(x, a)` is `((x + a - 1) / a) * a` for `a > 0`.

The semantic pass that types expressions (`get_type`) is passed to the parser
as the function `typeOf`.

Two behaviours the model keeps as the code has them:

- `continue` takes its target from the stack of loops *and switches*
  (parse.c:882). So a `continue` inside a `switch` that sits inside a loop
  targets the switch, not the loop. `Ast.JumpsTo` and `Parser.Parser.Stmt`
  state this.
- `&=` lowers to the logical and (parse.c:642-643). `Eval.AndEqIsLogical`
  and `Eval.AndEqSixThree` state what it computes.

## Model

| member | source | states |
|---|---|---|
| Parser.Parser.constructor | parse.c:1001-1008 | a fresh parser is at the first token with one empty file scope, no structs, locals, globals or functions, and empty loop and switch stacks |
| Parser.Parser.Consume | parse.c:39-45 | advances the cursor by exactly one iff the current token has the given kind, otherwise leaves it unchanged; nothing but the cursor can change |
| Parser.Parser.Expect | parse.c:26-37 | passes and advances by one iff the current token has the given kind; otherwise a failure with the cursor unchanged |
| Parser.Parser.Get | parse.c:51-53 | returns the current token and advances past it |
| Parser.Parser.Unget | parse.c:55-58 | steps back to the position that holds the given token |
| Parser.Parser.Identifier | parse.c:279-284 | succeeds iff the current token is an identifier, returning its name and advancing past it |
| Parser.Parser.PushEnv | parse.c:80-82 | adds an empty innermost scope |
| Parser.Parser.PopEnv | parse.c:84-87 | drops the innermost scope |
| Parser.Parser.AddVar | parse.c:98-100 | binds the variable in the innermost scope only, after which its name finds it |
| Parser.Parser.NewVar | parse.c:89-96 | a variable with the given fields and a fresh id |
| Parser.Parser.AllocLocalStorage | parse.c:138-142 | appends the variable to the locals iff the parser is inside a function's scope, and fails otherwise |
| Parser.Parser.AllocGlobalStorage | parse.c:144-147 | appends the variable to the program's globals |
| Parser.Parser.NewNodeId | parse.c:239-244 | a fresh node identity |
| Parser.Parser.NewAssignEq | parse.c:607-620 | `lhs op= rhs` appends exactly one pointer temporary to the locals and yields `({ z = &lhs; *z = *z op rhs })`; fails iff outside a function |
| Parser.Parser.NewPostInc | parse.c:394-409 | `e++`/`e--` appends exactly two temporaries, a pointer to e's type and then one of e's type, and yields the three-statement expression whose value is the second temporary |
| Parser.Parser.StringLiteral | parse.c:286-295 | a new global named after the label counter, of type array of `char` of the literal's length, holds the literal's bytes; the counter increases by one |
| Parser.Parser.FunctionCall | parse.c:308-328 | a call node named after the callee, typed by the callee's function type when the name is bound to a function, else by a function returning int |
| Parser.Parser.Arguments | parse.c:322-326 | reads the arguments up to and including the `)`; wherever the reference reading `ArgsAt` gives a list, the rule returns exactly that list and stops where it does |
| Parser.Parser.Argument | parse.c:322-325 | at `)` reads it and gives no argument, exactly where `ArgsAt` reads an empty list; otherwise one argument, after a `,` unless it is the first: where `ArgsAt` reads a list, the argument is that list's head and the rest of the list reads on from where it stops |
| Parser.Parser.NameRef | parse.c:362-367 | a name followed by `(` is a call; otherwise it succeeds iff the name is bound, with a reference to the variable the scopes find |
| Parser.Parser.Primary | parse.c:351-375 | on a number or a bound name not followed by `(`, returns `Num(val)` or a reference to the variable the scopes find, as `PrimaryAt` reads it |
| Parser.Parser.Parenthesized | parse.c:354-359 | after `(`: `({` starts a statement expression; otherwise the expression read as `CommaAt` reads it, succeeding iff a `)` follows it |
| Parser.Parser.Postfix | parse.c:411-447 | applies postfix operators left to right; a primary with no postfix operator gives the tree `PostfixAt` reads |
| Parser.Parser.PostfixOp | parse.c:414-445 | `++`/`--` yield the post-increment tree with +1/-1 and two new temporaries; `a[i]` yields `*(a + i)` with `i` read by `AssignAt` and a closing `]`; `.x` and `->x` yield `Dot(a, x)` and `Dot(*a, x)`, succeeding iff a name follows |
| Parser.Parser.Unary | parse.c:451-473 | the tree `UnaryAt` reads, wherever it reads one |
| Parser.Parser.PrefixOp | parse.c:454-463 | `-x` becomes `0 - x`, and `*`, `&`, `!`, `~` wrap their operand; the result is the tree `UnaryAt` reads |
| Parser.Parser.PrefixIncDec | parse.c:468-471 | `++x` and `--x` become `x += 1` and `x -= 1` through one new pointer temporary, with `x` the operand `UnaryAt` reads; fails iff outside a function |
| Parser.Parser.SizeofOp | parse.c:464-467 | `sizeof x` and `_Alignof x` become the number that is the size or alignment of the operand's type, the operand being the one `UnaryAt` reads |
| Parser.Parser.MulExpr | parse.c:475-488 | the left-folded chain of `*`, `/`, `%` that `BinaryAt` reads at its level |
| Parser.Parser.AddExpr | parse.c:490-501 | the left-folded chain of `+`, `-` that `BinaryAt` reads at its level |
| Parser.Parser.ShiftExpr | parse.c:503-514 | the left-folded chain of `<<`, `>>` that `BinaryAt` reads at its level |
| Parser.Parser.RelationalExpr | parse.c:516-531 | the left-folded relational chain that `BinaryAt` reads, with `>` and `>=` built as swapped `<` and `<=` |
| Parser.Parser.EqualityExpr | parse.c:533-544 | the left-folded chain of `==`, `!=` that `BinaryAt` reads at its level |
| Parser.Parser.BitAndExpr | parse.c:546-553 | the left-folded chain of `&` that `BinaryAt` reads at its level |
| Parser.Parser.BitXorExpr | parse.c:555-562 | the left-folded chain of `^` that `BinaryAt` reads at its level |
| Parser.Parser.BitOrExpr | parse.c:564-571 | the left-folded chain of `\|` that `BinaryAt` reads at its level |
| Parser.Parser.LogAndExpr | parse.c:573-580 | the left-folded chain of `&&` that `BinaryAt` reads at its level |
| Parser.Parser.LogOrExpr | parse.c:582-589 | the left-folded chain of `\|\|` that `BinaryAt` reads at its level |
| Parser.Parser.ConditionalExpr | parse.c:591-603 | the conditional expression `ConditionalAt` reads, nesting to the right |
| Parser.Parser.CondRest | parse.c:593-602 | with no `?` the condition itself, reading nothing; after `?`, an expression, `:` and a conditional expression give `Cond(c, y, z)` |
| Parser.Parser.AssignExpr | parse.c:622-649 | the assignment `AssignAt` reads, nesting to the right |
| Parser.Parser.AssignRhs | parse.c:624-627 | `= rhs` builds `Binop(Assign, lhs, rhs)`; the tail `AssignTail` reads wherever it reads one |
| Parser.Parser.CompoundAssign | parse.c:628-648 | no assignment operator: `lhs` unchanged, reading nothing; `op=`: `AssignEqNode` of the operator the token lowers to, through one new pointer temporary, over the right side `AssignAt` reads; fails iff outside a function |
| Parser.Parser.Expr | parse.c:651-657 | the comma expression `CommaAt` reads, nesting to the right |
| Parser.Parser.ExprThen | parse.c:357-358 | an expression and the closing token that must follow it: succeeds iff the token after the expression `CommaAt` reads is that token |
| Parser.Parser.ConstExpr | parse.c:659-665 | succeeds iff the expression `CommaAt` reads is a number, whose value it returns |
| Parser.Parser.StatementExpr | parse.c:330-349 | `({ ... })` in a scope of its own that is popped again. Where the block reads as expression statements (`ExprStmtsAt`), it succeeds iff `)` follows the `}`; its statements are exactly those read, and its value is the last one's expression |
| Parser.Parser.StmtsToBrace | parse.c:335-337 | at least one statement, up to and including the `}`; where they read as expression statements (`ExprStmtsAt`), exactly those, stopping just past the `}` with the scopes unchanged |
| Parser.Parser.BraceItem | parse.c:336-337 | one statement appended to those before it, and whether `}` follows. At a token that starts an expression and is no type name, the statement is the `CommaAt` reading ended by `;`, and the `}` is read iff it comes next |
| Parser.Parser.ArrayDim | parse.c:670-676 | `[]` gives -1 and `[n]` gives n, as `DimAt` reads them |
| Parser.Parser.NextDim | parse.c:670-676 | no bracket gives None and reads nothing; where `DimsAt` reads brackets, the next one gives the first length and `DimsAt` reads the rest from where it stops |
| Parser.Parser.ReadArray | parse.c:667-684 | the brackets give the lengths `DimsAt` reads, first bracket first, and the type `ArrayOf(T, [n1..nk])`, the first bracket outermost; with no bracket the type is unchanged and nothing is read |
| Parser.Parser.DirectDecl | parse.c:688-711 | the declaration `DirectDeclAt` reads: a head, whose placeholder is filled by the array type of the brackets, then an optional initializer; fails when the base type is missing |
| Parser.Parser.DirectHead | parse.c:689-702 | a name, declared with the placeholder as its type, or a declarator on the placeholder inside parentheses, as `HeadAt` reads it |
| Parser.Parser.DeclSuffix | parse.c:704-710 | the brackets' array type on the base fills the placeholder of the declared type, as `SuffixAt` reads it; then an optional initializer |
| Parser.Parser.DeclInit | parse.c:707-709 | an initializer, the one `AssignAt` reads, only after `=`; the name and type are kept |
| Parser.Parser.Stars | parse.c:714-715 | reads every `*`, as many as `StarsAt` counts, stops at the first other token, and wraps the type in one pointer per star |
| Parser.Parser.Declarator | parse.c:713-717 | the name, type and initializer `DeclaratorAt` reads: pointer stars, then a direct declarator |
| Parser.Parser.DeclarationType | parse.c:719-724 | the declaration `DeclarationAt` reads: specifiers, a declarator and `;`, leaving the scopes unchanged |
| Parser.Parser.Declaration | parse.c:726-745 | declares a local that the scopes then find and that is the last local; the statement is null, or an assignment of the initializer to that variable |
| Parser.Parser.DeclareLocal | parse.c:730-744 | binds the new local, appends it to the locals (failing outside a function), and lowers `T x = e` to `x = e` |
| Parser.Parser.ParamDeclaration | parse.c:747-754 | a local parameter with the name the declarator reads and its type decayed: an array type becomes a pointer to its element type |
| Parser.Parser.DeclSpecifiers | parse.c:179-237 | `int`, `char`, `bool`, `void` and typedef names give the type `SpecifierAt` reads, an identifier that names no typedef gives none and reads nothing; `struct` gives a struct the tag then finds; `typeof ( e )` gives `e`'s type; any other token fails |
| Parser.Parser.NamedSpecifier | parse.c:180-196 | a typedef name or `void`, `bool`, `char`, `int` gives the type `SpecifierAt` reads and stops where it does; an identifier that names no typedef gives no type and reads nothing; any other token fails |
| Parser.Parser.TypeofSpecifier | parse.c:198-203 | `typeof`, then: fails without `(`; otherwise, where `CommaAt` reads an expression, succeeds iff `)` follows, giving that expression's type and stopping after the `)` |
| Parser.Parser.StructType | parse.c:205-234 | `struct` and what follows give a struct type; when a tag follows `struct`, the tag then finds that struct |
| Parser.Parser.StructSpecifier | parse.c:205-234 | a tag visible in the scopes reuses its struct, any other struct is new; afterwards the tag names the struct; an anonymous struct must have a body |
| Parser.Parser.StructEntry | parse.c:207-218 | the struct the tag names, or a new incomplete one |
| Parser.Parser.OptStructBody | parse.c:220-227 | no `{`: nothing read and nothing changed; after `{`, the struct has members |
| Parser.Parser.StructBody | parse.c:220-226 | the struct has one member per declaration, with the names and types the declarations read (`MembersAt`), in order |
| Parser.Parser.MemberDecls | parse.c:222-225 | the member declarations `MembersAt` reads, up to and including the `}` |
| Parser.Parser.Member | parse.c:222-224 | at `}` reads it and gives no member, exactly where `MembersAt` reads an empty list; otherwise one member declaration: where `MembersAt` reads a list, the declaration is that list's head, the rest reads on from where it stops, and the scopes are unchanged |
| Parser.Parser.FixLayout | parse.c:163-177 | the struct becomes the layout of its members from its alignment so far; no other struct changes |
| Parser.Parser.DeclareStruct | parse.c:229-233 | fails iff there is neither a tag nor a body; a tag is bound to the struct in the innermost scope |
| Parser.Parser.ExpressionStmt | parse.c:756-761 | the expression `CommaAt` reads, as an expression statement ended by `;` |
| Parser.Parser.IsTypename | parse.c:153-159 | a type name never starts an expression statement, and among the tokens that start an expression, exactly the typedef names are type names |
| Parser.Parser.CompoundStmt | parse.c:907-916 | statements up to `}`, every `break` and `continue` in them targeting an enclosing loop or switch; where they read as expression statements (`ExprStmtsAt`), exactly those, stopping just past the `}` with the scopes unchanged |
| Parser.Parser.BlockItem | parse.c:912-913 | one statement appended to those before it. Where the statements before it and those still to read make up a reading of the block as expression statements, it is the next one of that reading and the rest still follows |
| Parser.Parser.Stmt | parse.c:763-905 | `;` is the null statement; a token that starts an expression and is no type name gives the expression statement `CommaAt` reads, succeeding iff `;` follows; every keyword builds its own kind of node (`BuiltBy`), and the statement is read as `StmtRead` states. `break` succeeds iff there is an enclosing loop or switch, `continue` iff there is an enclosing loop, and `case` outside a switch fails; every jump targets the innermost enclosing construct; the stacks are as before and only the innermost scope is written |
| Parser.Parser.JumpStmt | parse.c:871-884 | `break` succeeds iff a loop or switch encloses it and `continue` iff a loop does; both target the innermost loop or switch, read one token and build a node of their own kind |
| Parser.Parser.SimpleStmt | parse.c:897-903 | `;` is the null statement. A type name starts a declaration, which fails outside a function's scope and is lowered to `x = init` or to the null statement. Any other token starts the expression statement `CommaAt` reads, which succeeds iff `;` follows |
| Parser.Parser.ControlStmt | parse.c:773-858 | `if`, `for`, `while`, `do` and `switch` each build their own kind of node (`BuiltBy`), whose jumps target enclosing constructs, and the statement is read as `StmtRead` states |
| Parser.Parser.KeywordStmt | parse.c:767-896 | `typedef`, `case`, `return` and `{` each build their own kind of statement (`BuiltBy`), read as `StmtRead` states; `case` outside a switch fails |
| Parser.Parser.ReturnStmt | parse.c:885-890 | a return of the expression `CommaAt` reads after `return`, succeeding iff `;` follows, with the scopes unchanged |
| Parser.Parser.BlockStmt | parse.c:891-896 | a block in a scope of its own, with the scopes as before afterwards; where its statements read as expression statements (`ExprStmtsAt`), exactly those, stopping just past the `}` |
| Parser.Parser.TypedefStmt | parse.c:767-772 | the declaration after `typedef` binds its name to its type in the innermost scope, and yields the null statement |
| Parser.Parser.BindTypedef | parse.c:770 | binds the name to the type in the innermost scope, after which the name finds that type |
| Parser.Parser.ParenExpr | parse.c:775-777 | fails without `(`; otherwise the expression `CommaAt` reads, succeeding iff `)` follows |
| Parser.Parser.KeywordParen | parse.c:775-777 | fails without `(` after the keyword; otherwise the expression `CommaAt` reads, succeeding iff `)` follows, which agrees with the `ParenAt` reading |
| Parser.Parser.IfStmt | parse.c:773-783 | fails without `(`; the condition is the parenthesised expression `ParenAt` reads, and the then-branch starts where it ends; the branches are read as `IfRead` states: the then-branch read as `StmtRead` states, an else branch iff `else` follows the then-branch, itself read as `StmtRead` states after the `else`, and without one the rule stops where the then-branch ends |
| Parser.Parser.IfBranches | parse.c:778-782 | the if node has the given condition; the then-branch is read from where the rule starts, as `StmtRead` states; there is an else branch iff `else` follows the then-branch, read as `StmtRead` states after it, and without one the rule stops where the then-branch ends (`IfRead`) |
| Parser.Parser.ElseClause | parse.c:781-782 | no branch, reading nothing, iff the token is not `else`; after `else`, the branch is read as `StmtRead` states |
| Parser.Parser.ForInit | parse.c:791-794 | a declaration when a type name starts the clause; otherwise nothing at `;`, else the expression `CommaAt` reads as an expression statement, ended by `;` |
| Parser.Parser.ForClause | parse.c:796-804 | nothing iff the closing token comes first; otherwise the expression `CommaAt` reads, then the closing token |
| Parser.Parser.ForHeader | parse.c:791-804 | the init clause, then a condition that is absent iff `;` comes first and an increment that is absent iff `)` comes first, each read as `CommaAt` reads it |
| Parser.Parser.ForStmt | parse.c:785-812 | fails without `(`. In a scope of its own, the header is read as `ForHeaderRead` states: the init is absent at `;` and otherwise, unless it is a declaration, the `CommaAt` expression statement; the condition is absent iff `;` comes first and otherwise the `CommaAt` reading; the increment is absent iff `)` comes first and otherwise the `CommaAt` reading. The body, read from just past the `)`, is read as `StmtRead` states. The scopes are as before afterwards |
| Parser.Parser.ForLoop | parse.c:788-810 | the header reading of `ForStmt` (`ForHeaderRead`) after `(`, then the body from where the header ends, read as `StmtRead` states; the loop is the target of the jumps in its body, and the stacks are popped again |
| Parser.Parser.ForSteps | parse.c:797-805 | the condition, absent iff `;` comes first and otherwise the `CommaAt` reading before `;`; then the increment, absent iff `)` comes first and otherwise the `CommaAt` reading before `)` |
| Parser.Parser.ForBody | parse.c:807-810 | the statement read next, as `StmtRead` states, becomes the body of a for node with the given id and header; its jumps target the loop or enclosing constructs, and the loop is popped from both stacks |
| Parser.Parser.WhileStmt | parse.c:814-827 | fails without `(`; a for node with no init or increment whose condition is the `ParenAt` reading, and whose body, read from where the condition ends, is read as `StmtRead` states; the loop is the target of the jumps in its body |
| Parser.Parser.LoopCond | parse.c:816-821 | pushes the loop on both stacks before its condition is read; fails without `(`, and otherwise agrees with the `ParenAt` reading |
| Parser.Parser.DoStmt | parse.c:828-843 | a do-while node that is the target of the jumps in its body; the body is read from just after `do` up to the `while` that ends it, as `StmtRead` states; the condition is the `ParenAt` reading after that `while`, followed by `;` |
| Parser.Parser.DoBody | parse.c:830-833 | pushes the loop on both stacks, then reads the body as `StmtRead` states; its jumps target the loop or enclosing constructs |
| Parser.Parser.DoTail | parse.c:834-842 | fails without `while`; the condition is the `ParenAt` reading, followed by `;`; the loop is popped from both stacks |
| Parser.Parser.DoCondition | parse.c:834-838 | fails without `while`; after `while (`, the expression `CommaAt` reads, and when `)` follows it, success iff `;` comes next |
| Parser.Parser.ParenThenSemicolon | parse.c:835-838 | fails without `(`; after `(`, the expression `CommaAt` reads, and when `)` follows it, success iff `;` comes next |
| Parser.Parser.SwitchStmt | parse.c:844-858 | fails without `(`; a switch node whose scrutinee is the `ParenAt` reading and whose body, read from where the scrutinee ends, is read as `StmtRead` states; it is the target of the `break`s in its body, and its cases are all case nodes |
| Parser.Parser.SwitchBody | parse.c:852-857 | the statement read next, as `StmtRead` states, becomes the body of a switch node with the given id and scrutinee, whose cases are all case nodes |
| Parser.Parser.CaseStmt | parse.c:859-870 | fails outside a switch, and fails unless the `CommaAt` reading after `case` is a number followed by `:`; the case's value is that number, its body is read after the `:` as `StmtRead` states, and the case becomes the last case of the innermost switch |
| Parser.Parser.CaseBody | parse.c:865-869 | the case node has the given value and as its body the statement read next, as `StmtRead` states; its jumps target enclosing constructs, and it is the last case of the innermost switch afterwards |
| Parser.Parser.ParamList | parse.c:929-935 | wherever `ParamListAt` reads the parameter list, the rule succeeds, stops where that reading ends (just past the `)`) with the scope unchanged, and its parameters have the names and decayed types of the declarations read, in order (`Signature`); each parameter is a local whose type is not an array |
| Parser.Parser.Param | parse.c:932-934 | one parameter, a local whose type is not an array; after the first, fails without reading when no `,` comes first; where `ParamsAt` reads the rest of the list, it is the first declaration of that reading, with its name and decayed type, and the rest of the list still reads as the remaining declarations |
| Parser.Parser.DeclareFunction | parse.c:942-950 | resets the locals and the stacks and binds the function's name at file scope before its body is read |
| Parser.Parser.FunctionDefinition | parse.c:940-976 | appends exactly one function, well formed, with the given name, parameters and type; a typedef'd definition fails. The body is read after `{` as `BodyIn` states: where it is expression statements only, it is exactly the block `ExprStmtsAt` reads in the file scope that binds the function with a new scope binding the parameters, and where that reading exists the definition succeeds |
| Parser.Parser.FunctionBody | parse.c:962-969 | in a new scope where the parameters are the first locals: where `ExprStmtsAt` reads the body in the scope binding the parameters, the result is exactly the block of those statements, ending where the reading ends; the scopes are as before afterwards |
| Parser.Parser.BindParams | parse.c:963-966 | the locals become exactly the parameters, in order |
| Parser.Parser.GlobalDecl | parse.c:981-993 | succeeds iff `;` follows the brackets `DimsAt` reads (a global without a type allows none), and returns the bound type: the array type of the brackets, or none. A typedef binds the name to that type; a variable becomes the global numbered `id` of that type, bound under its name and appended to the globals iff it is not `extern` |
| Parser.Parser.BindGlobal | parse.c:984-993 | a typedef binds the name to the type at file scope, after which the name finds it, and adds no global; a variable becomes the global with the next number and that type, which the name then finds, appended to the globals iff it is not `extern` |
| Parser.Parser.GlobalType | parse.c:981 | the array type of the brackets `DimsAt` reads after a global's name; a global without a type succeeds iff no bracket follows, reading nothing |
| Parser.Parser.GlobalVar | parse.c:990-993 | the variable is bound at file scope and added to the globals iff it is not `extern` |
| Parser.Parser.DeclHead | parse.c:919-926 | the `DeclHeadAt` reading: whether `typedef` and then `extern` come first, then the type and name `TypedNameAt` reads |
| Parser.Parser.TypedName | parse.c:922-926 | the type with its stars and the name, as `TypedNameAt` reads them |
| Parser.Parser.StarredName | parse.c:923-926 | the stars on the base type, then a name: succeeds iff `StarredAt` reads them, with its result |
| Parser.Parser.Toplevel | parse.c:918-994 | keeps the parser at file scope and the earlier functions. `head` is the `DeclHeadAt` reading (`HeadRead`), and `call` tells whether `(` follows it. As `DeclRead` states: without `(`, no function is added and the global or typedef is declared as `GlobalDeclared` states; after `(`, the parameter list is the `ParamListAt` reading, a `;` after it makes a prototype that always succeeds and adds nothing, and otherwise one well-formed function is added with the head's name and return type, never for a typedef, whose parameters and body are read as `BodyRead` states |
| Parser.Parser.TopDecl | parse.c:928-993 | a declaration after its head, as `DeclRead` states: a global or typedef iff no `(` follows, declared as `GlobalDeclared` states; otherwise the parameter list is the `ParamListAt` reading, a prototype after it always succeeds and adds nothing, and a definition adds one function read as `FunctionRead` states |
| Parser.Parser.FunctionDecl | parse.c:929-976 | the parameter list is the `ParamListAt` reading; a `;` after it makes a prototype that always succeeds and adds nothing; otherwise a definition adds one well-formed function with the head's name and type, whose parameters have the names and decayed types of the declarations and whose body is read as `BodyRead` states (`FunctionRead`) |
| Parser.Parser.FunctionTail | parse.c:937-976 | after the parameter list, `;` makes a prototype that succeeds at once and adds nothing; anything else must be `{` and adds one function with those parameters whose body is read as `BodyIn` states (`FunctionRead`) |
| Parser.BoundIsDeclared | parse.c:981-993 | a file-scope binding leaves a typedef name that finds a type iff the declaration had one, or a global the name finds that is the last global unless it is `extern` |
| Parser.Parser.Parse | parse.c:1001-1013 | reads to the end of the tokens and returns the program's globals and functions, every function well formed and the earlier ones kept; at `Eof` it reads nothing and returns the program as it stood |
| Parser.ParseProgram | parse.c:1001-1013 | every function a successful parse returns has its parameters as its first locals and only jumps to its own loops and switches; a stream holding only `Eof` gives the empty program, and a program with a function read more than `Eof` |
| Scope.DeclareVar | parse.c:98-100 | a declaration writes only the innermost frame |
| Scope.DeclareTypedef | parse.c:770 | a typedef writes only the innermost frame |
| Scope.DeclareTag | parse.c:232 | a tag declaration writes only the innermost frame |
| Scope.FindVarInnermost | parse.c:102-109 | `find_var` finds a binding iff some frame binds the name, and then it is the binding of the innermost such frame |
| Scope.FindTypedefInnermost | parse.c:111-118 | `find_typedef` finds a type iff some frame binds the name, and then it is the type of the innermost such frame |
| Scope.FindTagInnermost | parse.c:120-127 | `find_tag` finds a struct iff some frame binds the tag, and then it is the struct of the innermost such frame |
| Scope.FindVarAppend | parse.c:102-109 | lookup in nested scopes finds the inner binding first and falls back to the outer scopes |
| Scope.FindDeclaredVar | parse.c:98-109 | after a declaration the name finds the new variable |
| Scope.DeclareVarKeepsOthers | parse.c:98-109 | a declaration changes the lookup of no other name |
| Scope.FindVarUnbound | parse.c:102-109 | frames that do not bind the name give no binding for it |
| Scope.DeclaredVisibleInside | parse.c:80-109 | a declared variable stays visible in nested scopes that do not redeclare its name |
| Scope.Shadowing | parse.c:80-109 | a declaration in a pushed scope hides the outer one, and popping the scope restores every earlier lookup of the name |
| Scope.FindDeclaredTypedef | parse.c:111-118 | after a typedef the name finds the type; a null type falls through to the enclosing frames |
| Scope.FindDeclaredTag | parse.c:120-127 | after a tag declaration the tag finds the struct |
| Types.RoundUp | parse.c:168 | the least multiple of the alignment at or above the offset |
| Types.ArrayOfLast | parse.c:679-682 | wrapping the base in the last bracket first gives the same array type |
| Types.ArrayOfSize | parse.c:667-684 | `T x[n1]...[nk]` has the size of n1 * ... * nk elements of T |
| Types.ArrayOfAlign | parse.c:667-684 | an array is aligned like its element type |
| Types.NestArrays | parse.c:679-682 | the fold from the last bracket to the first builds `ArrayOf(base, dims)` |
| Types.Fill | parse.c:688-711 | filling the placeholder leaves types without one unchanged, and leaves no placeholder when the filling type has none |
| StructLayout.Place | parse.c:163-177 | one offset per member; the lemmas below state where each member lands |
| StructLayout.MaxAlignIsMax | parse.c:163-177 | the largest member alignment bounds every member's alignment and is some member's |
| StructLayout.PlaceAlignBound | parse.c:172-176 | the struct's alignment is positive when it has members or started positive |
| StructLayout.PlaceAlignIsMax | parse.c:172-173 | the struct's alignment is the larger of its starting alignment and the largest member alignment |
| StructLayout.PlaceOffsetsIgnoreAlign | parse.c:166-171 | the starting alignment does not move any member |
| StructLayout.PlaceOffset | parse.c:168-170 | each member's offset is a multiple of its alignment, at or after the end of the previous member, with less than one alignment of padding |
| StructLayout.PlaceEnd | parse.c:171 | the running offset ends where the last member ends |
| StructLayout.StructSizeBounds | parse.c:176 | the size is a multiple of the alignment and covers the last member with less than one alignment of padding |
| StructLayout.PlaceIdempotent | parse.c:163-177 | laying a struct out again from the alignment it got gives the same layout |
| StructLayout.TwoInts | parse.c:163-177 | `struct { int x; int y; }` has offsets 0 and 4, size 8 and alignment 4 |
| StructLayout.CharThenInt | parse.c:163-177 | `struct { char c; int x; }` pads the int to offset 4, size 8 |
| StructLayout.FixStructOffsets | parse.c:163-177 | the loop computes exactly the offsets, alignment and size of the layout |
| Ast.StmtExprOf | parse.c:379-390 | every expression but the last becomes an expression statement, in order, and the last is the value |
| Ast.PostIncNode | parse.c:394-409 | three assignment statements whose value is the saved temporary |
| Ast.AssignEqNode | parse.c:607-620 | one statement, with the value `*z = *z op rhs` |
| Ast.LeftStep | parse.c:475-589 | a binary node over a left operand of its own level and a right operand of a tighter level is shaped for its level |
| Ast.RelStepShaped | parse.c:516-531 | a relational step keeps the relational shape, whichever way it orders its operands |
| Ast.PrefixShaped | parse.c:454-463 | a prefix operator keeps the unary shape |
| Ast.ShapedWeaken | parse.c:475-657 | a tree shaped for one level is shaped for every looser level |
| Syntax.PrimaryAt | parse.c:351-375 | the reference reading of a primary, a number or a bound name not followed by `(`, reads exactly one token |
| Syntax.PostfixAt | parse.c:411-447 | the reference reading of a postfix expression, a primary with no postfix operator after it, starts with a number, a name or a prefix operator |
| Syntax.UnaryAt | parse.c:451-473 | the reference reading of a unary expression reads at least one token, starting with a number, a name or a prefix operator |
| Syntax.OperandAt | parse.c:475-589 | the operand of a binary level reads at least one token, starting with a number, a name or a prefix operator |
| Syntax.BinaryAt | parse.c:475-589 | the reference reading of one binary level reads at least one token, starting with a number, a name or a prefix operator |
| Syntax.ChainAt | parse.c:477-487 | the rest of a chain ends at or after where it starts |
| Syntax.ConditionalAt | parse.c:591-603 | the reference reading of a conditional expression reads at least one token, starting with a number, a name or a prefix operator |
| Syntax.CondTail | parse.c:593-602 | what follows the condition ends at or after where it starts |
| Syntax.AssignAt | parse.c:622-649 | the reference reading of an assignment reads at least one token, starting with a number, a name or a prefix operator |
| Syntax.AssignTail | parse.c:624-648 | what follows an assignment's left side ends at or after where it starts |
| Syntax.CommaAt | parse.c:651-657 | the reference reading of a comma expression reads at least one token, starting with a number, a name or a prefix operator |
| Syntax.ArgsAt | parse.c:322-326 | the reference reading of call arguments reads at least the `)` |
| Syntax.DimAt | parse.c:671-676 | one bracket's length reads at least the `]` |
| Syntax.DimsAt | parse.c:670-677 | the brackets end at or after where they start |
| Syntax.SpecifierAt | parse.c:179-197 | the reading of a type keyword or typedef name ends at or after where it starts |
| Syntax.StarsAt | parse.c:714-715 | the number of stars: every token it counts is a `*`, and the token after them is not |
| Syntax.DeclaratorAt | parse.c:713-717 | the reference reading of a declarator reads at least one token |
| Syntax.DirectDeclAt | parse.c:688-711 | the reference reading of a direct declarator reads at least one token |
| Syntax.HeadAt | parse.c:689-702 | a declarator's head reads at least one token |
| Syntax.SuffixAt | parse.c:704-710 | the brackets and initializer end at or after where they start |
| Syntax.InitAt | parse.c:707-709 | the initializer ends at or after where it starts |
| Syntax.DeclarationAt | parse.c:719-724 | the reference reading of a declaration reads at least one token |
| Syntax.MembersAt | parse.c:222-225 | the reference reading of a struct body reads at least the `}` |
| Syntax.MembersStep | parse.c:222-225 | a member list not at its `}` is a declaration followed by the rest of the list |
| Syntax.TypedNameAt | parse.c:922-926 | a top-level declaration's type and name read at least one token |
| Syntax.DeclHeadAt | parse.c:919-926 | the head of a top-level declaration reads at least one token |
| Syntax.SimpleStmtAt | parse.c:897-903 | fixes a reading exactly at `;` (the null statement, one token long) and at a token that starts an expression and names no type, where `CommaAt` reads an expression (the expression statement, ended by `;`) |
| Syntax.ParamsAt | parse.c:929-935 | a parameter list, after the first parameter each preceded by `,`, read up to and including `)`; a reading ends within the tokens and advances |
| Syntax.ParamsEndWithParen | parse.c:931 | a parameter list `ParamsAt` reads ends with its `)` |
| Parser.SignatureAt | parse.c:932-934 | where the parameters' signature matches the declarations read, the parameter at each position has that declaration's name and decayed type |
| Syntax.ExprStmtsAt | parse.c:335-337 | a reading of a block made only of expression statements, ended by `}`; it advances, and every statement it reads is an expression statement |
| Syntax.StarredAt | parse.c:923-926 | stars and a name read at least the name |
| Syntax.UnaryShaped | parse.c:451-473 | every unary reading is shaped for the unary level |
| Syntax.BinaryShaped | parse.c:475-589 | every reading of a binary level is shaped for that level: its operators associate to the left and its operands bind tighter |
| Syntax.ChainShaped | parse.c:477-487 | extending a shaped left operand by the chain keeps the level's shape |
| Syntax.ConditionalShaped | parse.c:591-603 | every conditional reading is shaped for the conditional level |
| Syntax.CondTailShaped | parse.c:593-602 | the tail of a conditional keeps the conditional shape |
| Syntax.AssignShaped | parse.c:622-649 | every assignment reading is shaped for the assignment level |
| Syntax.AssignTailShaped | parse.c:624-627 | the tail of an assignment keeps the assignment shape |
| Syntax.CommaShaped | parse.c:651-657 | every expression of the reference reading is shaped: each operator's operands sit at the levels its rule parses them at |
| Syntax.SubIsLeftAssociative | parse.c:490-501 | `a - b - c` reads as `(a - b) - c` |
| Syntax.MulBindsTighter | parse.c:475-501 | `a + b * c` reads as `a + (b * c)` |
| Syntax.GreaterSwaps | parse.c:516-531 | `a > b` reads as `b < a` |
| Syntax.AssignIsRightAssociative | parse.c:622-626 | `a = b = c` reads as `a = (b = c)` |
| Syntax.ConditionalIsRightAssociative | parse.c:591-603 | `a ? b : c ? d : e` reads as `a ? b : (c ? d : e)` |
| Eval.PostIncMeaning | parse.c:392-409 | `e++` evaluates e's location once, yields the old value and stores the old value plus one there |
| Eval.AssignEqMeaning | parse.c:605-620 | `e op= rhs` evaluates e's location once, then the right side with e's location held in the temporary, keeping the right side's side effects; it stores `old op rhs` there and yields it, for every operator but the logical ones |
| Eval.AndEqIsLogical | parse.c:642-643 | `e &= rhs` stores and yields the logical and, 0 or 1 |
| Eval.AndEqSixThree | parse.c:642-643 | with x holding 6, `x &= 3` leaves 1, where a bitwise and would leave 2 |
| Eval.RelStepMeaning | parse.c:516-531 | building `a > b` as `b < a` and `a >= b` as `b <= a` keeps the meaning of each relational operator |
| Eval.NegMeaning | parse.c:454-455 | `-x`, built as `0 - x`, negates |

## Left out

- Diagnostics: the message text, the token a message points at, source locations and process exit are not modelled. A fatal `bad_token` is a `Failure` that every rule propagates. The warning for a call to an undeclared function is dropped.
- Node provenance: nodes carry no token. A loop or switch carries an `id` in place of the pointer that `break`, `continue` and `case` keep to it.
- Types and the semantic pass: `ptr_to`, `ary_of`, the primitive constructors and `get_type` are in files that are not part of this model. Types are values. `get_type` is the parameter `typeOf`, and a tree's type is known only where the parser attaches it itself (numbers, variables, calls).
- Struct types: the parser mutates a struct found by its tag in place. The model keeps structs in an arena (a map from id to definition) that types refer to by id, and an id the arena lacks reads as an empty struct. Member order is declaration order; duplicate member names are kept, as the member list keeps them.
- Placeholder copy: `direct_decl` copies the type `read_array` returns into the placeholder. The model substitutes the type for the placeholder (`Types.Fill`), and copying a placeholder that is still empty gives `NoType`.
- Null types: a missing type (`decl_specifiers` finding no typedef) is `None`. Where the source would dereference it (a declarator's brackets or direct declaration, a global's brackets), the model fails with "unknown type name". A function with no return type returns `NoType`; a global typedef of no type leaves the name unbound in the file scope.
- `roundup` is defined outside `parse.c`, which is not part of this model. The model takes it as `((x + a - 1) / a) * a`, defined for a positive alignment only. A struct with a member of non-positive alignment, or with no members and no alignment so far, fails in `Parser.Parser.FixLayout`.
- `alloc_local_storage`'s assertion that a scope encloses the file scope: input can reach it (for example `x++` in a global's array length), so the model fails there instead of requiring it.
- Prototypes are read and dropped, as in the source. Their parameters still consume variable ids, and the locals of the previous function are not reset until the next definition.
- Counters: the ids of variables, nodes and structs and the string-label counter only need to be fresh. The contracts do not say how far they advance, except where a rule names the id it gives out.
- `Eval` covers integers and pointers to variables only: no structs, calls, arrays, overflow or wrap-around. Integers are unbounded, so shifts and the bitwise operators act on two's-complement integers of unbounded width, and a shift by a negative count has no value. `Eval.RelStepMeaning` is stated for operands without side effects, because the swap reverses their evaluation order.
- `Ast.JumpsTo` does not look inside statement expressions, so a `break` in a statement expression is not covered by the jump properties.
- Parser.Parser.Declaration: states that the new local is the last local, not that exactly one local was added. Initializers and array lengths inside the declarator may add temporaries first.
- Parser.Parser.FunctionCall: states the callee and the call's type, not the arguments (`Parser.Parser.Arguments` reads them). A callee bound with no type (a typeless global `x;` later called as `x()`) is dereferenced at parse.c:315 in the source. The model gives that call the type `Int`.
- Parser.Parser.BindParams: states that the locals are exactly the parameters, not the lookup of each parameter by name. A later parameter with the same name shadows an earlier one, as `add_var` overwrites.
- Parser.Parser.Stmt and the other rules: `Nested` states that the loop stacks come back unchanged, that the switch stack keeps its depth and its outer frames while its innermost frame only grows at its end, and that the functions are untouched. It does not state that the globals and locals only grow.
- Parser.Parser.SwitchStmt: states that its cases are case nodes, and `Nested` states that an enclosing switch's cases only grow. It does not state that the cases are exactly the `case` statements of its body, in order.
- Parser.Parser.Primary, Postfix, Unary, MulExpr through LogOrExpr, ConditionalExpr, CondRest, AssignExpr, Expr, Arguments, Argument, ArrayDim, NextDim, ReadArray, DirectDecl, DirectHead, DeclSuffix, DeclInit, Declarator, DeclarationType, MemberDecls, Member and TypedName: each states that the rule returns the `Syntax` reading's result wherever the reading yields one (completeness). Where the reading yields nothing, the contract says nothing, and the rule may still succeed. That covers calls, string literals, `sizeof`, postfix and compound assignment operators, parenthesised expressions, and structs and `typeof` inside a span, as well as malformed input.
- Parser.Parser.StructBody: states the members that a successful body yields. It does not state when the layout fails (a member of non-positive alignment).
- Parser.Parser.FixLayout: the source copies a struct's type by value into every member and variable declared with it (`*placeholder = *read_array(ty)`, parse.c:705), which freezes its size, alignment and members at that point. The model keeps a reference to the struct in the arena and reads it when asked. The two differ when a tag is redefined after a declaration that uses it. For example, in `struct A { struct B { int x; int y; } b1; struct B { char c; } b2; } a;` the source gives `A` the offsets 0 and 8 and size 12, and the model gives 0 and 4 and size 8. Likewise `sizeof(s)` for a `struct S s;` declared before `struct S` gets its body is 0 in the source and the final size in the model.
- Parser.Parser.constructor: the locals and the loop and switch stacks start empty. In the source they are NULL until the first function definition (parse.c:131-134, 1001-1008), so a statement expression that declares a local inside a global's array length, or a `({ break; })` there, dereferences NULL before any function is defined. In those cases the model appends to the empty locals or fails with a stray `break`.
- Parser.Parser.AllocLocalStorage: a definition hands its locals vector to the function by reference (`fn->lvars = lvars`, parse.c:974). A local allocated after that definition and before the next one is therefore also appended to the previous function's locals, as in `int f(){return 0;} int a[sizeof(({int x; x;}))];`. The model copies the locals into the function by value, so `f` keeps only its own.
- Parser.Parser.StatementExpr, Parser.Parser.StmtsToBrace: the statements are tied to a reading only where every statement of the block is an expression statement (`Syntax.ExprStmtsAt`). A block with other statements is characterised by the kinds of node it builds and by the jump properties. The failure for a block that does not end in an expression statement is not stated as a reading.
- Parser.Parser.CompoundStmt, Parser.Parser.BlockStmt: the statements are tied to a reading only where they are all expression statements.
- Parser.Parser.ControlStmt, Parser.Parser.KeywordStmt, Parser.Parser.Stmt: these dispatch on the first token. They state the kind of node each keyword builds (`Syntax.BuiltBy`), the jump properties and `Syntax.StmtRead`. The condition, header or value of each node is stated by the rule for that keyword (`IfStmt`, `ForStmt`, `CaseStmt` and so on), not by the dispatcher.
- Parser.Parser.IfStmt, IfBranches, ElseClause, ForStmt, ForLoop, ForBody, WhileStmt, DoStmt, DoBody, SwitchStmt, SwitchBody, CaseStmt, CaseBody: each body is tied to the tokens by `Syntax.StmtRead`, at the position where the rule reads it. That fixes the kind of node its first token builds, and the whole statement only where it is `;` or an expression statement (`Syntax.SimpleStmtAt`). A body that is itself a block or a control statement is not given a full reading here; its own rule states its contents when it is read.
- Parser.Parser.FunctionBody, FunctionDefinition, FunctionTail, FunctionDecl, TopDecl, Toplevel: a function body is tied to the tokens only where every statement in it is an expression statement (`Parser.BodyOf`, read by `Syntax.ExprStmtsAt` in a scope that binds the parameters). Any other body is characterised by the jump properties and by its parameters being its first locals. The parameter list is tied to the tokens by `Syntax.ParamListAt` wherever that reading exists.
- Parser.Parser.Toplevel: the head is tied only where `Syntax.DeclHeadAt` reads it. For a global with brackets, the globals it is appended to are those after the brackets are read (a bracket may allocate a temporary).
- Parser.Parser.GlobalDecl: the global's number and the globals before it are stated exactly only for a global without a type. With brackets they are those after the brackets are read.
- Parser.Parser.Parse, Parser.ParseProgram: success on a non-empty input is not characterised by a reading. They state that earlier functions are kept, that every function is well formed, and what the empty input gives.
