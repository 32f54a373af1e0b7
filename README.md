# evar calculator core — a Dafny model

evar is a calculator REPL. A line of input is lexed into tokens and parsed into a statement:
- a variable definition `let x = e`;
- a function definition `let f(a, b) = e`;
- a bare expression.

The statement is then evaluated against a context. The context holds:
- builtin and user functions;
- a chain of variable frames, where builtin constants cannot be redefined;
- the previous answer `_`.

Expressions have numbers, variables, function calls, unary minus, postfix factorial, and the infix operators `+ - * / % ^`. Writing two terms next to each other multiplies them.

The repository's files come from several revisions. Each is modelled on its own terms, over one shared token type (`Lexer.Token`) and one shared tree type (`Ast.Expr`, the union of all node kinds):

| file | module |
|---|---|
| src/lexer.rs | `Lexer` (lexer.dfy) |
| src/parser.rs (older grammar, whitespace tokens included) | `ExprParser` (expr_parser.dfy, with worked inputs in expr_parser_examples.dfy) |
| src/parser/mod.rs (statement grammar, whitespace already removed) | `StmtParser` (stmt_parser.dfy, stmt_parser_examples.dfy) |
| src/types.rs, src/models/operators.rs, Display of src/models/expression.rs and src/models/statement.rs | `Operators`, `Ast`, `Printer` |
| src/models/expression.rs, src/models/function.rs | `Evaluator` (generic over the number type `V`, whose operations come in an `Arith<V>` record) |
| src/models/statement.rs | `Statements` |
| src/models/context.rs | `Scopes` (frames as `seq<map>`, and a `Context` class with the program's mutating methods) |
| src/models/function.rs's `Function` | `Functions` |
| src/context.rs (the older single-frame context) | `FlatContext` |
| src/models/value.rs, Integer and Rational part | `Values`, with the checked factorial in `Checked` |
| src/models/errors.rs | `Errors` |
| — | `Wrappers` (Option and Result) |

The parsers are functions from a token position to the tree built and the position after it. Choices commit to their first success and repetitions are greedy, as the combinators do.

Evaluation is specified by the functions `Evaluator.Eval`, `Evaluator.EvalArgs` and `Evaluator.Call`. The program's imperative parts are methods that update a `Scopes.Context` object. Some are methods of the class; `Evaluator.Evaluate`, `Evaluator.CallFunction` and `Statements.Execute` are module-level methods that take the context as a parameter. Each is proved equal to the function that specifies it:
- the argument loop of `Expr::eval`;
- the parameter-binding loop of `Function::call`;
- the updates of `Stmt::eval`.

These methods also restore the context exactly after every call, on every path.

## Model

| member | source | states |
|---|---|---|
| Operators.PrefixSymbol | src/models/operators.rs:6-13 | Neg prints as one character, the lexer's text for the Minus token |
| Operators.PostfixSymbol | src/models/operators.rs:20-27 | Fac prints as one character, the lexer's text for the Exclamation token |
| Operators.InfixSymbol | src/models/operators.rs:39-50 | each infix operator prints as one character, the lexer's text for the operator's token (`+` Plus, `-` Minus, `*` Asterisk, `/` Slash, `%` Percent, `^` Caret) |
| Operators.SymbolsLexBack | src/models/operators.rs:6-50 | lexing the printed symbol of any operator gives back exactly one token, the operator's own (src/lexer.rs:18-31 holds the token rules) |
| Operators.InfixSymbolInjective | src/types.rs:80-91 | two infix operators print the same symbol exactly when they are the same operator |
| Operators.SharedSymbols | src/models/operators.rs:6-50 | the minus sign is shared by Neg and Sub only; `!` is no infix symbol |
| Lexer.Scan | src/lexer.rs:3-42 | each token covers at least one character and stays within the input |
| Lexer.IntegerPartEnd | src/lexer.rs:10 | from a digit, the integer part ends at the returned position: a lone `0`, or a non-zero digit and the digits after it |
| Lexer.FractionEnd | src/lexer.rs:10 | the optional fraction ends at the returned position: nothing, or a point followed by at least one digit |
| Lexer.ExponentEnd | src/lexer.rs:10 | the optional exponent ends at the returned position: nothing, or `e`/`E`, an optional sign and at least one digit |
| Lexer.NumberEnd | src/lexer.rs:10 | the text from a digit to the returned position is a whole match of the number rule, split where its integer part and fraction end |
| Lexer.NumberReads | src/lexer.rs:10 | the value a Number token gets (`parse::<f64>` of its lexeme) is the exact value of the lexeme read as integer part, fraction and exponent |
| Lexer.NumberSplitUnique | src/lexer.rs:10 | the number rule splits a lexeme into integer part, fraction and exponent in only one way |
| Lexer.NumberReadingUnique | src/lexer.rs:10 | a lexeme reads as at most one value |
| Lexer.NumberTokensCarryTheirValue | src/lexer.rs:10 | every Number token of `lex` carries the value the text under its span reads as, and no other value reads from that text |
| Lexer.ExponentNumberValue | src/lexer.rs:10 | `1.5e2` lexes as a single Number token worth 150 |
| Lexer.NegativeExponentNumberValue | src/lexer.rs:10 | `2.5e-1` lexes as a single Number token worth 0.25: a negative exponent divides |
| Lexer.LexCoversInput | src/lexer.rs:67-72 | the spans of `lex` tile the input left to right without gaps or overlaps. Each token is what its rule makes of the text under its span; a Number token's text matches the number rule and reads as the token's value. Unrecognised text becomes Error and scanning goes on |
| Lexer.NoAdjacentSpaces | src/lexer.rs:7-8 | a run of white space is one Space token, so two Space tokens never follow each other |
| Lexer.IdentIsNeverLet | src/lexer.rs:13-14 | an identifier token is never the word `let` |
| Lexer.TokenText | src/lexer.rs:44-65 | the printed form of a token; `Lexer.TokenTextLexesBack` states that it lexes back |
| Lexer.TokenTextLexesBack | src/lexer.rs:44-65 | printing a symbol token, `let` or an identifier and lexing the text again gives back exactly that token over the whole text |
| Lexer.SymbolLexesBack | src/lexer.rs:44-65 | the one-character text of a symbol token lexes back to that token alone |
| Lexer.LexFrom | src/lexer.rs:67-72 | scans from a position to the end, mapping each failed match to Error; `Lexer.LexCoversInput` states what it yields |
| Lexer.Lex | src/lexer.rs:67-72 | `lex`: LexFrom from position 0; `Lexer.LexCoversInput` and `Lexer.NoAdjacentSpaces` state what it yields |
| Lexer.ZeroDotIsTwoTokens | src/lexer.rs:10 | `0.` lexes as the number 0 followed by an Error token |
| Lexer.DanglingExponentIsIdent | src/lexer.rs:10 | `1e` lexes as the number 1 followed by the identifier `e` |
| Lexer.ZeroDotIsNotNumber | src/lexer.rs:10 | `0.` does not match the number pattern |
| Lexer.DoubleDotIsNotNumber | src/lexer.rs:10 | `1..2` does not match the number pattern |
| Lexer.BareExponentIsNotNumber | src/lexer.rs:10 | `1e` does not match the number pattern |
| Ast.LeftNestLast | src/parser.rs:97-113 | in a left fold (`foldl`) of operator-operand pairs the last pair is the outermost node |
| Ast.RightNest | src/parser.rs:74-83 | a right fold (`foldr`) of operands: one operand is itself, otherwise the first operand is the outermost left operand |
| ExprParser.SkipSpace | src/parser.rs:13 | the optional whitespace consumes one token exactly when the next token is Space |
| ExprParser.NumberLiteral | src/parser.rs:15-25 | a literal is read exactly at a Number token or at Minus followed by Number; after Minus it is the negated number over two tokens, otherwise the number over one |
| ExprParser.Atomic | src/parser.rs:40-46 | a parsed atom begins with a token that can start an expression and ends with one that can end it |
| ExprParser.FunctionCall | src/parser.rs:27-38 | a parsed call is an FnCall node spanning a name through `)` |
| ExprParser.Arguments | src/parser.rs:32 | the argument list consumes nothing exactly when it has no arguments, and otherwise ends after an expression |
| ExprParser.ArgumentsTail | src/parser.rs:32 | further arguments only extend the list and keep it ending after an expression |
| ExprParser.Postfixed | src/parser.rs:48-56 | a postfixed term spans expression-delimiting tokens |
| ExprParser.Prefixed | src/parser.rs:58-66 | a prefixed term spans expression-delimiting tokens |
| ExprParser.Term | src/parser.rs:68-72 | a padded term spans expression-delimiting tokens (Space counts) |
| ExprParser.Power | src/parser.rs:74-83 | a power spans expression-delimiting tokens |
| ExprParser.Powers | src/parser.rs:85-95 | a juxtaposition product spans expression-delimiting tokens |
| ExprParser.PowersTail | src/parser.rs:85-95 | more juxtaposed powers keep the parse ending on an expression token |
| ExprParser.Product | src/parser.rs:97-113 | a product spans expression-delimiting tokens |
| ExprParser.ProductTail | src/parser.rs:97-113 | more factors keep the parse ending on an expression token |
| ExprParser.Sum | src/parser.rs:115-132 | a sum spans expression-delimiting tokens |
| ExprParser.SumTail | src/parser.rs:115-132 | more terms keep the parse ending on an expression token |
| ExprParser.Parse | src/parser.rs:8-134 | an accepted token sequence is non-empty, starts with a token that can begin an expression and ends with one that can end it |
| ExprParser.OperatorTokensParse | src/parser.rs:74-132 | the token of each printed infix operator is read back as that operator, at the grammar level where it belongs (`+ -` sums, `* / %` products, `^` powers) |
| ExprParser.NegativeLiteralFolds | src/parser.rs:15-25 | for any tokens, Minus directly before a Number is folded into a negative literal, never read as Neg |
| ExprParser.SumGroupsLeft | src/parser.rs:115-132 | for any tokens `a op b op' c` of products joined by `+`/`-`, the sum is `(a op b) op' c` |
| ExprParser.ProductGroupsLeft | src/parser.rs:97-113 | for any tokens `a op b op' c` joined by `*`, `/`, `%`, the product is `(a op b) op' c` |
| ExprParser.PowerGroupsRight | src/parser.rs:74-83 | for any tokens `a ^ b ^ c`, the power is `a ^ (b ^ c)` |
| ExprParser.ProductBeforeSum | src/parser.rs:97-132 | for any tokens `a * b + c` (any product and sum operators), the product is the sum's left operand |
| ExprParser.ProductAfterSum | src/parser.rs:97-132 | for any tokens `a + b * c`, the product is the sum's right operand |
| ExprParser.JuxtapositionMultiplies | src/parser.rs:85-95 | two powers written next to each other, the second not starting with Minus, are their product |
| ExprParser.MinusStopsJuxtaposition | src/parser.rs:85-95 | a Minus after a power never starts an implicit product |
| ExprParser.GroupParses | src/parser.rs:40-46 | a parenthesised group parses exactly when the sum inside is closed by `)`, and is that sum's tree with no node of its own |
| ExprParser.CallParses | src/parser.rs:27-38 | a name followed by `(` is FnCall(name, args) with the arguments the argument list reads, when `)` closes them |
| ExprParser.PostfixedFactorial | src/parser.rs:48-56 | an atom becomes Postfix(Fac, atom) exactly when `!` directly follows it, otherwise it is the atom itself; at most one `!` is taken |
| ExprParser.PrefixedNegation | src/parser.rs:58-66 | without a leading minus sign a prefixed term is the postfixed term; a minus sign not followed by a Number gives Prefix(Neg, …) of the postfixed term after it, and fails exactly when that does |
| ExprParser.ArgumentsTailCollects | src/parser.rs:32 | any run of `, expression` is appended to the arguments read so far, in order, up to the first place where no further one starts |
| ExprParser.ArgumentsTailIsChain | src/parser.rs:32 | conversely, whatever the argument list returns is such a run, and no further `, expression` follows it |
| ExprParser.PowersTailFolds | src/parser.rs:85-95 | any run of juxtaposed powers, none starting with `-`, is multiplied on, grouped to the left (`Ast.LeftNest` with Mul) |
| ExprParser.PowersTailIsFold | src/parser.rs:85-95 | conversely, whatever the juxtaposition loop returns is such a product over such a run, and no further juxtaposed power follows |
| ExprParser.ProductTailFolds | src/parser.rs:97-113 | any run of `*`, `/` or `%` operands, of any length, is folded on to the left with those operators in order |
| ExprParser.ProductTailIsFold | src/parser.rs:97-113 | conversely, whatever the product loop returns is such a left fold, and no further product operand follows |
| ExprParser.SumTailFolds | src/parser.rs:115-130 | any run of `+` or `-` operands, of any length, is folded on to the left with those operators in order |
| ExprParser.SumTailIsFold | src/parser.rs:115-130 | conversely, whatever the sum loop returns is such a left fold, and no further sum operand follows |
| ExprParser.PowerNestsRight | src/parser.rs:74-83 | any run of terms joined by `^`, of any length, parses as their right fold (`Ast.RightNest`) |
| ExprParser.PowerIsRightNest | src/parser.rs:74-83 | conversely, every power parsed is the right fold of such a run of terms |
| ExprParserExamples.SumOfProductLeft | src/parser.rs:97-113 | in `2 + 3 * 4` the first product is just 2 |
| ExprParserExamples.SumOfProductRight | src/parser.rs:97-113 | in `2 + 3 * 4` the product after `+` is 3 * 4 |
| ExprParserExamples.ProductBindsTighter | src/parser.rs:261-264 | `2 + 3 * 4` is Add(2, Mul(3, 4)) |
| ExprParserExamples.SignedLiteralFactorial | src/parser.rs:326 | `-3!` is Fac(Number(-3)): the sign folds into the literal |
| ExprParserExamples.DoubleFactorialFails | src/parser.rs:48-56 | `5!!` is rejected: at most one `!` |
| ExprParserExamples.DoubleMinus | src/parser.rs:355 | `--1` is Neg(Number(-1)) |
| ExprParserExamples.MinusIsSubtraction | src/parser.rs:85-95 | `2 -3` is Sub(2, 3): a term starting with `-` is not multiplied in |
| ExprParserExamples.ImplicitProductGroup | src/parser.rs:40-46 | in `2 (3)` the group after the space parses as the power 3 |
| ExprParserExamples.ImplicitProductPowers | src/parser.rs:85-95 | `2 (3)` parses at the powers level as Mul(2, 3) |
| ExprParserExamples.JuxtapositionMultiplies | src/parser.rs:85-95 | `2 (3)` is Mul(2, 3) |
| ExprParserExamples.PowerGroupsRight | src/parser.rs:74-83 | `2^3^4` is Pow(2, Pow(3, 4)) |
| ExprParserExamples.EmptyCall | src/parser.rs:27-38 | `sin()` is a call with no arguments |
| ExprParserExamples.TrailingCommaMissing | src/parser.rs:32 | in `log(1, )` nothing parses after the comma |
| ExprParserExamples.TrailingCommaFirst | src/parser.rs:32 | in `log(1, )` the first argument is 1 |
| ExprParserExamples.TrailingCommaArguments | src/parser.rs:32 | the argument list of `log(1, )` stops before the comma |
| ExprParserExamples.TrailingCommaFails | src/parser.rs:427 | `log(1, )` is rejected |
| ExprParserExamples.DoubleStarFails | src/parser.rs:359 | `2 ** 3` is rejected |
| ExprParserExamples.BareIdentifierFails | src/parser.rs:208 | a bare identifier is rejected: names only appear as called functions |
| ExprParserExamples.SpaceBeforeFactorialFails | src/parser.rs:48-56 | `5 !` is rejected: `!` must follow its atom directly |
| ExprParserExamples.NegativeBase | src/parser.rs:335 | `-2^3` is Pow(Number(-2), 3) |
| ExprParserExamples.NegativeExponent | src/parser.rs:336 | `2 ^ -3` is Pow(2, Number(-3)) |
| StmtParser.NumberLiteral | src/parser/mod.rs:67-77 | a literal is read exactly at an Int or Float token, or at Minus followed by one; after Minus it is the negated Int or Float over two tokens, otherwise the literal over one |
| StmtParser.Atomic | src/parser/mod.rs:95-103 | a parsed atom spans expression-delimiting tokens |
| StmtParser.FunctionCall | src/parser/mod.rs:80-88 | a parsed call is an FnCall node spanning a name through `)` |
| StmtParser.Arguments | src/parser/mod.rs:85 | the argument list consumes nothing exactly when it has no arguments, and otherwise ends after an expression |
| StmtParser.ArgumentsTail | src/parser/mod.rs:85 | further arguments only extend the list and keep it ending after an expression |
| StmtParser.Postfixed | src/parser/mod.rs:105-113 | a postfixed term spans expression-delimiting tokens |
| StmtParser.Prefixed | src/parser/mod.rs:115-125 | a prefixed term spans expression-delimiting tokens |
| StmtParser.Power | src/parser/mod.rs:127-136 | a power spans expression-delimiting tokens |
| StmtParser.Powers | src/parser/mod.rs:138-154 | a juxtaposition product spans expression-delimiting tokens |
| StmtParser.PowersTail | src/parser/mod.rs:138-154 | more juxtaposed powers keep the parse ending on an expression token |
| StmtParser.Product | src/parser/mod.rs:156-172 | a product spans expression-delimiting tokens |
| StmtParser.ProductTail | src/parser/mod.rs:156-172 | more factors keep the parse ending on an expression token |
| StmtParser.Sum | src/parser/mod.rs:174-191 | a sum spans expression-delimiting tokens |
| StmtParser.SumTail | src/parser/mod.rs:174-191 | more terms keep the parse ending on an expression token |
| StmtParser.ExpressionAt | src/parser/mod.rs:63-193 | an expression that uses up the rest of the tokens starts and ends on expression-delimiting tokens |
| StmtParser.Expression | src/parser/mod.rs:63-193 | an accepted expression is non-empty and starts and ends on expression-delimiting tokens |
| StmtParser.OperatorTokensParse | src/parser/mod.rs:127-191 | the token of each printed infix operator is read back as that operator, at the grammar level where it belongs |
| StmtParser.NegativeLiteralFolds | src/parser/mod.rs:67-77 | for any tokens, Minus directly before an Int or Float is folded into the literal, never read as Neg |
| StmtParser.SumGroupsLeft | src/parser/mod.rs:174-191 | for any tokens `a op b op' c` of products joined by `+`/`-`, the sum is `(a op b) op' c` |
| StmtParser.ProductGroupsLeft | src/parser/mod.rs:156-172 | for any tokens `a op b op' c` joined by `*`, `/`, `%`, the product is `(a op b) op' c` |
| StmtParser.PowerGroupsRight | src/parser/mod.rs:127-136 | for any tokens `a ^ b ^ c`, the power is `a ^ (b ^ c)` |
| StmtParser.ProductBeforeSum | src/parser/mod.rs:156-191 | for any tokens `a * b + c`, the product is the sum's left operand |
| StmtParser.ProductAfterSum | src/parser/mod.rs:156-191 | for any tokens `a + b * c`, the product is the sum's right operand |
| StmtParser.JuxtapositionMultiplies | src/parser/mod.rs:138-154 | two powers written next to each other are their product when the second starts with neither Minus nor a literal |
| StmtParser.LiteralStopsJuxtaposition | src/parser/mod.rs:138-154 | a Minus, Int or Float after a power never starts an implicit product |
| StmtParser.GroupParses | src/parser/mod.rs:95-103 | a parenthesised group parses exactly when the sum inside is closed by `)`, and is that sum's tree with no node of its own |
| StmtParser.CallParses | src/parser/mod.rs:80-93 | a name followed by `(` is FnCall(name, args) with the arguments the argument list reads, when `)` closes them, otherwise the name is a Variable |
| StmtParser.PostfixedFactorial | src/parser/mod.rs:105-113 | an atom becomes Postfix(Fac, atom) exactly when `!` directly follows it, otherwise it is the atom itself; at most one `!` is taken |
| StmtParser.PrefixedNegation | src/parser/mod.rs:115-123 | without a leading minus sign a prefixed term is the postfixed term; a minus sign not followed by an Int or Float gives Prefix(Neg, …) of the postfixed term after it, and fails exactly when that does |
| StmtParser.ArgumentsTailCollects | src/parser/mod.rs:85 | any run of `, expression` is appended to the arguments read so far, in order, up to the first place where no further one starts |
| StmtParser.ArgumentsTailIsChain | src/parser/mod.rs:85 | conversely, whatever the argument list returns is such a run, and no further `, expression` follows it |
| StmtParser.PowersTailFolds | src/parser/mod.rs:138-154 | any run of juxtaposed powers, none starting with `-`, an Int or a Float, is multiplied on, grouped to the left (`Ast.LeftNest` with Mul) |
| StmtParser.PowersTailIsFold | src/parser/mod.rs:138-154 | conversely, whatever the juxtaposition loop returns is such a product over such a run, and no further juxtaposed power follows |
| StmtParser.ProductTailFolds | src/parser/mod.rs:156-172 | any run of `*`, `/` or `%` operands, of any length, is folded on to the left with those operators in order |
| StmtParser.ProductTailIsFold | src/parser/mod.rs:156-172 | conversely, whatever the product loop returns is such a left fold, and no further product operand follows |
| StmtParser.SumTailFolds | src/parser/mod.rs:174-191 | any run of `+` or `-` operands, of any length, is folded on to the left with those operators in order |
| StmtParser.SumTailIsFold | src/parser/mod.rs:174-191 | conversely, whatever the sum loop returns is such a left fold, and no further sum operand follows |
| StmtParser.PowerNestsRight | src/parser/mod.rs:127-136 | any run of prefixed terms joined by `^`, of any length, parses as their right fold (`Ast.RightNest`) |
| StmtParser.PowerIsRightNest | src/parser/mod.rs:127-136 | conversely, every power parsed is the right fold of such a run of prefixed terms |
| StmtParser.Names | src/parser/mod.rs:31 | the parameter list read is exactly the comma-separated identifier tokens it consumed |
| StmtParser.NamesTail | src/parser/mod.rs:31 | each further parameter is a comma and an identifier, as consumed |
| StmtParser.FunctionDefinition | src/parser/mod.rs:18-42 | a parsed function definition is a DefFun statement |
| StmtParser.VariableDefinition | src/parser/mod.rs:44-61 | a parsed variable definition is a DefVar statement |
| StmtParser.Statement | src/parser/mod.rs:9-16 | the ordered choice of the three statement forms stays within the input |
| StmtParser.Parse | src/parser/mod.rs:9-16 | an accepted statement has at least one token |
| StmtParser.NamesTailComplete | src/parser/mod.rs:31 | any run of `, name` tokens followed by `)` is read back as exactly those names |
| StmtParser.NamesComplete | src/parser/mod.rs:31 | any comma-separated identifier list followed by `)` is read back as exactly those names, in order |
| StmtParser.VariableDefinitionShape | src/parser/mod.rs:54-58 | a statement parses as `DefVar(x, e)` exactly when it is `let`, identifier x, `=`, and tokens that parse as e |
| StmtParser.FunctionDefinitionSound | src/parser/mod.rs:28-39 | a statement parsed as DefFun(f, params, body) has the tokens `let f (` params `) =` body |
| StmtParser.FunctionDefinitionComplete | src/parser/mod.rs:28-39 | tokens `let f (` comma-separated params `) =` body always parse as DefFun(f, params, body) |
| StmtParser.FunctionDefinitionShape | src/parser/mod.rs:13-39 | both directions together: parsing as DefFun(f, params, body) is exactly having that token shape |
| StmtParser.ExpressionStatement | src/parser/mod.rs:15 | input not starting with `let` parses exactly when it is an expression, and then gives that expression statement |
| StmtParser.DefinitionsBeginWithLet | src/parser/mod.rs:13-16 | a parsed statement is a definition exactly when its first token is `let` |
| StmtParserExamples.DefineVariable | src/parser/test.rs:555-560 | `let x = 42` is DefVar("x", Int(42)) |
| StmtParserExamples.MalformedVariableDefinitions | src/parser/test.rs:579-582 | `let = 42`, `let x 42`, `let x =` and `let 42 = x` are rejected |
| StmtParserExamples.AddDefinitionBody | src/parser/test.rs:588 | the body of `let add(a, b) = a + b` parses as Add(a, b) |
| StmtParserExamples.AddDefinitionParameters | src/parser/test.rs:588 | the parameter tokens of `let add(a, b) = a + b` are the list [a, b] |
| StmtParserExamples.DefineFunction | src/parser/test.rs:587-594 | `let add(a, b) = a + b` is DefFun("add", ["a", "b"], Add(a, b)) |
| StmtParserExamples.MissingParameterCommaFails | src/parser/test.rs:617 | `let add(a b) = a + b` is rejected |
| StmtParserExamples.AdjacentLiteralsFail | src/parser/mod.rs:138-154 | `2 3` is rejected: a juxtaposed term may not start with a literal |
| StmtParserExamples.LiteralCallCall | src/parser/mod.rs:80-88 | in `2 sin(3)` the second power is the call sin(3) |
| StmtParserExamples.LiteralTimesCall | src/parser/test.rs:322-331 | `2 sin(3)` is Mul(2, sin(3)) |
| StmtParserExamples.DoubleMinus | src/parser/test.rs:241 | `--1` is Neg(Int(-1)) |
| StmtParserExamples.PlainAtoms | src/parser/mod.rs:90-99 | `_` is the previous answer and a bare name is a variable |
| StmtParserExamples.SubtractionGroupsLeft | src/parser/mod.rs:174-189 | `1-2-3` is Sub(Sub(1, 2), 3) |
| StmtParserExamples.PowerGroupsRight | src/parser/mod.rs:127-136 | `2^3^4` is Pow(2, Pow(3, 4)) |
| StmtParserExamples.ProductBindsTighter | src/parser/test.rs:150-153 | `2*3+4` is Add(Mul(2, 3), 4) |
| StmtParserExamples.TrailingOperatorFails | src/parser/test.rs:251 | `2 + 3 *` is rejected |
| Printer.ExprText | src/models/expression.rs:30-47 | `Display for Expr`: operator nodes in parentheses, calls as `f(args)`; `Printer.PrintedParensBalance` and `Printer.OperatorNodeWrapped` state its properties |
| Printer.ArgsText | src/models/expression.rs:35-41 | call arguments joined by ", ", empty for none |
| Printer.StmtText | src/models/statement.rs:22-30 | `Display for Stmt`; `Printer.PrintedStatementBalanced` states its property |
| Printer.PrintedParensBalance | src/types.rs:23-40 | the printed form of any expression has balanced parentheses when names and numbers contain none |
| Printer.OperatorNodeWrapped | src/models/expression.rs:43-45 | every operator node prints as one outer pair of parentheses around balanced text |
| Printer.PrintedStatementBalanced | src/models/statement.rs:22-30 | a printed statement (`let x := e`, `let f([..]) := e`, or the expression) has balanced parentheses when its names contain none |
| Checked.Fact | src/models/expression.rs:122 | n! is at least 1 |
| Checked.FactMonotone | src/models/expression.rs:122 | n! grows with n |
| Checked.CheckedFactorial | src/models/value.rs:174 | a successful checked fold is at least 1 and, for n > 0, within the bound |
| Checked.CheckedFactorialFits | src/models/value.rs:174 | the checked fold succeeds exactly when n! fits under the bound, and then yields n! |
| Checked.CheckedFactorialThreshold | src/models/value.rs:174 | when k! fits and (k+1)! does not, the checked fold succeeds exactly for n at most k |
| Checked.I32Threshold | src/models/value.rs:174 | 12! fits in an i32 and 13! does not |
| Checked.U128Threshold | src/models/expression.rs:122 | 34! fits in a u128 and 35! does not |
| Values.TypeName | src/models/value.rs:24-32 | the type name is "Null", "Integer", "Rational" or "Float" exactly for that kind of value |
| Values.TypeNameInjective | src/models/value.rs:24-32 | two values have the same type name exactly when they are the same kind |
| Values.Add | src/models/value.rs:59-80 | Integer + Integer is the Integer holding the exact sum, with no overflow |
| Values.Sub | src/models/value.rs:59-80 | Integer − Integer is the Integer holding the exact difference |
| Values.Mul | src/models/value.rs:59-80 | Integer × Integer is the Integer holding the exact product |
| Values.SubInvertsAdd | src/models/value.rs:59-80 | subtracting y undoes adding y, and x − y is x + (−y) |
| Values.MulDistributes | src/models/value.rs:59-80 | Integer multiplication distributes over addition and has 1 as unit |
| Values.Neg | src/models/value.rs:188-198 | an Integer negates exactly to −x; a Float keeps its magnitude and flips its sign |
| Values.NegInvolution | src/models/value.rs:193-194 | negating twice gives back the original value |
| Values.Abs | src/models/value.rs:120-126 | the magnitude is n or −n |
| Values.Reduce | src/models/value.rs:91 | the rational built from n/d has a positive denominator and equals n/d |
| Values.ReduceBezout | src/models/value.rs:91 | the reduced numerator and denominator satisfy a Bézout identity, so they are coprime |
| Values.ReducedUnique | src/models/value.rs:91 | two coprime fractions with positive denominators that are equal as numbers are identical |
| Values.Div | src/models/value.rs:87-92 | Integer / Integer fails with DivisionByZero exactly when the divisor is 0; otherwise it is a Rational in lowest terms, with positive denominator, equal to x/y |
| Values.DivCanonical | src/models/value.rs:87-92 | two quotients are the same value exactly when the fractions are equal (x·y′ = x′·y) |
| Values.RemEuclid | src/models/value.rs:120-126 | Integer rem_euclid fails with DivisionByZero exactly on a zero divisor; otherwise it is an Integer r with 0 ≤ r < abs(y) and y dividing x − r |
| Values.RemEuclidUnique | src/models/value.rs:120-126 | the remainder is the only r with 0 ≤ r < abs(y) and x = y·q + r |
| Values.IntPow | src/models/value.rs:156 | the integer power by repeated multiplication; `Values.Pow` and `Values.PowAdds` state its laws |
| Values.Pow | src/models/value.rs:152-157 | an Integer to a non-negative Integer power stays an Integer; x⁰ = 1 and x¹ = x (with PowAdds this fixes every power) |
| Values.PowAdds | src/models/value.rs:156 | x⁰ = 1 and x^(a+b) = x^a · x^b |
| Values.Factorial | src/models/value.rs:166-185 | a non-Integer gives TypeError("Integer", its type name); a negative Integer gives MathDomain; a result is an Integer that fits an i32 |
| Values.FactorialI32 | src/models/value.rs:174-178 | n! for n ≤ 12, Overflow for n ≥ 13 |
| Functions.NewInternal | src/context.rs:124-130 | a user function's arity is its number of parameter names, kept in order with its body |
| Scopes.Get | src/models/variable.rs:7-15 | the stored value, whichever kind the variable is |
| Scopes.Assign | src/models/context.rs:91-107 | binding in one frame fails exactly for a name held there as External; otherwise the name is bound as Internal and every other entry is unchanged |
| Scopes.Lookup | src/models/context.rs:81-89 | `get_variable` over the frame chain, innermost first; `Scopes.LookupFirst` and `Scopes.LookupAbsent` state its result |
| Scopes.LookupFirst | src/models/context.rs:81-89 | lookup returns the binding of the innermost frame that has the name |
| Scopes.LookupAbsent | src/models/context.rs:81-89 | lookup fails exactly when no frame has the name |
| Scopes.ExtendHidesNothing | src/models/context.rs:23-29 | pushing an empty frame changes no lookup |
| Scopes.AssignThenLookup | src/models/context.rs:91-107 | after binding, the name looks up to Internal(value) and every other name looks up as before |
| Scopes.Context.constructor | src/models/context.rs:12-21 | a new context has no previous answer, the given functions and one frame holding the given variables |
| Scopes.Context.Extend | src/models/context.rs:23-29 | pushes an empty frame over the old chain; nothing else changes |
| Scopes.Context.Detach | src/models/context.rs:31-34 | requires a frame and pops it, giving back the chain under it |
| Scopes.Context.GetVariable | src/models/context.rs:36-41 | finds a variable exactly when some frame holds the name |
| Scopes.Context.SetVariable | src/models/context.rs:43-48 | refuses a name held as External in the innermost frame and changes nothing; otherwise it binds Internal(value) in the innermost frame only and returns Some(value) |
| Scopes.Context.GetFunction | src/models/context.rs:50-52 | finds a function exactly when the table has the name |
| Scopes.Context.SetFunction | src/models/context.rs:54-57 | inserts or replaces that one entry with the user function; variables and previous answer unchanged |
| Scopes.Context.GetPrevAnswer | src/models/context.rs:59-61 | the stored previous answer; `Scopes.Context.SetPrevAnswer` states what a read after a write returns |
| Scopes.Context.SetPrevAnswer | src/models/context.rs:59-65 | after setting, the previous answer is Some(value); nothing else changes |
| Evaluator.Apply | src/models/expression.rs:58-80 | the number operation an infix operator names (`%` is rem_euclid, `^` is pow) |
| Evaluator.Eval | src/models/expression.rs:51-114 | the evaluation function, including the depth bound; the Evaluator lemmas below and `Evaluator.Evaluate` state its behaviour |
| Evaluator.EvalArgs | src/models/expression.rs:94-97 | the arguments left to right, stopping at the first error; `Evaluator.EvalArgsAllOk` and `Evaluator.EvalArgsFirstError` state its result |
| Evaluator.Call | src/models/function.rs:18-56 | a call of a native or user function; `Evaluator.ArityMismatch`, `Evaluator.ExternalCall` and `Evaluator.InternalCall` state its result |
| Evaluator.Factorial | src/models/expression.rs:117-128 | the factorial after rounding; `Evaluator.FactorialU128` states its result |
| Evaluator.CastU128 | src/models/expression.rs:122 | the saturating cast to u128 stays within the u128 range |
| Evaluator.FactorialU128 | src/models/expression.rs:117-128 | after rounding: n! for 0 ≤ n ≤ 34; Overflow for n ≥ 35 or +∞; MathDomain for negatives or −∞; NaN counts as 0 and gives 1 |
| Evaluator.Evaluate | src/models/expression.rs:51-114 | evaluating on the context gives the specified result and leaves the context as it was |
| Evaluator.CallFunction | src/models/function.rs:18-56 | a call on the context: arity check, native body, or a pushed frame with the parameters bound by a loop; gives the specified result and restores the context on every path |
| Evaluator.EvalArgsPrefixError | src/models/expression.rs:94-97 | once an argument fails, the whole argument list fails with that error |
| Evaluator.EvalArgsAllOk | src/models/expression.rs:94-97 | the arguments evaluate exactly when each one does, and then the values are theirs, in order |
| Evaluator.EvalArgsFirstError | src/models/expression.rs:94-97 | the error reported is the first failing argument's |
| Evaluator.InfixOrder | src/models/expression.rs:58-80 | the left operand's error wins, then the right's; otherwise the operator is applied to both values |
| Evaluator.CallAfterArguments | src/models/expression.rs:93-104 | FunctionNotFound(name) only after all arguments evaluate; a failing argument's error comes first |
| Evaluator.VariableResolution | src/models/expression.rs:105-112 | a variable fails with VariableNotFound(name) exactly when no frame has it; otherwise it is the innermost binding's value |
| Evaluator.PreviousAnswer | src/parser/mod.rs:99 | `_` is the previous answer, and NoHistory exactly when there is none |
| Evaluator.EvalHonestArity | src/models/function.rs:29-32 | any arity error raised during evaluation reports two different counts |
| Evaluator.EvalArgsHonestArity | src/models/function.rs:29-32 | likewise for an argument list |
| Evaluator.CallHonestArity | src/models/function.rs:29-32 | likewise for a call |
| Evaluator.ArityMismatch | src/models/function.rs:26-52 | a call fails with InvalidNumberOfArguments(arity, count) exactly when the count differs from the arity |
| Evaluator.ExternalCall | src/models/function.rs:26-27 | a native function with the right count returns its body applied to the arguments |
| Evaluator.InternalCall | src/models/function.rs:40-46 | a user function's body runs with a fresh innermost frame of parameters over the caller's chain; names that are not parameters resolve as in the caller |
| Evaluator.BindFrame | src/models/function.rs:43-45 | the call frame `Bind` builds binds a name exactly when it is one of the parameters that got an argument (`zip` stops at the shorter list), to the argument of that parameter's last occurrence, and every binding is Internal |
| Evaluator.BindDomain | src/models/function.rs:43-45 | a name is bound in the call frame exactly when it is one of the parameters that got an argument |
| Evaluator.BindLastWins | src/models/function.rs:43-45 | a repeated parameter name takes the argument of its last occurrence |
| Evaluator.BindUpTo | src/models/function.rs:43-45 | every binding in a call frame is Internal |
| Statements.Run | src/models/statement.rs:32-54 | the result and new state of a statement; the Statements lemmas below state its behaviour |
| Statements.Execute | src/models/statement.rs:32-54 | running a statement on the context gives the specified result and leaves the specified state |
| Statements.DefVarErrorBindsNothing | src/models/statement.rs:40 | a failing definition expression returns its error and binds nothing |
| Statements.DefVarProtected | src/models/statement.rs:41-44 | once the expression succeeds, the definition fails with InvalidVariableDefinition(name) exactly for a builtin of the innermost frame, and then changes nothing |
| Statements.DefVarThenRead | src/models/statement.rs:41-45 | a successful definition returns the value, which the name then evaluates to; other names, outer frames and functions are unchanged |
| Statements.DefFunInstalls | src/models/statement.rs:47-50 | a function definition always returns the non-number marker and installs exactly that user function; variables are untouched |
| Statements.DefinedFunctionCall | src/models/statement.rs:47-50 | calling the function right after defining it runs its body with the parameters bound to the arguments |
| Statements.ExprStmtPure | src/models/statement.rs:51 | an expression statement returns its expression's result and changes nothing |
| FlatContext.TrigTable | src/context.rs:56-79 | exactly the nine trigonometric names, each a native unary function |
| FlatContext.InsertAll | src/context.rs:81-104 | the insertion loop as a function; `FlatContext.InsertAllEntry` states its result |
| FlatContext.SeededFunctions | src/context.rs:56-104 | the function table of a new context; `FlatContext.SeededArities` states its contents |
| FlatContext.SeededVariables | src/context.rs:106-111 | exactly e, pi and tau, each External |
| FlatContext.Context.constructor | src/context.rs:52-117 | the function table is the trigonometric set for the angle unit plus the seventeen others inserted in order (built by a loop), and the variables are e, pi and tau as External |
| FlatContext.Context.GetFunction | src/context.rs:119-121 | finds exactly the functions in the table |
| FlatContext.Context.SetFunction | src/context.rs:123-133 | always returns Some(()) and stores a user function with arity equal to its number of parameters, replacing any entry, builtins included |
| FlatContext.Context.GetVariable | src/context.rs:135-137 | finds exactly the variables in the map |
| FlatContext.Context.SetVariable | src/context.rs:139-155 | an External name gives None and the map is unchanged; otherwise the name is stored as Internal(n) and Some(n) is returned |
| FlatContext.CallBuiltin | src/context.rs:186-197 | a builtin fails with InvalidNumberOfArguments(arity, count) exactly on a count mismatch, and otherwise returns its body applied to the arguments |
| FlatContext.CallBuiltinAgrees | src/context.rs:186-197 | builtin calls behave the same in the flat and the scoped evaluator |
| FlatContext.InsertAllEntry | src/context.rs:81-104 | after the insertion loop, a name is present exactly when it was seeded or inserted, and an inserted name holds an inserted entry |
| FlatContext.SeededArities | src/context.rs:56-104 | a new context knows exactly the 26 builtins, all native, with arity 2 for log and nroot and 1 for the rest |
| FlatContext.ConstantsProtected | src/context.rs:106-110 | in a new context exactly e, pi and tau cannot be redefined |

## Left out

- Floating point is not computed.
  - Number literals carry their exact decimal value as a `real`, not the f64 that `parse::<f64>` would round to.
  - The evaluator's arithmetic, `round`, the native builtin bodies and the values of e, pi and tau are parameters: `Evaluator.Arith` and `FlatContext.Library`.
  - Printing a number is the formatter parameter `num`.
- The Float branches of src/models/value.rs are not modelled. This covers Float division, Float rem_euclid, every pow arm with a Float operand, and an Integer raised to a negative Integer, which produces a Float.
  - A Float (`rug::Float`, an MPFR arbitrary-precision float) is modelled as a sign and a magnitude (NaN, infinity, or a finite absolute value at a precision). Negation flips the sign; no rounding is computed.
  - Rational operands and the other kind pairs panic with `unimplemented!`, so the Integer cases are preconditions.
- Values.Pow: the precondition includes `exponent ≤ 2³²−1`, because `to_u32().unwrap()` panics above that.
- The lexer's spans count characters, not UTF-8 bytes. `\d` and `[[:alpha:]]` are taken as ASCII, `\s` as Unicode white space. The logos automaton itself is not modelled, only the rules.
- Lexer.NumberEnd and Lexer.LexCoversInput: for a Number token the contracts show that the lexeme matches the number rule and that the token's value is what the lexeme reads as. They do not show that it is the longest match, as they do for Space, Let and Ident.
- The logos tokens of the newer revision (`Int`, `Float`, `Underscore`) are produced by a lexer that is not part of this model. The statement parser takes them as given tokens, with whitespace already removed.
- Lexer.TokenText: the Int, Float and Underscore arms print the literal through `num` and `_` as `_`. src/lexer.rs:44-65 has no such tokens; these arms are the model's own.
- Parser error messages, labels and recovery (`Rich`, `labelled`, `as_context`) are not modelled. A parse either gives a tree or fails.
- Parser productions (ExprParser.*, StmtParser.*) other than NumberLiteral: their own contracts state only where a parse can begin and end. What they build is stated, for every token sequence, by separate lemmas:
  - GroupParses, CallParses, PostfixedFactorial and PrefixedNegation for the atoms and the unary operators;
  - ArgumentsTailCollects and ArgumentsTailIsChain for argument lists of any length;
  - SumTailFolds/SumTailIsFold, ProductTailFolds/ProductTailIsFold and PowersTailFolds/PowersTailIsFold for `+ -`, `* / %` and juxtaposition chains of any length (a left fold);
  - PowerNestsRight and PowerIsRightNest for `^` chains of any length (a right fold).
  - ExprParser.Term's optional white space on either side has no lemma of its own. That printing a tree and parsing the text gives the tree back is not proved.
- StmtParserExamples.AdjacentLiteralsFail: src/parser/test.rs:237-240, 382-389 and 504-514 expect `2 3` and `(5 % 3) 2` to multiply. The code at src/parser/mod.rs:138-154 refuses a juxtaposed term that starts with an Int or Float, and the model follows the code.
- The evaluator works on the newer tree, which has Int, Float and `_` nodes (src/parser/mod.rs:69-74, 99). src/models/expression.rs has no arms for these nodes, so the model gives them these meanings:
  - Int and Float evaluate through `Arith`.
  - `_` gives the previous answer, or NoHistory when there is none.
- src/models/context.rs:56 calls `Function::new_internal`, which src/models/function.rs does not define. `Functions.NewInternal` builds a user function the way src/context.rs:124-130 does: its arity is the number of parameter names.
- src/models/function.rs:41 calls `VariableContext::extend`, which src/models/context.rs does not define. The model runs a call the way src/models/context.rs supports: `Context.Extend`, then the binding loop, the body, and `Context.Detach`. The callee sees the same frames as in the source, and the caller's state comes back unchanged.
- The model bounds the depth of nested user-function calls; at the bound, a call fails with RecursionLimit. The program recurses without limit and would exhaust its stack.
- Stmt evaluation does not set the previous answer; nothing in the modelled files calls `set_prev_answer`. The REPL loop that would do so is not part of this model.
- `Rc`/`RefCell` sharing of values and frames is replaced by values and a sequence of frames.
- Internal functions in src/context.rs: `Function::call` panics with `todo!`, so `FlatContext.CallBuiltin` requires an External function.
- Printer.ExprText: the Int, Float and `_` arms print the literal through `num` and the previous answer as `_`. No Display in the source has these arms (src/types.rs:23-40 and src/models/expression.rs:30-47 predate those nodes); they are the model's own.
- src/eval.rs is not part of this model: it names an `Expr` variant that src/types.rs does not define.
- The REPL and everything around it are not part of this model: src/main.rs, src/readline.rs, src/error_report.rs, src/args.rs (except `AngleUnit`), src/config.rs, src/default_context.rs, src/lib.rs and src/models/mod.rs.
- Rust's `{:?}` escaping of special characters inside parameter names is not modelled; names are printed between plain quotes.
