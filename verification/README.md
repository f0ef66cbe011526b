# tree-sitter-antlers, lexical core in Dafny

This project models the lexical and structural core of the tree-sitter
grammar for Antlers, the template language of the Statamic CMS, and proves
properties of that model. It covers:

- the external keyword scanner, `src/scanner.c`. It decides whether `if`,
  `unless`, `collection`, `nav`, `taxonomy`, `form` or `entries` starts at
  the lexer's position. Each keyword has its own follow rule.
- the token rules of `grammar.js`:
  - identifiers;
  - the five number forms;
  - quoted strings with their escape sequences;
  - the comment, raw-code and echo-code spans;
  - template text and `@` ignore runs.
- the declared structure of `grammar.js`:
  - the operator precedence and associativity table;
  - modifier chains (`expr | name:arg | name(a, b)`);
  - the `if` / `elseif` / `else` / `/if` chain.

Files and modules:

| file | module | what it holds |
|---|---|---|
| `chars.dfy` | `Maybe`, `Chars` | `Option`; character classes (`iswspace`, `iswalnum` and `is_identifier_char` in the C locale) |
| `scanner.dfy` | `Scanner` | the scanner as a function of input, cursor and valid symbols; a declarative `Produces` it is proved sound and complete against |
| `identifiers.dfy` | `Identifiers` | the `identifier`/`word` token and the longest identifier a lexer reads |
| `numbers.dfy` | `Numbers` | the five `number` regular expressions as predicates, and the shape every literal has |
| `strings.dfy` | `Strings` | string bodies as the grammar writes them, an independent left-to-right reading, the closing-quote search, quoting |
| `delimiters.dfy` | `Delimiters` | comment, `{{? ?}}` and `{{$ $}}` spans and where they are meant to end; the comment expressions and the raw and echo tokens as written |
| `text.dfy` | `Text` | plain-text and ignore runs read with longest match, up to the next `{` |
| `precedence.dfy` | `Precedence` | levels, operators, associativity; a parser from operand/operator chains to trees, proved to pick the one tree the table allows |
| `modifiers.dfy` | `Modifiers` | modifier lists over a token sequence: parser, renderer, the colon and parenthesised argument forms, and the left-to-right application to the expression |
| `ifchain.dfy` | `IfChain` | `if` statements as a datatype, their tag/node sequence, the positional rule, and the reader |

How the source's interfaces are modelled:

- The scanner's `TSLexer` is the whole input `s: seq<char>` with a cursor
  `pos`.
  - `advance` becomes index arithmetic.
  - `eof` becomes `j == |s|`.
  - The position at `mark_end` becomes the token's `end`.
  - `valid_symbols` is a `set<TokenType>`.
- The scanner keeps no state. `Stateless` records what `create`, `serialize`
  and `deserialize` do.
- Every token rule is a predicate over `string`.
- For identifiers, template text, comments and raw and echo code, a
  function computes where the lexer's longest match ends, and its contract
  or a lemma proves that no longer match exists. For comments and raw and
  echo code this is done for the tokens as written. The lexer keeps the
  longest match and does not honour the lazy `*?`, so raw and echo code run
  to the last closer (see Findings). Numbers are only recognised as whole
  literals (see Left out).

Where the source's comments and code disagree, the model follows the code:

- The comment at `src/scanner.c:123` says that `form:errors` is left to
  another rule. The code at lines 124-134 produces the `form` keyword for it
  all the same (`Scanner.ColonExamples`).
- The comment at `src/scanner.c:136` says that `entries` must be followed by
  whitespace or `:`. The code at lines 139-140 accepts end of input or any
  non-identifier character (`Scanner.EntriesFollowRule`).

## Model

| member | source | states |
|---|---|---|
| `Chars.SpaceIsNotIdentChar` | src/scanner.c:30-32 | no whitespace character is an identifier character, so the scanner's two nested follow tests for `if`/`unless` reduce to "whitespace follows" |
| `Scanner.SkipSpace` | src/scanner.c:43-46 | the whitespace loop stops at the first non-whitespace character or at end of input, and everything it passed is whitespace |
| `Scanner.ScanKeyword` | src/scanner.c:34-40 | `scan_keyword` succeeds exactly when every character of the keyword is present in order before end of input, leaving the cursor right after it |
| `Scanner.Branch` | src/scanner.c:50-149 | the first character selects a branch only for a valid keyword starting with that character; when none is selected, no valid keyword starts with it |
| `Scanner.Scan` | src/scanner.c:42-150 | a returned token satisfies `Produces` (valid, preceded only by whitespace, spelled out, followed as its rule demands); when nothing is returned, no token satisfies `Produces` |
| `Scanner.ScannedIsProduced` | src/scanner.c:50-147 | when a branch is taken, the keyword is matched and its follow check passes, the token satisfies `Produces` |
| `Scanner.ProducedIsScanned` | src/scanner.c:44-147 | any token satisfying `Produces` starts where the whitespace loop stops, selects its own branch, and its remaining letters are matched by `scan_keyword` |
| `Scanner.AtMostOneToken` | src/scanner.c:50-149 | at one position at most one token can be produced: two produced tokens are equal |
| `Scanner.ValidSymbolsOnlyGate` | src/scanner.c:53-147 | valid symbols only gate the result: the same token comes out under any set of valid symbols that still contains its kind |
| `Scanner.TokenExcludesWhitespace` | src/scanner.c:43-61 | a produced token is preceded only by whitespace and contains none |
| `Scanner.OnlyWhitespaceYieldsNothing` | src/scanner.c:44-48 | when only whitespace remains before end of input, no token is produced |
| `Scanner.ScanIff` | src/scanner.c:42-150 | the scanner returns token `t` exactly when `t` satisfies `Produces` |
| `Scanner.KeywordAt` | src/scanner.c:50-147 | a keyword at the first non-whitespace position is returned exactly when it is valid, fully spelled and passes its follow check |
| `Scanner.WhitespaceFollow` | src/scanner.c:57-58 | the follow check of `if` and `unless` passes exactly when a whitespace character follows |
| `Scanner.WhitespaceKeywords` | src/scanner.c:53-81 | `if`/`unless` is returned exactly when valid, spelled out and followed by a whitespace character, and the token ends before that character |
| `Scanner.ColonKeywords` | src/scanner.c:84-134 | `collection`, `nav`, `taxonomy` and `form` are returned exactly when valid, spelled out and followed by `:`, and the token ends before the colon |
| `Scanner.EntriesFollowRule` | src/scanner.c:137-147 | `entries` is returned exactly when valid, spelled out and followed by end of input or a non-identifier character |
| `Scanner.IfExamples` | src/scanner.c:53-66 | `  if x` gives `if` at 2..4; `if` at end of input, `iff x`, `if(x)` and an invalid `if` give nothing |
| `Scanner.ColonExamples` | src/scanner.c:84-134 | `collection:blog` gives the keyword before the colon; `colle:` gives nothing; `form:errors` gives `form` |
| `Scanner.EntriesExamples` | src/scanner.c:137-147 | `entries` alone or before `}}` is a keyword; `entries_x` is not |
| `Scanner.Stateless` | src/scanner.c:16-28 | serialization writes no bytes, and every payload is the one `create` returns |
| `Identifiers.IdentifierCharacters` | grammar.js:191 | every character of an identifier is a scanner identifier character, and a digit never starts one |
| `Identifiers.IdentifierEnd` | grammar.js:191 | the longest-match end is past `i` exactly when an identifier can start there; the text read is an identifier that cannot be extended |
| `Identifiers.IdentifierEndIsLongest` | grammar.js:191 | no identifier starting at `i` is longer than the one read |
| `Identifiers.KeywordIsWholeWord` | grammar.js:23 | every keyword the scanner produces is a whole `word` token: the identifier read at its start ends exactly where the keyword ends |
| `Numbers.MantissaShape` | grammar.js:420 | the part before the exponent mark starts with a digit or `.`, ends with a digit, and keeps `_` strictly inside digit groups |
| `Numbers.ExponentShape` | grammar.js:420 | the exponent is an optional sign and a digit group ending in a digit |
| `Numbers.ScientificShape` | grammar.js:420 | every unsigned scientific literal has the common literal shape |
| `Numbers.HexShape` | grammar.js:423 | every unsigned hex literal has the common shape, with separators among hex digits |
| `Numbers.OctalShape` | grammar.js:426 | every unsigned octal literal has the common shape |
| `Numbers.FloatShape` | grammar.js:429 | every unsigned float literal has the common shape |
| `Numbers.IntegerShape` | grammar.js:432 | every unsigned integer literal has the common shape |
| `Numbers.NumberShape` | grammar.js:418-433 | every number has at most one leading `-`, a digit or `.` after it, a final (hex) digit, a sign only after an exponent mark, and no `_` beside anything but digits or `_` |
| `Numbers.EndsInDigit` | grammar.js:418-433 | no number ends in a character that is not a hex digit |
| `Numbers.OnlyHexEndsInLetter` | grammar.js:418-433 | only a hex literal can end in a letter |
| `Numbers.StartsWithDigitOrPoint` | grammar.js:418-433 | no number starts, after its optional `-`, with anything but a digit or `.` |
| `Numbers.SeparatorBeforeDigits` | grammar.js:418-433 | no `_` is followed by a character that is neither a hex digit nor `_` |
| `Numbers.SeparatorBetweenDigits` | grammar.js:418-433 | no `_` follows a character that is neither a hex digit nor `_` |
| `Numbers.NumberExamples` | grammar.js:418-433 | `1_000`, `-0x1F`, `017`, `.5` and `-2.0` are numbers; `08` is an integer but not an octal literal |
| `Numbers.ScientificExample` | grammar.js:420 | `1.5e-3` is a number |
| `Numbers.NotNumberExamples` | grammar.js:418-433 | `1_`, `_1`, `0x`, `--1`, `1.`, `1e`, `1_.5` and `0x_1` are not numbers |
| `Strings.EscapeShape` | grammar.js:407-416 | an escape is a backslash and one to five characters; the first is never a line feed and the rest are hex digits |
| `Strings.AnyCharEscapes` | grammar.js:414 | a backslash before any character but a line feed is an escape |
| `Strings.BodyIff` | grammar.js:389-416 | the grammar's body (`repeat(choice(escape, /[^q\\]/))`) accepts exactly the texts where each backslash pairs with a following non-line-feed character and the quote appears only escaped |
| `Strings.CloseFromCorrect` | grammar.js:389-405 | the closing-quote search returns a position only after a well-formed body and the quote, and it finds every such closing quote |
| `Strings.StringEndIff` | grammar.js:384-405 | a string opening at `i` ends at `e` exactly when `s[i..e]` is a string literal |
| `Strings.EscapeTextPaired` | grammar.js:389-405 | escaping the quote and each backslash of any text gives a well-formed body |
| `Strings.QuoteIsString` | grammar.js:384-416 | any text, quoted and escaped, is a string literal |
| `Strings.QuoteKindExamples` | grammar.js:389-405 | `"it's"` is a string; `'it's'` is not |
| `Strings.UnicodeEscapeString` | grammar.js:411 | `\u` with four hex digits is an escape, and a string holding just it is a literal |
| `Strings.UnclosedExample` | grammar.js:389-396 | a backslash before the final quote escapes it, so `"a\"` is not a string |
| `Delimiters.OpenersExclusive` | grammar.js:101-108 | no two of the four openers can start at the same position |
| `Delimiters.CloserBorderless` | grammar.js:101-108 | no closer overlaps itself, so two occurrences never share characters |
| `Delimiters.FindFrom` | grammar.js:106-108 | the search returns the first occurrence of the closer, and none when the closer never follows: the end the lazy `[\s\S]*?` asks for (the token as written ends elsewhere, see Findings) |
| `Delimiters.DelimitedEndSound` | grammar.js:106-108 | the intended end closes a text with the opener, content free of the closer, and the closer |
| `Delimiters.DelimitedEndComplete` | grammar.js:106-108 | every text opening at `i` with closer-free content ends at the intended end |
| `Delimiters.SpanEndIff` | grammar.js:101-108 | the intended span opening at `i` ends at `e` exactly when `s[i..e]` is its opener, closer-free content and its closer; this is the corrected reading of both findings |
| `Delimiters.SpanContent` | grammar.js:101-108 | opener, content and closer form an intended span exactly when the closer does not occur in the content |
| `Delimiters.CommentHidesTag` | grammar.js:101-104 | `{{# {{ if x }} #}}` is one comment that ends at its closer, both as intended and as the comment token is written (longest match 18) |
| `Delimiters.CommentAsWrittenDiffers` | grammar.js:102-103 | the comment expressions as written reject `{{# a ##}}` and `{{!-- a ---}}` and accept `{{# ##}} #}}`; the closer-delimited span does the opposite |
| `Delimiters.CommentEndAsWritten` | grammar.js:101-104 | the comment token as written, opening at `i`, ends at the computed end, and no later end is accepted by the comment expressions: the longest match |
| `Delimiters.CommentEndsDiffer` | grammar.js:102-103 | on `{{# ##}} #}}` the intended comment ends at 8 and the longest match as written at 12 |
| `Delimiters.FindLast` | grammar.js:106-108 | the search returns the last occurrence of the closer, and none when the closer never follows |
| `Delimiters.CodeEndAsWrittenLongest` | grammar.js:106-108 | the raw or echo token as written (opener, any text, closer) ends at the computed end, and at no later position: the longest match runs to the last closer |
| `Delimiters.CodeAsWrittenDiffers` | grammar.js:106-108 | on `{{? a ?}}{{? b ?}}` the intended span ends at 9 and the longest match as written at 18 |
| `Text.BraceFrom` | grammar.js:650 | `[^{]*` read from `i` stops at the first `{` or at end of input |
| `Text.MarkFrom` | grammar.js:654 | `[^{@]` characters read from `i` stop at the first `{`, `@` or end of input |
| `Text.TextToken` | grammar.js:650-655 | a text token is read exactly when the next character is not `{`; it is an ignore run exactly when that character is `@`, and it matches its rule |
| `Text.TextTokenLongest` | grammar.js:650-655 | no text starting at `i` is longer than the token read |
| `Text.TextRuns` | grammar.js:650-655 | the text tokens read from `i` lie end to end, each matching its rule, up to the next `{` |
| `Text.TextRunsShape` | grammar.js:650-655 | between two Antlers regions there is at most one plain run followed by at most one ignore run |
| `Text.TilesSpell` | grammar.js:650-655 | runs laid end to end spell exactly the text they cover |
| `Text.ExampleMixed` | grammar.js:650-655 | `a@b{` reads as the plain run `a` and the ignore run `@b` |
| `Precedence.StrengthFollowsTable` | grammar.js:42-57 | every level is in the list, an earlier level binds more tightly, and no two levels bind equally |
| `Precedence.SpellingRoundTrip` | grammar.js:256-341 | each binary operator's token reads back as that operator |
| `Precedence.SpellingInjective` | grammar.js:256-341 | no two binary operators share a token |
| `Precedence.BinaryLevels` | grammar.js:256-348 | binary operators bind looser than unary and tighter than modifiers; only `**` and assignment are right-associative, and assignment alone is below the ternary |
| `Precedence.SameStrengthSameAssoc` | grammar.js:42-57 | operators that bind equally share a level and so an associativity |
| `Precedence.RootIndex` | grammar.js:42-57 | the chosen root binds loosest, ties broken by associativity |
| `Precedence.RootUnique` | grammar.js:42-57 | at most one link of a chain can be its root |
| `Precedence.FlattenParse` | grammar.js:256-341 | parsing keeps every operand and operator in order |
| `Precedence.ParseWellPrec` | grammar.js:256-341 | every parsed tree obeys the table: looser operators above tighter ones, equal ones grouped by associativity |
| `Precedence.ParseFlatten` | grammar.js:256-341 | every tree that obeys the table is the one parsed from its operands and operators |
| `Precedence.ParseIff` | grammar.js:214-341 | a chain parses to a tree exactly when the tree obeys the table and spells the chain |
| `Precedence.ProductFirst` | grammar.js:263-280 | `a + b * c` groups the product |
| `Precedence.SubtractionLeft` | grammar.js:273-280 | `a - b - c` groups to the left |
| `Precedence.PowerRight` | grammar.js:257-261 | `a ** b ** c` groups to the right |
| `Precedence.AssignRight` | grammar.js:329-341 | `a = b = c` groups to the right |
| `Precedence.CoalesceBeforeTernary` | grammar.js:42-57 | `a ?? b ? m : d` tests the coalesced value |
| `Modifiers.ArgTokRoundTrip` | grammar.js:371-375 | each argument kind (string, number, boolean, bare or nested/indexed variable) maps to an argument token and back |
| `Modifiers.ParseTailRender` | grammar.js:372-378 | the `, arg` tail followed by `)` reads back as its arguments, any of which may be a nested or indexed variable |
| `Modifiers.ParseArgsRender` | grammar.js:368-378 | an argument list followed by `)` reads back as its arguments, any of which may be a nested or indexed variable |
| `Modifiers.ParseParamsRender` | grammar.js:358-380 | well-formed parameters read back as themselves, leaving the following tokens |
| `Modifiers.ParseRender` | grammar.js:195-204 | a well-formed modifier list reads back from its tokens |
| `Modifiers.ParseTailSound` | grammar.js:372-378 | whatever the tail reader accepts, strings, numbers, booleans and all variables included, is spelled by its result |
| `Modifiers.ParseArgsSound` | grammar.js:368-378 | whatever the argument reader accepts, strings, numbers, booleans and all variables included, is spelled by its result |
| `Modifiers.ParseParamsSound` | grammar.js:358-380 | whatever the parameter reader accepts is spelled by its result, and a colon argument is a bare identifier or a number |
| `Modifiers.ParseModsRenders` | grammar.js:195-204 | whatever the modifier reader accepts is spelled by the list it returns |
| `Modifiers.ParseModsWellFormed` | grammar.js:358-366 | every list the modifier reader returns has only bare identifiers or numbers after a colon |
| `Modifiers.ParseModsIff` | grammar.js:195-204 | a token sequence reads as a modifier list exactly when that list is well formed and renders to it |
| `Modifiers.PipelineStages` | grammar.js:195-198 | modifiers apply to the whole expression, the first written innermost, and each is kept in order |
| `Modifiers.StagesPipeline` | grammar.js:195-198 | every applied pipeline is its expression with its modifiers applied in order |
| `Modifiers.Example` | grammar.js:195-204 | `\| upper \| truncate:20` reads as two modifiers, with `upper` applied first |
| `Modifiers.PathExample` | grammar.js:358-380 | a nested variable is read as an argument in parentheses, and rejected after a colon |
| `IfChain.ParseBodyPieces` | grammar.js:442-449 | every body reads back from its tags and nodes |
| `IfChain.ParseBodySound` | grammar.js:442-449 | whatever the body reader accepts is spelled by the body it returns |
| `IfChain.BodyPiecesOk` | grammar.js:442-449 | every body ends with the one `/if`, holds no `if` opener tag of its own (nested `if` statements are nodes), and has no branch tag after `else` |
| `IfChain.BodyOkParses` | grammar.js:442-449 | tags and nodes that follow this rule always read as a body |
| `IfChain.BuildIff` | grammar.js:437-449 | a tag and node sequence follows the rule exactly when it reads as an `if` statement |
| `IfChain.BuildPieces` | grammar.js:437-449 | reading and spelling out an `if` statement are inverse to each other |
| `IfChain.ElseMustBeLast` | grammar.js:442-449 | a second `else`, or an `elseif` after `else`, is rejected |

## Left out

- Tree-sitter's GLR conflict handling (grammar.js:31-40) is not modelled. Neither are the `prec(n, ...)` weights among `_node` choices or error recovery: these belong to the parser generator, not to rules with contracts.
- The CST and the other tag shapes are not modelled: loops, partials, `unless` bodies, switch and the other statements (grammar.js:451-648).
- The lexer's choice between overlapping tokens is not modelled. This covers the token-level precedences `token(prec(15, '||'))`, `token(prec(-1, '='))`, `prec(3, number)` and `prec(10, '|')`, and a leading `-` that could be a sign or an operator. Operators and modifiers are taken as already lexed, and expressions start from a chain of operands and operators.
- Operands of expressions are not looked into: variables, array access, method calls, strings, numbers and booleans (grammar.js:123-189, 223-254) are opaque `Atom`s.
- In modifier arguments, a nested (`a.b`, `a:b`) or indexed (`a[0]`) variable is one opaque token, `PathTok`. Its inner structure (grammar.js:166-189) is not modelled.
- The optional whitespace after a comma in a modifier argument list (grammar.js:374) is not modelled, because whitespace is gone from the token sequence.
- The whitespace and comments that tree-sitter's `extras` would allow between the pieces of a non-token rule, such as a string, are not modelled. A string is read as one unit.
- The `modifier` level of the precedence list is not used by any rule in the grammar. Modifiers follow the shape of `expression_with_modifiers`, applied after the whole expression.
- The end of a `number` token in a longer input (grammar.js:418-433) is not computed. `Numbers` recognises whole literals and proves their shape, but has no longest-match end function.
- `iswspace` and `iswalnum` are locale dependent. They are modelled by their C-locale (ASCII) meaning.
- The scanner's `destroy` does nothing and has no model.
- The unused helpers `commaSep1` and `commaSep` (grammar.js:659-667) are not modelled.
- Conditions and nodes inside an `if` statement are abstract type parameters. Tags are taken as already recognised, including `{{ /if }}` with inner whitespace.

## Findings

| source | as written | input that shows it | evidently intended | confidence | as-written member | corrected member |
|---|---|---|---|---|---|---|
| grammar.js:102-103 | a comment body is `repeat(choice(/[^#]/, /#[^}]/, /#}[^}]/))` (and the `-` analogue). A `#` can only appear paired with the next character, and that pairing can swallow the `#` of the closer. | `{{# a ##}}` is rejected, and so is `{{!-- a ---}}`. `{{# ##}} #}}` is accepted as one comment that runs past its first `#}}`. | a comment runs from its opener to the first following closer | not executed | `Delimiters.CommentAsWrittenDiffers` | `Delimiters.SpanEndIff` |
| grammar.js:106-108 | raw and echo code are `token(seq(opener, /[\s\S]*?/, closer))`. As a language this is the opener, any text, then the closer. The lexer keeps a token's longest match and does not honour the lazy `*?`. | `{{? a ?}}{{? b ?}}` is lexed as one `php_raw` token that ends at 18, after the second `?}}`, not at 9 | a raw or echo block ends at the first closer after its opener, as the lazy `*?` asks | not executed | `Delimiters.CodeAsWrittenDiffers` | `Delimiters.SpanEndIff` |
