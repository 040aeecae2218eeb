# NEMU debugger expressions, watchpoints and klib strings in Dafny

This project models four C files from an ics-pa (NEMU) tree:

- `nemu/src/monitor/sdb/expr.c` holds the simple debugger's expression evaluator.
  - `make_token` splits the text into tokens with nine rules, tried in order: spaces, `+`, `==`, `-`, `*`, `/`, one digit, `(`, `)`.
  - `check_parentheses` tests whether a token range is wrapped in one matching pair of parentheses.
  - `find_major_op` finds the operator applied last.
  - `eval` evaluates recursively and threads a `success` flag.
  - `expr` does both steps.
- `nemu/src/monitor/sdb/watchpoint.c` holds the pool of 32 watchpoints.
  - The pool is a static array threaded onto an active list and a free list.
  - It provides `init_wp_pool`, `new_wp`, `free_wp`, `add_watchpoint`, `delete_watchpoint` and `watchpoint_difftest`.
- `abstract-machine/klib/src/string.c` holds the bare-metal C library's string and memory routines: `strlen`, `strcpy`, `strncpy`, `strcat`, `strcmp`, `strncmp`, `memset`, `memmove`, `memcpy`, `memcmp`.
- `abstract-machine/klib/src/stdio.c` holds `vsprintf` and `sprintf`, which handle `%s` and `%d`.

## How each file is modelled

- `expr.dfy` (module `Expr`):
  - `Lex` is a function that specifies the tokenizer and follows the rule loop. `Lexable` and `CharTokens` are an independent per-character reference grammar, and `LexCorrect` proves the two agree.
  - `Depth`, `Wrapped` and `MajorOp` specify the parenthesis scan and the operator search.
  - `Eval` is `eval` as written, including the `success` flag and the value it returns after a failure. `Value` gives the clean meaning, with errors as a `Result`, and `EvalAgreesWithValue` relates the two.
  - The static `tokens[65535]` array and `nr_token` are the fields of class `ExprEvaluator`. Its methods `MakeToken`, `CheckParentheses`, `FindMajorOp` and `Expr` run the C loops and are proved against those functions.
- `expr_grammar.dfy` (module `ExprGrammar`) is an independent reference for what the evaluator computes.
  - `Ast` is a tree of digits, the four binary operators and parentheses, shaped by the usual grammar: E ::= E (+|-) T | T, T ::= T (*|/) F | F, F ::= digit | (E).
  - `Text` prints a tree as text, `Print` as tokens, and `Sem` gives its value, with integer division truncated as C does.
  - `ExprFollowsGrammar` proves that `expr` on the printed text of every tree succeeds exactly when `Sem` has a value, and then returns that value.
- `watchpoint.dfy` (module `Watchpoint`):
  - Class `Pool` holds the slot array.
  - Each `next` pointer is a slot index, and `-1` stands for `NULL`.
  - Ghost sequences `active` and `freeList` list the slots of the two linked lists in order. `Valid` says that the links spell those sequences out and that the two lists partition the 32 slots.
- `klib_string.dfy` (module `KlibString`):
  - Memory is one `array<byte>`, and pointers are offsets into it, so `memmove` really sees overlapping ranges.
  - Every routine is proved against `Splice`, which gives the bytes written into the old memory.
  - Lemmas then say what the written bytes mean as C strings: `CStr` and `StrLen`.
- `klib_stdio.dfy` (module `KlibStdio`):
  - `Format` is the output `vsprintf` produces for the format and the argument list, or `None` where the C code has undefined behaviour.
  - `Vsprintf` runs the C loops (copy a literal, copy a `%s` string, emit `%d` digits in reverse, then swap them) and is proved against `Format`.

Where the C differs from what it evidently means, both readings are modelled (see Findings). The expression-evaluation section of the NEMU programming-assignment manual also asks for more than this code does:
- The manual lists `!=`, `&&`, hexadecimal and multi-digit numbers, registers and dereference. The code lexes only the nine rules above, and each number token is one digit.
- `==` is matched but records no token (`LexEqEq`). So `1==1` becomes the two digit tokens `1` `1`, and it fails to evaluate because it has no operator.
- One operator token on its own, like `+`, evaluates to `atoi("") == 0` with success.
- After a failure, `eval` can still return a nonzero value: `5+12` gives 5 with the flag false (`FailureKeepsValue`). `watchpoint_difftest` ignores the success flag and compares that value.
- A failed right operand of `/` trips the division-by-zero branch only when its value is 0. This holds, for instance, for every right operand after a failed left one. `8/(5+12)` gives 1 with the flag false (`DivisionByFailedOperand`).

The model follows the code in each case.

## Model

A row for a definition with no contract of its own says what the definition computes. The rows after it state what that computation means.

| member | source | states |
|---|---|---|
| Expr.Lex | nemu/src/monitor/sdb/expr.c:87-143 | the lexer as written from position `p`: success at the end of the text, otherwise the rules are tried in order at `p` |
| Expr.LexFrom | nemu/src/monitor/sdb/expr.c:89-140 | the rules from rule `i` on: the first that matches a non-empty prefix at `p` is taken; with no rule left the lexer fails and records nothing more |
| Expr.Consume | nemu/src/monitor/sdb/expr.c:91-133 | the matched rule records its tokens (none for spaces and `==`, the digit text for a number) and the lexer goes on after the match |
| Expr.FirstRuleIsFirst | nemu/src/monitor/sdb/expr.c:89-90 | every rule tried before the chosen one matches nothing at the position |
| Expr.ExprEvaluator.TryRules | nemu/src/monitor/sdb/expr.c:89-135 | the rule loop stops at the first rule that matches a non-empty prefix, or at the end of the rule list |
| Expr.LexSpaces | nemu/src/monitor/sdb/expr.c:40 | a run of spaces is consumed in one match and adds no token |
| Expr.LexSingle | nemu/src/monitor/sdb/expr.c:103-128 | an operator, digit or parenthesis consumes one character and records exactly its token |
| Expr.LexEqEq | nemu/src/monitor/sdb/expr.c:129-130 | `==` is consumed but records no token |
| Expr.ReferenceEqEq | nemu/src/monitor/sdb/expr.c:42 | the reference grammar also skips `==`, so the two tokenizers agree on it |
| Expr.LexRejected | nemu/src/monitor/sdb/expr.c:137-140 | a character no rule matches makes tokenizing fail, and the reference grammar rejects the text too |
| Expr.LexStuck | nemu/src/monitor/sdb/expr.c:137-140 | when no rule matches, tokenizing fails with no further tokens |
| Expr.LexStep | nemu/src/monitor/sdb/expr.c:87-141 | one pass of the outer loop: consume the first matching rule's text, emit its tokens, continue after it |
| Expr.LexCorrect | nemu/src/monitor/sdb/expr.c:80-144 | tokenizing succeeds iff the text is in the reference grammar, and then the tokens are the reference tokens |
| Expr.ExprEvaluator.constructor | nemu/src/monitor/sdb/expr.c:77-78 | a fresh token array of 65535 entries with no tokens recorded |
| Expr.ExprEvaluator.Record | nemu/src/monitor/sdb/expr.c:105 | appends one token after the recorded ones and leaves the rest of the array unchanged |
| Expr.ExprEvaluator.RecordMatch | nemu/src/monitor/sdb/expr.c:103-131 | appends exactly the tokens the matched rule emits, none for spaces or `==` |
| Expr.ExprEvaluator.LexOnce | nemu/src/monitor/sdb/expr.c:89-140 | one outer pass: either no rule matches and tokenizing fails with nothing recorded, or the first matching rule's tokens are recorded and the scan moves past its text, keeping the recorded tokens plus the rest's tokens equal to the whole text's tokens |
| Expr.ExprEvaluator.MakeToken | nemu/src/monitor/sdb/expr.c:80-144 | the result and the recorded tokens are those of the tokenizer specification; array entries past them are unchanged |
| Expr.DepthPrepend | nemu/src/monitor/sdb/expr.c:152-153 | the nesting depth of a range is the first token's contribution plus the depth of the rest |
| Expr.Wrapped | nemu/src/monitor/sdb/expr.c:146-157 | the range starts with `(`, ends with `)`, and the depth after each token before the last is at least 1 |
| Expr.ExprEvaluator.CheckParentheses | nemu/src/monitor/sdb/expr.c:146-157 | true exactly when the range starts with `(`, ends with `)`, and the depth stays positive until the last token |
| Expr.LastTopOp | nemu/src/monitor/sdb/expr.c:163-184 | the returned position is a top-level operator of the tier and no later position is; -1 means there is none |
| Expr.MajorOp | nemu/src/monitor/sdb/expr.c:159-188 | the chosen operator is at depth zero; an additive one is the last top-level additive; a multiplicative one is chosen only when there is no top-level additive, and is the last top-level multiplicative; -1 only when there is no top-level operator |
| Expr.ExprEvaluator.FindMajorOp | nemu/src/monitor/sdb/expr.c:159-188 | the index the backward scan returns is the major operator of the specification |
| Expr.Atoi | nemu/src/monitor/sdb/expr.c:195 | C's `atoi`: the value of the leading decimal digits of the token text, 0 when there are none |
| Expr.CDiv | nemu/src/monitor/sdb/expr.c:223 | C's `/`, which truncates toward zero |
| Expr.AtoiOneDigit | nemu/src/monitor/sdb/expr.c:195 | `atoi` of a one-digit string is that digit's value |
| Expr.Eval | nemu/src/monitor/sdb/expr.c:190-230 | `eval` as written: the flag is checked first; an empty range is 0 and one token its `atoi`; a wrapped range is unwrapped; otherwise the range is split at `MajorOp`, with no operator giving (0, false), the right operand run with the left's flag, and a zero right value at `/` giving (0, false) |
| Expr.Value | nemu/src/monitor/sdb/expr.c:190-230 | the reference semantics of the same split with explicit errors: no operator and a zero divisor are errors, and the first error, left operand before right, is the result |
| Expr.FailedStaysFailed | nemu/src/monitor/sdb/expr.c:192 | once the flag is false, evaluation returns 0 and keeps it false |
| Expr.EvalBase | nemu/src/monitor/sdb/expr.c:193-196 | an empty range is 0; one token is its digit, or 0 for an operator token, with success |
| Expr.SplitAgrees | nemu/src/monitor/sdb/expr.c:200-224 | splitting at the major operator keeps the C evaluation in agreement with the clean value, division by zero included |
| Expr.EvalAgreesWithValue | nemu/src/monitor/sdb/expr.c:190-230 | `eval` succeeds iff the clean evaluation gives a value, and then returns that value |
| Expr.ChainTokens | nemu/src/monitor/sdb/expr.c:163-184 | every token of an operator chain is a digit or an operator of its tier |
| Expr.ChainDepth | nemu/src/monitor/sdb/expr.c:166-167 | a chain has no parentheses, so every suffix has depth zero |
| Expr.ChainIsLeftAssociative | nemu/src/monitor/sdb/expr.c:163-177 | choosing the rightmost top-level operator evaluates a chain of one tier as a left fold |
| Expr.ChainSplit | nemu/src/monitor/sdb/expr.c:163-187 | a chain of two or more digits is not wrapped, and its major operator is its last operator |
| Expr.SubtractionIsLeftAssociative | nemu/src/monitor/sdb/expr.c:163-177 | `x-y-z` evaluates to `(x-y)-z` |
| Expr.DivisionIsLeftAssociative | nemu/src/monitor/sdb/expr.c:179-182 | `x/y/z` evaluates to `(x/y)/z`, with C's truncating division |
| Expr.TimesBindsTighter | nemu/src/monitor/sdb/expr.c:173-182 | `x+y*z` evaluates to `x+(y*z)`, so `2+3*4` is 14 |
| Expr.ParenthesesGroupFirst | nemu/src/monitor/sdb/expr.c:197 | `(x+y)*z` evaluates to `(x+y)*z`, so `(2+3)*4` is 20 |
| Expr.FailureKeepsValue | nemu/src/monitor/sdb/expr.c:200-212 | `x+yz` fails, yet returns `x`: the operand `yz` has no operator and gives 0 |
| Expr.WrappedFailureKeepsValue | nemu/src/monitor/sdb/expr.c:197 | the parenthesised `(x+yz)` fails with the same value `x` |
| Expr.EvalDivide | nemu/src/monitor/sdb/expr.c:206-223 | at a `/`, the right operand runs with the left one's flag, a right value of 0 fails, and otherwise the quotient is returned with the right operand's flag |
| Expr.NoOperatorFails | nemu/src/monitor/sdb/expr.c:197-205 | a range of more than one token that is not wrapped and holds no operator fails with value 0, and its clean evaluation reports the missing operator |
| Expr.DividesParenthesised | nemu/src/monitor/sdb/expr.c:163-187 | in `w/(x+yz)` the `/` is the major operator, since the `+` is inside the parentheses |
| Expr.DivisionByFailedOperand | nemu/src/monitor/sdb/expr.c:215-223 | `w/(x+yz)` fails, and returns `w/x` unless `x` is 0, so `8/(5+12)` gives 1 |
| Expr.Evaluate | nemu/src/monitor/sdb/expr.c:232-243 | `expr`: (0, false) when the lexer rejects the text, otherwise `Eval` of the whole token range with the flag set |
| Expr.EvaluateCorrect | nemu/src/monitor/sdb/expr.c:232-243 | `expr` succeeds iff the text is in the reference grammar and its tokens have a value, and then returns that value |
| ExprGrammar.Text | nemu/src/monitor/sdb/expr.c:232-243 | the text of a tree: a digit is itself, an operation its operands around the operator character, a group its inside between `(` and `)` |
| ExprGrammar.Print | nemu/src/monitor/sdb/expr.c:80-144 | the tokens of a tree: at least one, a digit as a number token, an operator as its token with no text, a group inside a parenthesis pair |
| ExprGrammar.Sem | nemu/src/monitor/sdb/expr.c:190-230 | the value of a tree: a digit's value, the truncated quotient, sum, difference or product of the operands, and the first error, left before right, with a zero divisor an error |
| ExprGrammar.SubExprs | nemu/src/monitor/sdb/expr.c:190-230 | the operands and the inside of a grammar tree are grammar trees, the right operand of `+`/`-` is a term, and that of `*`/`/` a factor |
| ExprGrammar.TextTokens | nemu/src/monitor/sdb/expr.c:80-144 | the reference tokenizer on a tree's text gives exactly the tree's tokens |
| ExprGrammar.TextLexable | nemu/src/monitor/sdb/expr.c:80-144 | a tree's text is in the reference tokenizer's grammar |
| ExprGrammar.CharTokensAppend | nemu/src/monitor/sdb/expr.c:80-144 | tokenizing two texts one after the other gives the tokens of the first followed by those of the second |
| ExprGrammar.LexableAppend | nemu/src/monitor/sdb/expr.c:80-144 | two tokenizable texts one after the other are tokenizable |
| ExprGrammar.PrintDepth | nemu/src/monitor/sdb/expr.c:146-157 | the tokens of a tree are balanced: their depth ends at zero and never goes below zero |
| ExprGrammar.BalancedGroup | nemu/src/monitor/sdb/expr.c:146-157 | a parenthesis pair around balanced tokens is balanced, stays at depth at least 1 until the closing `)`, and hides every operator inside it |
| ExprGrammar.NotWrapped | nemu/src/monitor/sdb/expr.c:146-157 | a range whose balanced prefix ends before its last token is not wrapped in one parenthesis pair |
| ExprGrammar.FactorDepth | nemu/src/monitor/sdb/expr.c:163-184 | no operator of a factor's tokens is at top level when seen from the end of the factor |
| ExprGrammar.TermDepth | nemu/src/monitor/sdb/expr.c:163-184 | no `+` or `-` of a term's tokens is at top level when seen from the end of the term |
| ExprGrammar.AddSplit | nemu/src/monitor/sdb/expr.c:163-187 | a top-level `+` or `-` followed by a balanced range with no top-level `+`/`-` is the major operator |
| ExprGrammar.MulSplit | nemu/src/monitor/sdb/expr.c:163-187 | in a range with no top-level `+`/`-`, a `*` or `/` followed by a balanced range with no top-level operator is the major operator |
| ExprGrammar.AddRootIsMajor | nemu/src/monitor/sdb/expr.c:159-188 | in the tokens of a sum or difference, the major operator is the root's operator |
| ExprGrammar.MulRootIsMajor | nemu/src/monitor/sdb/expr.c:159-188 | in the tokens of a product or quotient, the major operator is the root's operator |
| ExprGrammar.BinShape | nemu/src/monitor/sdb/expr.c:197-223 | the tokens of an operation are not wrapped, and are split at the root's operator into the operands' tokens |
| ExprGrammar.SplitValue | nemu/src/monitor/sdb/expr.c:198-223 | at a split whose operands have the trees' values, the range has the operation's value |
| ExprGrammar.ValuePrinted | nemu/src/monitor/sdb/expr.c:190-230 | the tokens of a grammar tree, wherever they sit in a sequence, have the tree's value |
| ExprGrammar.GrammarValue | nemu/src/monitor/sdb/expr.c:190-230 | the clean evaluation of a grammar tree's tokens is the tree's value |
| ExprGrammar.GrammarEval | nemu/src/monitor/sdb/expr.c:190-230 | `eval` on a grammar tree's tokens succeeds iff the tree has a value, and then returns that value |
| ExprGrammar.ExprFollowsGrammar | nemu/src/monitor/sdb/expr.c:232-243 | `expr` on a grammar tree's text succeeds iff the tree has a value, and then returns that value |
| Expr.ExprEvaluator.Expr | nemu/src/monitor/sdb/expr.c:232-243 | the value and flag are those of the specification, and the token array holds the text's tokens |
| Watchpoint.Truncate | nemu/src/monitor/sdb/watchpoint.c:102 | the stored text is the first 32 characters of the expression at most |
| Watchpoint.Range | nemu/src/monitor/sdb/watchpoint.c:34-36 | the slots 0..31 in order |
| Watchpoint.IndexOf | nemu/src/monitor/sdb/watchpoint.c:110-118 | the first position holding the number |
| Watchpoint.IndexOfIs | nemu/src/monitor/sdb/watchpoint.c:110-118 | a position with the number and none before it is the first position |
| Watchpoint.InitialPoolOk | nemu/src/monitor/sdb/watchpoint.c:32-41 | after the loop, the active list is empty and the free list links all slots in order |
| Watchpoint.Pool.constructor | nemu/src/monitor/sdb/watchpoint.c:29-41 | a fresh pool with every slot free, in order, and empty texts |
| Watchpoint.Pool.InitPool | nemu/src/monitor/sdb/watchpoint.c:32-41 | numbers and links reset, active list empty, free list 0..31; texts and values unchanged |
| Watchpoint.Pool.ActiveNosDistinct | nemu/src/monitor/sdb/watchpoint.c:35 | active watchpoints have distinct numbers |
| Watchpoint.LinkedFrame | nemu/src/monitor/sdb/watchpoint.c:20-27 | a list stays linked when only slots outside it change their links |
| Watchpoint.LinkedPush | nemu/src/monitor/sdb/watchpoint.c:62-64 | pointing a new slot at the old first one prepends it to the list |
| Watchpoint.LinkedPop | nemu/src/monitor/sdb/watchpoint.c:55 | following the first slot's link gives the rest of the list |
| Watchpoint.LinkedDropHead | nemu/src/monitor/sdb/watchpoint.c:76 | the list without its first slot starts at that slot's link, whatever the slot becomes |
| Watchpoint.LinkedUnlink | nemu/src/monitor/sdb/watchpoint.c:89 | linking a slot to its successor's successor removes the successor from the list |
| Watchpoint.LinkedEnd | nemu/src/monitor/sdb/watchpoint.c:84 | a slot's link is null iff it is the last of its list |
| Watchpoint.NoDupRemoveAt | nemu/src/monitor/sdb/watchpoint.c:88-92 | removing one slot keeps the list free of duplicates and loses only that slot |
| Watchpoint.NoDupCons | nemu/src/monitor/sdb/watchpoint.c:62-64 | prepending a slot not yet in a list keeps it free of duplicates |
| Watchpoint.PartitionTake | nemu/src/monitor/sdb/watchpoint.c:62-63 | moving the first free slot to the active list keeps the two lists a partition |
| Watchpoint.PartitionGive | nemu/src/monitor/sdb/watchpoint.c:90-92 | moving an active slot to the free list keeps the two lists a partition |
| Watchpoint.PoolOkSameLinks | nemu/src/monitor/sdb/watchpoint.c:102-103 | changing only texts and values keeps the pool well formed |
| Watchpoint.TakeFree | nemu/src/monitor/sdb/watchpoint.c:51-66 | taking the first free slot as the new active head keeps the pool well formed |
| Watchpoint.GiveHead | nemu/src/monitor/sdb/watchpoint.c:74-81 | freeing the active head keeps the pool well formed, with that slot first on the free list |
| Watchpoint.GiveAfter | nemu/src/monitor/sdb/watchpoint.c:86-94 | unlinking a later active slot and pushing it on the free list keeps the pool well formed |
| Watchpoint.Pool.NewWp | nemu/src/monitor/sdb/watchpoint.c:44-69 | returns the first free slot, now the first active one; the other slots keep their order; texts and values unchanged |
| Watchpoint.Pool.FreeHead | nemu/src/monitor/sdb/watchpoint.c:74-81 | the active head leaves the active list and becomes the first free slot |
| Watchpoint.Pool.FreeAfter | nemu/src/monitor/sdb/watchpoint.c:86-94 | the slot after `exist` leaves the active list and becomes the first free slot; the head is unchanged |
| Watchpoint.Pool.FreeWp | nemu/src/monitor/sdb/watchpoint.c:71-97 | an active slot is removed from the active list and pushed on the free list; a null or inactive slot changes nothing |
| Watchpoint.Pool.AddWatchpoint | nemu/src/monitor/sdb/watchpoint.c:99-105 | returns the number of the newly active slot, which holds the truncated text and the value; other slots are unchanged |
| Watchpoint.Pool.DeleteWatchpoint | nemu/src/monitor/sdb/watchpoint.c:107-120 | true iff the number is active; that slot alone is then moved to the free list, and otherwise nothing changes |
| Watchpoint.FirstChangeIsFirst | nemu/src/monitor/sdb/watchpoint.c:122-140 | a change is found iff some active watchpoint's value differs, and then it is the first such one in list order |
| Watchpoint.Pool.WatchpointDifftest | nemu/src/monitor/sdb/watchpoint.c:122-140 | true iff some active watchpoint's value changed; only the first changed one gets its new value |
| Watchpoint.Pool.ReuseLastFreed | nemu/src/monitor/sdb/watchpoint.c:71-105 | deleting an active watchpoint and adding a new one reuses the same number |
| KlibString.StrLen | abstract-machine/klib/src/string.c:7-11 | the first NUL from `s` is at `s + n`, and no byte before it is NUL |
| KlibString.StrLenIs | abstract-machine/klib/src/string.c:7-11 | a NUL at `p+n` with no NUL before it means the length is `n` |
| KlibString.Strlen | abstract-machine/klib/src/string.c:7-11 | the counting loop returns the C string's length |
| KlibString.PrefixLen | abstract-machine/klib/src/string.c:28 | the bytes read before the first NUL, at most `n` |
| KlibString.Splice | abstract-machine/klib/src/string.c:18 | memory with `data` written at `at` one byte after another; every store of the routines below is stated with it |
| KlibString.SpliceAt | abstract-machine/klib/src/string.c:14-24 | after a write, each byte is the written byte inside the range and the old byte outside it |
| KlibString.SpliceIsConcat | abstract-machine/klib/src/string.c:14-24 | a write is the old prefix, the data and the old suffix |
| KlibString.WrittenString | abstract-machine/klib/src/string.c:18-22 | writing NUL-free bytes and a NUL leaves exactly those bytes as a C string there |
| KlibString.CopyRead | abstract-machine/klib/src/string.c:18 | with disjoint ranges, the byte to copy next is still the original, and it is NUL exactly at the end |
| KlibString.CopyByte | abstract-machine/klib/src/string.c:18 | one copy step extends the written prefix by one source byte |
| KlibString.CopyString | abstract-machine/klib/src/string.c:16-22 | the memory after the loops is the source string and its NUL written at the destination |
| KlibString.Strcpy | abstract-machine/klib/src/string.c:14-24 | returns `dst`; the memory is the source string and its NUL written at `dst` |
| KlibString.StrcpyCopies | abstract-machine/klib/src/string.c:14-24 | afterwards the C string at `dst` equals the original source string |
| KlibString.CopyPrefix | abstract-machine/klib/src/string.c:28 | copies the source bytes before its NUL, at most `n`, and returns their count |
| KlibString.Pad | abstract-machine/klib/src/string.c:29 | writes `k` zero bytes |
| KlibString.NCopy | abstract-machine/klib/src/string.c:26-31 | the `n` bytes `strncpy` leaves: the source bytes before its NUL, at most `n`, then NUL bytes up to `n` |
| KlibString.Strncpy | abstract-machine/klib/src/string.c:26-31 | returns `dst`; exactly `n` bytes are written, the source prefix then zero padding |
| KlibString.StrncpyTerminates | abstract-machine/klib/src/string.c:26-31 | the `n` bytes written contain a NUL iff the source string is shorter than `n` |
| KlibString.Strcat | abstract-machine/klib/src/string.c:33-43 | returns `dst`; the source string and its NUL are written over the destination's NUL |
| KlibString.StrcatAppends | abstract-machine/klib/src/string.c:33-43 | afterwards the C string at `dst` is the old destination string followed by the source string |
| KlibString.StringExtended | abstract-machine/klib/src/string.c:36-41 | writing NUL-free bytes and a NUL over a string's NUL extends that string by those bytes |
| KlibString.StrCmpFrom | abstract-machine/klib/src/string.c:45-58 | from position `q` on: plus or minus one more than the first position where the strings differ or one of them ends, positive when the first is the greater there; 0 when they are equal |
| KlibString.StrCmpValue | abstract-machine/klib/src/string.c:45-58 | the comparison of two whole strings, from position 0 |
| KlibString.Strcmp | abstract-machine/klib/src/string.c:45-58 | the result is the comparison value of the two C strings |
| KlibString.StrCmpZeroIff | abstract-machine/klib/src/string.c:45-58 | the comparison value is zero iff the strings are equal |
| KlibString.StrCmpAntisym | abstract-machine/klib/src/string.c:45-58 | swapping the arguments negates the result |
| KlibString.StrCmpLocates | abstract-machine/klib/src/string.c:45-58 | a nonzero result `r` marks the first difference at `\|r\|-1`, and its sign is the order of the differing bytes, the NUL of a shorter string included |
| KlibString.StrNCmpFrom | abstract-machine/klib/src/string.c:60-71 | from position `q` on: plus or minus one more than the first position where both strings still have a byte and the bytes differ; 0 when there is none, even if one string is longer |
| KlibString.StrNCmpValue | abstract-machine/klib/src/string.c:60-71 | that comparison of the two bounded prefixes, from position 0 |
| KlibString.Strncmp | abstract-machine/klib/src/string.c:60-71 | the result is the prefix comparison value of the two strings read up to `n` bytes |
| KlibString.StrNCmpZeroIff | abstract-machine/klib/src/string.c:60-71 | the result is zero iff the shorter string is a prefix of the longer |
| KlibString.StrNCmpLocates | abstract-machine/klib/src/string.c:60-71 | a nonzero result marks the first difference, and its sign is the order of the differing bytes |
| KlibString.Memcmp | abstract-machine/klib/src/string.c:112-114 | `memcmp` returns what `strncmp` returns |
| KlibString.IntByte | abstract-machine/klib/src/string.c:77 | byte `t` of the 32-bit two's complement value of `c`, least significant first |
| KlibString.LowByte | abstract-machine/klib/src/string.c:77 | the first byte stored is `c` mod 256 |
| KlibString.IntBytes | abstract-machine/klib/src/string.c:77 | the four bytes an `int` store writes |
| KlibString.IntBytesRoundTrip | abstract-machine/klib/src/string.c:77 | the four bytes read back little-endian give `c` mod 2^32 |
| KlibString.StoreInt | abstract-machine/klib/src/string.c:77 | the store writes those four bytes at the address |
| KlibString.MemsetResult | abstract-machine/klib/src/string.c:73-81 | memory after `n` int stores at `s`, `s+1`, ...: `n-1` copies of the low byte of `c`, then the four bytes of `c` |
| KlibString.MemsetStep | abstract-machine/klib/src/string.c:75-79 | one more loop pass adds one more overlapping four-byte store |
| KlibString.Memset | abstract-machine/klib/src/string.c:73-81 | returns `s`; the memory is that left by the `n` overlapping `int` stores |
| KlibString.MemsetFills | abstract-machine/klib/src/string.c:73-81 | the `n` bytes become `c` mod 256, the three after them receive `c`'s upper bytes, and nothing else changes |
| KlibString.MemsetOverrun | abstract-machine/klib/src/string.c:77 | `memset(p, 0, 1)` over five bytes of 7 zeroes four of them |
| KlibString.MemsetCorrected | abstract-machine/klib/src/string.c:73-81 | the corrected byte store writes `n` copies of `c` mod 256 and nothing else |
| KlibString.MemsetCorrectedFills | abstract-machine/klib/src/string.c:73-81 | the corrected `memset` changes only the `n` bytes, and agrees with the as-written one on them |
| KlibString.ForwardRead | abstract-machine/klib/src/string.c:87-92 | when `dst` is not inside the source range, copying forward reads each source byte before it is overwritten |
| KlibString.BackwardRead | abstract-machine/klib/src/string.c:97-104 | when `dst` is above `src`, copying backward reads each source byte before it is overwritten |
| KlibString.CopyForward | abstract-machine/klib/src/string.c:87-92 | the forward loop writes the original source bytes at `dst` |
| KlibString.BackByte | abstract-machine/klib/src/string.c:101-103 | one backward step extends the written suffix by one original source byte |
| KlibString.CopyBackward | abstract-machine/klib/src/string.c:97-104 | the backward loop writes the original source bytes at `dst` |
| KlibString.Memmove | abstract-machine/klib/src/string.c:83-106 | returns `dst`; the memory is the original source bytes written at `dst`, whatever the overlap |
| KlibString.MemmoveCopies | abstract-machine/klib/src/string.c:83-106 | afterwards the destination holds the original source bytes, and no byte outside it changed |
| KlibString.Memcpy | abstract-machine/klib/src/string.c:108-110 | `memcpy` behaves as `memmove` |
| KlibString.StrncmpIgnoresEnd | abstract-machine/klib/src/string.c:62-70 | `strncmp("ab", "abc", 3)` returns 0, where `strcmp` gives a negative value |
| KlibString.StrncmpCorrected | abstract-machine/klib/src/string.c:60-71 | the corrected loop compares the terminating NUL as well, so its result is the `strcmp` value of the two prefixes |
| KlibString.MemcmpStopsAtNul | abstract-machine/klib/src/string.c:112-114 | `memcmp` of "a\0b" and "a\0c" over 3 bytes returns 0 although the bytes differ |
| KlibString.MemcmpCorrected | abstract-machine/klib/src/string.c:112-114 | the corrected `memcmp` compares all `n` bytes |
| KlibString.MemcmpCorrectedZeroIff | abstract-machine/klib/src/string.c:112-114 | the corrected result is zero iff the `n` bytes are equal |
| KlibStdio.CQuot10 | abstract-machine/klib/src/stdio.c:45 | `d / 10` truncates toward zero and strictly shrinks a nonzero `d` |
| KlibStdio.CRem10 | abstract-machine/klib/src/stdio.c:44 | `d % 10` has the sign of `d` and `d == 10*(d/10) + d%10` |
| KlibStdio.DigitsRev | abstract-machine/klib/src/stdio.c:42-47 | the bytes the digit loop emits, lowest digit first: `d % 10 + '0'` with C's remainder, until `d` is 0 |
| KlibStdio.DigitStep | abstract-machine/klib/src/stdio.c:42-47 | one loop pass emits the next low digit and continues with the quotient |
| KlibStdio.EmitDigits | abstract-machine/klib/src/stdio.c:42-47 | the loop writes the digits of `d`, least significant first |
| KlibStdio.ReverseAt | abstract-machine/klib/src/stdio.c:48-55 | byte `i` of a reversed sequence is byte `len-1-i` of the original |
| KlibStdio.SwappedIsReversed | abstract-machine/klib/src/stdio.c:48-55 | when the two ends have met, the swapped range is the reverse of the original |
| KlibStdio.ReverseRange | abstract-machine/klib/src/stdio.c:48-55 | the swap loop reverses `out[l..r]` in place and changes nothing else |
| KlibStdio.Decimal | abstract-machine/klib/src/stdio.c:42-55 | what `%d` leaves: the emitted digits reversed by the swap loop |
| KlibStdio.AppendDecimal | abstract-machine/klib/src/stdio.c:37-57 | the `%d` branch writes the digits of the argument, most significant first |
| KlibStdio.DecimalRoundTrip | abstract-machine/klib/src/stdio.c:37-57 | for a positive argument, the digits written read back as the argument, with no leading zero |
| KlibStdio.DecimalAsWritten | abstract-machine/klib/src/stdio.c:42-47 | `%d` of 0 writes nothing, and `%d` of -12 writes the bytes `/.` |
| KlibStdio.DecimalCorrectedRoundTrip | abstract-machine/klib/src/stdio.c:37-57 | the corrected conversion is never empty, has no leading zero, and reads back as the argument, negatives included |
| KlibStdio.AppendStr | abstract-machine/klib/src/stdio.c:26-36 | the `%s` branch writes the argument's bytes before its NUL, and no NUL |
| KlibStdio.Format | abstract-machine/klib/src/stdio.c:12-62 | the bytes `vsprintf` writes before its final NUL: other bytes are copied, `%s` and `%d` write their argument, `%` with any other byte writes nothing; None where C has undefined behaviour (no NUL in the format, `%` just before the NUL, a missing or ill-typed argument, a `%s` argument with no NUL) |
| KlibStdio.FormatPlain | abstract-machine/klib/src/stdio.c:16-23 | a format without `%` is copied as it is |
| KlibStdio.FormatLiteral | abstract-machine/klib/src/stdio.c:18-23 | a byte other than `%` is written and the scan goes on after it |
| KlibStdio.FormatConversion | abstract-machine/klib/src/stdio.c:24-58 | `%s` takes the next string argument, `%d` the next `int`; any other byte after `%` is skipped and writes nothing |
| KlibStdio.FormatNoNul | abstract-machine/klib/src/stdio.c:12-62 | the formatted text contains no NUL |
| KlibStdio.DigitsNonZero | abstract-machine/klib/src/stdio.c:44 | the digits `%d` writes are never NUL |
| KlibStdio.Vsprintf | abstract-machine/klib/src/stdio.c:12-62 | writes the formatted text and a NUL at `out`, and returns their count |
| KlibStdio.VsprintfString | abstract-machine/klib/src/stdio.c:60-61 | afterwards `out` holds the formatted text as a C string |
| KlibStdio.Sprintf | abstract-machine/klib/src/stdio.c:64-70 | `sprintf` returns and writes what `vsprintf` does |
| KlibStdio.SprintfCountsNul | abstract-machine/klib/src/stdio.c:60-61 | formatting "ab" gives two bytes of text, while the count returned is 3 |
| KlibStdio.SprintfCorrected | abstract-machine/klib/src/stdio.c:60-61 | the corrected count is the length of the C string left in `out` |

## Left out

- Regular expressions: `init_regex` and `regexec` are not modelled. Each of the nine rules is a direct character test with the same match length (`MatchLen`). Their order and the first-match choice are kept.
- I/O is left out:
  - the `printf` messages in `make_token`, `eval`, `new_wp` and `watchpoint_difftest`;
  - `print_wp_info`;
  - the `printf`, `snprintf` and `vsnprintf` stubs of `stdio.c`.
- The rest of the debugger is not part of this model: `sdb.c`, the command table, and the expression generator under `tools`.
- Integer widths: `eval`'s `long long` arithmetic and `expr`'s `word_t` result are unbounded integers, so overflow and wrap-around are not modelled. Signed `/` truncates toward zero.
- `Watchpoint.Pool.WatchpointDifftest`: `expr` is the parameter `evaluate: string -> int`. Its `word_t` width and its success flag, which the C ignores, are not modelled. The stored value is an unbounded integer.
- `Watchpoint.Truncate`: the 32-byte `str_expr` of a text 32 characters or longer has no NUL in C. The model stores the first 32 characters as a sequence.
- `Expr.ExprEvaluator.MakeToken` and `Expr.ExprEvaluator.Expr`: the text is a Dafny string, and every character of it is scanned. C stops at the first `'\0'`. A text with a NUL inside is therefore rejected at the NUL, where the C would accept the part before it. Texts without a NUL behave the same in both.
- Token text is not modelled as a 32-byte array. A digit token's `str` is its one character, and every other token's is empty.
- `Expr.ExprEvaluator.MakeToken`: requires that the tokens fit in the 65535-entry array. Past that the C writes out of bounds.
- `Watchpoint.Pool.NewWp` and `Watchpoint.Pool.AddWatchpoint`: require a non-empty free list. The C prints a message and aborts on the `assert(0)` at `watchpoint.c:49`.
- `Watchpoint.Pool.FreeWp`: requires a non-empty active list when `wp` is not `NULL`. With an empty list the C dereferences a null `head`. As in C, `wp` must point into the pool.
- `KlibString.Memset`: requires room for the three bytes the last `int` store writes past `s + n`. In C that overrun is undefined behaviour (see Findings).
- `KlibString.Strcpy`, `KlibString.Strncpy` and `KlibString.Strcat`: require the source and destination ranges not to overlap, and the destination to fit in memory. Both are undefined behaviour in C.
- `KlibString.IntBytes`: the `int` store in `memset` assumes a 32-bit, little-endian `int`, as on the RISC-V and x86 targets of this library. Other widths or byte orders are not modelled.
- Characters are compared as unsigned bytes. Whether `char` is signed depends on the platform.
- `size_t` arithmetic and the `int` result of `strlen` and of the comparisons are unbounded integers.
- `KlibStdio.Vsprintf`:
  - The variadic arguments are a sequence of `Str` and `Int` values, and a string argument is its own byte sequence, so it cannot alias `out`.
  - The requires exclude what is undefined behaviour in C: a missing or mistyped argument, a `%` as the last byte, and an output buffer too small.
- `KlibStdio.Vsprintf`: `%d` of an `int` is taken from the argument as given. The argument must be in the 32-bit range, and the model does not narrow a wider value.
- The loops of `strcpy`, `strcat`, `strncpy`, `memmove` and `vsprintf` are split into their own methods: `CopyString`, `CopyPrefix`, `Pad`, `CopyForward`, `CopyBackward`, `AppendStr`, `EmitDigits` and `ReverseRange`. Each does exactly what its C loop does.

## Findings

| source | as written | input that shows it | evidently intended | confidence | as-written member | corrected member |
|---|---|---|---|---|---|---|
| abstract-machine/klib/src/string.c:77 | each pass stores a whole `int` at `s + i` | `memset(p, 0, 1)`: it writes 4 bytes, 3 of them past the range | store one byte per pass | not executed | KlibString.MemsetOverrun | KlibString.MemsetCorrected |
| abstract-machine/klib/src/string.c:62-70 | the loop stops when either string ends and returns 0 | `strncmp("ab", "abc", 3)` returns 0 | compare the NUL as well, giving a negative value | not executed | KlibString.StrncmpIgnoresEnd | KlibString.StrncmpCorrected |
| abstract-machine/klib/src/string.c:112-114 | `memcmp` is `strncmp`, so it stops at a NUL | `memcmp("a\0b", "a\0c", 3)` returns 0 | compare all `n` bytes | not executed | KlibString.MemcmpStopsAtNul | KlibString.MemcmpCorrected |
| abstract-machine/klib/src/stdio.c:42-47 | digits are emitted while `d != 0`, as `d % 10 + '0'` | `%d` of 0 writes nothing; `%d` of -12 writes `/.` | write `0` for zero, and a `-` sign and the digits of the magnitude for negatives | not executed | KlibStdio.DecimalAsWritten | KlibStdio.DecimalCorrectedRoundTrip |
| abstract-machine/klib/src/stdio.c:60-61 | the count is incremented for the NUL before it is returned | `sprintf(out, "ab")` returns 3 | return 2, the number of bytes before the NUL | not executed | KlibStdio.SprintfCountsNul | KlibStdio.SprintfCorrected |
