/** Tokenizer and evaluator of the simple debugger's arithmetic expressions.

    The lexer tries nine fixed rules in order at every position of the text
    (a run of spaces, `+`, `==`, `-`, `*`, `/`, one decimal digit, `(`, `)`)
    and records the typed tokens in a fixed buffer of 65535 entries. The
    evaluator works on an inclusive index range of that buffer: a range
    wrapped in a matching pair of parentheses is unwrapped, otherwise it is
    split at its major operator, found by a right-to-left scan that tracks the
    parenthesis depth. Failure is threaded through the recursion as a
    success flag. */
module Expr {

  /** Rule and token types. `NoType` (spaces) and `Eq` (`==`) are matched by
      rules but never stored in the token buffer. */
  datatype TokenType = NoType | Plus | Eq | Minus | Times | Divide | Num | LParen | RParen

  /** A token: its type and its text (one digit for a number, empty otherwise). */
  datatype Token = Token(kind: TokenType, str: string)

  /** Number of lexical rules. */
  const NrRules: nat := 9

  /** The token type of rule `i`: the rules are tried in this order. */
  function Rule(i: nat): TokenType
    requires i < NrRules
  {
    if i == 0 then NoType else if i == 1 then Plus else if i == 2 then Eq
    else if i == 3 then Minus else if i == 4 then Times else if i == 5 then Divide
    else if i == 6 then Num else if i == 7 then LParen else RParen
  }

  /** Capacity of the token buffer. */
  const MaxTokens: nat := 65535

  predicate IsDigit(c: char) { '0' <= c <= '9' }

  predicate IsAdditive(k: TokenType) { k == Plus || k == Minus }

  predicate IsMultiplicative(k: TokenType) { k == Times || k == Divide }

  predicate IsOperator(k: TokenType) { IsAdditive(k) || IsMultiplicative(k) }

  // ---------------------------------------------------------------------------
  // Tokenizer
  // ---------------------------------------------------------------------------

  /** Number of spaces of `e` from position `p` on (what the rule " +"
      matches there). */
  function SpaceRun(e: string, p: nat): (n: nat)
    requires p <= |e|
    decreases |e| - p
    ensures p + n <= |e|
  {
    if p < |e| && e[p] == ' ' then 1 + SpaceRun(e, p + 1) else 0
  }

  /** Length of the match of `rule` anchored at position `p` of `e`; 0 when
      the rule does not match there (no rule matches the empty text). */
  function MatchLen(rule: TokenType, e: string, p: nat): (n: nat)
    requires p <= |e|
    ensures p + n <= |e|
  {
    match rule
    case NoType => SpaceRun(e, p)
    case Eq => if p + 2 <= |e| && e[p] == '=' && e[p + 1] == '=' then 2 else 0
    case Num => if p < |e| && IsDigit(e[p]) then 1 else 0
    case Plus => if p < |e| && e[p] == '+' then 1 else 0
    case Minus => if p < |e| && e[p] == '-' then 1 else 0
    case Times => if p < |e| && e[p] == '*' then 1 else 0
    case Divide => if p < |e| && e[p] == '/' then 1 else 0
    case LParen => if p < |e| && e[p] == '(' then 1 else 0
    case RParen => if p < |e| && e[p] == ')' then 1 else 0
  }

  /** Index of the first rule at or after `i` that matches at position `p`
      of `e`, or `NrRules` when none does. */
  function FirstRule(e: string, p: nat, i: nat): (k: nat)
    requires p <= |e| && i <= NrRules
    decreases NrRules - i
    ensures i <= k <= NrRules
    ensures k < NrRules ==> MatchLen(Rule(k), e, p) > 0
  {
    if i == NrRules then i
    else if MatchLen(Rule(i), e, p) > 0 then i
    else FirstRule(e, p, i + 1)
  }

  /** No rule from `i` up to the one `FirstRule` finds matches at `p`. */
  lemma {:induction false} FirstRuleIsFirst(e: string, p: nat, i: nat, j: nat)
    requires p <= |e| && i <= NrRules && i <= j < FirstRule(e, p, i)
    ensures MatchLen(Rule(j), e, p) == 0
    decreases NrRules - i
  {
    if i < j {
      FirstRuleIsFirst(e, p, i + 1, j);
    }
  }

  /** The tokens recorded for a match of `rule` on `text`. */
  function Emit(rule: TokenType, text: string): seq<Token>
  {
    match rule
    case NoType => []
    case Eq => []
    case Num => [Token(Num, text)]
    case _ => [Token(rule, "")]
  }

  datatype LexResult = LexResult(ok: bool, tokens: seq<Token>)

  /** What the lexer does with `e` from position `p` on: whether every
      position is matched by some rule, and the tokens recorded up to the
      first position no rule matches. */
  function Lex(e: string, p: nat): LexResult
    requires p <= |e|
    decreases |e| - p, NrRules + 1
  {
    if p == |e| then LexResult(true, []) else LexFrom(e, p, 0)
  }

  /** The lexer at position `p` trying the rules from rule `i` on: the first
      rule that matches records its tokens and the lexer goes on after the
      match; when no rule is left the lexer stops with failure. */
  function LexFrom(e: string, p: nat, i: nat): LexResult
    requires p < |e| && i <= NrRules
    decreases |e| - p, NrRules - i
  {
    if i == NrRules then LexResult(false, [])
    else if MatchLen(Rule(i), e, p) == 0 then LexFrom(e, p, i + 1)
    else Consume(e, p, i)
  }

  /** Rule `k` matches at `p`: its tokens are recorded and the lexer goes on
      after the match. */
  function Consume(e: string, p: nat, k: nat): LexResult
    requires p < |e| && k < NrRules && MatchLen(Rule(k), e, p) > 0
    decreases |e| - p, 0
  {
    var n := MatchLen(Rule(k), e, p);
    var rest := Lex(e, p + n);
    LexResult(rest.ok, Emit(Rule(k), e[p..p + n]) + rest.tokens)
  }

  /** Characters that are accepted on their own. */
  predicate IsSingle(c: char)
  {
    c == ' ' || IsDigit(c) || c == '+' || c == '-' || c == '*' || c == '/' || c == '(' || c == ')'
  }

  /** Reference grammar for accepted texts, one character at a time from
      position `p` on: every character is accepted on its own or is part of
      a `==` pair. */
  predicate Lexable(e: string, p: nat)
    requires p <= |e|
    decreases |e| - p
  {
    if p == |e| then true
    else if IsSingle(e[p]) then Lexable(e, p + 1)
    else p + 1 < |e| && e[p] == '=' && e[p + 1] == '=' && Lexable(e, p + 2)
  }

  /** The token a single character stands for: none for a space or `=`. */
  function CharToken(c: char): seq<Token>
  {
    if IsDigit(c) then [Token(Num, [c])]
    else if c == '+' then [Token(Plus, "")]
    else if c == '-' then [Token(Minus, "")]
    else if c == '*' then [Token(Times, "")]
    else if c == '/' then [Token(Divide, "")]
    else if c == '(' then [Token(LParen, "")]
    else if c == ')' then [Token(RParen, "")]
    else []
  }

  /** The tokens of `e` from position `p` on, character by character, in
      source order. */
  function CharTokens(e: string, p: nat): seq<Token>
    requires p <= |e|
    decreases |e| - p
  {
    if p == |e| then [] else CharToken(e[p]) + CharTokens(e, p + 1)
  }

  /** A run of spaces changes neither acceptance nor the token sequence. */
  lemma {:induction false} SkipSpaceRun(e: string, p: nat)
    requires p <= |e|
    ensures Lexable(e, p) == Lexable(e, p + SpaceRun(e, p))
    ensures CharTokens(e, p) == CharTokens(e, p + SpaceRun(e, p))
    decreases |e| - p
  {
    if p < |e| && e[p] == ' ' {
      assert CharTokens(e, p) == [] + CharTokens(e, p + 1);
      SkipSpaceRun(e, p + 1);
    }
  }

  /** The rule that is taken at position `p` of `e`. */
  function RuleFor(e: string, p: nat): nat
    requires p < |e|
  {
    var c := e[p];
    if c == ' ' then 0
    else if c == '+' then 1
    else if c == '=' then (if p + 1 < |e| && e[p + 1] == '=' then 2 else NrRules)
    else if c == '-' then 3
    else if c == '*' then 4
    else if c == '/' then 5
    else if IsDigit(c) then 6
    else if c == '(' then 7
    else if c == ')' then 8
    else NrRules
  }

  /** Trying the rules in order from rule `i` on finds the rule for the
      character at `p`, when no earlier rule from `i` on is that rule. */
  lemma {:induction false} FirstRuleIsRuleFor(e: string, p: nat, i: nat)
    requires p < |e| && i <= RuleFor(e, p)
    ensures FirstRule(e, p, i) == RuleFor(e, p)
    decreases NrRules - i
  {
    if i < RuleFor(e, p) {
      assert MatchLen(Rule(i), e, p) == 0;
      FirstRuleIsRuleFor(e, p, i + 1);
    }
  }

  /** Trying the rules from `i` on amounts to taking the first rule from
      `i` on that matches. */
  lemma {:induction false} LexFromFirstRule(e: string, p: nat, i: nat)
    requires p < |e| && i <= NrRules
    ensures FirstRule(e, p, i) == NrRules ==> LexFrom(e, p, i) == LexResult(false, [])
    ensures FirstRule(e, p, i) < NrRules ==> LexFrom(e, p, i) == Consume(e, p, FirstRule(e, p, i))
    decreases NrRules - i
  {
    if i < NrRules && MatchLen(Rule(i), e, p) == 0 {
      LexFromFirstRule(e, p, i + 1);
    }
  }

  /** One step of the lexer as `make_token` takes it: with rule `k` the
      first that matches at `p`, moving the step's own tokens from what is
      left to lex into what is recorded keeps the overall result. */
  lemma LexAdvance(e: string, p: nat, k: nat, full: LexResult, before: seq<Token>)
    requires p < |e| && k == FirstRule(e, p, 0) && k < NrRules
    requires full.ok == Lex(e, p).ok && full.tokens == before + Lex(e, p).tokens
    ensures full.ok == Lex(e, p + MatchLen(Rule(k), e, p)).ok
    ensures full.tokens ==
      (before + Emit(Rule(k), e[p..p + MatchLen(Rule(k), e, p)])) + Lex(e, p + MatchLen(Rule(k), e, p)).tokens
  {
    var n := MatchLen(Rule(k), e, p);
    var em := Emit(Rule(k), e[p..p + n]);
    var rest := Lex(e, p + n).tokens;
    LexFromFirstRule(e, p, 0);
    assert Lex(e, p).tokens == em + rest;
    assert before + (em + rest) == (before + em) + rest;
  }

  /** No rule matches at `p`: the lexer stops with failure and no token. */
  lemma LexStuck(e: string, p: nat)
    requires p < |e| && FirstRule(e, p, 0) == NrRules
    ensures Lex(e, p) == LexResult(false, [])
  {
    LexFromFirstRule(e, p, 0);
  }

  /** One step of the lexer at position `p`, with the rule that is taken. */
  lemma LexStep(e: string, p: nat)
    requires p < |e|
    ensures RuleFor(e, p) == NrRules ==> Lex(e, p) == LexResult(false, [])
    ensures RuleFor(e, p) < NrRules ==>
      var k := RuleFor(e, p);
      var n := MatchLen(Rule(k), e, p);
      Lex(e, p) == LexResult(Lex(e, p + n).ok, Emit(Rule(k), e[p..p + n]) + Lex(e, p + n).tokens)
  {
    FirstRuleIsRuleFor(e, p, 0);
    LexFromFirstRule(e, p, 0);
  }

  /** A single-character rule consumes one character and records the token
      that character stands for. */
  lemma LexSingle(e: string, p: nat)
    requires p < |e| && IsSingle(e[p]) && e[p] != ' '
    ensures Lex(e, p).ok == Lex(e, p + 1).ok
    ensures Lex(e, p).tokens == CharToken(e[p]) + Lex(e, p + 1).tokens
  {
    LexStep(e, p);
    var k := RuleFor(e, p);
    assert MatchLen(Rule(k), e, p) == 1;
    assert e[p..p + 1] == [e[p]];
    assert Emit(Rule(k), e[p..p + 1]) == CharToken(e[p]);
  }

  /** A run of spaces is skipped without a token. */
  lemma LexSpaces(e: string, p: nat)
    requires p < |e| && e[p] == ' '
    ensures Lex(e, p) == Lex(e, p + SpaceRun(e, p))
  {
    var n := SpaceRun(e, p);
    LexStep(e, p);
    assert MatchLen(Rule(0), e, p) == n;
    assert Emit(Rule(0), e[p..p + n]) == [];
    var rest := Lex(e, p + n);
    assert Lex(e, p).ok == rest.ok;
    assert Lex(e, p).tokens == [] + rest.tokens;
  }

  /** `==` is matched as a whole and records no token. */
  lemma LexEqEq(e: string, p: nat)
    requires p + 1 < |e| && e[p] == '=' && e[p + 1] == '='
    ensures Lex(e, p) == Lex(e, p + 2)
  {
    LexStep(e, p);
    assert MatchLen(Rule(2), e, p) == 2;
    assert Emit(Rule(2), e[p..p + 2]) == [];
    var rest := Lex(e, p + 2);
    assert Lex(e, p).ok == rest.ok;
    assert Lex(e, p).tokens == [] + rest.tokens;
  }

  /** In the reference grammar a `==` pair is accepted and stands for no
      token. */
  lemma ReferenceEqEq(e: string, p: nat)
    requires p + 1 < |e| && e[p] == '=' && e[p + 1] == '='
    ensures Lexable(e, p) == Lexable(e, p + 2)
    ensures CharTokens(e, p) == CharTokens(e, p + 2)
  {
    assert CharTokens(e, p) == [] + ([] + CharTokens(e, p + 2));
  }

  /** A character no rule matches stops the lexer with failure. */
  lemma LexRejected(e: string, p: nat)
    requires p < |e| && !IsSingle(e[p])
    requires !(p + 1 < |e| && e[p] == '=' && e[p + 1] == '=')
    ensures !Lex(e, p).ok && !Lexable(e, p)
  {
    LexStep(e, p);
  }

  /** The lexer accepts exactly the texts of the reference grammar, and on an
      accepted text it records one token per digit, operator or parenthesis,
      in source order; each digit is its own number token. */
  lemma {:induction false} LexCorrect(e: string, p: nat)
    requires p <= |e|
    ensures Lex(e, p).ok <==> Lexable(e, p)
    ensures Lex(e, p).ok ==> Lex(e, p).tokens == CharTokens(e, p)
    decreases |e| - p
  {
    if p < |e| {
      if e[p] == ' ' {
        LexSpaces(e, p);
        SkipSpaceRun(e, p);
        LexCorrect(e, p + SpaceRun(e, p));
      } else if IsSingle(e[p]) {
        LexSingle(e, p);
        LexCorrect(e, p + 1);
      } else if p + 1 < |e| && e[p] == '=' && e[p + 1] == '=' {
        LexEqEq(e, p);
        ReferenceEqEq(e, p);
        LexCorrect(e, p + 2);
      } else {
        LexRejected(e, p);
      }
    }
  }

  // ---------------------------------------------------------------------------
  // Parentheses and the major operator
  // ---------------------------------------------------------------------------

  /** Contribution of a token to the parenthesis depth. */
  function Delta(t: Token): int
  {
    if t.kind == LParen then 1 else if t.kind == RParen then -1 else 0
  }

  /** Number of `(` minus number of `)` among the tokens t[i..j). */
  function Depth(t: seq<Token>, i: int, j: int): int
    requires 0 <= i && j <= |t|
    decreases j - i
  {
    if j <= i then 0 else Depth(t, i, j - 1) + Delta(t[j - 1])
  }

  lemma {:induction false} DepthPrepend(t: seq<Token>, i: int, j: int)
    requires 0 <= i < j <= |t|
    ensures Depth(t, i, j) == Delta(t[i]) + Depth(t, i + 1, j)
    decreases j - i
  {
    if i + 1 < j {
      DepthPrepend(t, i, j - 1);
    }
  }

  /** The range [l, r] is wrapped by a matching outer pair: it starts with
      `(`, ends with `)`, and the running depth after each token before the
      last, that is of every prefix t[l..j) with l < j <= r, is at least 1. */
  predicate Wrapped(t: seq<Token>, l: int, r: int)
    requires 0 <= l <= r < |t|
  {
    t[l].kind == LParen && t[r].kind == RParen &&
    forall j :: l < j <= r ==> Depth(t, l, j) >= 1
  }

  predicate InTier(k: TokenType, additive: bool)
  {
    if additive then IsAdditive(k) else IsMultiplicative(k)
  }

  /** Token `j` is an operator of the tier and lies outside every pair of
      parentheses of the range that ends at `r`. */
  predicate TopOp(t: seq<Token>, j: int, r: int, additive: bool)
    requires 0 <= j <= r < |t|
  {
    InTier(t[j].kind, additive) && Depth(t, j + 1, r + 1) == 0
  }

  /** The rightmost top-level operator of the tier in [l, hi], or -1. */
  function LastTopOp(t: seq<Token>, l: int, hi: int, r: int, additive: bool): (j: int)
    requires 0 <= l && l - 1 <= hi <= r < |t|
    decreases hi - l + 1
    ensures j == -1 || l <= j <= hi
    ensures j == -1 ==> forall i :: l <= i <= hi ==> !TopOp(t, i, r, additive)
    ensures j != -1 ==> TopOp(t, j, r, additive)
    ensures j != -1 ==> forall i :: j < i <= hi ==> !TopOp(t, i, r, additive)
  {
    if hi < l then -1
    else if TopOp(t, hi, r, additive) then hi
    else LastTopOp(t, l, hi - 1, r, additive)
  }

  /** The operator at which the range [l, r] is split: the rightmost
      top-level `+`/`-` if there is one, otherwise the rightmost top-level
      `*`/`/`, otherwise -1. */
  function MajorOp(t: seq<Token>, l: int, r: int): (k: int)
    requires 0 <= l <= r < |t|
    ensures k == -1 || l <= k <= r
    ensures k != -1 ==> IsOperator(t[k].kind) && Depth(t, k + 1, r + 1) == 0
    ensures k != -1 && IsAdditive(t[k].kind) ==>
      forall i :: k < i <= r ==> !TopOp(t, i, r, true)
    ensures k == -1 || IsMultiplicative(t[k].kind) ==>
      forall i :: l <= i <= r ==> !TopOp(t, i, r, true)
    ensures k != -1 && IsMultiplicative(t[k].kind) ==>
      forall i :: k < i <= r ==> !TopOp(t, i, r, false)
    ensures k == -1 ==> forall i :: l <= i <= r ==> !TopOp(t, i, r, false)
  {
    var a := LastTopOp(t, l, r, r, true);
    if a != -1 then a else LastTopOp(t, l, r, r, false)
  }

  // ---------------------------------------------------------------------------
  // Evaluation
  // ---------------------------------------------------------------------------

  /** C's `atoi` on the digits at the start of `s` (a token's text is either
      empty or one digit). */
  function Atoi(s: string): int
  {
    AtoiFrom(s, 0)
  }

  function AtoiFrom(s: string, acc: int): int
    decreases |s|
  {
    if s != [] && IsDigit(s[0]) then AtoiFrom(s[1..], acc * 10 + (s[0] as int - '0' as int)) else acc
  }

  lemma AtoiOneDigit(s: string)
    requires |s| == 1 && IsDigit(s[0])
    ensures Atoi(s) == s[0] as int - '0' as int
  {
    var d := s[0] as int - '0' as int;
    assert s[1..] == [];
    assert AtoiFrom(s, 0) == AtoiFrom(s[1..], 0 * 10 + d);
    assert AtoiFrom(s[1..], d) == d;
  }

  function Abs(x: int): nat { if x < 0 then -x else x }

  /** C's integer division, which truncates toward zero. */
  function CDiv(a: int, b: int): int
    requires b != 0
  {
    var m := Abs(a) / Abs(b);
    if (a < 0) != (b < 0) then -m else m
  }

  /** The value `eval` returns together with the final state of its
      `success` flag. */
  datatype Outcome = Outcome(value: int, success: bool)

  /** `eval(l, r, success)` of the source: `success` is the flag on entry. */
  function Eval(t: seq<Token>, l: int, r: int, success: bool): Outcome
    requires 0 <= l <= r + 1 <= |t|
    decreases r - l + 1
  {
    if !success then Outcome(0, false)
    else if l > r then Outcome(0, true)
    else if l == r then Outcome(Atoi(t[l].str), true)
    else if Wrapped(t, l, r) then Eval(t, l + 1, r - 1, true)
    else
      var k := MajorOp(t, l, r);
      if k < 0 then Outcome(0, false)
      else
        var v1 := Eval(t, l, k - 1, true);
        var v2 := Eval(t, k + 1, r, v1.success);
        match t[k].kind
        case Plus => Outcome(v1.value + v2.value, v2.success)
        case Minus => Outcome(v1.value - v2.value, v2.success)
        case Times => Outcome(v1.value * v2.value, v2.success)
        case Divide =>
          if v2.value == 0 then Outcome(0, false) else Outcome(CDiv(v1.value, v2.value), v2.success)
        case _ => assert false; Outcome(0, false)
  }

  datatype EvalError = NoOperator | DivisionByZero

  datatype Result = Ok(v: int) | Err(error: EvalError)

  /** Reference semantics of a range with explicit errors: the first failure,
      left operand before right operand, is the result. */
  function Value(t: seq<Token>, l: int, r: int): Result
    requires 0 <= l <= r + 1 <= |t|
    decreases r - l + 1
  {
    if l > r then Ok(0)
    else if l == r then Ok(Atoi(t[l].str))
    else if Wrapped(t, l, r) then Value(t, l + 1, r - 1)
    else
      var k := MajorOp(t, l, r);
      if k < 0 then Err(NoOperator)
      else
        match Value(t, l, k - 1)
        case Err(e) => Err(e)
        case Ok(a) =>
          match Value(t, k + 1, r)
          case Err(e) => Err(e)
          case Ok(b) =>
            if t[k].kind == Plus then Ok(a + b)
            else if t[k].kind == Minus then Ok(a - b)
            else if t[k].kind == Times then Ok(a * b)
            else if b == 0 then Err(DivisionByZero)
            else Ok(CDiv(a, b))
  }

  /** Once `success` is false, `eval` returns 0 at once and leaves it false. */
  lemma FailedStaysFailed(t: seq<Token>, l: int, r: int)
    requires 0 <= l <= r + 1 <= |t|
    ensures Eval(t, l, r, false) == Outcome(0, false)
  {
  }

  /** The outcome of `eval` and the reference result agree: the flag is
      set exactly when there is no error, and then the values are equal. */
  predicate Agrees(o: Outcome, v: Result)
  {
    (o.success <==> v.Ok?) && (o.success ==> o.value == v.v)
  }

  /** A range split at its major operator agrees when both operands do. */
  lemma SplitAgrees(t: seq<Token>, l: int, r: int, k: int)
    requires 0 <= l < r < |t| && !Wrapped(t, l, r) && k == MajorOp(t, l, r) && k >= 0
    requires Agrees(Eval(t, l, k - 1, true), Value(t, l, k - 1))
    requires Agrees(Eval(t, k + 1, r, true), Value(t, k + 1, r))
    ensures Agrees(Eval(t, l, r, true), Value(t, l, r))
  {
    FailedStaysFailed(t, k + 1, r);
  }

  /** The success flag of `eval` is set exactly when the reference semantics
      has no error, and then the two values agree. */
  lemma {:induction false} EvalAgreesWithValue(t: seq<Token>, l: int, r: int)
    requires 0 <= l <= r + 1 <= |t|
    ensures Agrees(Eval(t, l, r, true), Value(t, l, r))
    decreases r - l + 1
  {
    if l < r {
      if Wrapped(t, l, r) {
        EvalAgreesWithValue(t, l + 1, r - 1);
      } else {
        var k := MajorOp(t, l, r);
        if k >= 0 {
          EvalAgreesWithValue(t, l, k - 1);
          EvalAgreesWithValue(t, k + 1, r);
          SplitAgrees(t, l, r, k);
        }
      }
    }
  }

  /** Empty and one-token ranges: an empty range is 0; one token is the value
      of its digit, or 0 for an operator or parenthesis (empty text). */
  lemma EvalBase(t: seq<Token>, l: int)
    requires 0 <= l < |t|
    requires t[l].str == [] || (|t[l].str| == 1 && IsDigit(t[l].str[0]))
    ensures Eval(t, l, l - 1, true) == Outcome(0, true)
    ensures t[l].str == [] ==> Eval(t, l, l, true) == Outcome(0, true)
    ensures t[l].str != [] ==> Eval(t, l, l, true) == Outcome(t[l].str[0] as int - '0' as int, true)
  {
    if t[l].str != [] {
      AtoiOneDigit(t[l].str);
    }
  }

  /** A range of more than one token that is not wrapped and holds no
      operator has no major operator: `eval` clears the success flag and
      returns 0, and the reference semantics reports the missing operator. */
  lemma NoOperatorFails(t: seq<Token>, l: int, r: int)
    requires 0 <= l < r < |t| && !Wrapped(t, l, r)
    requires forall i :: l <= i <= r ==> !IsOperator(t[i].kind)
    ensures Eval(t, l, r, true) == Outcome(0, false)
    ensures Value(t, l, r) == Err(NoOperator)
  {
    assert MajorOp(t, l, r) == -1;
  }

  /** A digit token. */
  predicate IsDigitToken(tok: Token)
  {
    tok.kind == Num && |tok.str| == 1 && IsDigit(tok.str[0])
  }

  function DigitOf(tok: Token): int
    requires IsDigitToken(tok)
  {
    tok.str[0] as int - '0' as int
  }

  /** [l, r] is `d op d op ... d` with digits and operators of one tier. */
  predicate Chain(t: seq<Token>, l: int, r: int, additive: bool)
    requires 0 <= l <= r < |t|
    decreases r - l
  {
    IsDigitToken(t[r]) &&
    (l == r || (l + 2 <= r && InTier(t[r - 1].kind, additive) && Chain(t, l, r - 2, additive)))
  }

  /** Every token of a chain is a digit or an operator of its tier. */
  lemma {:induction false} ChainTokens(t: seq<Token>, l: int, r: int, additive: bool, i: int)
    requires 0 <= l <= r < |t| && Chain(t, l, r, additive)
    requires l <= i <= r
    ensures IsDigitToken(t[i]) || InTier(t[i].kind, additive)
    decreases r - l
  {
    if i < r - 1 {
      ChainTokens(t, l, r - 2, additive, i);
    }
  }

  /** Left-to-right evaluation of a chain: ((d0 op d1) op d2) ... */
  function FoldLeft(t: seq<Token>, l: int, r: int, additive: bool): Result
    requires 0 <= l <= r < |t| && Chain(t, l, r, additive)
    decreases r - l
  {
    if l == r then Ok(DigitOf(t[l]))
    else
      match FoldLeft(t, l, r - 2, additive)
      case Err(e) => Err(e)
      case Ok(a) =>
        var b := DigitOf(t[r]);
        if t[r - 1].kind == Plus then Ok(a + b)
        else if t[r - 1].kind == Minus then Ok(a - b)
        else if t[r - 1].kind == Times then Ok(a * b)
        else if b == 0 then Err(DivisionByZero)
        else Ok(CDiv(a, b))
  }

  lemma {:induction false} ChainDepth(t: seq<Token>, l: int, r: int, additive: bool, j: int)
    requires 0 <= l <= r < |t| && Chain(t, l, r, additive)
    requires l <= j <= r + 1
    ensures Depth(t, j, r + 1) == 0
    decreases r + 1 - j
  {
    if j <= r {
      DepthPrepend(t, j, r + 1);
      ChainTokens(t, l, r, additive, j);
      ChainDepth(t, l, r, additive, j + 1);
    }
  }

  /** Operators of one tier associate to the left: choosing the rightmost
      top-level operator evaluates a chain as a left fold. */
  lemma {:induction false} ChainIsLeftAssociative(t: seq<Token>, l: int, r: int, additive: bool)
    requires 0 <= l <= r < |t| && Chain(t, l, r, additive)
    ensures Value(t, l, r) == FoldLeft(t, l, r, additive)
    decreases r - l
  {
    if l == r {
      AtoiOneDigit(t[l].str);
    } else {
      ChainSplit(t, l, r, additive);
      ChainIsLeftAssociative(t, l, r - 2, additive);
      AtoiOneDigit(t[r].str);
    }
  }

  /** A chain of more than one digit is not wrapped, and its major operator
      is its last operator. */
  lemma ChainSplit(t: seq<Token>, l: int, r: int, additive: bool)
    requires 0 <= l < r < |t| && Chain(t, l, r, additive)
    ensures !Wrapped(t, l, r) && MajorOp(t, l, r) == r - 1
  {
    ChainTokens(t, l, r, additive, l);
    ChainDepth(t, l, r, additive, r);
    assert TopOp(t, r - 1, r, additive);
    if !additive {
      forall i | l <= i <= r
        ensures !TopOp(t, i, r, true)
      {
        ChainTokens(t, l, r, additive, i);
      }
    }
  }

  /** `x-y-z` is `(x-y)-z`, so `1-2-3` is -4. */
  lemma SubtractionIsLeftAssociative(x: Token, y: Token, z: Token)
    requires IsDigitToken(x) && IsDigitToken(y) && IsDigitToken(z)
    ensures Value([x, Token(Minus, ""), y, Token(Minus, ""), z], 0, 4)
         == Ok(DigitOf(x) - DigitOf(y) - DigitOf(z))
  {
    var t := [x, Token(Minus, ""), y, Token(Minus, ""), z];
    assert Chain(t, 0, 2, true);
    ChainIsLeftAssociative(t, 0, 4, true);
    assert FoldLeft(t, 0, 2, true) == Ok(DigitOf(x) - DigitOf(y));
  }

  /** `x/y/z` is `(x/y)/z`, so `8/2/2` is 2 and not 8. */
  lemma DivisionIsLeftAssociative(x: Token, y: Token, z: Token)
    requires IsDigitToken(x) && IsDigitToken(y) && IsDigitToken(z)
    requires DigitOf(y) != 0 && DigitOf(z) != 0
    ensures Value([x, Token(Divide, ""), y, Token(Divide, ""), z], 0, 4)
         == Ok(CDiv(CDiv(DigitOf(x), DigitOf(y)), DigitOf(z)))
  {
    var t := [x, Token(Divide, ""), y, Token(Divide, ""), z];
    assert Chain(t, 0, 2, false);
    ChainIsLeftAssociative(t, 0, 4, false);
    assert FoldLeft(t, 0, 2, false) == Ok(CDiv(DigitOf(x), DigitOf(y)));
  }

  /** `*` binds tighter than `+`: `x+y*z` is `x+(y*z)`, so `2+3*4` is 14. */
  lemma TimesBindsTighter(x: Token, y: Token, z: Token)
    requires IsDigitToken(x) && IsDigitToken(y) && IsDigitToken(z)
    ensures Value([x, Token(Plus, ""), y, Token(Times, ""), z], 0, 4)
         == Ok(DigitOf(x) + DigitOf(y) * DigitOf(z))
  {
    var t := [x, Token(Plus, ""), y, Token(Times, ""), z];
    assert TopOp(t, 1, 4, true);
    assert MajorOp(t, 0, 4) == 1;
    AtoiOneDigit(x.str);
    assert Chain(t, 2, 4, false);
    ChainIsLeftAssociative(t, 2, 4, false);
  }

  /** Parentheses override precedence: `(x+y)*z`, so `(2+3)*4` is 20. */
  lemma ParenthesesGroupFirst(x: Token, y: Token, z: Token)
    requires IsDigitToken(x) && IsDigitToken(y) && IsDigitToken(z)
    ensures Value([Token(LParen, ""), x, Token(Plus, ""), y, Token(RParen, ""), Token(Times, ""), z], 0, 6)
         == Ok((DigitOf(x) + DigitOf(y)) * DigitOf(z))
  {
    var t := [Token(LParen, ""), x, Token(Plus, ""), y, Token(RParen, ""), Token(Times, ""), z];
    assert Depth(t, 3, 7) == -1;
    assert !TopOp(t, 2, 6, true);
    assert MajorOp(t, 0, 6) == 5;
    assert Wrapped(t, 0, 4);
    assert Chain(t, 1, 3, true);
    ChainIsLeftAssociative(t, 1, 3, true);
    AtoiOneDigit(z.str);
  }

  /** A failed evaluation can still carry a nonzero value: in `x+yz` the
      operand `yz` has no operator and fails with 0, so `5+12` gives 5 with
      the flag false. */
  lemma FailureKeepsValue(t: seq<Token>, l: int)
    requires 0 <= l && l + 3 < |t|
    requires IsDigitToken(t[l]) && t[l + 1].kind == Plus && IsDigitToken(t[l + 2]) && IsDigitToken(t[l + 3])
    ensures Eval(t, l, l + 3, true) == Outcome(DigitOf(t[l]), false)
  {
    assert Depth(t, l + 2, l + 3) == 0 && Depth(t, l + 2, l + 4) == 0;
    assert TopOp(t, l + 1, l + 3, true);
    assert MajorOp(t, l, l + 3) == l + 1;
    assert !TopOp(t, l + 2, l + 3, true) && !TopOp(t, l + 2, l + 3, false);
    assert MajorOp(t, l + 2, l + 3) == -1;
    AtoiOneDigit(t[l].str);
  }

  /** The same failing sum in parentheses, `(x+yz)`, still gives `x` with
      the flag false. */
  lemma WrappedFailureKeepsValue(t: seq<Token>, l: int)
    requires 0 <= l && l + 5 < |t| && t[l].kind == LParen && t[l + 5].kind == RParen
    requires IsDigitToken(t[l + 1]) && t[l + 2].kind == Plus && IsDigitToken(t[l + 3]) && IsDigitToken(t[l + 4])
    ensures Eval(t, l, l + 5, true) == Outcome(DigitOf(t[l + 1]), false)
  {
    assert Depth(t, l, l + 1) == Depth(t, l, l) + Delta(t[l]) == 1;
    assert Depth(t, l, l + 2) == Depth(t, l, l + 1) + Delta(t[l + 1]) == 1;
    assert Depth(t, l, l + 3) == Depth(t, l, l + 2) + Delta(t[l + 2]) == 1;
    assert Depth(t, l, l + 4) == Depth(t, l, l + 3) + Delta(t[l + 3]) == 1;
    assert Depth(t, l, l + 5) == Depth(t, l, l + 4) + Delta(t[l + 4]) == 1;
    assert forall j :: l < j <= l + 5 ==> Depth(t, l, j) >= 1 by {
      forall j | l < j <= l + 5 ensures Depth(t, l, j) >= 1 {
        assert j == l + 1 || j == l + 2 || j == l + 3 || j == l + 4 || j == l + 5;
      }
    }
    assert Wrapped(t, l, l + 5);
    FailureKeepsValue(t, l + 1);
  }

  /** `eval`'s `/` case: the right operand runs with the left one's flag,
      and a right value of 0 fails whatever that flag is. */
  lemma EvalDivide(t: seq<Token>, l: int, k: int, r: int)
    requires 0 <= l < k < r < |t| && !Wrapped(t, l, r) && MajorOp(t, l, r) == k && t[k].kind == Divide
    ensures var v1 := Eval(t, l, k - 1, true);
      var v2 := Eval(t, k + 1, r, v1.success);
      Eval(t, l, r, true) == if v2.value == 0 then Outcome(0, false) else Outcome(CDiv(v1.value, v2.value), v2.success)
  {
  }

  /** Division by a failed operand is reported as division by zero only when
      that operand's value is 0: `w/(x+yz)` divides by `x`, so `8/(5+12)`
      gives 1 with the flag false. */
  lemma DivisionByFailedOperand(w: Token, x: Token, y: Token, z: Token)
    requires IsDigitToken(w) && IsDigitToken(x) && IsDigitToken(y) && IsDigitToken(z)
    ensures var t := [w, Token(Divide, ""), Token(LParen, ""), x, Token(Plus, ""), y, z, Token(RParen, "")];
      Eval(t, 0, 7, true) == if DigitOf(x) == 0 then Outcome(0, false) else Outcome(CDiv(DigitOf(w), DigitOf(x)), false)
  {
    var t := [w, Token(Divide, ""), Token(LParen, ""), x, Token(Plus, ""), y, z, Token(RParen, "")];
    DividesParenthesised(t);
    AtoiOneDigit(w.str);
    WrappedFailureKeepsValue(t, 2);
    EvalDivide(t, 0, 1, 7);
  }

  /** In `w/(x+yz)` the `/` is the major operator: the `+` is inside the
      parentheses. */
  lemma DividesParenthesised(t: seq<Token>)
    requires |t| == 8 && IsDigitToken(t[0]) && t[1].kind == Divide && t[2].kind == LParen
    requires IsDigitToken(t[3]) && t[4].kind == Plus && IsDigitToken(t[5]) && IsDigitToken(t[6])
    requires t[7].kind == RParen
    ensures MajorOp(t, 0, 7) == 1
  {
    assert Depth(t, 5, 8) == -1;
    assert LastTopOp(t, 0, 3, 7, true) == -1;
    assert LastTopOp(t, 0, 7, 7, true) == -1;
    assert Depth(t, 2, 8) == 0 && TopOp(t, 1, 7, false);
    assert LastTopOp(t, 0, 7, 7, false) == 1;
  }

  /** What `expr` returns for the text `e`: 0 and failure when the lexer
      rejects it, otherwise `eval` of the whole token range with the flag set. */
  function Evaluate(e: string): Outcome
  {
    var lx := Lex(e, 0);
    if !lx.ok then Outcome(0, false) else Eval(lx.tokens, 0, |lx.tokens| - 1, true)
  }

  /** End to end: `expr` succeeds exactly on texts of the reference grammar
      whose character tokens have an error-free value, which it returns. */
  lemma EvaluateCorrect(e: string)
    ensures Evaluate(e).success <==>
      Lexable(e, 0) && Value(CharTokens(e, 0), 0, |CharTokens(e, 0)| - 1).Ok?
    ensures Evaluate(e).success ==> Evaluate(e).value == Value(CharTokens(e, 0), 0, |CharTokens(e, 0)| - 1).v
  {
    LexCorrect(e, 0);
    if Lex(e, 0).ok {
      EvalAgreesWithValue(Lex(e, 0).tokens, 0, |Lex(e, 0).tokens| - 1);
    }
  }

  // ---------------------------------------------------------------------------
  // The token buffer and the entry points that run on it
  // ---------------------------------------------------------------------------

  /** The global token buffer `tokens[]` and its fill level `nr_token`. */
  class ExprEvaluator {
    var tokens: array<Token>
    var nrToken: nat

    ghost predicate Valid()
      reads this
    {
      tokens.Length == MaxTokens && nrToken <= tokens.Length
    }

    constructor ()
      ensures Valid() && fresh(tokens) && nrToken == 0
    {
      tokens := new Token[MaxTokens](_ => Token(NoType, ""));
      nrToken := 0;
    }

    /** The inner loop of `make_token`: try the rules one by one at
        position `p` of `e`; NrRules when none matches. */
    static method TryRules(e: string, p: nat) returns (i: nat)
      requires p <= |e|
      ensures i == FirstRule(e, p, 0)
    {
      i := 0;
      while i < NrRules && MatchLen(Rule(i), e, p) == 0
        invariant 0 <= i <= NrRules
        invariant FirstRule(e, p, 0) == FirstRule(e, p, i)
      {
        i := i + 1;
      }
    }

    /** `tokens[nr_token++] = tok`: store a token in the next free slot. */
    method Record(tok: Token)
      requires Valid() && nrToken < tokens.Length
      modifies this, tokens
      ensures Valid() && tokens == old(tokens)
      ensures nrToken == old(nrToken) + 1
      ensures tokens[..nrToken] == old(tokens[..nrToken]) + [tok]
      ensures forall i :: nrToken <= i < tokens.Length ==> tokens[i] == old(tokens[i])
    {
      tokens[nrToken] := tok;
      nrToken := nrToken + 1;
    }

    /** The `switch` of `make_token` on the type of the rule that matched
        `text`: a number keeps its text, an operator or parenthesis is
        stored with empty text, spaces and `==` store nothing. */
    method RecordMatch(rule: TokenType, text: string)
      requires Valid() && nrToken + |Emit(rule, text)| <= tokens.Length
      modifies this, tokens
      ensures Valid() && tokens == old(tokens)
      ensures nrToken == old(nrToken) + |Emit(rule, text)|
      ensures tokens[..nrToken] == old(tokens[..nrToken]) + Emit(rule, text)
      ensures forall i :: nrToken <= i < tokens.Length ==> tokens[i] == old(tokens[i])
    {
      if rule == Num {
        Record(Token(Num, text));
      } else if rule != NoType && rule != Eq {
        Record(Token(rule, ""));
      }
    }

    /** `make_token`: scan `e` left to right, trying the rules in order at
        each position. The buffer has no bound check in the source, so the
        caller must not produce more tokens than it holds. */
    method MakeToken(e: string) returns (ok: bool)
      requires Valid()
      requires |Lex(e, 0).tokens| <= tokens.Length
      modifies this, tokens
      ensures Valid() && tokens == old(tokens)
      ensures ok == Lex(e, 0).ok
      ensures tokens[..nrToken] == Lex(e, 0).tokens
      ensures forall i :: nrToken <= i < tokens.Length ==> tokens[i] == old(tokens[i])
    {
      ghost var full := Lex(e, 0);
      var position := 0;
      nrToken := 0;
      while position < |e|
        invariant 0 <= position <= |e|
        invariant Valid() && tokens == old(tokens)
        invariant full.ok == Lex(e, position).ok
        invariant full.tokens == tokens[..nrToken] + Lex(e, position).tokens
        invariant forall i :: nrToken <= i < tokens.Length ==> tokens[i] == old(tokens[i])
        decreases |e| - position
      {
        var matched;
        matched, position := LexOnce(e, position, full);
        if !matched {
          return false;
        }
      }
      return true;
    }

    /** One pass of `make_token`'s outer loop: try the rules at `position`,
        record what the first matching one emits and move past its text, or
        report that no rule matches. */
    method LexOnce(e: string, position: nat, ghost full: LexResult) returns (matched: bool, next: nat)
      requires Valid() && position < |e| && |full.tokens| <= tokens.Length
      requires full.ok == Lex(e, position).ok && full.tokens == tokens[..nrToken] + Lex(e, position).tokens
      modifies this, tokens
      ensures Valid() && tokens == old(tokens)
      ensures !matched ==> next == position && Lex(e, position) == LexResult(false, [])
      ensures !matched ==> nrToken == old(nrToken) && tokens[..] == old(tokens[..])
      ensures matched ==> position < next <= |e|
      ensures nrToken >= old(nrToken)
      ensures matched ==> full.ok == Lex(e, next).ok && full.tokens == tokens[..nrToken] + Lex(e, next).tokens
      ensures forall i :: nrToken <= i < tokens.Length ==> tokens[i] == old(tokens[i])
    {
      var i := TryRules(e, position);
      if i == NrRules {
        LexStuck(e, position);
        return false, position;
      }
      var n := MatchLen(Rule(i), e, position);
      LexAdvance(e, position, i, full, tokens[..nrToken]);
      RecordMatch(Rule(i), e[position..position + n]);
      return true, position + n;
    }

    /** `check_parentheses(l, r)`. */
    method CheckParentheses(l: int, r: int) returns (b: bool)
      requires Valid() && 0 <= l <= r < nrToken
      ensures b == Wrapped(tokens[..nrToken], l, r)
    {
      ghost var t := tokens[..nrToken];
      if tokens[l].kind != LParen || tokens[r].kind != RParen {
        return false;
      }
      var flag := 0;
      var i := l;
      while i < r
        invariant l <= i <= r
        invariant flag == Depth(t, l, i)
        invariant forall j :: l < j <= i ==> Depth(t, l, j) >= 1
      {
        if tokens[i].kind == LParen {
          flag := flag + 1;
        } else if tokens[i].kind == RParen {
          flag := flag - 1;
        }
        assert flag == Depth(t, l, i + 1);
        if flag <= 0 {
          return false;
        }
        i := i + 1;
      }
      return true;
    }

    /** `find_major_op(l, r)`: right-to-left scan with a depth counter; the
        first top-level `+`/`-` is returned at once, the first top-level
        `*`/`/` is remembered. */
    method FindMajorOp(l: int, r: int) returns (k: int)
      requires Valid() && 0 <= l <= r < nrToken
      ensures k == MajorOp(tokens[..nrToken], l, r)
    {
      ghost var t := tokens[..nrToken];
      var flag := 0;
      var secI := -1;
      var i := r;
      while i >= l
        invariant l - 1 <= i <= r
        invariant flag == -Depth(t, i + 1, r + 1)
        invariant LastTopOp(t, l, r, r, true) == LastTopOp(t, l, i, r, true)
        invariant secI == -1 ==> LastTopOp(t, l, r, r, false) == LastTopOp(t, l, i, r, false)
        invariant secI != -1 ==> LastTopOp(t, l, r, r, false) == secI
      {
        DepthPrepend(t, i, r + 1);
        if tokens[i].kind == RParen {
          flag := flag + 1;
        } else if tokens[i].kind == LParen {
          flag := flag - 1;
        } else if !IsOperator(tokens[i].kind) {
        } else if IsAdditive(tokens[i].kind) && flag == 0 {
          return i;
        } else if IsMultiplicative(tokens[i].kind) && secI == -1 && flag == 0 {
          secI := i;
        }
        i := i - 1;
      }
      if secI == -1 {
        return -1;
      }
      return secI;
    }

    /** `expr(e, &success)`: tokenize, then evaluate the whole token range
        with the flag set. */
    method Expr(e: string) returns (value: int, success: bool)
      requires Valid()
      requires |Lex(e, 0).tokens| <= tokens.Length
      modifies this, tokens
      ensures Valid() && tokens == old(tokens)
      ensures tokens[..nrToken] == Lex(e, 0).tokens
      ensures value == Evaluate(e).value && success == Evaluate(e).success
    {
      var ok := MakeToken(e);
      if !ok {
        return 0, false;
      }
      var o := Eval(tokens[..nrToken], 0, nrToken - 1, true);
      return o.value, o.success;
    }
  }
}
