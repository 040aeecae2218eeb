/** The usual grammar of arithmetic expressions over single digits, as a
    reference for the evaluator:

      E ::= E (+|-) T | T
      T ::= T (*|/) F | F
      F ::= digit | ( E )

    A syntax tree of this grammar is printed as text and as tokens; the
    evaluator, which works on the tokens by unwrapping parentheses and
    splitting at the rightmost top-level operator of the weakest tier, gives
    every printed tree the value of the tree. */
module ExprGrammar {
  import opened Expr

  datatype Op = Add | Sub | Mul | Div

  datatype Ast = Digit(c: char) | Bin(op: Op, left: Ast, right: Ast) | Group(inner: Ast)

  predicate IsAddOp(op: Op) { op == Add || op == Sub }

  predicate IsMulOp(op: Op) { op == Mul || op == Div }

  /** E: a sum or difference whose right operand is a term, or a term. */
  predicate IsExpr(x: Ast)
    decreases x, 2
  {
    IsTerm(x) || (x.Bin? && IsAddOp(x.op) && IsExpr(x.left) && IsTerm(x.right))
  }

  /** T: a product or quotient whose right operand is a factor, or a factor. */
  predicate IsTerm(x: Ast)
    decreases x, 1
  {
    IsFactor(x) || (x.Bin? && IsMulOp(x.op) && IsTerm(x.left) && IsFactor(x.right))
  }

  /** F: a digit or a parenthesised expression. */
  predicate IsFactor(x: Ast)
    decreases x, 0
  {
    (x.Digit? && IsDigit(x.c)) || (x.Group? && IsExpr(x.inner))
  }

  function OpChar(op: Op): char
  {
    match op
    case Add => '+'
    case Sub => '-'
    case Mul => '*'
    case Div => '/'
  }

  function OpKind(op: Op): TokenType
  {
    match op
    case Add => Plus
    case Sub => Minus
    case Mul => Times
    case Div => Divide
  }

  /** The text of a tree, with no spaces. */
  function Text(x: Ast): string
  {
    match x
    case Digit(c) => [c]
    case Bin(op, a, b) => Text(a) + [OpChar(op)] + Text(b)
    case Group(e) => "(" + Text(e) + ")"
  }

  /** The tokens of a tree, as the tokenizer records them. */
  function Print(x: Ast): (r: seq<Token>)
    ensures |r| >= 1
  {
    match x
    case Digit(c) => [Token(Num, [c])]
    case Bin(op, a, b) => Print(a) + [Token(OpKind(op), "")] + Print(b)
    case Group(e) => [Token(LParen, "")] + Print(e) + [Token(RParen, "")]
  }

  /** One operation on two values: C's operators, with a zero divisor an
      error. */
  function Apply(op: Op, a: int, b: int): Result
  {
    match op
    case Add => Ok(a + b)
    case Sub => Ok(a - b)
    case Mul => Ok(a * b)
    case Div => if b == 0 then Err(DivisionByZero) else Ok(CDiv(a, b))
  }

  /** The value of a tree: the first error, left operand before right, or
      the value. */
  function Sem(x: Ast): Result
  {
    match x
    case Digit(c) => Ok(c as int - '0' as int)
    case Group(e) => Sem(e)
    case Bin(op, a, b) =>
      match Sem(a)
      case Err(e) => Err(e)
      case Ok(u) =>
        match Sem(b)
        case Err(e) => Err(e)
        case Ok(v) => Apply(op, u, v)
  }

  // ---------------------------------------------------------------------------
  // The parts of a tree of the grammar
  // ---------------------------------------------------------------------------

  /** The operands of an expression are expressions, with the right operand
      of a sum a term and the right operand of a product a factor. */
  lemma SubExprs(x: Ast)
    requires IsExpr(x)
    ensures x.Digit? ==> IsDigit(x.c)
    ensures x.Group? ==> IsExpr(x.inner)
    ensures x.Bin? ==> IsExpr(x.left) && IsExpr(x.right)
    ensures x.Bin? && IsAddOp(x.op) ==> IsTerm(x.right)
    ensures x.Bin? && IsMulOp(x.op) ==> IsTerm(x) && IsFactor(x.right)
  {
    match x
    case Digit(c) =>
      assert IsTerm(x) && IsFactor(x);
    case Group(e) =>
      assert IsTerm(x) && IsFactor(x);
    case Bin(op, a, b) =>
      assert !IsFactor(x);
      if IsMulOp(op) {
        assert IsTerm(x) && IsTerm(a) && IsFactor(b);
        assert IsTerm(b);
        assert IsExpr(a) && IsExpr(b);
      } else {
        assert !IsTerm(x);
        assert IsExpr(a) && IsTerm(b);
        assert IsExpr(b);
      }
  }

  // ---------------------------------------------------------------------------
  // Printed trees inside a token sequence
  // ---------------------------------------------------------------------------

  /** The tokens of `x` stand in `t` from position `l` on. */
  predicate Embedded(t: seq<Token>, l: nat, x: Ast)
  {
    l + |Print(x)| <= |t| && forall i :: 0 <= i < |Print(x)| ==> t[l + i] == Print(x)[i]
  }

  lemma EmbeddedBin(t: seq<Token>, l: nat, x: Ast)
    requires x.Bin? && Embedded(t, l, x)
    ensures Embedded(t, l, x.left)
    ensures t[l + |Print(x.left)|] == Token(OpKind(x.op), "")
    ensures Embedded(t, l + |Print(x.left)| + 1, x.right)
  {
    var p, pa, pb := Print(x), Print(x.left), Print(x.right);
    assert p == pa + [Token(OpKind(x.op), "")] + pb;
    forall i | 0 <= i < |pa|
      ensures t[l + i] == pa[i]
    {
      assert p[i] == pa[i];
    }
    assert p[|pa|] == Token(OpKind(x.op), "");
    forall i | 0 <= i < |pb|
      ensures t[l + |pa| + 1 + i] == pb[i]
    {
      assert p[|pa| + 1 + i] == pb[i];
    }
  }

  lemma EmbeddedGroup(t: seq<Token>, l: nat, x: Ast)
    requires x.Group? && Embedded(t, l, x)
    ensures t[l] == Token(LParen, "")
    ensures Embedded(t, l + 1, x.inner)
    ensures t[l + |Print(x.inner)| + 1] == Token(RParen, "")
  {
    var p, pe := Print(x), Print(x.inner);
    assert p == [Token(LParen, "")] + pe + [Token(RParen, "")];
    assert p[0] == Token(LParen, "");
    forall i | 0 <= i < |pe|
      ensures t[l + 1 + i] == pe[i]
    {
      assert p[1 + i] == pe[i];
    }
    assert p[|pe| + 1] == Token(RParen, "");
  }

  /** Depth is additive over adjacent ranges. */
  lemma {:induction false} DepthSplit(t: seq<Token>, i: int, j: int, k: int)
    requires 0 <= i <= j <= k <= |t|
    ensures Depth(t, i, k) == Depth(t, i, j) + Depth(t, j, k)
    decreases k - j
  {
    if j < k {
      DepthSplit(t, i, j, k - 1);
    }
  }

  // ---------------------------------------------------------------------------
  // Balanced token ranges
  // ---------------------------------------------------------------------------

  /** The parentheses of t[l..e) match: its depth is 0, and no prefix closes
      more parentheses than it opens. */
  predicate Balanced(t: seq<Token>, l: nat, e: nat)
    requires l <= e <= |t|
  {
    Depth(t, l, e) == 0 && forall j :: l <= j <= e ==> Depth(t, l, j) >= 0
  }

  /** Every operator of t[l..e) is inside a pair of parentheses of the range:
      the rest of the range after it closes more than it opens. */
  predicate Enclosed(t: seq<Token>, l: nat, e: nat, additiveOnly: bool)
    requires l <= e <= |t|
  {
    forall i :: l <= i < e && (if additiveOnly then IsAdditive(t[i].kind) else IsOperator(t[i].kind)) ==>
      Depth(t, i + 1, e) < 0
  }

  /** In a balanced range, the rest after any position does not open more
      than it closes. */
  lemma BalancedSuffix(t: seq<Token>, l: nat, e: nat, j: nat)
    requires l <= j <= e <= |t| && Balanced(t, l, e)
    ensures Depth(t, j, e) <= 0
  {
    DepthSplit(t, l, j, e);
  }

  /** One token that is not a parenthesis is balanced, with no operator
      outside parentheses when it is not an operator. */
  lemma BalancedToken(t: seq<Token>, l: nat)
    requires l < |t| && Delta(t[l]) == 0
    ensures Balanced(t, l, l + 1)
    ensures !IsOperator(t[l].kind) ==> Enclosed(t, l, l + 1, false)
  {
    assert Depth(t, l, l + 1) == Depth(t, l, l) + Delta(t[l]);
  }

  /** `(` followed by a balanced range and `)` is balanced and encloses every
      operator. */
  lemma BalancedGroup(t: seq<Token>, l: nat, n: nat)
    requires l + n + 2 <= |t| && t[l].kind == LParen && t[l + n + 1].kind == RParen
    requires Balanced(t, l + 1, l + n + 1)
    ensures Balanced(t, l, l + n + 2) && Enclosed(t, l, l + n + 2, false)
    ensures forall j :: l < j <= l + n + 1 ==> Depth(t, l, j) >= 1
  {
    var e := l + n + 2;
    forall j | l < j <= l + n + 1
      ensures Depth(t, l, j) == 1 + Depth(t, l + 1, j)
    {
      DepthPrepend(t, l, j);
    }
    assert Depth(t, l, e) == Depth(t, l, e - 1) + Delta(t[e - 1]);
    forall j | l + 1 < j < e
      ensures Depth(t, j, e) < 0
    {
      BalancedSuffix(t, l + 1, e - 1, j);
      assert Depth(t, j, e) == Depth(t, j, e - 1) + Delta(t[e - 1]);
    }
  }

  /** Two balanced ranges around an operator form a balanced range. */
  lemma BalancedJoin(t: seq<Token>, l: nat, k: nat, e: nat)
    requires l <= k < e <= |t| && Delta(t[k]) == 0
    requires Balanced(t, l, k) && Balanced(t, k + 1, e)
    ensures Balanced(t, l, e)
  {
    assert Depth(t, l, k + 1) == Depth(t, l, k) + Delta(t[k]);
    forall j | k + 1 <= j <= e
      ensures Depth(t, l, j) == Depth(t, k + 1, j)
    {
      DepthSplit(t, l, k + 1, j);
    }
  }

  /** A term times a factor: no `+` or `-` outside parentheses. */
  lemma EnclosedJoin(t: seq<Token>, l: nat, k: nat, e: nat)
    requires l <= k < e <= |t| && IsMultiplicative(t[k].kind)
    requires Enclosed(t, l, k, true) && Balanced(t, k + 1, e) && Enclosed(t, k + 1, e, false)
    ensures Enclosed(t, l, e, true)
  {
    DepthPrepend(t, k, e);
    forall i | l <= i < k && IsAdditive(t[i].kind)
      ensures Depth(t, i + 1, e) < 0
    {
      DepthSplit(t, i + 1, k, e);
    }
  }

  /** A range that begins with a balanced part before its last token is not
      wrapped by one pair of parentheses. */
  lemma NotWrapped(t: seq<Token>, l: nat, k: nat, r: nat)
    requires l < k <= r < |t| && Balanced(t, l, k)
    ensures !Wrapped(t, l, r)
  {
  }

  /** After an additive operator, a balanced range with no top-level `+` or
      `-` makes that operator the major one. */
  lemma AddSplit(t: seq<Token>, l: nat, k: nat, r: nat)
    requires l <= k < r < |t| && IsAdditive(t[k].kind)
    requires Balanced(t, k + 1, r + 1) && Enclosed(t, k + 1, r + 1, true)
    ensures MajorOp(t, l, r) == k
  {
    assert TopOp(t, k, r, true);
    assert forall i :: k < i <= r ==> !TopOp(t, i, r, true);
  }

  /** With no top-level `+` or `-` at all, a multiplicative operator followed
      by a balanced range with no top-level operator is the major one. */
  lemma MulSplit(t: seq<Token>, l: nat, k: nat, r: nat)
    requires l <= k < r < |t| && IsMultiplicative(t[k].kind)
    requires Enclosed(t, l, r + 1, true)
    requires Balanced(t, k + 1, r + 1) && Enclosed(t, k + 1, r + 1, false)
    ensures MajorOp(t, l, r) == k
  {
    assert forall i :: l <= i <= r ==> !TopOp(t, i, r, true);
    assert TopOp(t, k, r, false);
    assert forall i :: k < i <= r ==> !TopOp(t, i, r, false);
  }

  // ---------------------------------------------------------------------------
  // Printed trees are balanced
  // ---------------------------------------------------------------------------

  /** The parentheses of a printed tree match. */
  lemma {:induction false} PrintDepth(t: seq<Token>, l: nat, x: Ast)
    requires Embedded(t, l, x)
    ensures Balanced(t, l, l + |Print(x)|)
    decreases x
  {
    match x
    case Digit(c) =>
      assert t[l] == Print(x)[0];
      BalancedToken(t, l);
    case Group(e) =>
      EmbeddedGroup(t, l, x);
      PrintDepth(t, l + 1, e);
      BalancedGroup(t, l, |Print(e)|);
    case Bin(op, a, b) =>
      EmbeddedBin(t, l, x);
      PrintDepth(t, l, a);
      PrintDepth(t, l + |Print(a)| + 1, b);
      BalancedJoin(t, l, l + |Print(a)|, l + |Print(x)|);
  }

  /** Every operator of a printed factor lies inside its parentheses. */
  lemma FactorDepth(t: seq<Token>, l: nat, x: Ast)
    requires IsFactor(x) && Embedded(t, l, x)
    ensures Enclosed(t, l, l + |Print(x)|, false)
  {
    if x.Digit? {
      assert t[l] == Print(x)[0];
      BalancedToken(t, l);
    } else {
      EmbeddedGroup(t, l, x);
      PrintDepth(t, l + 1, x.inner);
      BalancedGroup(t, l, |Print(x.inner)|);
    }
  }

  /** Every `+` or `-` of a printed term lies inside its parentheses. */
  lemma {:induction false} TermDepth(t: seq<Token>, l: nat, x: Ast)
    requires IsTerm(x) && Embedded(t, l, x)
    ensures Enclosed(t, l, l + |Print(x)|, true)
    decreases x
  {
    if IsFactor(x) {
      FactorDepth(t, l, x);
    } else {
      var k := l + |Print(x.left)|;
      EmbeddedBin(t, l, x);
      TermDepth(t, l, x.left);
      FactorDepth(t, k + 1, x.right);
      PrintDepth(t, k + 1, x.right);
      EnclosedJoin(t, l, k, l + |Print(x)|);
    }
  }

  /** The operator at the root of a printed sum or difference is the
      rightmost top-level `+` or `-`, since its right operand is a term. */
  lemma AddRootIsMajor(t: seq<Token>, l: nat, x: Ast)
    requires IsExpr(x) && x.Bin? && IsAddOp(x.op) && Embedded(t, l, x)
    ensures MajorOp(t, l, l + |Print(x)| - 1) == l + |Print(x.left)|
  {
    var k := l + |Print(x.left)|;
    SubExprs(x);
    EmbeddedBin(t, l, x);
    TermDepth(t, k + 1, x.right);
    PrintDepth(t, k + 1, x.right);
    AddSplit(t, l, k, l + |Print(x)| - 1);
  }

  /** The operator at the root of a printed product or quotient is the
      rightmost top-level `*` or `/`, and there is no top-level `+` or `-`. */
  lemma MulRootIsMajor(t: seq<Token>, l: nat, x: Ast)
    requires IsExpr(x) && x.Bin? && IsMulOp(x.op) && Embedded(t, l, x)
    ensures MajorOp(t, l, l + |Print(x)| - 1) == l + |Print(x.left)|
  {
    var k := l + |Print(x.left)|;
    SubExprs(x);
    EmbeddedBin(t, l, x);
    TermDepth(t, l, x);
    FactorDepth(t, k + 1, x.right);
    PrintDepth(t, k + 1, x.right);
    MulSplit(t, l, k, l + |Print(x)| - 1);
  }

  /** A printed tree of the grammar, wherever it stands, has the value of
      the tree under the reference semantics of the token ranges. */
  lemma {:induction false} ValuePrinted(t: seq<Token>, l: nat, x: Ast)
    requires IsExpr(x) && Embedded(t, l, x)
    ensures Value(t, l, l + |Print(x)| - 1) == Sem(x)
    decreases x, 1
  {
    SubExprs(x);
    match x
    case Digit(c) =>
      assert t[l] == Print(x)[0];
      AtoiOneDigit(t[l].str);
    case Group(e) =>
      ValueGroup(t, l, x);
    case Bin(op, a, b) =>
      ValueBin(t, l, x);
  }

  /** A printed group is wrapped, and has the value of its inner expression. */
  lemma {:induction false} ValueGroup(t: seq<Token>, l: nat, x: Ast)
    requires x.Group? && IsExpr(x.inner) && Embedded(t, l, x)
    ensures Value(t, l, l + |Print(x)| - 1) == Sem(x)
    decreases x, 0
  {
    EmbeddedGroup(t, l, x);
    PrintDepth(t, l + 1, x.inner);
    BalancedGroup(t, l, |Print(x.inner)|);
    assert Wrapped(t, l, l + |Print(x)| - 1);
    ValuePrinted(t, l + 1, x.inner);
  }

  /** A printed sum, difference, product or quotient is not wrapped, splits
      at its root operator and combines the values of its operands. */
  lemma {:induction false} ValueBin(t: seq<Token>, l: nat, x: Ast)
    requires x.Bin? && IsExpr(x) && Embedded(t, l, x)
    ensures Value(t, l, l + |Print(x)| - 1) == Sem(x)
    decreases x, 0
  {
    var k := l + |Print(x.left)|;
    SubExprs(x);
    BinShape(t, l, x);
    ValuePrinted(t, l, x.left);
    ValuePrinted(t, k + 1, x.right);
    SplitValue(t, l, l + |Print(x)| - 1, k, x);
  }

  /** A printed sum, difference, product or quotient is not wrapped, and its
      root operator is the major operator. */
  lemma BinShape(t: seq<Token>, l: nat, x: Ast)
    requires x.Bin? && IsExpr(x) && Embedded(t, l, x)
    ensures Embedded(t, l, x.left) && Embedded(t, l + |Print(x.left)| + 1, x.right)
    ensures t[l + |Print(x.left)|].kind == OpKind(x.op)
    ensures !Wrapped(t, l, l + |Print(x)| - 1)
    ensures MajorOp(t, l, l + |Print(x)| - 1) == l + |Print(x.left)|
  {
    var r := l + |Print(x)| - 1;
    var k := l + |Print(x.left)|;
    EmbeddedBin(t, l, x);
    PrintDepth(t, l, x.left);
    NotWrapped(t, l, k, r);
    if IsAddOp(x.op) {
      AddRootIsMajor(t, l, x);
    } else {
      MulRootIsMajor(t, l, x);
    }
  }

  /** The reference semantics of a range split at an unwrapped major
      operator combines the operands' results as the tree's semantics does. */
  lemma SplitValue(t: seq<Token>, l: int, r: int, k: int, x: Ast)
    requires 0 <= l < k < r < |t| && !Wrapped(t, l, r) && MajorOp(t, l, r) == k
    requires x.Bin? && t[k].kind == OpKind(x.op)
    requires Value(t, l, k - 1) == Sem(x.left) && Value(t, k + 1, r) == Sem(x.right)
    ensures Value(t, l, r) == Sem(x)
  {
  }

  // ---------------------------------------------------------------------------
  // The evaluator on printed trees
  // ---------------------------------------------------------------------------

  /** The reference semantics of the token ranges gives a printed tree its
      value. */
  lemma GrammarValue(x: Ast)
    requires IsExpr(x)
    ensures Value(Print(x), 0, |Print(x)| - 1) == Sem(x)
  {
    assert Embedded(Print(x), 0, x);
    ValuePrinted(Print(x), 0, x);
  }

  /** `eval` on the tokens of a tree of the grammar succeeds exactly when the
      tree has no error, and then returns its value. */
  lemma GrammarEval(x: Ast)
    requires IsExpr(x)
    ensures Eval(Print(x), 0, |Print(x)| - 1, true).success <==> Sem(x).Ok?
    ensures Sem(x).Ok? ==> Eval(Print(x), 0, |Print(x)| - 1, true).value == Sem(x).v
  {
    GrammarValue(x);
    EvalAgreesWithValue(Print(x), 0, |Print(x)| - 1);
  }

  // ---------------------------------------------------------------------------
  // The text of a tree
  // ---------------------------------------------------------------------------

  /** The tokens of a text from position `p` on are those of its suffix. */
  lemma {:induction false} CharTokensSuffix(e: string, p: nat)
    requires p <= |e|
    ensures CharTokens(e, p) == CharTokens(e[p..], 0)
    decreases |e| - p
  {
    if p < |e| {
      var s := e[p..];
      assert s[0] == e[p] && s[1..] == e[p + 1..];
      CharTokensSuffix(e, p + 1);
      CharTokensSuffix(s, 1);
    }
  }

  /** A text is accepted from position `p` on exactly when its suffix is. */
  lemma {:induction false} LexableSuffix(e: string, p: nat)
    requires p <= |e|
    ensures Lexable(e, p) == Lexable(e[p..], 0)
    decreases |e| - p
  {
    if p < |e| {
      var s := e[p..];
      assert s[0] == e[p] && s[1..] == e[p + 1..];
      LexableSuffix(e, p + 1);
      LexableSuffix(s, 1);
      if p + 1 < |e| {
        assert s[1] == e[p + 1] && s[2..] == e[p + 2..];
        LexableSuffix(e, p + 2);
        LexableSuffix(s, 2);
      }
    }
  }

  /** The tokens of a concatenation are the tokens of its parts. */
  lemma {:induction false} CharTokensAppend(a: string, b: string, p: nat)
    requires p <= |a|
    ensures CharTokens(a + b, p) == CharTokens(a, p) + CharTokens(b, 0)
    decreases |a| - p
  {
    var c := a + b;
    if p == |a| {
      assert c[|a|..] == b;
      CharTokensSuffix(c, |a|);
    } else {
      var x, y, z := CharToken(a[p]), CharTokens(a, p + 1), CharTokens(b, 0);
      assert c[p] == a[p];
      assert CharTokens(c, p) == x + CharTokens(c, p + 1);
      CharTokensAppend(a, b, p + 1);
      assert CharTokens(a, p) == x + y;
      assert x + (y + z) == (x + y) + z;
    }
  }

  /** Two accepted texts form an accepted text. */
  lemma {:induction false} LexableAppend(a: string, b: string, p: nat)
    requires p <= |a| && Lexable(a, p) && Lexable(b, 0)
    ensures Lexable(a + b, p)
    decreases |a| - p
  {
    if p == |a| {
      assert (a + b)[|a|..] == b;
      LexableSuffix(a + b, |a|);
    } else if IsSingle(a[p]) {
      assert (a + b)[p] == a[p];
      LexableAppend(a, b, p + 1);
    } else {
      assert (a + b)[p] == a[p] && (a + b)[p + 1] == a[p + 1];
      LexableAppend(a, b, p + 2);
    }
  }

  /** A text of one character that is accepted on its own. */
  lemma SingleChar(c: char)
    requires IsSingle(c)
    ensures Lexable([c], 0) && CharTokens([c], 0) == CharToken(c)
  {
    assert CharTokens([c], 0) == CharToken(c) + CharTokens([c], 1);
  }

  /** The tokens of the text of a tree of the grammar are the tree's tokens. */
  lemma {:induction false} TextTokens(x: Ast)
    requires IsExpr(x)
    ensures CharTokens(Text(x), 0) == Print(x)
    decreases x
  {
    SubExprs(x);
    match x
    case Digit(c) =>
      SingleChar(c);
    case Group(e) =>
      var s := Text(e);
      TextTokens(e);
      SingleChar('(');
      SingleChar(')');
      CharTokensAppend("(", s, 0);
      CharTokensAppend("(" + s, ")", 0);
    case Bin(op, a, b) =>
      var o := [OpChar(op)];
      TextTokens(a);
      TextTokens(b);
      SingleChar(OpChar(op));
      CharTokensAppend(Text(a), o, 0);
      CharTokensAppend(Text(a) + o, Text(b), 0);
  }

  /** The text of a tree of the grammar is accepted. */
  lemma {:induction false} TextLexable(x: Ast)
    requires IsExpr(x)
    ensures Lexable(Text(x), 0)
    decreases x
  {
    SubExprs(x);
    match x
    case Digit(c) =>
      SingleChar(c);
    case Group(e) =>
      var s := Text(e);
      TextLexable(e);
      SingleChar('(');
      SingleChar(')');
      LexableAppend("(", s, 0);
      LexableAppend("(" + s, ")", 0);
    case Bin(op, a, b) =>
      var o := [OpChar(op)];
      TextLexable(a);
      TextLexable(b);
      SingleChar(OpChar(op));
      LexableAppend(Text(a), o, 0);
      LexableAppend(Text(a) + o, Text(b), 0);
  }

  /** `expr` on an accepted text whose tokens have the reference result `v`
      succeeds exactly when `v` is a value, and then returns it. */
  lemma EvaluateTokens(e: string, toks: seq<Token>, v: Result)
    requires Lexable(e, 0) && CharTokens(e, 0) == toks && Value(toks, 0, |toks| - 1) == v
    ensures Evaluate(e).success <==> v.Ok?
    ensures v.Ok? ==> Evaluate(e).value == v.v
  {
    EvaluateCorrect(e);
  }

  /** End to end: `expr` on the text of a tree of the grammar succeeds
      exactly when the tree has no error, and then returns its value. */
  lemma ExprFollowsGrammar(x: Ast)
    requires IsExpr(x)
    ensures Evaluate(Text(x)).success <==> Sem(x).Ok?
    ensures Sem(x).Ok? ==> Evaluate(Text(x)).value == Sem(x).v
  {
    assert Lexable(Text(x), 0) by {
      TextLexable(x);
    }
    assert CharTokens(Text(x), 0) == Print(x) by {
      TextTokens(x);
    }
    assert Value(Print(x), 0, |Print(x)| - 1) == Sem(x) by {
      GrammarValue(x);
    }
    EvaluateTokens(Text(x), Print(x), Sem(x));
  }
}
