/** What the evaluator makes of texts: the value of a written expression is that of ordinary
    arithmetic, and nothing in a text is passed over but spaces. */
module ArithmeticTexts {
  import opened ArithmeticEval
  import opened DimSizes
  import opened DimSizeLaws
  import opened DimSizeMeaning
  import opened Numerals
  import opened Text
  import opened Wrappers

  // ---------- The text of tokens ----------

  function TokenText(token: Token): string {
    match token
    case Num(n) => Decimal(n)
    case Name(id) => id
    case Op(Add) => "+"
    case Op(Sub) => "-"
    case Op(Mul) => "*"
    case Open => "("
    case Close => ")"
    case Malformed(text) => text
  }

  function TextOf(t: seq<Token>): string {
    if t == [] then "" else TokenText(t[0]) + TextOf(t[1..])
  }

  predicate IsOperand(token: Token) {
    token.Num? || token.Name?
  }

  /** Tokens that can be told apart in a text: no name or numeral comes right after another. */
  predicate Separated(t: seq<Token>) {
    && (forall i :: 0 <= i < |t| ==> !t[i].Malformed? && (t[i].Name? ==> IsIdentifier(t[i].id)))
    && (forall i :: 0 < i < |t| ==> !IsOperand(t[i - 1]) || !IsOperand(t[i]))
  }

  lemma TokensOfOperand(token: Token)
    requires IsOperand(token) && (token.Name? ==> IsIdentifier(token.id))
    ensures Tokens(TokenText(token)) == [token]
    ensures TokenText(token) != "" && TokenText(token)[0] != ' '
  {
    if token.Num? {
      TokensOfDecimal(token.n);
    } else {
      TokensOfWord(token.id);
    }
  }

  lemma OperandFirst(token: Token, rest: string)
    requires IsOperand(token) && (token.Name? ==> IsIdentifier(token.id)) && Breaks(rest)
    ensures Tokens(TokenText(token) + rest) == [token] + Tokens(rest)
    ensures TokenText(token) + rest != "" && (TokenText(token) + rest)[0] != ' '
  {
    TokensOfOperand(token);
    TokensSplit(w => [WordToken(w)], TokenText(token), rest);
  }

  lemma SymbolOfToken(token: Token) returns (c: char)
    requires !IsOperand(token) && !token.Malformed?
    ensures TokenText(token) == [c] && !IsWordChar(c) && c != ' ' && CharTokens(c) == [token]
  {
    c := TokenText(token)[0];
  }

  lemma SymbolFirst(token: Token, rest: string)
    requires !IsOperand(token) && !token.Malformed?
    ensures Tokens(TokenText(token) + rest) == [token] + Tokens(rest)
    ensures Breaks(TokenText(token) + rest)
    ensures TokenText(token) + rest != "" && (TokenText(token) + rest)[0] != ' '
  {
    var c := SymbolOfToken(token);
    TokensOfSeparator(c, rest);
  }

  lemma SeparatedRest(t: seq<Token>)
    requires t != [] && Separated(t)
    ensures Separated(t[1..]) && t == [t[0]] + t[1..]
    ensures IsOperand(t[0]) && t[1..] != [] ==> !IsOperand(t[1..][0])
  {
    assert forall i :: 0 <= i < |t[1..]| ==> t[1..][i] == t[i + 1];
  }

  /** Reading the text of separated tokens gives the tokens. */
  lemma {:induction false} TokensOfText(t: seq<Token>)
    requires Separated(t)
    ensures Tokens(TextOf(t)) == t
    ensures t == [] || !IsOperand(t[0]) ==> Breaks(TextOf(t))
    ensures t != [] ==> TextOf(t) != "" && TextOf(t)[0] != ' '
  {
    if t == [] {
    } else {
      SeparatedRest(t);
      TokensOfText(t[1..]);
      if IsOperand(t[0]) {
        OperandFirst(t[0], TextOf(t[1..]));
      } else {
        SymbolFirst(t[0], TextOf(t[1..]));
      }
    }
  }

  // ---------- The value of a written expression ----------

  /** `v` is the value of the expression by ordinary arithmetic. */
  ghost predicate IsValue(e: Expr, constants: map<string, int>, v: int) {
    match e
    case Const(n) => v == n
    case Ref(id) => id in constants && v == constants[id]
    case Bin(Add, left, right) =>
      exists a, b :: IsValue(left, constants, a) && IsValue(right, constants, b) && v == a + b
    case Bin(Sub, left, right) =>
      exists a, b :: IsValue(left, constants, a) && IsValue(right, constants, b) && v == a - b
    case Bin(Mul, left, right) =>
      exists a, b :: IsValue(left, constants, a) && IsValue(right, constants, b) && v == a * b
  }

  lemma {:induction false} EvalIffValue(e: Expr, constants: map<string, int>, v: int)
    ensures Eval(e, constants) == Some(v) <==> IsValue(e, constants, v)
  {
    if e.Bin? {
      forall a ensures Eval(e.left, constants) == Some(a) <==> IsValue(e.left, constants, a) {
        EvalIffValue(e.left, constants, a);
      }
      forall b ensures Eval(e.right, constants) == Some(b) <==> IsValue(e.right, constants, b) {
        EvalIffValue(e.right, constants, b);
      }
    }
  }

  /** The names in the expression can be written. */
  predicate WellNamed(e: Expr) {
    match e
    case Const(_) => true
    case Ref(id) => IsIdentifier(id)
    case Bin(_, left, right) => WellNamed(left) && WellNamed(right)
  }

  lemma SeparatedByOperator(a: seq<Token>, op: BinOp, b: seq<Token>)
    requires Separated(a) && Separated(b)
    ensures Separated(a + ([Op(op)] + b))
  {
  }

  lemma SeparatedInParentheses(t: seq<Token>)
    requires Separated(t)
    ensures Separated([Open] + (t + [Close]))
  {
  }

  lemma {:induction false} WrittenIsSeparated(e: Expr)
    requires Writable(e) && WellNamed(e)
    ensures Separated(WriteSum(e)) && Separated(WriteProduct(e)) && Separated(WriteAtom(e))
  {
    if e.Bin? {
      WrittenIsSeparated(e.left);
      WrittenIsSeparated(e.right);
      if e.op == Mul {
        SeparatedByOperator(WriteProduct(e.left), Mul, WriteAtom(e.right));
      } else {
        SeparatedByOperator(WriteSum(e.left), e.op, WriteProduct(e.right));
      }
      SeparatedInParentheses(WriteBin(e));
      assert WriteProduct(e) == if e.op == Mul then WriteBin(e) else WriteAtom(e);
      assert WriteSum(e) == WriteBin(e);
    } else {
      assert WriteSum(e) == WriteProduct(e) == WriteAtom(e);
    }
  }

  /** Any expression, written with no more parentheses than needed, is evaluated to its value;
      and there is no result if it has none. */
  lemma WrittenIsEvaluated(e: Expr, constants: map<string, int>, v: int)
    requires Writable(e) && WellNamed(e)
    ensures Evaluate(TextOf(WriteSum(e)), constants) == Some(v) <==> IsValue(e, constants, v)
  {
    WrittenIsSeparated(e);
    TokensOfText(WriteSum(e));
    ParseWritten(e);
    EvalIffValue(e, constants, v);
  }

  /** The texts of sums, differences and products of two numerals. */
  lemma NumeralsAreCalculated(a: nat, b: nat)
    ensures Evaluate(Decimal(a) + "+" + Decimal(b), map[]) == Some(a + b)
    ensures Evaluate(Decimal(a) + "-" + Decimal(b), map[]) == Some(a - b)
    ensures Evaluate(Decimal(a) + "*" + Decimal(b), map[]) == Some(a * b)
  {
    TwoOperands(a, Add, b);
    TwoOperands(a, Sub, b);
    TwoOperands(a, Mul, b);
  }

  lemma TwoOperands(a: nat, op: BinOp, b: nat)
    ensures Evaluate(Decimal(a) + TokenText(Op(op)) + Decimal(b), map[])
         == Some(match op case Add => a + b case Sub => a - b case Mul => a * b)
  {
    var e := Bin(op, Const(a), Const(b));
    var t := [Num(a), Op(op), Num(b)];
    assert WriteSum(e) == [Num(a)] + ([Op(op)] + [Num(b)]) == t by {
      assert WriteSum(Const(a)) == WriteProduct(Const(a)) == WriteAtom(Const(a)) == [Num(a)];
      assert WriteProduct(Const(b)) == WriteAtom(Const(b)) == [Num(b)];
      assert WriteSum(e) == WriteBin(e);
    }
    TextOfThree(t[0], t[1], t[2]);
    var v := match op case Add => a + b case Sub => a - b case Mul => a * b;
    assert IsValue(Const(a), map[], a) && IsValue(Const(b), map[], b);
    WrittenIsEvaluated(e, map[], v);
  }

  lemma TextOfThree(x: Token, y: Token, z: Token)
    ensures TextOf([x, y, z]) == TokenText(x) + TokenText(y) + TokenText(z)
  {
    assert [x, y, z][1..] == [y, z] && [y, z][1..] == [z] && [z][1..] == [];
    assert TextOf([z]) == TokenText(z) + "" == TokenText(z);
    assert TextOf([x, y, z]) == TokenText(x) + (TokenText(y) + TokenText(z));
  }

  predicate IsLetter(c: char) {
    c in UPPER || c in LOWER || c == '_'
  }

  lemma LettersMakeWords(c: char)
    requires IsLetter(c)
    ensures IsWordChar(c) && !IsDigit(c)
  {
  }

  /** A name of letters, digits and underscores stands for its constant. */
  lemma NamesAreLookedUp(id: string, constants: map<string, int>)
    requires id != "" && IsLetter(id[0]) && forall c :: c in id ==> IsLetter(c) || c in "0123456789"
    ensures Evaluate(id, constants) == if id in constants then Some(constants[id]) else None
  {
    forall i | 0 <= i < |id| ensures IsWordChar(id[i]) {
      assert id[i] in id;
      if IsLetter(id[i]) { LettersMakeWords(id[i]); }
    }
    LettersMakeWords(id[0]);
    WordValue(id, constants);
  }

  /** The size that an expression with labels is given: its value by ordinary arithmetic with the
      labels bound to the sizes, unless a label clashes or one of negative size occurs. */
  lemma WrittenSizeIsValue(e: Expr, sizes: seq<Size>, v: int)
    requires Writable(e) && WellNamed(e) && AreLabels(sizes)
    requires NoClash(TextOf(WriteSum(e)), sizes) && !UsesNegative(TextOf(WriteSum(e)), Env(sizes))
    ensures Evaluate(ReplaceAll(TextOf(WriteSum(e)), sizes), map[]) == Some(v) <==> IsValue(e, Env(sizes), v)
  {
    ReplacedValue(TextOf(WriteSum(e)), sizes);
    WrittenIsEvaluated(e, Env(sizes), v);
  }

  // ---------- Spaces ----------

  /** A text that starts with a space has no value. */
  lemma LeadingSpaceHasNoValue(text: string, constants: map<string, int>)
    ensures Evaluate(" " + text, constants) == None
  {
  }

  /** Elsewhere a space does nothing but end a word. */
  lemma SpaceSeparates(before: string, after: string)
    ensures Tokens(before + (" " + after)) == Tokens(before) + Tokens(after)
  {
    var rest := [' '] + after;
    TokensOfSeparator(' ', after);
    assert Tokens(rest) == Tokens(after);
    TokensSplit(w => [WordToken(w)], before, rest);
  }

  // ---------- Nothing is passed over ----------

  /** How many parentheses are still open after some tokens. */
  function Depth(t: seq<Token>): int {
    if t == [] then 0 else (match t[0] case Open => 1 case Close => -1 case _ => 0) + Depth(t[1..])
  }

  function WithoutParentheses(t: seq<Token>): seq<Token> {
    if t == [] then [] else (if t[0].Open? || t[0].Close? then [] else [t[0]]) + WithoutParentheses(t[1..])
  }

  /** The tokens of a tree from left to right. */
  function InOrder(e: Expr): seq<Token> {
    match e
    case Const(n) => if n >= 0 then [Num(n)] else [Op(Sub), Num(-n)]
    case Ref(id) => [Name(id)]
    case Bin(op, left, right) => InOrder(left) + ([Op(op)] + InOrder(right))
  }

  /** What was read up to `r`'s remaining tokens is all in the tree. */
  predicate ReadsAll(before: seq<Token>, t: seq<Token>, r: Parsed) {
    r.Some? ==>
      && Depth(t) == Depth(r.value.1)
      && before + WithoutParentheses(t) == InOrder(r.value.0) + WithoutParentheses(r.value.1)
  }

  lemma {:induction false} AtomReadsAll(t: seq<Token>)
    ensures ReadsAll([], t, ParseAtom(t))
    decreases |t|, 0
  {
    if t != [] && t[0] == Open {
      SumReadsAll(t[1..]);
    }
  }

  lemma {:induction false} ProductReadsAll(t: seq<Token>)
    ensures ReadsAll([], t, ParseProduct(t))
    decreases |t|, 1
  {
    AtomReadsAll(t);
    var p := ParseAtom(t);
    if p.Some? {
      ProductRestReadsAll(p.value.0, p.value.1);
    }
  }

  lemma {:induction false} ProductRestReadsAll(left: Expr, t: seq<Token>)
    ensures ReadsAll(InOrder(left), t, ParseProductRest(left, t))
    decreases |t|, 1
  {
    if t != [] && t[0] == Op(Mul) {
      AtomReadsAll(t[1..]);
      var p := ParseAtom(t[1..]);
      if p.Some? {
        OperatorRead(left, Mul, p.value.0, t, p.value.1);
        ProductRestReadsAll(Bin(Mul, left, p.value.0), p.value.1);
      }
    }
  }

  lemma OperatorRead(left: Expr, op: BinOp, right: Expr, t: seq<Token>, rest: seq<Token>)
    requires t != [] && t[0] == Op(op) && ReadsAll([], t[1..], Some((right, rest)))
    ensures Depth(t) == Depth(rest)
    ensures InOrder(left) + WithoutParentheses(t) == InOrder(Bin(op, left, right)) + WithoutParentheses(rest)
  {
    assert [] + WithoutParentheses(t[1..]) == WithoutParentheses(t[1..]);
    assert WithoutParentheses(t) == [Op(op)] + (InOrder(right) + WithoutParentheses(rest));
    Regroup(InOrder(left), Op(op), InOrder(right), WithoutParentheses(rest));
  }

  lemma {:induction false} SumReadsAll(t: seq<Token>)
    ensures ReadsAll([], t, ParseSum(t))
    decreases |t|, 2
  {
    ProductReadsAll(t);
    var p := ParseProduct(t);
    if p.Some? {
      SumRestReadsAll(p.value.0, p.value.1);
    }
  }

  lemma {:induction false} SumRestReadsAll(left: Expr, t: seq<Token>)
    ensures ReadsAll(InOrder(left), t, ParseSumRest(left, t))
    decreases |t|, 2
  {
    if t != [] && t[0].Op? && t[0].op != Mul {
      ProductReadsAll(t[1..]);
      var p := ParseProduct(t[1..]);
      if p.Some? {
        OperatorRead(left, t[0].op, p.value.0, t, p.value.1);
        SumRestReadsAll(Bin(t[0].op, left, p.value.0), p.value.1);
      }
    }
  }

  /** A text that is parsed has balanced parentheses, and all its other tokens are in the tree, in
      the order of the text. */
  lemma ParsedInOrder(text: string)
    ensures var e := Parse(Tokens(text));
            e.Some? ==> Depth(Tokens(text)) == 0 && WithoutParentheses(Tokens(text)) == InOrder(e.value)
  {
    var t := Tokens(text);
    SumReadsAll(t);
    assert [] + WithoutParentheses(t) == WithoutParentheses(t);
    if Parse(t).Some? {
      assert InOrder(Parse(t).value) + [] == InOrder(Parse(t).value);
    }
  }

  lemma {:induction false} InOrderIsWellFormed(e: Expr)
    ensures forall token :: token in InOrder(e) ==> !token.Malformed?
  {
    if e.Bin? {
      InOrderIsWellFormed(e.left);
      InOrderIsWellFormed(e.right);
    }
  }

  lemma {:induction false} OtherTokensStay(t: seq<Token>, token: Token)
    requires token in t && !token.Open? && !token.Close?
    ensures token in WithoutParentheses(t)
  {
    if t[0] != token {
      OtherTokensStay(t[1..], token);
    }
  }

  /** A character or a word that is none of those known leaves no value. */
  lemma MalformedHasNoValue(text: string, constants: map<string, int>, token: Token)
    requires token in Tokens(text) && token.Malformed?
    ensures Evaluate(text, constants) == None
  {
    ParsedInOrder(text);
    OtherTokensStay(Tokens(text), token);
    var e := Parse(Tokens(text));
    if e.Some? {
      InOrderIsWellFormed(e.value);
      assert false;
    }
  }
}
