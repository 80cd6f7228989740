/** arithmetic_eval.py on expressions of names, decimal numerals, `+`, `-`, `*` and parentheses:
    the tokens of a text, the tree ast.parse makes of them, and `_eval` over the tree. */
module ArithmeticEval {
  import opened Numerals
  import opened Wrappers

  datatype Token = Num(n: nat) | Name(id: string) | Op(op: BinOp) | Open | Close | Malformed(text: string)

  datatype BinOp = Add | Sub | Mul

  datatype Expr = Const(n: int) | Ref(id: string) | Bin(op: BinOp, left: Expr, right: Expr)

  // ---------- Tokens ----------

  predicate IsWordChar(c: char) {
    IsDigit(c) || 'a' <= c <= 'z' || 'A' <= c <= 'Z' || c == '_'
  }

  predicate IsWord(s: string) {
    forall i :: 0 <= i < |s| ==> IsWordChar(s[i])
  }

  predicate IsIdentifier(s: string) {
    IsWord(s) && s != "" && !IsDigit(s[0])
  }

  /** The length of the word at the front. */
  function WordLength(s: string): (n: nat)
    ensures n <= |s| && IsWord(s[..n]) && (n < |s| ==> !IsWordChar(s[n]))
    ensures s != "" && IsWordChar(s[0]) ==> n > 0
  {
    if s == "" || !IsWordChar(s[0]) then 0
    else
      var n := WordLength(s[1..]);
      assert s[..n + 1] == [s[0]] + s[1..][..n];
      n + 1
  }

  /** A word is a name or a numeral; numerals have no leading zero. */
  function WordToken(w: string): Token {
    if IsIdentifier(w) then Name(w)
    else if w != "" && AllDigits(w) && (w[0] != '0' || |w| == 1) then Num(Value(w))
    else Malformed(w)
  }

  function CharTokens(c: char): seq<Token> {
    match c
    case ' ' => []
    case '+' => [Op(Add)]
    case '-' => [Op(Sub)]
    case '*' => [Op(Mul)]
    case '(' => [Open]
    case ')' => [Close]
    case _ => [Malformed([c])]
  }

  /** A piece of a text is a word or a single other character. */
  function PieceLength(s: string): (n: nat)
    requires s != ""
    ensures 0 < n <= |s|
  {
    if IsWordChar(s[0]) then WordLength(s) else 1
  }

  function PieceTokens(ofWord: string -> seq<Token>, piece: string): seq<Token>
    requires piece != ""
  {
    if IsWordChar(piece[0]) then ofWord(piece) else CharTokens(piece[0])
  }

  /** The tokens of a text, with `ofWord` giving those of its words. */
  function TokensBy(ofWord: string -> seq<Token>, s: string): seq<Token>
    decreases |s|
  {
    if s == "" then []
    else
      var n := PieceLength(s);
      PieceTokens(ofWord, s[..n]) + TokensBy(ofWord, s[n..])
  }

  function Tokens(s: string): seq<Token> {
    TokensBy(w => [WordToken(w)], s)
  }

  // ---------- The tree ----------

  type Parsed = Option<(Expr, seq<Token>)>

  function ParseSum(t: seq<Token>): (r: Parsed)
    ensures r.Some? ==> |r.value.1| < |t|
    decreases |t|, 2
  {
    match ParseProduct(t)
    case None => None
    case Some(p) => ParseSumRest(p.0, p.1)
  }

  function ParseSumRest(left: Expr, t: seq<Token>): (r: Parsed)
    ensures r.Some? ==> |r.value.1| <= |t|
    decreases |t|, 2
  {
    if t != [] && t[0].Op? && t[0].op != Mul then
      match ParseProduct(t[1..])
      case None => None
      case Some(p) => ParseSumRest(Bin(t[0].op, left, p.0), p.1)
    else
      Some((left, t))
  }

  function ParseProduct(t: seq<Token>): (r: Parsed)
    ensures r.Some? ==> |r.value.1| < |t|
    decreases |t|, 1
  {
    match ParseAtom(t)
    case None => None
    case Some(p) => ParseProductRest(p.0, p.1)
  }

  function ParseProductRest(left: Expr, t: seq<Token>): (r: Parsed)
    ensures r.Some? ==> |r.value.1| <= |t|
    decreases |t|, 1
  {
    if t != [] && t[0] == Op(Mul) then
      match ParseAtom(t[1..])
      case None => None
      case Some(p) => ParseProductRest(Bin(Mul, left, p.0), p.1)
    else
      Some((left, t))
  }

  function ParseAtom(t: seq<Token>): (r: Parsed)
    ensures r.Some? ==> |r.value.1| < |t|
    decreases |t|, 0
  {
    if t == [] then None
    else
      match t[0]
      case Num(n) => Some((Const(n), t[1..]))
      case Name(id) => Some((Ref(id), t[1..]))
      case Open =>
        (match ParseSum(t[1..])
         case None => None
         case Some(p) => if p.1 != [] && p.1[0] == Close then Some((p.0, p.1[1..])) else None)
      case _ => None
  }

  function Parse(t: seq<Token>): Option<Expr> {
    match ParseSum(t)
    case None => None
    case Some(p) => if p.1 == [] then Some(p.0) else None
  }

  // ---------- Evaluation ----------

  function Apply(op: BinOp, a: int, b: int): int {
    match op
    case Add => a + b
    case Sub => a - b
    case Mul => a * b
  }

  function Eval(e: Expr, constants: map<string, int>): Option<int> {
    match e
    case Const(n) => Some(n)
    case Ref(id) => if id in constants then Some(constants[id]) else None
    case Bin(op, left, right) =>
      (match (Eval(left, constants), Eval(right, constants))
       case (Some(a), Some(b)) => Some(Apply(op, a, b))
       case _ => None)
  }

  function EvalTokens(t: seq<Token>, constants: map<string, int>): Option<int> {
    match Parse(t)
    case None => None
    case Some(e) => Eval(e, constants)
  }

  /** The value of an expression, or an error: ast.parse takes a leading space for an indent. */
  function Evaluate(expr: string, constants: map<string, int>): Option<int> {
    if expr != "" && expr[0] == ' ' then None else EvalTokens(Tokens(expr), constants)
  }

  // ---------- Precedence and grouping ----------

  /** Trees that can be written: a negative constant cannot. */
  predicate Writable(e: Expr) {
    match e
    case Const(n) => n >= 0
    case Ref(_) => true
    case Bin(_, left, right) => Writable(left) && Writable(right)
  }

  /** A tree written with no more parentheses than needed: `*` binds tighter, and both kinds of
      operators group to the left. */
  function WriteSum(e: Expr): seq<Token>
    requires Writable(e)
    decreases e, 3
  {
    if e.Bin? && e.op != Mul then WriteBin(e) else WriteProduct(e)
  }

  function WriteProduct(e: Expr): seq<Token>
    requires Writable(e)
    decreases e, 2
  {
    if e.Bin? && e.op == Mul then WriteBin(e) else WriteAtom(e)
  }

  function WriteAtom(e: Expr): seq<Token>
    requires Writable(e)
    decreases e, 1
  {
    match e
    case Const(n) => [Num(n)]
    case Ref(id) => [Name(id)]
    case Bin(_, _, _) => [Open] + (WriteBin(e) + [Close])
  }

  function WriteBin(e: Expr): seq<Token>
    requires Writable(e) && e.Bin?
    decreases e, 0
  {
    if e.op == Mul then WriteProduct(e.left) + ([Op(Mul)] + WriteAtom(e.right))
    else WriteSum(e.left) + ([Op(e.op)] + WriteProduct(e.right))
  }

  lemma Regroup(a: seq<Token>, op: Token, b: seq<Token>, rest: seq<Token>)
    ensures a + ([op] + b) + rest == a + ([op] + (b + rest))
    ensures ([op] + (b + rest))[1..] == b + rest
  {
  }

  lemma InParentheses(inner: seq<Token>, e: Expr, rest: seq<Token>)
    requires ParseSum(inner + ([Close] + rest)) == Some((e, [Close] + rest))
    ensures ParseAtom([Open] + (inner + [Close]) + rest) == Some((e, rest))
  {
    var t := [Open] + (inner + [Close]) + rest;
    assert t[1..] == inner + ([Close] + rest);
    assert ([Close] + rest)[1..] == rest;
  }

  lemma {:induction false} AtomWritten(e: Expr, rest: seq<Token>)
    requires Writable(e)
    ensures ParseAtom(WriteAtom(e) + rest) == Some((e, rest))
    decreases e, 1
  {
    if e.Bin? {
      BinWritten(e, [Close] + rest);
      InParentheses(WriteBin(e), e, rest);
    } else {
      assert (WriteAtom(e) + rest)[1..] == rest;
    }
  }

  lemma {:induction false} BinWritten(e: Expr, rest: seq<Token>)
    requires Writable(e) && e.Bin? && rest != [] && !rest[0].Op?
    ensures ParseSum(WriteBin(e) + rest) == Some((e, rest))
    decreases e, 0
  {
    var op, left, right := e.op, e.left, e.right;
    if op == Mul {
      Regroup(WriteProduct(left), Op(Mul), WriteAtom(right), rest);
      ProductWritten(left, [Op(Mul)] + (WriteAtom(right) + rest));
      AtomWritten(right, rest);
      assert ParseProductRest(e, rest) == Some((e, rest));
    } else {
      Regroup(WriteSum(left), Op(op), WriteProduct(right), rest);
      SumWritten(left, [Op(op)] + (WriteProduct(right) + rest));
      ProductWritten(right, rest);
    }
  }

  lemma {:induction false} ProductWritten(e: Expr, rest: seq<Token>)
    requires Writable(e)
    ensures ParseProduct(WriteProduct(e) + rest) == ParseProductRest(e, rest)
    decreases e, 2
  {
    if e.Bin? && e.op == Mul {
      Regroup(WriteProduct(e.left), Op(Mul), WriteAtom(e.right), rest);
      ProductWritten(e.left, [Op(Mul)] + (WriteAtom(e.right) + rest));
      AtomWritten(e.right, rest);
    } else {
      AtomWritten(e, rest);
    }
  }

  lemma {:induction false} SumWritten(e: Expr, rest: seq<Token>)
    requires Writable(e) && (rest != [] ==> rest[0] != Op(Mul))
    ensures ParseSum(WriteSum(e) + rest) == ParseSumRest(e, rest)
    decreases e, 3
  {
    if e.Bin? && e.op != Mul {
      Regroup(WriteSum(e.left), Op(e.op), WriteProduct(e.right), rest);
      SumWritten(e.left, [Op(e.op)] + (WriteProduct(e.right) + rest));
      ProductWritten(e.right, rest);
    } else {
      ProductWritten(e, rest);
    }
  }

  /** Reading what was written gives the tree back. */
  lemma ParseWritten(e: Expr)
    requires Writable(e)
    ensures Parse(WriteSum(e)) == Some(e)
  {
    SumWritten(e, []);
    assert WriteSum(e) + [] == WriteSum(e);
  }
}
