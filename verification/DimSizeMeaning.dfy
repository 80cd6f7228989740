/** The value of a dimension expression whose labels are replaced in its text, against its value
    where the labels are bound to the sizes. */
module DimSizeMeaning {
  import opened ArithmeticEval
  import opened DimSizes
  import opened DimSizeLaws
  import opened Wrappers

  function SubstituteExpr(env: map<string, int>, e: Expr): Expr {
    match e
    case Const(_) => e
    case Ref(id) => if id in env then Const(env[id]) else e
    case Bin(op, left, right) => Bin(op, SubstituteExpr(env, left), SubstituteExpr(env, right))
  }

  lemma {:induction false} EvalSubstituted(env: map<string, int>, e: Expr)
    ensures Eval(SubstituteExpr(env, e), map[]) == Eval(e, env)
  {
    match e
    case Bin(_, left, right) =>
      EvalSubstituted(env, left);
      EvalSubstituted(env, right);
    case _ =>
  }

  // ---------- Parsing substituted tokens ----------

  predicate IsNegative(env: map<string, int>, token: Token) {
    token.Name? && token.id in env && env[token.id] < 0
  }

  function Negatives(env: map<string, int>, t: seq<Token>): nat {
    if t == [] then 0 else (if IsNegative(env, t[0]) then 1 else 0) + Negatives(env, t[1..])
  }

  lemma HeadKept(env: map<string, int>, t: seq<Token>)
    requires t != [] && !IsNegative(env, t[0])
    ensures var u := SubstituteAll(env, t);
            && u != [] && u[1..] == SubstituteAll(env, t[1..])
            && (if t[0].Name? then u[0].Num? || u[0].Name? else u[0] == t[0])
            && Substitute(env, t[0]) == [u[0]]
  {
  }

  /** How the parse `s` of the substituted tokens follows from the parse `r` of tokens `t`. A
      negative number is two tokens, which no rule of the grammar takes for an atom. */
  predicate Follows(env: map<string, int>, t: seq<Token>, r: Parsed, s: Parsed) {
    match r
    case None => Negatives(env, t) == 0 ==> s == None
    case Some(p) =>
      && Negatives(env, p.1) <= Negatives(env, t)
      && (p.1 == [] || !IsNegative(env, p.1[0]) ==>
            s == if Negatives(env, p.1) < Negatives(env, t) then None
                 else Some((SubstituteExpr(env, p.0), SubstituteAll(env, p.1))))
  }

  lemma {:induction false} AtomFollows(env: map<string, int>, t: seq<Token>)
    ensures Follows(env, t, ParseAtom(t), ParseAtom(SubstituteAll(env, t)))
    decreases |t|, 0
  {
    if t != [] && !IsNegative(env, t[0]) {
      HeadKept(env, t);
      if t[0] == Open {
        SumFollows(env, t[1..]);
        var p := ParseSum(t[1..]);
        if p.Some? && p.value.1 != [] && !IsNegative(env, p.value.1[0]) {
          HeadKept(env, p.value.1);
        }
      }
    }
  }

  lemma {:induction false} ProductFollows(env: map<string, int>, t: seq<Token>)
    ensures Follows(env, t, ParseProduct(t), ParseProduct(SubstituteAll(env, t)))
    decreases |t|, 1
  {
    AtomFollows(env, t);
    var p := ParseAtom(t);
    if p.Some? {
      ProductRestFollows(env, p.value.0, p.value.1);
    }
  }

  lemma {:induction false} ProductRestFollows(env: map<string, int>, left: Expr, t: seq<Token>)
    ensures Follows(env, t, ParseProductRest(left, t),
                    ParseProductRest(SubstituteExpr(env, left), SubstituteAll(env, t)))
    decreases |t|, 1
  {
    if t != [] && !IsNegative(env, t[0]) {
      HeadKept(env, t);
      if t[0] == Op(Mul) {
        AtomFollows(env, t[1..]);
        var p := ParseAtom(t[1..]);
        if p.Some? {
          ProductRestFollows(env, Bin(Mul, left, p.value.0), p.value.1);
        }
      }
    }
  }

  lemma {:induction false} SumFollows(env: map<string, int>, t: seq<Token>)
    ensures Follows(env, t, ParseSum(t), ParseSum(SubstituteAll(env, t)))
    decreases |t|, 2
  {
    ProductFollows(env, t);
    var p := ParseProduct(t);
    if p.Some? {
      SumRestFollows(env, p.value.0, p.value.1);
    }
  }

  lemma {:induction false} SumRestFollows(env: map<string, int>, left: Expr, t: seq<Token>)
    ensures Follows(env, t, ParseSumRest(left, t), ParseSumRest(SubstituteExpr(env, left), SubstituteAll(env, t)))
    decreases |t|, 2
  {
    if t != [] && !IsNegative(env, t[0]) {
      HeadKept(env, t);
      if t[0].Op? && t[0].op != Mul {
        ProductFollows(env, t[1..]);
        var p := ParseProduct(t[1..]);
        if p.Some? {
          SumRestFollows(env, Bin(t[0].op, left, p.value.0), p.value.1);
        }
      }
    }
  }

  // ---------- The value of the text ----------

  /** Whether a label of negative size occurs in the text. */
  predicate UsesNegative(text: string, env: map<string, int>) {
    exists w :: w in Words(text) && IsNegative(env, WordToken(w))
  }

  lemma {:induction false} NegativesConcat(env: map<string, int>, t: seq<Token>, u: seq<Token>)
    ensures Negatives(env, t + u) == Negatives(env, t) + Negatives(env, u)
  {
    if t == [] {
      assert t + u == u;
    } else {
      assert (t + u)[1..] == t[1..] + u;
      NegativesConcat(env, t[1..], u);
    }
  }

  lemma NegativesOfPiece(env: map<string, int>, piece: string)
    requires piece != ""
    ensures Negatives(env, PieceTokens(w => [WordToken(w)], piece))
            == if IsWordChar(piece[0]) && IsNegative(env, WordToken(piece)) then 1 else 0
  {
    var t := PieceTokens(w => [WordToken(w)], piece);
    assert t == [] || t[1..] == [];
  }

  lemma {:induction false} NegativesAreUsed(env: map<string, int>, text: string)
    ensures Negatives(env, Tokens(text)) > 0 <==> UsesNegative(text, env)
    decreases |text|
  {
    if text == "" {
    } else {
      var n := PieceLength(text);
      NegativesAreUsed(env, text[n..]);
      NegativesOfPiece(env, text[..n]);
      NegativesConcat(env, PieceTokens(w => [WordToken(w)], text[..n]), Tokens(text[n..]));
      assert IsWordChar(text[0]) ==> text[..n] in Words(text);
    }
  }

  lemma SubstitutedValue(env: map<string, int>, t: seq<Token>)
    ensures Negatives(env, t) == 0 ==> EvalTokens(SubstituteAll(env, t), map[]) == EvalTokens(t, env)
    ensures Negatives(env, t) > 0 && EvalTokens(t, env).Some? ==> EvalTokens(SubstituteAll(env, t), map[]) == None
  {
    SumFollows(env, t);
    var p := ParseSum(t);
    if p.Some? {
      EvalSubstituted(env, p.value.0);
      if p.value.1 != [] && !IsNegative(env, p.value.1[0]) {
        HeadKept(env, p.value.1);
      }
    }
  }

  lemma LeadingSpaceStays(text: string, sizes: seq<Size>)
    requires AreLabels(sizes) && NoClash(text, sizes)
    ensures var s := ReplaceAll(text, sizes); (s != "" && s[0] == ' ') <==> (text != "" && text[0] == ' ')
  {
    if text == "" {
      EmptyStays(sizes);
    } else {
      var n := PieceLength(text);
      assert text == text[..n] + text[n..];
      if IsWordChar(text[0]) {
        assert text[..n] in Words(text);
        WordsAreWords(text);
        SafeWord(text[..n], sizes);
        ReplaceAllSplits(text[..n], text[n..], sizes);
      } else {
        assert text[..1] == [text[0]];
        SeparatorStays(text[0], text[1..], sizes);
      }
    }
  }

  /** Without clashes, and unless a label of negative size occurs, the value after the textual
      replacements is that of the expression with its labels bound to the sizes; so it is that of
      an expression that has one exactly when no label of negative size occurs. */
  lemma ReplacedValue(text: string, sizes: seq<Size>)
    requires AreLabels(sizes) && NoClash(text, sizes)
    ensures !UsesNegative(text, Env(sizes))
            ==> Evaluate(ReplaceAll(text, sizes), map[]) == Evaluate(text, Env(sizes))
    ensures Evaluate(text, Env(sizes)).Some?
            ==> (Evaluate(ReplaceAll(text, sizes), map[]) == Evaluate(text, Env(sizes))
                 <==> !UsesNegative(text, Env(sizes)))
  {
    TokensAreSubstituted(text, sizes);
    LeadingSpaceStays(text, sizes);
    SubstitutedValue(Env(sizes), Tokens(text));
    NegativesAreUsed(Env(sizes), text);
  }

  const NESTED := [Size("N", 2), Size("NX", 3)]

  lemma NestedReplaced()
    ensures ReplaceAll("NX", NESTED) == "2X"
  {
    assert Replace("X", "N", "2") == "X" && Replace("NX", "N", "2") == "2X";
    assert Replace("2X", "NX", "3") == "2X" by {
      assert Replace("X", "NX", "3") == "X";
    }
    assert ReplaceAll("2X", NESTED[1..]) == ReplaceAll("2X", NESTED[2..]);
  }

  lemma NestedClashes()
    ensures !NoClash("NX", NESTED)
  {
    WordLengthOfWord("NX");
    assert PieceLength("NX") == 2 && "NX"[..2] == "NX" && "NX" in Words("NX");
    assert Contains("NX", "N");
  }

  lemma WordValue(w: string, env: map<string, int>)
    requires IsWord(w) && w != ""
    ensures Evaluate(w, env) == match WordToken(w)
                                case Num(n) => Some(n)
                                case Name(id) => if id in env then Some(env[id]) else None
                                case _ => None
  {
    TokensOfWord(w);
    var t := [WordToken(w)];
    assert t[1..] == [];
    assert w[0] != ' ';
    assert Evaluate(w, env) == EvalTokens(t, env);
    if t[0].Num? || t[0].Name? {
      var e := if t[0].Num? then Const(t[0].n) else Ref(t[0].id);
      assert ParseAtom(t) == Some((e, []));
      assert ParseProduct(t) == ParseProductRest(e, []) == Some((e, []));
      assert ParseSum(t) == ParseSumRest(e, []) == Some((e, []));
    } else {
      assert ParseAtom(t) == None && ParseProduct(t) == None;
      assert ParseSum(t) == None;
    }
  }

  /** A label that is part of another is replaced inside it: "NX" becomes "2X". */
  lemma ClashCounterexample()
    ensures AreLabels(NESTED) && !NoClash("NX", NESTED)
    ensures Evaluate("NX", Env(NESTED)) == Some(3)
    ensures Evaluate(ReplaceAll("NX", NESTED), map[]) == None
  {
    NestedReplaced();
    NestedClashes();
    WordValue("2X", map[]);
    WordValue("NX", Env(NESTED));
    assert Env(NESTED[1..]) == map["NX" := 3];
  }

  /** The expression that is a label of negative size: its text is replaced by "-" and a numeral. */
  lemma NegativeSizeHasNoValue(name: string, size: int)
    requires IsIdentifier(name) && size < 0
    ensures var sizes := [Size(name, size)];
            && NoClash(name, sizes)
            && Evaluate(name, Env(sizes)) == Some(size)
            && Evaluate(ReplaceAll(name, sizes), map[]) == None
  {
    var sizes := [Size(name, size)];
    WordValue(name, Env(sizes));
    OneWord(name);
    assert NoClash(name, sizes);
    assert name in Words(name) && IsNegative(Env(sizes), WordToken(name));
    ReplacedNegative(name, sizes);
  }

  lemma OneWord(w: string)
    requires IsWord(w) && w != ""
    ensures Words(w) == {w}
  {
    WordLengthOfWord(w);
    assert PieceLength(w) == |w| && w[..|w|] == w && w[|w|..] == "";
    assert Words("") == {};
  }

  lemma ReplacedNegative(text: string, sizes: seq<Size>)
    requires AreLabels(sizes) && NoClash(text, sizes) && UsesNegative(text, Env(sizes))
    requires Evaluate(text, Env(sizes)).Some?
    ensures Evaluate(ReplaceAll(text, sizes), map[]) == None
  {
    TokensAreSubstituted(text, sizes);
    LeadingSpaceStays(text, sizes);
    SubstitutedValue(Env(sizes), Tokens(text));
    NegativesAreUsed(Env(sizes), text);
  }
}
