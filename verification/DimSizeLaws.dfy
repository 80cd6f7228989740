/** When writing sizes into the text of a dimension expression means the same as evaluating the
    expression with the labels bound to the sizes. */
module DimSizeLaws {
  import opened Numerals
  import opened ArithmeticEval
  import opened DimSizes

  // ---------- What the text means before the replacements ----------

  /** Labels bound to their sizes; the first of equal labels counts. */
  function Env(sizes: seq<Size>): map<string, int> {
    if sizes == [] then map[] else Env(sizes[1..])[sizes[0].name := sizes[0].size]
  }

  function Substitute(env: map<string, int>, token: Token): seq<Token> {
    if token.Name? && token.id in env then
      var n := env[token.id];
      if n < 0 then [Op(Sub), Num(-n)] else [Num(n)]
    else [token]
  }

  function SubstituteAll(env: map<string, int>, t: seq<Token>): seq<Token> {
    if t == [] then [] else Substitute(env, t[0]) + SubstituteAll(env, t[1..])
  }

  predicate AreLabels(sizes: seq<Size>) {
    forall k :: 0 <= k < |sizes| ==> IsIdentifier(sizes[k].name)
  }

  predicate Contains(s: string, part: string) {
    part <= s || (s != "" && Contains(s[1..], part))
  }

  /** No label is part of the word, but for the word itself and labels that come after it. */
  predicate Safe(w: string, sizes: seq<Size>) {
    sizes == [] || sizes[0].name == w || (!Contains(w, sizes[0].name) && Safe(w, sizes[1..]))
  }

  function Words(s: string): set<string>
    decreases |s|
  {
    if s == "" then {}
    else
      var n := PieceLength(s);
      (if IsWordChar(s[0]) then {s[..n]} else {}) + Words(s[n..])
  }

  predicate NoClash(text: string, sizes: seq<Size>) {
    forall w :: w in Words(text) ==> Safe(w, sizes)
  }

  // ---------- What is replaced ----------

  /** No occurrence of `old_` starts in `before`, which the occurrence in question comes after. */
  predicate IsFirst(before: string, old_: string, after: string) {
    before == "" || (!(old_ <= before + (old_ + after)) && IsFirst(before[1..], old_, after))
  }

  /** The first occurrence is replaced, and then those in what comes after it. */
  lemma {:induction false} ReplaceAtFirst(before: string, old_: string, after: string, new_: string)
    requires old_ != "" && IsFirst(before, old_, after)
    ensures Replace(before + (old_ + after), old_, new_) == before + (new_ + Replace(after, old_, new_))
  {
    var s := before + (old_ + after);
    if before == "" {
      assert s == old_ + after && s[|old_|..] == after;
    } else {
      assert s[1..] == before[1..] + (old_ + after);
      ReplaceAtFirst(before[1..], old_, after, new_);
      Associate([before[0]], before[1..], new_ + Replace(after, old_, new_));
      assert [before[0]] + before[1..] == before;
    }
  }

  /** The empty label occurs around every character: a size for it is written everywhere. */
  lemma {:induction false} EmptyLabelIsEverywhere(s: string, new_: string)
    ensures |Replace(s, "", new_)| == |s| + (|s| + 1) * |new_|
    ensures new_ <= Replace(s, "", new_)
    ensures s != "" ==> Replace(s, "", new_) == new_ + [s[0]] + Replace(s[1..], "", new_)
  {
    if s == "" {
    } else {
      EmptyLabelIsEverywhere(s[1..], new_);
      assert (|s| + 1) * |new_| == |s| * |new_| + |new_|;
    }
  }

  // ---------- Replacing in a text is replacing in each of its words ----------

  /** No word goes on from before `s` into it. */
  predicate Breaks(s: string) {
    s == "" || !IsWordChar(s[0])
  }

  lemma {:induction false} ReplaceSplits(u: string, rest: string, name: string, text: string)
    requires IsIdentifier(name) && Breaks(rest)
    ensures Replace(u + rest, name, text) == Replace(u, name, text) + Replace(rest, name, text)
    decreases |u|
  {
    if u == "" {
      assert u + rest == rest;
    } else if name <= u + rest {
      PrefixStaysInside(u, rest, name);
      assert (u + rest)[|name|..] == u[|name|..] + rest;
      ReplaceSplits(u[|name|..], rest, name, text);
      Associate(text, Replace(u[|name|..], name, text), Replace(rest, name, text));
    } else {
      assert name <= u ==> name <= u + rest;
      assert (u + rest)[1..] == u[1..] + rest;
      ReplaceSplits(u[1..], rest, name, text);
      Associate([u[0]], Replace(u[1..], name, text), Replace(rest, name, text));
    }
  }

  lemma Associate(a: string, b: string, c: string)
    ensures a + (b + c) == (a + b) + c
  {
  }

  lemma PrefixStaysInside(u: string, rest: string, name: string)
    requires IsIdentifier(name) && Breaks(rest) && name <= u + rest
    ensures name <= u
  {
    var k := if |u| < |name| then |u| else 0;
    assert name[k] == (u + rest)[k];
    assert name == (u + rest)[..|name|] == u[..|name|];
  }

  lemma ReplaceKeepsBreak(s: string, name: string, text: string)
    requires IsIdentifier(name) && Breaks(s)
    ensures Breaks(Replace(s, name, text))
    ensures s != "" ==> Replace(s, name, text) == [s[0]] + Replace(s[1..], name, text)
  {
    if s != "" {
      assert name[0] != s[0];
    }
  }

  lemma {:induction false} ReplaceAllSplits(u: string, rest: string, sizes: seq<Size>)
    requires AreLabels(sizes) && Breaks(rest)
    ensures ReplaceAll(u + rest, sizes) == ReplaceAll(u, sizes) + ReplaceAll(rest, sizes)
    ensures Breaks(ReplaceAll(rest, sizes))
    decreases |sizes|
  {
    if sizes == [] {
    } else {
      var name, text := sizes[0].name, Str(sizes[0].size);
      ReplaceSplits(u, rest, name, text);
      ReplaceKeepsBreak(rest, name, text);
      ReplaceAllSplits(Replace(u, name, text), Replace(rest, name, text), sizes[1..]);
    }
  }

  lemma {:induction false} SeparatorStays(c: char, rest: string, sizes: seq<Size>)
    requires AreLabels(sizes) && !IsWordChar(c)
    ensures ReplaceAll([c] + rest, sizes) == [c] + ReplaceAll(rest, sizes)
    decreases |sizes|
  {
    if sizes == [] {
    } else {
      var name, text := sizes[0].name, Str(sizes[0].size);
      ReplaceKeepsBreak([c] + rest, name, text);
      assert ([c] + rest)[1..] == rest;
      SeparatorStays(c, Replace(rest, name, text), sizes[1..]);
    }
  }

  lemma {:induction false} EmptyStays(sizes: seq<Size>)
    requires AreLabels(sizes)
    ensures ReplaceAll("", sizes) == ""
  {
    if sizes == [] {
    } else {
      assert Replace("", sizes[0].name, Str(sizes[0].size)) == "";
      EmptyStays(sizes[1..]);
    }
  }

  lemma {:induction false} WordLengthSplits(u: string, rest: string)
    requires Breaks(rest)
    ensures WordLength(u + rest) == WordLength(u)
  {
    if u == "" {
      assert u + rest == rest;
    } else {
      assert (u + rest)[1..] == u[1..] + rest;
      WordLengthSplits(u[1..], rest);
    }
  }

  lemma {:induction false} TokensSplit(ofWord: string -> seq<Token>, u: string, rest: string)
    requires Breaks(rest)
    ensures TokensBy(ofWord, u + rest) == TokensBy(ofWord, u) + TokensBy(ofWord, rest)
    decreases |u|
  {
    if u == "" {
      assert u + rest == rest;
    } else {
      var n := PieceLength(u);
      PieceSplits(u, rest);
      TokensOfPiece(ofWord, u[..n], u[n..], u);
      TokensOfPiece(ofWord, u[..n], u[n..] + rest, u + rest);
      TokensSplit(ofWord, u[n..], rest);
      AssociateTokens(PieceTokens(ofWord, u[..n]), TokensBy(ofWord, u[n..]), TokensBy(ofWord, rest));
    }
  }

  lemma PieceSplits(u: string, rest: string)
    requires u != "" && Breaks(rest)
    ensures var n := PieceLength(u);
            PieceLength(u + rest) == n && (u + rest)[..n] == u[..n] && (u + rest)[n..] == u[n..] + rest
  {
    WordLengthSplits(u, rest);
  }

  lemma AssociateTokens(a: seq<Token>, b: seq<Token>, c: seq<Token>)
    ensures a + (b + c) == (a + b) + c
  {
  }

  lemma TokensOfPiece(ofWord: string -> seq<Token>, piece: string, rest: string, s: string)
    requires s != "" && piece == s[..PieceLength(s)] && rest == s[PieceLength(s)..]
    ensures TokensBy(ofWord, s) == PieceTokens(ofWord, piece) + TokensBy(ofWord, rest)
  {
  }

  function ReplacedWord(sizes: seq<Size>): string -> seq<Token> {
    w => Tokens(ReplaceAll(w, sizes))
  }

  lemma TokensOfSeparator(c: char, rest: string)
    requires !IsWordChar(c)
    ensures Tokens([c] + rest) == CharTokens(c) + Tokens(rest)
  {
    var s := [c] + rest;
    assert s[..1] == [c] && s[1..] == rest;
  }

  /** The tokens after all replacements are those of each word replaced on its own. */
  lemma {:induction false} ReplacedTokens(text: string, sizes: seq<Size>)
    requires AreLabels(sizes)
    ensures Tokens(ReplaceAll(text, sizes)) == TokensBy(ReplacedWord(sizes), text)
    decreases |text|
  {
    if text == "" {
      EmptyStays(sizes);
    } else {
      var n := PieceLength(text);
      ReplacedTokens(text[n..], sizes);
      TokensOfPiece(ReplacedWord(sizes), text[..n], text[n..], text);
      PieceReplaced(text, sizes);
    }
  }

  lemma PieceReplaced(text: string, sizes: seq<Size>)
    requires AreLabels(sizes) && text != ""
    ensures var n := PieceLength(text);
            Tokens(ReplaceAll(text, sizes))
            == PieceTokens(ReplacedWord(sizes), text[..n]) + Tokens(ReplaceAll(text[n..], sizes))
  {
    var n := PieceLength(text);
    assert text == text[..n] + text[n..];
    if IsWordChar(text[0]) {
      WordReplaced(text[..n], text[n..], sizes);
    } else {
      assert text[..1] == [text[0]];
      SeparatorReplaced(text[0], text[1..], sizes);
    }
  }

  lemma WordReplaced(w: string, rest: string, sizes: seq<Size>)
    requires AreLabels(sizes) && Breaks(rest)
    ensures Tokens(ReplaceAll(w + rest, sizes)) == ReplacedWord(sizes)(w) + Tokens(ReplaceAll(rest, sizes))
  {
    ReplaceAllSplits(w, rest, sizes);
    TokensSplit(x => [WordToken(x)], ReplaceAll(w, sizes), ReplaceAll(rest, sizes));
  }

  lemma SeparatorReplaced(c: char, rest: string, sizes: seq<Size>)
    requires AreLabels(sizes) && !IsWordChar(c)
    ensures Tokens(ReplaceAll([c] + rest, sizes)) == CharTokens(c) + Tokens(ReplaceAll(rest, sizes))
  {
    SeparatorStays(c, rest, sizes);
    TokensOfSeparator(c, ReplaceAll(rest, sizes));
  }

  // ---------- Words ----------

  lemma {:induction false} WordsAreWords(s: string)
    ensures forall w :: w in Words(s) ==> IsWord(w) && w != ""
    decreases |s|
  {
    if s == "" {
    } else {
      WordsAreWords(s[PieceLength(s)..]);
    }
  }

  lemma {:induction false} WordsAgree(f: string -> seq<Token>, g: string -> seq<Token>, s: string)
    requires forall w :: w in Words(s) ==> f(w) == g(w)
    ensures TokensBy(f, s) == TokensBy(g, s)
    decreases |s|
  {
    if s == "" {
    } else {
      var n := PieceLength(s);
      WordsAgree(f, g, s[n..]);
      assert IsWordChar(s[0]) ==> s[..n] in Words(s);
    }
  }

  function SubstitutedWord(env: map<string, int>): string -> seq<Token> {
    w => Substitute(env, WordToken(w))
  }

  lemma {:induction false} SubstituteConcat(env: map<string, int>, t: seq<Token>, u: seq<Token>)
    ensures SubstituteAll(env, t + u) == SubstituteAll(env, t) + SubstituteAll(env, u)
  {
    if t == [] {
      assert t + u == u;
    } else {
      assert (t + u)[1..] == t[1..] + u;
      SubstituteConcat(env, t[1..], u);
      AssociateTokens(Substitute(env, t[0]), SubstituteAll(env, t[1..]), SubstituteAll(env, u));
    }
  }

  lemma SubstituteOne(env: map<string, int>, token: Token)
    ensures SubstituteAll(env, [token]) == Substitute(env, token)
  {
    assert [token][1..] == [];
  }

  lemma SubstituteChar(env: map<string, int>, c: char)
    ensures SubstituteAll(env, CharTokens(c)) == CharTokens(c)
  {
    if CharTokens(c) != [] {
      SubstituteOne(env, CharTokens(c)[0]);
    }
  }

  lemma {:induction false} SubstitutedTokens(env: map<string, int>, s: string)
    ensures SubstituteAll(env, Tokens(s)) == TokensBy(SubstitutedWord(env), s)
    decreases |s|
  {
    if s == "" {
    } else {
      var n := PieceLength(s);
      var first := PieceTokens(w => [WordToken(w)], s[..n]);
      SubstituteConcat(env, first, Tokens(s[n..]));
      SubstitutedTokens(env, s[n..]);
      if IsWordChar(s[0]) {
        SubstituteOne(env, WordToken(s[..n]));
      } else {
        SubstituteChar(env, s[0]);
      }
    }
  }

  lemma {:induction false} ReplaceAbsent(s: string, name: string, text: string)
    requires name != "" && !Contains(s, name)
    ensures Replace(s, name, text) == s
  {
    if s == "" {
    } else {
      ReplaceAbsent(s[1..], name, text);
    }
  }

  lemma ReplaceWhole(w: string, text: string)
    requires w != ""
    ensures Replace(w, w, text) == text
  {
    assert w[|w|..] == "";
    assert Replace("", w, text) == "";
  }

  predicate IsNumber(s: string) {
    forall i :: 0 <= i < |s| ==> IsDigit(s[i]) || s[i] == '-'
  }

  lemma {:induction false} NumbersHoldNoLabel(s: string, name: string)
    requires IsIdentifier(name) && IsNumber(s)
    ensures !Contains(s, name)
  {
    if s == "" {
    } else {
      NumbersHoldNoLabel(s[1..], name);
      assert name[0] != s[0];
    }
  }

  lemma {:induction false} NumberStays(s: string, sizes: seq<Size>)
    requires AreLabels(sizes) && IsNumber(s)
    ensures ReplaceAll(s, sizes) == s
  {
    if sizes == [] {
    } else {
      NumbersHoldNoLabel(s, sizes[0].name);
      ReplaceAbsent(s, sizes[0].name, Str(sizes[0].size));
      NumberStays(s, sizes[1..]);
    }
  }

  lemma {:induction false} WordLengthOfWord(w: string)
    requires IsWord(w)
    ensures WordLength(w) == |w|
  {
    if w == "" {
    } else {
      WordLengthOfWord(w[1..]);
    }
  }

  lemma TokensOfWord(w: string)
    requires IsWord(w) && w != ""
    ensures Tokens(w) == [WordToken(w)]
  {
    WordLengthOfWord(w);
    assert PieceLength(w) == |w| && w[..|w|] == w && w[|w|..] == "";
    TokensOfPiece(x => [WordToken(x)], w, "", w);
  }

  lemma {:induction false} DecimalStart(n: nat)
    ensures Decimal(n)[0] == '0' ==> n == 0
  {
    if n >= 10 {
      DecimalStart(n / 10);
    }
  }

  lemma TokensOfDecimal(n: nat)
    ensures Tokens(Decimal(n)) == [Num(n)]
  {
    TokensOfWord(Decimal(n));
    ValueOfDecimal(n);
    DecimalStart(n);
  }

  /** What the tokens of a written number are. */
  lemma TokensOfStr(n: int)
    ensures Tokens(Str(n)) == if n < 0 then [Op(Sub), Num(-n)] else [Num(n)]
    ensures IsNumber(Str(n)) && Str(n) != ""
  {
    if n < 0 {
      TokensOfDecimal(-n);
      TokensOfSeparator('-', Decimal(-n));
    } else {
      TokensOfDecimal(n);
    }
  }

  /** A word that no label is part of becomes the number of its own label, if it has one. */
  lemma {:induction false} SafeWord(w: string, sizes: seq<Size>)
    requires AreLabels(sizes) && IsWord(w) && w != "" && Safe(w, sizes)
    ensures Tokens(ReplaceAll(w, sizes)) == Substitute(Env(sizes), WordToken(w))
    ensures ReplaceAll(w, sizes) != "" && ReplaceAll(w, sizes)[0] != ' '
    decreases |sizes|
  {
    if sizes == [] {
      TokensOfWord(w);
    } else if sizes[0].name == w {
      OwnLabel(w, sizes);
    } else {
      ReplaceAbsent(w, sizes[0].name, Str(sizes[0].size));
      SafeWord(w, sizes[1..]);
      OtherLabel(w, sizes);
    }
  }

  lemma OwnLabel(w: string, sizes: seq<Size>)
    requires AreLabels(sizes) && sizes != [] && sizes[0].name == w
    ensures ReplaceAll(w, sizes) == Str(sizes[0].size) && IsNumber(Str(sizes[0].size)) && Str(sizes[0].size) != ""
    ensures Tokens(Str(sizes[0].size)) == Substitute(Env(sizes), WordToken(w))
  {
    var text := Str(sizes[0].size);
    TokensOfStr(sizes[0].size);
    ReplaceWhole(w, text);
    NumberStays(text, sizes[1..]);
  }

  lemma OtherLabel(w: string, sizes: seq<Size>)
    requires sizes != [] && sizes[0].name != w
    ensures Substitute(Env(sizes), WordToken(w)) == Substitute(Env(sizes[1..]), WordToken(w))
  {
  }

  lemma SafeWordsAgree(text: string, sizes: seq<Size>)
    requires AreLabels(sizes) && NoClash(text, sizes)
    ensures forall w :: w in Words(text) ==> ReplacedWord(sizes)(w) == SubstitutedWord(Env(sizes))(w)
  {
    WordsAreWords(text);
    forall w | w in Words(text)
      ensures ReplacedWord(sizes)(w) == SubstitutedWord(Env(sizes))(w)
    {
      SafeWord(w, sizes);
    }
  }

  /** Without clashes, the replacements put numbers for labels and change no other token. */
  lemma TokensAreSubstituted(text: string, sizes: seq<Size>)
    requires AreLabels(sizes) && NoClash(text, sizes)
    ensures Tokens(ReplaceAll(text, sizes)) == SubstituteAll(Env(sizes), Tokens(text))
  {
    ReplacedTokens(text, sizes);
    SubstitutedTokens(Env(sizes), text);
    SafeWordsAgree(text, sizes);
    WordsAgree(ReplacedWord(sizes), SubstitutedWord(Env(sizes)), text);
  }
}
