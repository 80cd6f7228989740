/** The replacements are faithful to the tokens of a text, whatever the sizes, exactly when no
    label clashes with a word of the text. */
module DimSizeClashes {
  import opened Numerals
  import opened ArithmeticEval
  import opened DimSizes
  import opened DimSizeLaws

  /** How many characters could belong to a label but not to a number. */
  function Letters(s: string): nat {
    if s == "" then 0 else (if IsDigit(s[0]) then 0 else 1) + Letters(s[1..])
  }

  lemma {:induction false} LettersConcat(s: string, t: string)
    ensures Letters(s + t) == Letters(s) + Letters(t)
  {
    if s == "" {
      assert s + t == t;
    } else {
      assert (s + t)[1..] == s[1..] + t;
      LettersConcat(s[1..], t);
    }
  }

  lemma {:induction false} NoLettersInDigits(s: string)
    requires AllDigits(s)
    ensures Letters(s) == 0
  {
    if s == "" {
    } else {
      NoLettersInDigits(s[1..]);
    }
  }

  lemma {:induction false} PartHasFewerLetters(s: string, part: string)
    requires Contains(s, part)
    ensures Letters(part) <= Letters(s)
  {
    if part <= s {
      assert s == part + s[|part|..];
      LettersConcat(part, s[|part|..]);
    } else {
      PartHasFewerLetters(s[1..], part);
    }
  }

  lemma {:induction false} ReplaceLosesLetters(s: string, name: string, text: string)
    requires IsIdentifier(name) && AllDigits(text)
    ensures Letters(Replace(s, name, text)) <= Letters(s)
    ensures Contains(s, name) ==> Letters(Replace(s, name, text)) < Letters(s)
    decreases |s|
  {
    if s == "" {
    } else {
      if name <= s {
        var rest := s[|name|..];
        assert s == name + rest;
        LettersConcat(name, rest);
        ReplaceLosesLetters(rest, name, text);
        LettersConcat(text, Replace(rest, name, text));
        NoLettersInDigits(text);
      } else {
        ReplaceLosesLetters(s[1..], name, text);
        LettersConcat([s[0]], Replace(s[1..], name, text));
        LettersConcat([s[0]], s[1..]);
        assert s == [s[0]] + s[1..];
      }
    }
  }

  lemma {:induction false} ReplaceGivesWord(s: string, name: string, text: string)
    requires IsWord(s) && s != "" && IsIdentifier(name) && IsWord(text) && text != ""
    ensures IsWord(Replace(s, name, text)) && Replace(s, name, text) != ""
    decreases |s|
  {
    if name <= s {
      if s[|name|..] != "" { ReplaceGivesWord(s[|name|..], name, text); }
    } else {
      if s[1..] != "" { ReplaceGivesWord(s[1..], name, text); }
    }
  }

  predicate NonNegative(sizes: seq<Size>) {
    forall k :: 0 <= k < |sizes| ==> sizes[k].size >= 0
  }

  lemma {:induction false} ReplaceAllGivesWord(w: string, sizes: seq<Size>)
    requires IsWord(w) && w != "" && AreLabels(sizes) && NonNegative(sizes)
    ensures IsWord(ReplaceAll(w, sizes)) && ReplaceAll(w, sizes) != ""
    ensures Letters(ReplaceAll(w, sizes)) <= Letters(w)
    ensures !Safe(w, sizes) ==> Letters(ReplaceAll(w, sizes)) < Letters(w)
    decreases |sizes|
  {
    if sizes == [] {
    } else {
      var name, text := sizes[0].name, Str(sizes[0].size);
      ReplaceGivesWord(w, name, text);
      ReplaceLosesLetters(w, name, text);
      ReplaceAllGivesWord(Replace(w, name, text), sizes[1..]);
      if !Contains(w, name) {
        ReplaceAbsent(w, name, text);
      }
    }
  }

  // ---------- Sizes that show a clash ----------

  /** The same labels, with size `n` for `w` and 0 for the others. */
  function Probe(sizes: seq<Size>, w: string, n: nat): (probe: seq<Size>)
    ensures SameNames(probe, sizes) && NonNegative(probe)
  {
    if sizes == [] then []
    else
      var later := Probe(sizes[1..], w, n);
      assert forall k :: 0 < k < |sizes| ==> sizes[k] == sizes[1..][k - 1];
      [Size(sizes[0].name, if sizes[0].name == w then n else 0)] + later
  }

  predicate SameNames(other: seq<Size>, sizes: seq<Size>) {
    |other| == |sizes| && forall k :: 0 <= k < |sizes| ==> other[k].name == sizes[k].name
  }

  lemma {:induction false} SafeByNames(w: string, sizes: seq<Size>, other: seq<Size>)
    requires SameNames(other, sizes)
    ensures Safe(w, other) <==> Safe(w, sizes)
  {
    if sizes == [] {
    } else {
      SafeByNames(w, sizes[1..], other[1..]);
    }
  }

  /** What has fewer letters than a label does not depend on the size of that label. */
  lemma {:induction false} OwnSizeUnused(u: string, sizes: seq<Size>, w: string, n: nat)
    requires AreLabels(sizes) && Letters(u) < Letters(w)
    ensures ReplaceAll(u, Probe(sizes, w, n)) == ReplaceAll(u, Probe(sizes, w, 0))
    decreases |sizes|
  {
    if sizes == [] {
    } else {
      var name := sizes[0].name;
      var text := Str(if name == w then n else 0);
      if name == w {
        if Contains(u, w) {
          PartHasFewerLetters(u, w);
        }
        ReplaceAbsent(u, w, text);
        ReplaceAbsent(u, w, Str(0));
      }
      ReplaceLosesLetters(u, name, text);
      OwnSizeUnused(Replace(u, name, text), sizes[1..], w, n);
    }
  }

  lemma {:induction false} ClashedWordIgnoresItsSize(w: string, sizes: seq<Size>, n: nat)
    requires AreLabels(sizes) && !Safe(w, sizes)
    ensures ReplaceAll(w, Probe(sizes, w, n)) == ReplaceAll(w, Probe(sizes, w, 0))
    decreases |sizes|
  {
    var name, text := sizes[0].name, Str(0);
    if Contains(w, name) {
      ReplaceLosesLetters(w, name, text);
      OwnSizeUnused(Replace(w, name, text), sizes[1..], w, n);
    } else {
      ReplaceAbsent(w, name, text);
      ClashedWordIgnoresItsSize(w, sizes[1..], n);
    }
  }

  lemma {:induction false} ProbeGivesSize(sizes: seq<Size>, w: string, n: nat)
    ensures var env := Env(Probe(sizes, w, n));
            (w in env <==> exists k :: 0 <= k < |sizes| && sizes[k].name == w) && (w in env ==> env[w] == n)
  {
    if sizes == [] {
    } else {
      ProbeGivesSize(sizes[1..], w, n);
      assert forall k :: 0 < k < |sizes| ==> sizes[k] == sizes[1..][k - 1];
    }
  }

  predicate WordFaithful(w: string, sizes: seq<Size>) {
    WordToken(ReplaceAll(w, sizes)) == SubstitutedToken(w, sizes)
  }

  /** The token that stands for a word when no size is negative. */
  function SubstitutedToken(w: string, sizes: seq<Size>): Token {
    var env, token := Env(sizes), WordToken(w);
    if token.Name? && token.id in env && env[token.id] >= 0 then Num(env[token.id]) else token
  }

  /** A clashing word comes out wrong for size 0 or for size 1 of its own label. */
  lemma ClashShows(w: string, sizes: seq<Size>)
    requires AreLabels(sizes) && IsWord(w) && w != "" && !Safe(w, sizes)
    ensures !WordFaithful(w, Probe(sizes, w, 0)) || !WordFaithful(w, Probe(sizes, w, 1))
  {
    var zero := Probe(sizes, w, 0);
    ClashedWordIgnoresItsSize(w, sizes, 1);
    SafeByNames(w, sizes, zero);
    ReplaceAllGivesWord(w, zero);
    ProbeGivesSize(sizes, w, 0);
    ProbeGivesSize(sizes, w, 1);
    if AllDigits(w) {
      NoLettersInDigits(w);
    }
  }

  // ---------- Whole texts ----------

  /** The tokens after the replacements are those before, with numbers for the labels. */
  predicate Faithful(text: string, sizes: seq<Size>) {
    Tokens(ReplaceAll(text, sizes)) == SubstituteAll(Env(sizes), Tokens(text))
  }

  lemma PieceDetermined(f: string -> seq<Token>, g: string -> seq<Token>, piece: string, a: seq<Token>, b: seq<Token>)
    requires piece != "" && PieceTokens(f, piece) + a == PieceTokens(g, piece) + b
    requires IsWordChar(piece[0]) ==> |f(piece)| == 1 && |g(piece)| == 1
    ensures a == b && (IsWordChar(piece[0]) ==> f(piece) == g(piece))
  {
    var x, y := PieceTokens(f, piece), PieceTokens(g, piece);
    assert |x| == |y|;
    assert x == (x + a)[..|x|] && y == (y + b)[..|y|];
    assert a == (x + a)[|x|..] && b == (y + b)[|y|..];
  }

  lemma {:induction false} WordsDetermined(f: string -> seq<Token>, g: string -> seq<Token>, s: string)
    requires TokensBy(f, s) == TokensBy(g, s)
    requires forall w :: w in Words(s) ==> |f(w)| == 1 && |g(w)| == 1
    ensures forall w :: w in Words(s) ==> f(w) == g(w)
    decreases |s|
  {
    if s == "" {
    } else {
      var n := PieceLength(s);
      assert IsWordChar(s[0]) ==> s[..n] in Words(s);
      PieceDetermined(f, g, s[..n], TokensBy(f, s[n..]), TokensBy(g, s[n..]));
      WordsDetermined(f, g, s[n..]);
    }
  }

  lemma WordTokens(w: string, sizes: seq<Size>)
    requires IsWord(w) && w != "" && AreLabels(sizes) && NonNegative(sizes)
    ensures Tokens(ReplaceAll(w, sizes)) == [WordToken(ReplaceAll(w, sizes))]
  {
    ReplaceAllGivesWord(w, sizes);
    TokensOfWord(ReplaceAll(w, sizes));
  }

  lemma WordSubstitutes(w: string, sizes: seq<Size>)
    requires NonNegative(sizes)
    ensures Substitute(Env(sizes), WordToken(w)) == [SubstitutedToken(w, sizes)]
  {
    EnvNonNegative(sizes);
  }

  lemma {:induction false} EnvNonNegative(sizes: seq<Size>)
    requires NonNegative(sizes)
    ensures forall id :: id in Env(sizes) ==> Env(sizes)[id] >= 0
  {
    if sizes == [] {
    } else {
      EnvNonNegative(sizes[1..]);
    }
  }

  lemma FaithfulInEachWord(text: string, sizes: seq<Size>)
    requires AreLabels(sizes) && NonNegative(sizes) && Faithful(text, sizes)
    ensures forall w :: w in Words(text) ==> WordFaithful(w, sizes)
  {
    var f, g := ReplacedWord(sizes), SubstitutedWord(Env(sizes));
    ReplacedTokens(text, sizes);
    SubstitutedTokens(Env(sizes), text);
    WordsAreWords(text);
    forall w | w in Words(text)
      ensures f(w) == [WordToken(ReplaceAll(w, sizes))] && g(w) == [SubstitutedToken(w, sizes)]
    {
      WordTokens(w, sizes);
      WordSubstitutes(w, sizes);
    }
    WordsDetermined(f, g, text);
  }

  /** Whether labels clash with a text decides whether the replacements are faithful to it for all
      sizes: without a clash they are, and with one they fail for some size 0 or 1. */
  lemma FaithfulIffNoClash(text: string, sizes: seq<Size>)
    requires AreLabels(sizes)
    ensures NoClash(text, sizes) <==> forall other :: SameNames(other, sizes) ==> Faithful(text, other)
  {
    if NoClash(text, sizes) {
      forall other | SameNames(other, sizes)
        ensures Faithful(text, other)
      {
        forall w | w in Words(text)
          ensures Safe(w, other)
        {
          SafeByNames(w, sizes, other);
        }
        TokensAreSubstituted(text, other);
      }
    } else {
      var w :| w in Words(text) && !Safe(w, sizes);
      WordsAreWords(text);
      ClashShows(w, sizes);
      var bad := if WordFaithful(w, Probe(sizes, w, 0)) then Probe(sizes, w, 1) else Probe(sizes, w, 0);
      if Faithful(text, bad) {
        FaithfulInEachWord(text, bad);
      }
      assert SameNames(bad, sizes) && !Faithful(text, bad);
    }
  }

  /** A text of numerals and labels has no clash when no label is part of another. */
  lemma UnnestedLabelsDoNotClash(text: string, sizes: seq<Size>)
    requires AreLabels(sizes)
    requires forall i, j :: 0 <= i < |sizes| && 0 <= j < |sizes| && Contains(sizes[i].name, sizes[j].name)
                            ==> sizes[i].name == sizes[j].name
    requires forall w :: w in Words(text) ==> AllDigits(w) || exists k :: 0 <= k < |sizes| && sizes[k].name == w
    ensures NoClash(text, sizes)
  {
    forall w | w in Words(text)
      ensures Safe(w, sizes)
    {
      forall k | 0 <= k < |sizes| && Contains(w, sizes[k].name)
        ensures sizes[k].name == w
      {
        if AllDigits(w) {
          NumbersHoldNoLabel(w, sizes[k].name);
        }
      }
      SafeWithoutParts(w, sizes);
    }
  }

  lemma {:induction false} SafeWithoutParts(w: string, sizes: seq<Size>)
    requires forall k :: 0 <= k < |sizes| && Contains(w, sizes[k].name) ==> sizes[k].name == w
    ensures Safe(w, sizes)
  {
    if sizes == [] {
    } else {
      SafeWithoutParts(w, sizes[1..]);
    }
  }
}
