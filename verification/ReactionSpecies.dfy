/** `parseReactionSpecies` of reactionParser.cpp, with its two small regular expressions spelt
    out, and the printer of the CHEMKIN generator. */
module ReactionSpecies {
  import opened Numerals
  import opened Text

  /** A std::multimap from species to coefficients, in order of insertion. */
  type SpeciesMap = seq<(string, real)>

  predicate IsUpper(c: char) {
    'A' <= c <= 'Z'
  }

  predicate IsSpace(c: char) {
    c == ' ' || '\t' <= c <= '\r'
  }

  /** What the token iterator over the separator '+' yields: no empty last token. */
  function Tokens(s: string): seq<string> {
    var parts := Split(s, '+');
    if Last(parts) == "" then parts[..|parts| - 1] else parts
  }

  function DigitRun(s: string): (n: nat)
    ensures n <= |s| && AllDigits(s[..n]) && (n < |s| ==> !IsDigit(s[n]))
  {
    if s == "" || !IsDigit(s[0]) then 0
    else
      var n := DigitRun(s[1..]);
      assert s[..n + 1] == [s[0]] + s[1..][..n];
      n + 1
  }

  /** The two groups of `([0-9]*)([A-Z].*)` at its leftmost match, or two empty strings. */
  function SearchStoichiometry(s: string): (m: (string, string))
    ensures AllDigits(m.0)
    decreases |s|
  {
    var n := DigitRun(s);
    if n < |s| && IsUpper(s[n]) then (s[..n], s[n..])
    else if s == "" then ("", "")
    else SearchStoichiometry(s[1..])
  }

  function TrimLeft(s: string): string {
    if s != "" && IsSpace(s[0]) then TrimLeft(s[1..]) else s
  }

  function TrimRight(s: string): string {
    if s != "" && IsSpace(s[|s| - 1]) then TrimRight(s[..|s| - 1]) else s
  }

  function Trim(s: string): string {
    TrimRight(TrimLeft(s))
  }

  function Entry(token: string): (string, real) {
    var m := SearchStoichiometry(token);
    (Trim(m.1), if m.0 == "" then 1.0 else Value(m.0) as real)
  }

  function Entries(tokens: seq<string>): (m: SpeciesMap)
    ensures |m| == |tokens|
  {
    if tokens == [] then [] else Entries(tokens[..|tokens| - 1]) + [Entry(tokens[|tokens| - 1])]
  }

  method ParseReactionSpecies(reactionSpecies: string) returns (map_: SpeciesMap)
    ensures map_ == Entries(Tokens(reactionSpecies))
  {
    map_ := [];
    var tokens := Tokens(reactionSpecies);
    var i := 0;
    while i != |tokens|
      invariant 0 <= i <= |tokens| && map_ == Entries(tokens[..i])
      decreases |tokens| - i
    {
      var splitStoic := SearchStoichiometry(tokens[i]);
      var speciesName := splitStoic.1;
      if splitStoic.0 == "" {
        map_ := map_ + [(Trim(speciesName), 1.0)];
      } else {
        map_ := map_ + [(Trim(speciesName), Value(splitStoic.0) as real)];
      }
      assert tokens[..i + 1][..i] == tokens[..i];
      i := i + 1;
    }
    assert tokens[..i] == tokens;
  }

  // ---------- What the expressions find ----------

  const WHITE := " \t\n\U{000B}\U{000C}\r"

  /** The name starts at the first capital, and the number is made of all digits right before it. */
  ghost predicate CutsAtCapital(s: string, junk: string, number: string, name: string) {
    && s == junk + (number + name) && name != "" && IsUpper(name[0]) && AllDigits(number)
    && (forall c :: c in junk ==> !IsUpper(c)) && (junk == "" || !IsDigit(junk[|junk| - 1]))
  }

  lemma IsUpperIffListed(c: char)
    ensures IsUpper(c) <==> c in UPPER
  {
    if IsUpper(c) {
      assert UPPER[(c as int) - ('A' as int)] == c;
    }
  }

  lemma IsSpaceIffListed(c: char)
    ensures IsSpace(c) <==> c in WHITE
  {
  }

  lemma {:induction false} RunStopsAtUpper(digits: string, rest: string)
    requires AllDigits(digits) && rest != "" && IsUpper(rest[0])
    ensures DigitRun(digits + rest) == |digits|
  {
    if digits == "" {
      assert digits + rest == rest;
    } else {
      RunStopsAtUpper(digits[1..], rest);
      assert (digits + rest)[1..] == digits[1..] + rest;
    }
  }

  lemma Prepend(c: char, junk: string, rest: string)
    ensures [c] + (junk + rest) == ([c] + junk) + rest
    ensures forall x :: x in [c] + junk <==> x == c || x in junk
  {
  }

  /** What is found further on does not go back to the front. */
  lemma CutsFurtherOn(c: char, rest: string, junk: string, number: string, name: string)
    requires !IsUpper(c) && CutsAtCapital(rest, junk, number, name)
    requires var n := DigitRun([c] + rest); n == |rest| + 1 || !IsUpper(([c] + rest)[n])
    ensures CutsAtCapital([c] + rest, [c] + junk, number, name)
  {
    Prepend(c, junk, number + name);
    if junk == "" && IsDigit(c) {
      Prepend(c, number, name);
      assert rest == number + name;
      RunStopsAtUpper([c] + number, name);
    }
  }

  /** The search cuts a token at its first capital; without one it finds nothing. */
  lemma {:induction false} SearchCutsAtCapital(s: string) returns (junk: string)
    ensures var m := SearchStoichiometry(s);
            if exists c :: c in s && IsUpper(c) then CutsAtCapital(s, junk, m.0, m.1) else m == ("", "")
    decreases |s|
  {
    var n, m := DigitRun(s), SearchStoichiometry(s);
    junk := "";
    if n < |s| && IsUpper(s[n]) {
      assert s == "" + (s[..n] + s[n..]);
    } else if s != "" {
      FirstIsNoCapital(s);
      junk := SearchCutsAtCapital(s[1..]);
      assert s == [s[0]] + s[1..];
      if c :| c in s && IsUpper(c) {
        assert c in s[1..];
        CutsFurtherOn(s[0], s[1..], junk, m.0, m.1);
        junk := [s[0]] + junk;
      }
    }
  }

  lemma FirstIsNoCapital(s: string)
    requires s != "" && (DigitRun(s) == |s| || !IsUpper(s[DigitRun(s)]))
    ensures !IsUpper(s[0])
  {
    if DigitRun(s) > 0 {
      assert IsDigit(s[..DigitRun(s)][0]);
    }
  }

  lemma {:induction false} TrimLeftStrips(before: string, s: string)
    requires (forall c :: c in before ==> c in WHITE) && (s == "" || s[0] !in WHITE)
    ensures TrimLeft(before + s) == s
  {
    forall c: char ensures IsSpace(c) <==> c in WHITE { IsSpaceIffListed(c); }
    if before == "" {
      assert before + s == s;
    } else {
      assert (before + s)[1..] == before[1..] + s;
      TrimLeftStrips(before[1..], s);
    }
  }

  lemma {:induction false} TrimRightStrips(s: string, after: string)
    requires (forall c :: c in after ==> c in WHITE) && (s == "" || s[|s| - 1] !in WHITE)
    ensures TrimRight(s + after) == s
  {
    forall c: char ensures IsSpace(c) <==> c in WHITE { IsSpaceIffListed(c); }
    if after == "" {
      assert s + after == s;
    } else {
      var n := |after| - 1;
      assert (s + after)[..|s + after| - 1] == s + after[..n];
      TrimRightStrips(s, after[..n]);
    }
  }

  /** Whatever white space is around a text, trimming leaves the text. */
  lemma TrimStrips(before: string, s: string, after: string)
    requires (forall c :: c in before + after ==> c in WHITE)
    requires s == "" || (s[0] !in WHITE && s[|s| - 1] !in WHITE)
    ensures Trim(before + s + after) == s
  {
    assert forall c :: c in before || c in after ==> c in before + after;
    if s == "" {
      assert before + s + after == (before + after) + "";
      TrimLeftStrips(before + after, "");
    } else {
      assert before + s + after == before + (s + after);
      TrimLeftStrips(before, s + after);
      TrimRightStrips(s, after);
    }
  }

  /** A last "+" with nothing after it adds no token. */
  lemma TrailingPlusAddsNothing(s: string)
    ensures Tokens(s + "+") == Split(s, '+')
  {
    SplitOffLast(s, '+');
  }

  // ---------- The printer ----------

  datatype Coefficient = Absent | Written(n: nat)

  datatype Species = Species(coefficient: Coefficient, name: string)

  /** A name the parser can take back. */
  predicate Named(s: Species) {
    s.name != "" && IsUpper(s.name[0]) && '+' !in s.name && !IsSpace(s.name[|s.name| - 1])
  }

  function Print(s: Species): string {
    match s.coefficient
    case Absent => s.name
    case Written(n) => Decimal(n) + s.name
  }

  function Join(list: seq<Species>): string
    requires list != []
  {
    if |list| == 1 then Print(list[0]) else Print(list[0]) + " + " + Join(list[1..])
  }

  function Meaning(s: Species): (string, real) {
    (s.name, match s.coefficient case Absent => 1.0 case Written(n) => n as real)
  }

  // ---------- The round trip ----------

  lemma SearchSkipsOne(s: string)
    ensures SearchStoichiometry(" " + s) == SearchStoichiometry(s)
  {
    assert (" " + s)[1..] == s;
  }

  lemma {:induction false} SearchSkipsSpace(space: string, s: string)
    requires forall i :: 0 <= i < |space| ==> space[i] == ' '
    ensures SearchStoichiometry(space + s) == SearchStoichiometry(s)
  {
    if space == "" {
      assert space + s == s;
    } else {
      assert space + s == " " + (space[1..] + s);
      SearchSkipsOne(space[1..] + s);
      SearchSkipsSpace(space[1..], s);
    }
  }

  lemma {:induction false} TrimsTrailing(name: string, space: string)
    requires name != "" && !IsSpace(name[0]) && !IsSpace(name[|name| - 1])
    requires forall i :: 0 <= i < |space| ==> space[i] == ' '
    ensures Trim(name + space) == name
  {
    if space == "" {
      assert name + space == name;
    } else {
      var n := |space| - 1;
      assert (name + space)[..|name + space| - 1] == name + space[..n];
      TrimsTrailing(name, space[..n]);
    }
  }

  /** A printed species, with the blanks the separator leaves around it, is read as it was meant. */
  lemma EntryOfPrinted(before: string, s: Species, after: string)
    requires Named(s)
    requires (forall i :: 0 <= i < |before| ==> before[i] == ' ') && (forall i :: 0 <= i < |after| ==> after[i] == ' ')
    ensures Entry(before + Print(s) + after) == Meaning(s)
  {
    var digits := match s.coefficient case Absent => "" case Written(n) => Decimal(n);
    assert before + Print(s) + after == before + (digits + (s.name + after));
    SearchSkipsSpace(before, digits + (s.name + after));
    RunStopsAtUpper(digits, s.name + after);
    var text := digits + (s.name + after);
    assert text[..|digits|] == digits && text[|digits|..] == s.name + after;
    TrimsTrailing(s.name, after);
    if s.coefficient.Written? {
      ValueOfDecimal(s.coefficient.n);
    }
  }

  lemma PrintHasNoPlus(s: Species)
    requires Named(s)
    ensures '+' !in Print(s) && Print(s) != ""
  {
    if s.coefficient.Written? {
      var d := Decimal(s.coefficient.n);
      assert forall i :: 0 <= i < |d| ==> IsDigit(d[i]);
      assert '+' !in d;
    }
  }

  lemma EntriesCons(t: string, ts: seq<string>)
    ensures Entries([t] + ts) == [Entry(t)] + Entries(ts)
  {
    var all := [t] + ts;
    if ts == [] {
      assert all[..0] == [];
    } else {
      var n := |ts| - 1;
      assert all[..|all| - 1] == [t] + ts[..n];
      EntriesCons(t, ts[..n]);
    }
  }

  function Meanings(list: seq<Species>): SpeciesMap {
    if list == [] then [] else [Meaning(list[0])] + Meanings(list[1..])
  }

  lemma FirstPiece(list: seq<Species>, before: string)
    requires |list| > 1 && Named(list[0]) && (before == "" || before == " ")
    ensures var piece := before + Print(list[0]) + " ";
            Split(before + Join(list), '+') == [piece] + Split(" " + Join(list[1..]), '+')
  {
    PrintHasNoPlus(list[0]);
    var piece, rest := before + Print(list[0]) + " ", " " + Join(list[1..]);
    assert before + Join(list) == piece + ['+'] + rest;
    SplitOffFirst(piece, rest, '+');
  }

  lemma {:induction false} JoinedEndsInToken(list: seq<Species>, before: string)
    requires list != [] && (forall s :: s in list ==> Named(s)) && (before == "" || before == " ")
    ensures Last(Split(before + Join(list), '+')) != ""
  {
    if |list| == 1 {
      PrintHasNoPlus(list[0]);
      SplitWhole(before + Join(list), '+');
    } else {
      FirstPiece(list, before);
      JoinedEndsInToken(list[1..], " ");
      LastOfCons(before + Print(list[0]) + " ", Split(" " + Join(list[1..]), '+'));
    }
  }

  function Last(parts: seq<string>): string
    requires parts != []
  {
    parts[|parts| - 1]
  }

  lemma LastOfCons(piece: string, parts: seq<string>)
    requires parts != []
    ensures Last([piece] + parts) == Last(parts)
  {
  }

  lemma {:induction false} EntriesOfPieces(list: seq<Species>, before: string)
    requires list != [] && (forall s :: s in list ==> Named(s)) && (before == "" || before == " ")
    ensures Entries(Split(before + Join(list), '+')) == Meanings(list)
  {
    if |list| == 1 {
      PrintHasNoPlus(list[0]);
      SplitWhole(before + Join(list), '+');
      assert before + Join(list) == before + Print(list[0]) + "";
      EntryOfPrinted(before, list[0], "");
      EntriesCons(before + Join(list), []);
    } else {
      FirstPiece(list, before);
      EntryOfPrinted(before, list[0], " ");
      EntriesOfPieces(list[1..], " ");
      EntriesCons(before + Print(list[0]) + " ", Split(" " + Join(list[1..]), '+'));
    }
  }

  /** Species joined as the generator does are parsed back to exactly the species printed, in
      order, with coefficient 1 where none was written. */
  lemma ParsePrinted(list: seq<Species>)
    requires list != [] && forall s :: s in list ==> Named(s)
    ensures Entries(Tokens(Join(list))) == Meanings(list)
  {
    JoinedEndsInToken(list, "");
    EntriesOfPieces(list, "");
    assert "" + Join(list) == Join(list);
  }
}
