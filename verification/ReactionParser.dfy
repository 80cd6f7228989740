/** reactionParser.cpp: the lines of a CHEMKIN reaction block grouped into reactions. The large
    regular expressions are left abstract, as classifiers of lines and the captures they give. */
module ReactionParsers {
  import opened ReactionSpecies
  import opened Reactions
  import opened Wrappers

  /** What reactionSingleRegex captures. */
  datatype Match = Match(reactants: string, arrow: string, products: string, arrhenius: Arrhenius)

  datatype LineType = THIRDBODY | LOW | TROE | SRI

  datatype Grammar = Grammar(
    isBlank: string -> bool,
    hasPressure: string -> bool,              // pressureDependent
    strip: string -> string,                  // its replacement by nothing
    search: string -> Option<Match>,          // reactionSingleRegex
    isDuplicate: string -> bool,              // DUPLICATE
    isREV: string -> bool,
    isLOW: string -> bool,
    isTROE: string -> bool,
    isSRI: string -> bool,
    numbersREV: string -> seq<real>,          // parseLOWTROEREV with each expression
    numbersLOW: string -> seq<real>,
    numbersTROE: string -> seq<real>,
    numbersSRI: string -> seq<real>,
    thirdBodies: string -> SpeciesMap)        // parseThirdBodySpecies

  /** The REV lines among these give the three numbers that are read from them. */
  ghost predicate WellFormedREV(g: Grammar, lines: seq<string>) {
    forall i :: 0 <= i < |lines| && g.isREV(lines[i]) ==> |g.numbersREV(lines[i])| >= 3
  }

  datatype Error = Unsupported | BadTROE | BadSRI

  function FindLineType(g: Grammar, line: string): LineType {
    if g.isLOW(line) then LOW
    else if g.isTROE(line) then TROE
    else if g.isSRI(line) then SRI
    else THIRDBODY
  }

  // ---------- What a group of lines means ----------

  /** Whether a line ends the lines of the reaction before it: it is looked at as it stands. */
  predicate IsReaction(g: Grammar, line: string) {
    g.search(line).Some?
  }

  function Stripped(g: Grammar, line: string): string {
    if g.hasPressure(line) then g.strip(line) else line
  }

  /** Whether a line starts a reaction, once the parser gets there: it has lost its "(+X)". */
  predicate IsHead(g: Grammar, line: string) {
    IsReaction(g, Stripped(g, line))
  }

  /** What a match of reactionSingleRegex says. */
  function Matched(pressureDependent: bool, m: Match): Head {
    var reactants, products := Entries(Tokens(m.reactants)), Entries(Tokens(m.products));
    Head(m.arrow != "=>", HasM(reactants) || HasM(products), pressureDependent,
         WithoutM(reactants), WithoutM(products), m.arrhenius)
  }

  /** What its own line says of a reaction; next to nothing if it is no reaction line. */
  function HeadOf(g: Grammar, line: string): Head {
    match g.search(Stripped(g, line))
    case None => NO_HEAD.(pressureDependent := g.hasPressure(line))
    case Some(m) => Matched(g.hasPressure(line), m)
  }

  /** What one more line adds to a reaction. */
  function AddLine(g: Grammar, v: View, line: string): Result<View, Error> {
    if g.isDuplicate(line) then Ok(v.(duplicate := true))
    else if g.isREV(line) then
      var r := g.numbersREV(line);
      if |r| < 3 then Err(Unsupported)
      else Ok(v.(hasREV := true, reverseA := Arrhenius(r[0], r[1], r[2])))
    else if v.head.thirdBody || v.head.pressureDependent then
      match FindLineType(g, line)
      case THIRDBODY => Ok(v.(thirdBodies := g.thirdBodies(line)))
      case LOW => Ok(v.(hasLOW := true, low := g.numbersLOW(line)))
      case TROE =>
        var t := g.numbersTROE(line);
        if |t| == 3 || |t| == 4 then Ok(v.(hasTROE := true, troe := Full(t, [0.0]))) else Err(BadTROE)
      case SRI =>
        var s := g.numbersSRI(line);
        if |s| == 3 || |s| == 5 then Ok(v.(hasSRI := true, sri := Full(s, [1.0, 0.0]))) else Err(BadSRI)
    else Err(Unsupported)
  }

  function AddLines(g: Grammar, v: View, lines: seq<string>): Result<View, Error>
    decreases |lines|
  {
    if lines == [] then Ok(v)
    else
      match AddLine(g, v, lines[0])
      case Ok(v') => AddLines(g, v', lines[1..])
      case Err(e) => Err(e)
  }

  /** A reaction line with the lines that belong to it. */
  datatype Group = Group(head: string, rest: seq<string>)

  /** The length of the run of non-reaction lines at the front. */
  function RunLength(g: Grammar, lines: seq<string>): (n: nat)
    ensures n <= |lines|
  {
    if lines == [] || IsReaction(g, lines[0]) then 0 else 1 + RunLength(g, lines[1..])
  }

  function Groups(g: Grammar, lines: seq<string>): seq<Group>
    decreases |lines|
  {
    if lines == [] then []
    else if !IsHead(g, lines[0]) then Groups(g, lines[1..])
    else
      var n := RunLength(g, lines[1..]);
      [Group(lines[0], lines[1..1 + n])] + Groups(g, lines[1 + n..])
  }

  /** The reactions read before the first error, and that error. */
  datatype Outcome = Outcome(reactions: seq<View>, error: Option<Error>)

  function GroupMeaning(g: Grammar, group: Group): Result<View, Error> {
    AddLines(g, Bare(HeadOf(g, group.head)), group.rest)
  }

  /** The reactions of some groups, up to the first group that has no meaning. */
  function Interpret(build: Group -> Result<View, Error>, groups: seq<Group>): Outcome {
    if groups == [] then Outcome([], None)
    else
      match build(groups[0])
      case Err(e) => Outcome([], Some(e))
      case Ok(v) =>
        var later := Interpret(build, groups[1..]);
        Outcome([v] + later.reactions, later.error)
  }

  function GroupMeaningOf(g: Grammar): Group -> Result<View, Error> {
    group => GroupMeaning(g, group)
  }

  /** `build` gives groups their meaning, which is to be looked into only where it is asked for. */
  ghost predicate Builds(g: Grammar, build: Group -> Result<View, Error>) {
    forall group {:trigger Asked(group)} :: Asked(group) ==> build(group) == GroupMeaning(g, group)
  }

  ghost predicate Asked(group: Group) {
    true
  }

  /** Likewise for `rest`, the reactions that some lines are to give. */
  ghost predicate Foresees(g: Grammar, build: Group -> Result<View, Error>, rest: seq<string> -> Outcome) {
    forall lines {:trigger Foreseen(lines)} :: Foreseen(lines) ==> rest(lines) == Interpret(build, Groups(g, lines))
  }

  ghost predicate Foreseen(lines: seq<string>) {
    true
  }

  /** What the parser is to return for these lines. */
  function Expected(g: Grammar, lines: seq<string>): Outcome {
    Interpret(GroupMeaningOf(g), Groups(g, lines))
  }

  // ---------- The parser ----------

  predicate IsLineEnd(c: char) {
    c == '\n' || c == '|' || c == '\r'
  }

  /** The pieces of a text between any of the characters of "\n|\r\n"; empty pieces are kept. */
  function Lines(text: string): (lines: seq<string>)
    ensures 1 <= |lines| <= |text| + 1
  {
    if text == "" then [""]
    else
      var rest := Lines(text[1..]);
      if IsLineEnd(text[0]) then [""] + rest else [[text[0]] + rest[0]] + rest[1..]
  }

  function NonBlank(g: Grammar, lines: seq<string>): seq<string> {
    if lines == [] then []
    else NonBlank(g, lines[..|lines| - 1]) + if g.isBlank(lines[|lines| - 1]) then [] else [lines[|lines| - 1]]
  }

  /** size_t arithmetic, for the index that is decremented at 0. */
  const SIZE_T := 0x1_0000_0000_0000_0000

  function Decrement(i: nat): nat {
    if i == 0 then SIZE_T - 1 else i - 1
  }

  function Increment(i: nat): nat {
    if i == SIZE_T - 1 then 0 else i + 1
  }

  /** While blank lines are erased: `now` is the `i` lines kept of those seen, and the others. */
  ghost predicate Erased(g: Grammar, lines: seq<string>, seen: nat, i: nat, now: seq<string>)
    requires seen <= |lines|
  {
    |NonBlank(g, lines[..seen])| == i && now == NonBlank(g, lines[..seen]) + lines[seen..]
  }

  lemma LineSeen(g: Grammar, lines: seq<string>, seen: nat, i: nat, now: seq<string>)
    requires seen <= |lines| && Erased(g, lines, seen, i, now) && i < |now|
    ensures seen < |lines|
    ensures if g.isBlank(now[i]) then Erased(g, lines, seen + 1, i, now[..i] + now[i + 1..])
            else Erased(g, lines, seen + 1, i + 1, now)
  {
    var kept := NonBlank(g, lines[..seen]);
    assert lines[..seen + 1][..seen] == lines[..seen];
    assert lines[seen..] == [lines[seen]] + lines[seen + 1..];
    EraseAt(kept, lines[seen], lines[seen + 1..]);
  }

  lemma AllSeen(g: Grammar, lines: seq<string>, seen: nat, i: nat, now: seq<string>)
    requires seen <= |lines| && Erased(g, lines, seen, i, now) && i >= |now|
    ensures now == NonBlank(g, lines)
  {
    assert lines[..seen] == lines && lines[seen..] == [];
  }

  lemma EraseAt(kept: seq<string>, x: string, rest: seq<string>)
    ensures var now := kept + ([x] + rest);
            && now[|kept|] == x && now[..|kept|] + now[|kept| + 1..] == kept + rest
            && now == (kept + [x]) + rest
  {
  }

  class ReactionParser {
    const g: Grammar
    var reactionStringLines: seq<string>

    constructor (g: Grammar, reactionString: string)
      requires |reactionString| + 1 < SIZE_T
      ensures this.g == g && reactionStringLines == NonBlank(g, Lines(reactionString))
    {
      this.g, reactionStringLines := g, Lines(reactionString);
      new;
      EraseBlankLines();
    }

    /** Erases the blank lines in place, stepping back after each. */
    method EraseBlankLines()
      requires |reactionStringLines| < SIZE_T
      modifies this
      ensures reactionStringLines == NonBlank(g, old(reactionStringLines))
    {
      ghost var lines := reactionStringLines;
      var i := 0;
      ghost var seen := 0;
      while i < |reactionStringLines|
        invariant seen <= |lines| && 0 <= i <= seen
        invariant Erased(g, lines, seen, i, reactionStringLines)
        decreases |lines| - seen
      {
        LineSeen(g, lines, seen, i, reactionStringLines);
        if g.isBlank(reactionStringLines[i]) {
          reactionStringLines := reactionStringLines[..i] + reactionStringLines[i + 1..];
          i := Decrement(i);
        }
        seen := seen + 1;
        i := Increment(i);
      }
      AllSeen(g, lines, seen, i, reactionStringLines);
    }

    method Parse() returns (reactions: seq<View>, error: Option<Error>)
      requires WellFormedREV(g, reactionStringLines)
      modifies this
      ensures Outcome(reactions, error) == Expected(g, old(reactionStringLines))
    {
      assert Foreseen(reactionStringLines);
      reactions, error := ReadAll(GroupMeaningOf(g), lines => Interpret(GroupMeaningOf(g), Groups(g, lines)));
    }

    /** The outer loop, whatever it is that groups of lines mean. */
    method ReadAll(ghost build: Group -> Result<View, Error>, ghost rest: seq<string> -> Outcome)
      returns (reactions: seq<View>, error: Option<Error>)
      requires WellFormedREV(g, reactionStringLines)
      requires Builds(g, build) && Foresees(g, build, rest)
      modifies this
      ensures Outcome(reactions, error) == rest(old(reactionStringLines))
    {
      reactions, error := [], None;
      ghost var lines := reactionStringLines;
      ghost var expected := rest(lines);
      assert lines[0..] == lines;
      var i := 0;
      while i < |reactionStringLines|
        invariant i <= |lines| == |reactionStringLines|
        invariant reactionStringLines[i..] == lines[i..]
        invariant expected == After(reactions, rest(lines[i..]))
      {
        ghost var before := reactionStringLines;
        TailsAgree(g, before, lines, i);
        var found, v, last, failure := ReadOne(i, build);
        TurnTaken(g, build, rest, lines, before, reactionStringLines, i, reactions, found, v, last, failure);
        if found {
          if failure.Some? {
            error := failure;
            return;
          }
          reactions := reactions + [v];
          i := last;
        }
        i := i + 1;
      }
      NothingLeft(g, build, rest, lines[i..], reactions);
    }

    /** One turn of the outer loop: the line loses its "(+X)", and if it is a reaction, that is
        read with the lines that belong to it. */
    method ReadOne(i: nat, ghost build: Group -> Result<View, Error>)
      returns (found: bool, v: View, last: nat, failure: Option<Error>)
      requires i < |reactionStringLines| && WellFormedREV(g, reactionStringLines[i + 1..]) && Builds(g, build)
      modifies this
      ensures OneRead(g, build, old(reactionStringLines), reactionStringLines, i, found, v, last, failure)
    {
      var reaction, line, match_ := ReadHead(reactionStringLines[i]);
      found, v, last, failure := match_, EMPTY, i, None;
      ghost var before := reactionStringLines;
      reactionStringLines := reactionStringLines[i := line];
      assert reactionStringLines[i + 1..] == before[i + 1..];
      if found {
        assert Asked(Group(before[i], RunAfter(g, before, i)));
        last, failure := ReadRest(reaction, i);
        v := reaction.Value();
      }
    }

    /** A new reaction from its own line, which loses its "(+X)"; or none. */
    method ReadHead(original: string) returns (reaction: Reaction, line: string, found: bool)
      ensures fresh(reaction) && line == Stripped(g, original)
      ensures found == g.search(line).Some?
      ensures reaction.Value() == Bare(HeadOf(g, original))
    {
      reaction := new Reaction();
      line := original;
      if g.hasPressure(line) {
        line := g.strip(line);
        reaction.SetPressureDependent();
      }
      var what := g.search(line);
      found := what.Some?;
      if found {
        ReadMatch(reaction, what.value);
      }
    }

    method ReadMatch(reaction: Reaction, what: Match)
      requires reaction.Value() == Bare(NO_HEAD.(pressureDependent := reaction.pressureDependent))
      modifies reaction
      ensures reaction.Value() == Bare(Matched(old(reaction.pressureDependent), what))
    {
      var species := ParseReactionSpecies(what.reactants);
      reaction.SetReactants(species);
      if what.arrow == "=>" {
        reaction.SetReversible(false);
      }
      species := ParseReactionSpecies(what.products);
      reaction.SetProducts(species);
      reaction.SetArrhenius(what.arrhenius, false);
    }

    /** The inner loop: from the reaction at line `i`, move `i` over the lines that belong to it. */
    method ReadRest(reaction: Reaction, i: nat) returns (last: nat, failure: Option<Error>)
      requires i < |reactionStringLines| && WellFormedREV(g, reactionStringLines[i + 1..])
      modifies reaction
      ensures var run := RunAfter(g, reactionStringLines, i);
              match AddLines(g, old(reaction.Value()), run)
              case Ok(v) => failure == None && reaction.Value() == v && last == i + |run|
              case Err(e) => failure == Some(e)
    {
      ghost var v0 := reaction.Value();
      ghost var tail := reactionStringLines[i + 1..];
      ghost var run := tail[..RunLength(g, tail)];
      RunIsMaximal(g, tail);
      last := i;
      while last < |reactionStringLines| - 1
        invariant i <= last <= i + |run|
        invariant AddLines(g, v0, run) == AddLines(g, reaction.Value(), run[last - i..])
        decreases |reactionStringLines| - last
      {
        var next := reactionStringLines[last + 1];
        assert next == tail[last - i];
        if g.search(next).Some? {
          break;
        }
        assert next == run[last - i..][0] && run[last - i..][1..] == run[last - i + 1..];
        if g.isDuplicate(next) {
          reaction.SetDuplicate();
          last := last + 1;
        } else if g.isREV(next) {
          var r := g.numbersREV(next);
          reaction.SetArrhenius(Arrhenius(r[0], r[1], r[2]), true);
          last := last + 1;
        } else if reaction.thirdBody || reaction.pressureDependent {
          var ok := ReadAuxiliary(reaction, next);
          if ok.Some? {
            return last, ok;
          }
          last := last + 1;
        } else {
          return last, Some(Unsupported);
        }
      }
      failure := None;
    }

    method ReadAuxiliary(reaction: Reaction, line: string) returns (failure: Option<Error>)
      requires !g.isDuplicate(line) && !g.isREV(line) && (reaction.thirdBody || reaction.pressureDependent)
      modifies reaction
      ensures match AddLine(g, old(reaction.Value()), line)
              case Ok(v) => failure == None && reaction.Value() == v
              case Err(e) => failure == Some(e)
    {
      failure := None;
      match FindLineType(g, line)
      case THIRDBODY =>
        reaction.SetThirdBodies(g.thirdBodies(line));
      case LOW =>
        reaction.SetLOW(g.numbersLOW(line));
      case TROE =>
        var ok := reaction.SetTROE(g.numbersTROE(line));
        if !ok { failure := Some(BadTROE); }
      case SRI =>
        var ok := reaction.SetSRI(g.numbersSRI(line));
        if !ok { failure := Some(BadSRI); }
    }
  }

  function After(before: seq<View>, later: Outcome): Outcome {
    Outcome(before + later.reactions, later.error)
  }

  lemma {:induction false} RunIsMaximal(g: Grammar, lines: seq<string>)
    ensures var n := RunLength(g, lines);
            && (forall i :: 0 <= i < n ==> !IsReaction(g, lines[i]))
            && (n < |lines| ==> IsReaction(g, lines[n]))
  {
    if lines != [] && !IsReaction(g, lines[0]) {
      RunIsMaximal(g, lines[1..]);
    }
  }

  /** The lines that belong to the reaction at line `i`. */
  function RunAfter(g: Grammar, lines: seq<string>, i: nat): seq<string>
    requires i < |lines|
  {
    lines[i + 1..][..RunLength(g, lines[i + 1..])]
  }

  lemma FirstGroup(g: Grammar, lines: seq<string>, i: nat)
    requires i < |lines| && IsHead(g, lines[i])
    ensures var run := RunAfter(g, lines, i);
            && i + |run| + 1 <= |lines|
            && Groups(g, lines[i..]) == [Group(lines[i], run)] + Groups(g, lines[i + |run| + 1..])
  {
    var tail := lines[i..];
    assert tail[0] == lines[i] && tail[1..] == lines[i + 1..];
    var n := RunLength(g, lines[i + 1..]);
    assert tail[1..1 + n] == lines[i + 1..][..n];
    assert tail[1 + n..] == lines[i + 1 + n..];
  }

  lemma LineSkipped(g: Grammar, lines: seq<string>, i: nat)
    requires i < |lines| && !IsHead(g, lines[i])
    ensures Groups(g, lines[i..]) == Groups(g, lines[i + 1..])
  {
    assert lines[i..][0] == lines[i] && lines[i..][1..] == lines[i + 1..];
  }

  lemma TailsAgree(g: Grammar, now: seq<string>, lines: seq<string>, i: nat)
    requires WellFormedREV(g, lines) && i < |now| == |lines| && now[i..] == lines[i..]
    ensures now[i + 1..] == lines[i + 1..] && WellFormedREV(g, now[i + 1..])
  {
    assert now[i..][1..] == now[i + 1..] && lines[i..][1..] == lines[i + 1..];
  }

  /** What one turn of the outer loop does at line `i`: the line loses its "(+X)", and if it is
      found to be a reaction, its group is given its meaning `v` or its `failure`. */
  ghost predicate OneRead(g: Grammar, build: Group -> Result<View, Error>, before: seq<string>, now: seq<string>,
                          i: nat,
                          found: bool, v: View, last: nat, failure: Option<Error>)
    requires i < |before|
  {
    && now == before[i := Stripped(g, before[i])]
    && found == IsHead(g, before[i])
    && (found ==>
          var run := RunAfter(g, before, i);
          var r := build(Group(before[i], run));
          if r.Ok? then failure == None && v == r.value && last == i + |run| else failure == Some(r.error))
  }

  /** The step from one reaction line to the next, or over a line that is none. */
  lemma TurnTaken(g: Grammar, build: Group -> Result<View, Error>, rest: seq<string> -> Outcome,
                  lines: seq<string>, before: seq<string>, now: seq<string>, i: nat, reactions: seq<View>,
                  found: bool, v: View, last: nat, failure: Option<Error>)
    requires i < |before| == |lines| && before[i..] == lines[i..]
    requires OneRead(g, build, before, now, i, found, v, last, failure) && Foresees(g, build, rest)
    ensures |now| == |lines|
    ensures found && failure.Some? ==> After(reactions, rest(lines[i..])) == Outcome(reactions, failure)
    ensures !found ==> now[i + 1..] == lines[i + 1..] && rest(lines[i..]) == rest(lines[i + 1..])
    ensures found && failure.None? ==> (
              && i <= last < |lines| && now[last + 1..] == lines[last + 1..]
              && After(reactions, rest(lines[i..])) == After(reactions + [v], rest(lines[last + 1..])))
  {
    LinesAgree(before, lines, Stripped(g, before[i]), i);
    assert RunAfter(g, before, i) == RunAfter(g, lines, i);
    if found {
      var run := RunAfter(g, lines, i);
      GroupForeseen(g, build, rest, lines, i, reactions, run, build(Group(lines[i], run)));
    } else {
      LineForeseen(g, build, rest, lines, i);
    }
  }

  lemma GroupForeseen(g: Grammar, build: Group -> Result<View, Error>, rest: seq<string> -> Outcome,
                      lines: seq<string>, i: nat, reactions: seq<View>, run: seq<string>, r: Result<View, Error>)
    requires i < |lines| && IsHead(g, lines[i]) && Foresees(g, build, rest)
    requires run == RunAfter(g, lines, i) && r == build(Group(lines[i], run))
    ensures i + |run| + 1 <= |lines|
    ensures r.Ok? ==> After(reactions, rest(lines[i..])) == After(reactions + [r.value], rest(lines[i + |run| + 1..]))
    ensures r.Err? ==> After(reactions, rest(lines[i..])) == Outcome(reactions, Some(r.error))
  {
    FirstGroup(g, lines, i);
    var later := lines[i + |run| + 1..];
    assert Foreseen(lines[i..]) && Foreseen(later);
    assert rest(lines[i..]) == Interpret(build, [Group(lines[i], run)] + Groups(g, later));
    assert rest(later) == Interpret(build, Groups(g, later));
    InterpretFirst(build, Group(lines[i], run), Groups(g, later), reactions);
  }

  lemma LineForeseen(g: Grammar, build: Group -> Result<View, Error>, rest: seq<string> -> Outcome,
                     lines: seq<string>, i: nat)
    requires i < |lines| && !IsHead(g, lines[i]) && Foresees(g, build, rest)
    ensures rest(lines[i..]) == rest(lines[i + 1..])
  {
    assert Foreseen(lines[i..]) && Foreseen(lines[i + 1..]);
    LineSkipped(g, lines, i);
  }

  lemma NothingLeft(g: Grammar, build: Group -> Result<View, Error>, rest: seq<string> -> Outcome,
                    lines: seq<string>, reactions: seq<View>)
    requires Foresees(g, build, rest) && lines == []
    ensures After(reactions, rest(lines)) == Outcome(reactions, None)
  {
    assert Foreseen(lines);
  }

  lemma LinesAgree(before: seq<string>, lines: seq<string>, line: string, i: nat)
    requires i < |before| == |lines| && before[i..] == lines[i..]
    ensures before[i] == lines[i] && before[i + 1..] == lines[i + 1..]
    ensures forall j: nat :: i < j <= |lines| ==> before[i := line][j..] == lines[j..]
  {
    assert before[i] == before[i..][0] == lines[i..][0];
    assert before[i + 1..] == before[i..][1..] == lines[i..][1..];
    forall j: nat | i < j <= |lines|
      ensures before[i := line][j..] == lines[j..]
    {
      assert before[i := line][j..] == before[j..] == before[i..][j - i..];
      assert lines[j..] == lines[i..][j - i..];
    }
  }

  lemma InterpretFirst(build: Group -> Result<View, Error>, group: Group, later: seq<Group>, before: seq<View>)
    ensures var r := build(group);
            After(before, Interpret(build, [group] + later))
            == if r.Ok? then After(before + [r.value], Interpret(build, later)) else Outcome(before, Some(r.error))
  {
    assert ([group] + later)[1..] == later;
    match build(group)
    case Ok(v) =>
      var rest := Interpret(build, later).reactions;
      assert before + ([v] + rest) == (before + [v]) + rest;
    case Err(e) =>
      assert before + [] == before;
  }
}
