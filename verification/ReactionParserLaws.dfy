/** What the reaction parser promises about the lines it is given. */
module ReactionParserLaws {
  import opened ReactionSpecies
  import opened Reactions
  import opened ReactionParsers
  import opened Wrappers

  /** Whether one of the lines has the property. */
  predicate Any(property: string -> bool, lines: seq<string>) {
    lines != [] && (property(lines[0]) || Any(property, lines[1..]))
  }

  lemma {:induction false} AnyIffOne(property: string -> bool, lines: seq<string>)
    ensures Any(property, lines) <==> exists i :: 0 <= i < |lines| && property(lines[i])
  {
    if lines == [] {
    } else {
      AnyIffOne(property, lines[1..]);
      assert forall i :: 0 < i < |lines| ==> lines[i] == lines[1..][i - 1];
    }
  }

  // ---------- Lines ----------

  const LINE_ENDS := "\n|\r\n"

  /** The lines are the text cut at every one of its line ends. */
  predicate CutsAtEnds(lines: seq<string>, text: string) {
    && lines != [] && (forall c :: c in lines[0] ==> c !in LINE_ENDS)
    && if |lines| == 1 then lines[0] == text
       else lines[0] < text && text[|lines[0]|] in LINE_ENDS && CutsAtEnds(lines[1..], text[|lines[0]| + 1..])
  }

  lemma {:induction false} LinesCutAtEnds(text: string)
    ensures CutsAtEnds(Lines(text), text)
  {
    if text == "" {
    } else {
      var rest := Lines(text[1..]);
      LinesCutAtEnds(text[1..]);
      if IsLineEnd(text[0]) {
        assert ([""] + rest)[1..] == rest;
      } else {
        LongerFirstLine(text[0], rest, text[1..]);
        assert text == [text[0]] + text[1..];
      }
    }
  }

  lemma LongerFirstLine(c: char, lines: seq<string>, text: string)
    requires CutsAtEnds(lines, text) && c !in LINE_ENDS
    ensures CutsAtEnds([[c] + lines[0]] + lines[1..], [c] + text)
  {
    var more, longer := [[c] + lines[0]] + lines[1..], [c] + text;
    assert more[1..] == lines[1..];
    if |lines| > 1 {
      assert longer[|lines[0]| + 1] == text[|lines[0]|];
      assert longer[|lines[0]| + 2..] == text[|lines[0]| + 1..];
    }
  }

  // ---------- Blank lines ----------

  lemma {:induction false} NonBlankConcat(g: Grammar, a: seq<string>, b: seq<string>)
    ensures NonBlank(g, a + b) == NonBlank(g, a) + NonBlank(g, b)
  {
    if b == [] {
      assert a + b == a;
    } else {
      assert (a + b)[..|a + b| - 1] == a + b[..|b| - 1];
      NonBlankConcat(g, a, b[..|b| - 1]);
    }
  }

  /** Where line `i` is among the lines that are not blank: after all of those before it. */
  lemma NonBlankAt(g: Grammar, lines: seq<string>, i: nat)
    requires i < |lines|
    ensures NonBlank(g, lines)
         == NonBlank(g, lines[..i]) + (if g.isBlank(lines[i]) then [] else [lines[i]]) + NonBlank(g, lines[i + 1..])
  {
    assert lines == lines[..i] + [lines[i]] + lines[i + 1..];
    NonBlankConcat(g, lines[..i], [lines[i]]);
    NonBlankConcat(g, lines[..i] + [lines[i]], lines[i + 1..]);
    assert [lines[i]][..0] == [];
  }

  lemma CountSnoc(lines: seq<string>, last: string, line: string)
    ensures multiset(lines + [last])[line] == multiset(lines)[line] + if last == line then 1 else 0
  {
  }

  /** No line is lost or made up, and none that is left is blank. */
  lemma {:induction false} NonBlankKeeps(g: Grammar, lines: seq<string>, line: string)
    ensures multiset(NonBlank(g, lines))[line] == if g.isBlank(line) then 0 else multiset(lines)[line]
  {
    if lines == [] {
    } else {
      var n := |lines| - 1;
      NonBlankKeeps(g, lines[..n], line);
      CountSnoc(lines[..n], lines[n], line);
      CountSnoc(NonBlank(g, lines[..n]), lines[n], line);
      assert lines == lines[..n] + [lines[n]];
    }
  }

  // ---------- Grouping ----------

  /** What the parser makes of lines: a line is skipped, or it starts a group. */
  datatype Section = Skipped(line: string) | Owned(group: Group)

  function Sections(g: Grammar, lines: seq<string>): seq<Section>
    decreases |lines|
  {
    if lines == [] then []
    else if !IsHead(g, lines[0]) then [Skipped(lines[0])] + Sections(g, lines[1..])
    else
      var n := RunLength(g, lines[1..]);
      [Owned(Group(lines[0], lines[1..1 + n]))] + Sections(g, lines[1 + n..])
  }

  function LinesOfSection(section: Section): (lines: seq<string>)
    ensures lines != []
  {
    match section
    case Skipped(line) => [line]
    case Owned(group) => [group.head] + group.rest
  }

  function LinesOf(sections: seq<Section>): seq<string> {
    if sections == [] then [] else LinesOfSection(sections[0]) + LinesOf(sections[1..])
  }

  function GroupsIn(sections: seq<Section>): seq<Group> {
    if sections == [] then []
    else (if sections[0].Owned? then [sections[0].group] else []) + GroupsIn(sections[1..])
  }

  predicate NoReactions(g: Grammar, lines: seq<string>) {
    forall i :: 0 <= i < |lines| ==> !IsReaction(g, lines[i])
  }

  /** Skipped lines start no reaction; a group is started by a line that does, goes on with lines
      that are no reaction as they stand, and ends only before one that is. */
  predicate WellSectioned(g: Grammar, sections: seq<Section>) {
    sections == [] ||
      (&& (match sections[0]
           case Skipped(line) => !IsHead(g, line)
           case Owned(group) =>
             && IsHead(g, group.head) && NoReactions(g, group.rest)
             && (|sections| > 1 ==> IsReaction(g, LinesOfSection(sections[1])[0])))
       && WellSectioned(g, sections[1..]))
  }

  lemma FirstRun(g: Grammar, tail: seq<string>)
    ensures var n := RunLength(g, tail);
            NoReactions(g, tail[..n]) && (tail[n..] == [] || IsReaction(g, tail[n..][0]))
  {
    RunIsMaximal(g, tail);
    var n := RunLength(g, tail);
    assert n < |tail| ==> tail[n..][0] == tail[n];
  }

  lemma SplitInThree(lines: seq<string>, n: nat)
    requires 1 + n <= |lines|
    ensures lines == ([lines[0]] + lines[1..1 + n]) + lines[1 + n..]
    ensures lines[1..1 + n] == lines[1..][..n] && lines[1 + n..] == lines[1..][n..]
  {
  }

  lemma SectionsCons(section: Section, sections: seq<Section>)
    ensures LinesOf([section] + sections) == LinesOfSection(section) + LinesOf(sections)
    ensures GroupsIn([section] + sections) == (if section.Owned? then [section.group] else []) + GroupsIn(sections)
  {
    assert ([section] + sections)[1..] == sections;
  }

  lemma {:induction false} FirstLine(sections: seq<Section>)
    requires sections != []
    ensures LinesOf(sections) != [] && LinesOf(sections)[0] == LinesOfSection(sections[0])[0]
  {
  }

  /** Every line is in exactly one section, in order, and the groups of the parser are those of
      the sections. */
  lemma {:induction false} SectionsPartition(g: Grammar, lines: seq<string>)
    ensures LinesOf(Sections(g, lines)) == lines && WellSectioned(g, Sections(g, lines))
    ensures Groups(g, lines) == GroupsIn(Sections(g, lines))
    decreases |lines|
  {
    if lines == [] {
    } else if !IsHead(g, lines[0]) {
      SectionsPartition(g, lines[1..]);
      SectionsCons(Skipped(lines[0]), Sections(g, lines[1..]));
      SkippedFirst(g, lines);
    } else {
      var n := RunLength(g, lines[1..]);
      var group, later := Group(lines[0], lines[1..1 + n]), lines[1 + n..];
      SplitInThree(lines, n);
      FirstRun(g, lines[1..]);
      SectionsPartition(g, later);
      SectionsCons(Owned(group), Sections(g, later));
      OwnedFirst(g, group, Sections(g, later));
    }
  }

  lemma SkippedFirst(g: Grammar, lines: seq<string>)
    requires lines != [] && !IsHead(g, lines[0]) && WellSectioned(g, Sections(g, lines[1..]))
    ensures WellSectioned(g, [Skipped(lines[0])] + Sections(g, lines[1..]))
    ensures lines == [lines[0]] + lines[1..]
  {
    var sections := [Skipped(lines[0])] + Sections(g, lines[1..]);
    assert sections[1..] == Sections(g, lines[1..]);
  }

  lemma OwnedFirst(g: Grammar, group: Group, later: seq<Section>)
    requires WellSectioned(g, later) && IsHead(g, group.head) && NoReactions(g, group.rest)
    requires LinesOf(later) == [] || IsReaction(g, LinesOf(later)[0])
    ensures WellSectioned(g, [Owned(group)] + later)
  {
    var sections := [Owned(group)] + later;
    assert sections[1..] == later;
    if later != [] {
      FirstLine(later);
      assert sections[1] == later[0];
    }
  }

  /** There is no other way to section the lines so. */
  lemma {:induction false} SectionsAreUnique(g: Grammar, sections: seq<Section>)
    requires WellSectioned(g, sections)
    ensures Sections(g, LinesOf(sections)) == sections
  {
    if sections == [] {
    } else {
      SectionsAreUnique(g, sections[1..]);
      var later := LinesOf(sections[1..]);
      if |sections| > 1 {
        FirstLine(sections[1..]);
      }
      match sections[0]
      case Skipped(line) =>
        assert ([line] + later)[1..] == later;
      case Owned(group) =>
        assert |sections| == 1 ==> later == [];
        BlockIsStarted(g, group, later);
    }
  }

  lemma BlockIsStarted(g: Grammar, group: Group, later: seq<string>)
    requires IsHead(g, group.head) && NoReactions(g, group.rest) && (later == [] || IsReaction(g, later[0]))
    ensures var lines := [group.head] + group.rest + later;
            && Sections(g, lines) == [Owned(group)] + Sections(g, later)
            && Groups(g, lines) == [group] + Groups(g, later)
  {
    var lines := [group.head] + group.rest + later;
    assert lines[1..] == group.rest + later;
    RunOf(g, group.rest, later);
    var n := |group.rest|;
    assert lines[1..1 + n] == group.rest && lines[1 + n..] == later;
  }

  lemma {:induction false} RunOf(g: Grammar, run: seq<string>, later: seq<string>)
    requires NoReactions(g, run) && (later == [] || IsReaction(g, later[0]))
    ensures RunLength(g, run + later) == |run|
  {
    if run == [] {
      assert run + later == later;
    } else {
      assert (run + later)[1..] == run[1..] + later;
      RunOf(g, run[1..], later);
    }
  }

  // ---------- One line at a time ----------

  datatype Role = Free | Start | Member

  /** The parser as an automaton that reads one line at a time and knows whether the line before
      belongs to a reaction. */
  function Roles(g: Grammar, lines: seq<string>, within: bool): (roles: seq<Role>)
    ensures |roles| == |lines|
  {
    if lines == [] then []
    else
      var role := RoleOf(g, lines[0], within);
      [role] + Roles(g, lines[1..], role != Free)
  }

  function RoleOf(g: Grammar, line: string, within: bool): Role {
    if within && !IsReaction(g, line) then Member
    else if IsHead(g, line) then Start
    else Free
  }

  function Members(n: nat): (roles: seq<Role>)
    ensures |roles| == n
  {
    if n == 0 then [] else [Member] + Members(n - 1)
  }

  function RolesIn(sections: seq<Section>): seq<Role> {
    if sections == [] then []
    else
      (match sections[0]
       case Skipped(_) => [Free]
       case Owned(group) => [Start] + Members(|group.rest|))
      + RolesIn(sections[1..])
  }

  lemma {:induction false} RunIsMembers(g: Grammar, lines: seq<string>)
    ensures var n := RunLength(g, lines);
            Roles(g, lines, true) == Members(n) + Roles(g, lines[n..], false)
  {
    if lines == [] || IsReaction(g, lines[0]) {
      assert lines[0..] == lines;
    } else {
      RunIsMembers(g, lines[1..]);
      var n := RunLength(g, lines[1..]);
      assert lines[1..][n..] == lines[1 + n..];
      assert [Member] + (Members(n) + Roles(g, lines[1 + n..], false))
             == Members(1 + n) + Roles(g, lines[1 + n..], false);
    }
  }

  /** The look-ahead of the parser and its index that two loops move do what the automaton does. */
  lemma {:induction false} RolesAreThoseOfSections(g: Grammar, lines: seq<string>)
    ensures Roles(g, lines, false) == RolesIn(Sections(g, lines))
    decreases |lines|
  {
    if lines == [] {
    } else if !IsHead(g, lines[0]) {
      RolesAreThoseOfSections(g, lines[1..]);
      assert ([Skipped(lines[0])] + Sections(g, lines[1..]))[1..] == Sections(g, lines[1..]);
    } else {
      var n := RunLength(g, lines[1..]);
      var group, later := Group(lines[0], lines[1..1 + n]), lines[1 + n..];
      RunIsMembers(g, lines[1..]);
      assert lines[1..][n..] == later;
      RolesAreThoseOfSections(g, later);
      assert ([Owned(group)] + Sections(g, later))[1..] == Sections(g, later);
      assert [Start] + (Members(n) + Roles(g, later, false)) == ([Start] + Members(n)) + Roles(g, later, false);
    }
  }

  lemma {:induction false} RoleInContext(g: Grammar, lines: seq<string>, within: bool, i: nat)
    requires i < |lines|
    ensures var roles := Roles(g, lines, within);
            roles[i] == RoleOf(g, lines[i], if i == 0 then within else roles[i - 1] != Free)
  {
    if i == 0 {
    } else {
      RoleInContext(g, lines[1..], RoleOf(g, lines[0], within) != Free, i - 1);
    }
  }

  /** Line `j` starts a reaction, and no line after it, up to line `i`, is one as it stands. */
  ghost predicate RunsFrom(g: Grammar, lines: seq<string>, j: nat, i: nat)
    requires j < i < |lines|
  {
    Roles(g, lines, false)[j] == Start && forall k :: j < k <= i ==> !IsReaction(g, lines[k])
  }

  lemma {:induction false} MemberRunsFrom(g: Grammar, lines: seq<string>, i: nat) returns (j: nat)
    requires i < |lines| && Roles(g, lines, false)[i] == Member
    ensures j < i && RunsFrom(g, lines, j, i)
  {
    RoleInContext(g, lines, false, i);
    if Roles(g, lines, false)[i - 1] == Start {
      j := i - 1;
    } else {
      j := MemberRunsFrom(g, lines, i - 1);
    }
  }

  lemma {:induction false} RunIsOfMembers(g: Grammar, lines: seq<string>, j: nat, i: nat)
    requires j < i < |lines| && RunsFrom(g, lines, j, i)
    ensures Roles(g, lines, false)[i] == Member
  {
    RoleInContext(g, lines, false, i);
    if j == i - 1 {
    } else {
      RunIsOfMembers(g, lines, j, i - 1);
    }
  }

  /** A line whose stripped form is a reaction starts one, unless it is lost to the reaction before
      it: exactly when it is no reaction as it stands, and no line after that reaction's own is. */
  lemma LineIsLostIff(g: Grammar, lines: seq<string>, i: nat)
    requires i < |lines| && IsHead(g, lines[i])
    ensures Roles(g, lines, false)[i] in {Start, Member}
    ensures Roles(g, lines, false)[i] == Member <==> exists j: nat :: j < i && RunsFrom(g, lines, j, i)
  {
    RoleInContext(g, lines, false, i);
    if Roles(g, lines, false)[i] == Member {
      var j := MemberRunsFrom(g, lines, i);
    }
    if j: nat :| j < i && RunsFrom(g, lines, j, i) {
      RunIsOfMembers(g, lines, j, i);
    }
  }

  /** A reaction that only its stripped form shows gets no reaction of its own after another one. */
  lemma LineIsLost(g: Grammar, first: string, second: string)
    requires IsHead(g, first) && IsHead(g, second) && !IsReaction(g, second)
    ensures Groups(g, [first, second]) == [Group(first, [second])]
  {
    BlockIsStarted(g, Group(first, [second]), []);
    assert [first] + [second] + [] == [first, second];
  }

  // ---------- Stable lines ----------

  /** Whether one of these lines is taken for a reaction does not depend on its "(+X)" being there. */
  predicate Stable(g: Grammar, lines: seq<string>) {
    forall i :: 0 <= i < |lines| ==> (IsHead(g, lines[i]) <==> IsReaction(g, lines[i]))
  }

  predicate WellFormed(g: Grammar, group: Group) {
    IsReaction(g, group.head) && NoReactions(g, group.rest)
  }

  predicate AllWellFormed(g: Grammar, groups: seq<Group>) {
    forall k :: 0 <= k < |groups| ==> WellFormed(g, groups[k])
  }

  /** The lines of some groups, in order. */
  function Flat(groups: seq<Group>): seq<string> {
    if groups == [] then [] else [groups[0].head] + groups[0].rest + Flat(groups[1..])
  }

  lemma FlatOfFirst(group: Group, groups: seq<Group>)
    ensures Flat([group] + groups) == [group.head] + group.rest + Flat(groups)
  {
    assert ([group] + groups)[1..] == groups;
  }

  lemma {:induction false} StableBlock(g: Grammar, lines: seq<string>)
    requires Stable(g, lines) && (lines == [] || IsReaction(g, lines[0]))
    ensures AllWellFormed(g, Groups(g, lines)) && lines == Flat(Groups(g, lines))
    decreases |lines|
  {
    if lines == [] {
    } else {
      var n := RunLength(g, lines[1..]);
      var group, later := Group(lines[0], lines[1..1 + n]), lines[1 + n..];
      SplitInThree(lines, n);
      FirstRun(g, lines[1..]);
      StableBlock(g, later);
      FlatOfFirst(group, Groups(g, later));
    }
  }

  lemma {:induction false} LinesSkipped(g: Grammar, lines: seq<string>)
    requires Stable(g, lines)
    ensures Groups(g, lines) == Groups(g, lines[RunLength(g, lines)..])
  {
    if lines == [] || IsReaction(g, lines[0]) {
    } else {
      LinesSkipped(g, lines[1..]);
      assert lines[1..][RunLength(g, lines[1..])..] == lines[RunLength(g, lines)..];
    }
  }

  /** If the lines are stable, every line is in exactly one group, but for those before the first
      reaction, and each group is a reaction line and all lines up to the next. */
  lemma StableGroupsPartition(g: Grammar, lines: seq<string>) returns (skipped: seq<string>)
    requires Stable(g, lines)
    ensures skipped == lines[..RunLength(g, lines)] && NoReactions(g, skipped)
    ensures lines == skipped + Flat(Groups(g, lines)) && AllWellFormed(g, Groups(g, lines))
  {
    skipped := lines[..RunLength(g, lines)];
    FirstRun(g, lines);
    LinesSkipped(g, lines);
    StableBlock(g, lines[|skipped|..]);
    Cut(lines, |skipped|);
  }

  lemma Cut(lines: seq<string>, n: nat)
    requires n <= |lines|
    ensures lines == lines[..n] + lines[n..]
  {
  }

  /** There is no other such way to group stable lines. */
  lemma {:induction false} StableGroupsAreUnique(g: Grammar, skipped: seq<string>, groups: seq<Group>)
    requires NoReactions(g, skipped) && AllWellFormed(g, groups) && Stable(g, skipped + Flat(groups))
    ensures Groups(g, skipped + Flat(groups)) == groups
  {
    var lines := skipped + Flat(groups);
    if skipped == [] {
      assert lines == Flat(groups);
      StableBlockIsRegrouped(g, groups);
    } else {
      assert lines[0] == skipped[0] && lines[1..] == skipped[1..] + Flat(groups);
      StableGroupsAreUnique(g, skipped[1..], groups);
    }
  }

  lemma {:induction false} StableBlockIsRegrouped(g: Grammar, groups: seq<Group>)
    requires AllWellFormed(g, groups) && Stable(g, Flat(groups))
    ensures Groups(g, Flat(groups)) == groups
  {
    if groups == [] {
    } else {
      var front, later := [groups[0].head] + groups[0].rest, Flat(groups[1..]);
      assert Flat(groups)[0] == groups[0].head;
      assert Flat(groups)[|front|..] == later;
      StableBlockIsRegrouped(g, groups[1..]);
      assert groups[1..] != [] ==> WellFormed(g, groups[1]);
      BlockIsStarted(g, groups[0], later);
    }
  }

  // ---------- One group ----------

  /** Whether lines other than DUP and REV may follow the reaction. */
  predicate Extensible(head: Head) {
    head.thirdBody || head.pressureDependent
  }

  predicate Auxiliary(g: Grammar, line: string) {
    !g.isDuplicate(line) && !g.isREV(line)
  }

  /** What kind of auxiliary line it is: of the expressions for LOW, TROE and SRI, the first that
      finds something decides. */
  predicate OfType(g: Grammar, type_: LineType, line: string) {
    && !g.isDuplicate(line) && !g.isREV(line)
    && match type_
       case LOW => g.isLOW(line)
       case TROE => !g.isLOW(line) && g.isTROE(line)
       case SRI => !g.isLOW(line) && !g.isTROE(line) && g.isSRI(line)
       case THIRDBODY => !g.isLOW(line) && !g.isTROE(line) && !g.isSRI(line)
  }

  /** TROE takes 3 or 4 numbers, and SRI 3 or 5. */
  predicate IncompleteLine(g: Grammar, line: string) {
    || (OfType(g, TROE, line) && |g.numbersTROE(line)| != 3 && |g.numbersTROE(line)| != 4)
    || (OfType(g, SRI, line) && |g.numbersSRI(line)| != 3 && |g.numbersSRI(line)| != 5)
  }

  function IsREV(g: Grammar): string -> bool {
    line => !g.isDuplicate(line) && g.isREV(line)
  }

  function IsAuxiliary(g: Grammar): string -> bool {
    line => Auxiliary(g, line)
  }

  function HasType(g: Grammar, type_: LineType): string -> bool {
    line => OfType(g, type_, line)
  }

  function IsIncomplete(g: Grammar): string -> bool {
    line => IncompleteLine(g, line)
  }

  lemma LineKeepsHead(g: Grammar, v: View, line: string)
    ensures var r := AddLine(g, v, line); r.Ok? ==> r.value.head == v.head
  {
  }

  lemma LineKeepsSizes(g: Grammar, v: View, line: string)
    requires WellSized(v)
    ensures var r := AddLine(g, v, line); r.Ok? ==> WellSized(r.value)
  {
  }

  /** A reaction that is read keeps what its own line says, and its parameter lists are complete. */
  lemma {:induction false} LinesExtend(g: Grammar, v: View, lines: seq<string>)
    ensures var r := AddLines(g, v, lines);
            r.Ok? ==> r.value.head == v.head && (WellSized(v) ==> WellSized(r.value))
    decreases |lines|
  {
    if lines == [] {
    } else {
      LineKeepsHead(g, v, lines[0]);
      if WellSized(v) {
        LineKeepsSizes(g, v, lines[0]);
      }
      var r := AddLine(g, v, lines[0]);
      if r.Ok? {
        LinesExtend(g, r.value, lines[1..]);
      }
    }
  }

  /** The flags that lines of each kind turn on. */
  predicate Flagged(v: View, w: View, duplicate: bool, rev: bool, low: bool, troe: bool, sri: bool) {
    && w.duplicate == (v.duplicate || duplicate)
    && w.hasREV == (v.hasREV || rev)
    && w.hasLOW == (v.hasLOW || low)
    && w.hasTROE == (v.hasTROE || troe)
    && w.hasSRI == (v.hasSRI || sri)
  }

  lemma LineFlags(g: Grammar, v: View, line: string)
    ensures var r := AddLine(g, v, line);
            r.Ok? ==> Flagged(v, r.value, g.isDuplicate(line), !g.isDuplicate(line) && g.isREV(line),
                              OfType(g, LOW, line), OfType(g, TROE, line), OfType(g, SRI, line))
  {
  }

  /** The flags of a reaction that is read tell which kinds of lines belong to it. */
  lemma {:induction false} LinesFlag(g: Grammar, v: View, lines: seq<string>)
    ensures var r := AddLines(g, v, lines);
            r.Ok? ==> Flagged(v, r.value, Any(g.isDuplicate, lines), Any(IsREV(g), lines),
                              Any(HasType(g, LOW), lines), Any(HasType(g, TROE), lines), Any(HasType(g, SRI), lines))
    decreases |lines|
  {
    if lines == [] {
    } else {
      LineFlags(g, v, lines[0]);
      var r := AddLine(g, v, lines[0]);
      if r.Ok? {
        LinesFlag(g, r.value, lines[1..]);
      }
    }
  }

  // ---------- What the lines of a reaction set ----------

  /** The last of the lines that has the property. */
  function LastWith(property: string -> bool, lines: seq<string>): (last: Option<string>)
    ensures last.Some? ==>
              exists k :: && 0 <= k < |lines| && lines[k] == last.value && property(lines[k])
                          && forall j :: k < j < |lines| ==> !property(lines[j])
    ensures last.None? ==> forall j :: 0 <= j < |lines| ==> !property(lines[j])
  {
    if lines == [] then None
    else
      match LastWith(property, lines[1..])
      case Some(line) =>
        var k :| 0 <= k < |lines[1..]| && lines[1..][k] == line && property(line)
                 && forall j :: k < j < |lines[1..]| ==> !property(lines[1..][j]);
        assert lines[k + 1] == line && forall j :: k + 1 < j < |lines| ==> lines[j] == lines[1..][j - 1];
        Some(line)
      case None => if property(lines[0]) then Some(lines[0]) else None
  }

  /** A value that the last line with a property sets; as it was, if there is none. */
  function SetBy<T>(last: Option<string>, value: string -> T, before: T): T {
    match last
    case None => before
    case Some(line) => value(line)
  }

  function ReverseOf(g: Grammar): string -> Arrhenius {
    line => var r := g.numbersREV(line); if |r| < 3 then ZERO else Arrhenius(r[0], r[1], r[2])
  }

  /** TROE values with a fourth one of 0 if it is missing. */
  function TROEOf(g: Grammar): string -> seq<real> {
    line => var t := g.numbersTROE(line); if |t| == 3 then [t[0], t[1], t[2], 0.0] else t
  }

  /** SRI values with a fourth and a fifth one of 1 and 0 if they are missing. */
  function SRIOf(g: Grammar): string -> seq<real> {
    line => var s := g.numbersSRI(line); if |s| == 3 then [s[0], s[1], s[2], 1.0, 0.0] else s
  }

  /** Whether a kind of line is among the lines, and what the last of them says. */
  predicate SetBySome<T(==)>(last: Option<string>, value: string -> T, flag: bool, before: T, flag': bool, after: T) {
    flag' == (flag || last.Some?) && after == SetBy(last, value, before)
  }

  predicate DuplicateSet(g: Grammar, v: View, lines: seq<string>, w: View) {
    w.duplicate == (v.duplicate || LastWith(g.isDuplicate, lines).Some?)
  }

  predicate REVSet(g: Grammar, v: View, lines: seq<string>, w: View) {
    SetBySome(LastWith(IsREV(g), lines), ReverseOf(g), v.hasREV, v.reverseA, w.hasREV, w.reverseA)
  }

  predicate ThirdBodiesSet(g: Grammar, v: View, lines: seq<string>, w: View) {
    w.thirdBodies == SetBy(LastWith(HasType(g, THIRDBODY), lines), g.thirdBodies, v.thirdBodies)
  }

  predicate LOWSet(g: Grammar, v: View, lines: seq<string>, w: View) {
    SetBySome(LastWith(HasType(g, LOW), lines), g.numbersLOW, v.hasLOW, v.low, w.hasLOW, w.low)
  }

  predicate TROESet(g: Grammar, v: View, lines: seq<string>, w: View) {
    SetBySome(LastWith(HasType(g, TROE), lines), TROEOf(g), v.hasTROE, v.troe, w.hasTROE, w.troe)
  }

  predicate SRISet(g: Grammar, v: View, lines: seq<string>, w: View) {
    SetBySome(LastWith(HasType(g, SRI), lines), SRIOf(g), v.hasSRI, v.sri, w.hasSRI, w.sri)
  }

  /** `w` is `v` but for what these lines set, each kind by its last line. */
  predicate SetByLines(g: Grammar, v: View, lines: seq<string>, w: View) {
    && w.head == v.head && DuplicateSet(g, v, lines, w) && REVSet(g, v, lines, w) && ThirdBodiesSet(g, v, lines, w)
    && LOWSet(g, v, lines, w) && TROESet(g, v, lines, w) && SRISet(g, v, lines, w)
  }

  lemma LastOfOne(property: string -> bool, line: string)
    ensures LastWith(property, [line]) == if property(line) then Some(line) else None
  {
    assert [line][1..] == [];
  }

  lemma LineSetsFlags(g: Grammar, v: View, line: string)
    ensures var r := AddLine(g, v, line);
            r.Ok? ==> DuplicateSet(g, v, [line], r.value) && REVSet(g, v, [line], r.value)
  {
    LastOfOne(g.isDuplicate, line);
    LastOfOne(IsREV(g), line);
  }

  lemma LineSetsLOW(g: Grammar, v: View, line: string)
    ensures var r := AddLine(g, v, line);
            r.Ok? ==> ThirdBodiesSet(g, v, [line], r.value) && LOWSet(g, v, [line], r.value)
  {
    LastOfOne(HasType(g, THIRDBODY), line);
    LastOfOne(HasType(g, LOW), line);
  }

  lemma FilledUp(values: seq<real>, fill: seq<real>)
    requires |values| == 3
    ensures fill == [0.0] ==> Full(values, fill) == [values[0], values[1], values[2], 0.0]
    ensures fill == [1.0, 0.0] ==> Full(values, fill) == [values[0], values[1], values[2], 1.0, 0.0]
  {
  }

  lemma LineSetsTROE(g: Grammar, v: View, line: string)
    ensures var r := AddLine(g, v, line); r.Ok? ==> TROESet(g, v, [line], r.value)
  {
    LastOfOne(HasType(g, TROE), line);
    if |g.numbersTROE(line)| == 3 {
      FilledUp(g.numbersTROE(line), [0.0]);
    }
  }

  lemma LineSetsSRI(g: Grammar, v: View, line: string)
    ensures var r := AddLine(g, v, line); r.Ok? ==> SRISet(g, v, [line], r.value)
  {
    LastOfOne(HasType(g, SRI), line);
    if |g.numbersSRI(line)| == 3 {
      FilledUp(g.numbersSRI(line), [1.0, 0.0]);
    }
  }

  lemma LineSets(g: Grammar, v: View, line: string)
    ensures var r := AddLine(g, v, line); r.Ok? ==> SetByLines(g, v, [line], r.value)
  {
    LineKeepsHead(g, v, line);
    LineSetsFlags(g, v, line);
    LineSetsLOW(g, v, line);
    LineSetsTROE(g, v, line);
    LineSetsSRI(g, v, line);
  }

  lemma SetFirst<T>(property: string -> bool, lines: seq<string>, value: string -> T, before: T)
    requires lines != []
    ensures SetBy(LastWith(property, lines), value, before)
         == SetBy(LastWith(property, lines[1..]), value, SetBy(LastWith(property, [lines[0]]), value, before))
    ensures LastWith(property, lines).Some?
            <==> LastWith(property, lines[1..]).Some? || LastWith(property, [lines[0]]).Some?
  {
    LastOfOne(property, lines[0]);
  }

  lemma SetInTurn(g: Grammar, v: View, lines: seq<string>, u: View, w: View)
    requires lines != [] && SetByLines(g, v, [lines[0]], u) && SetByLines(g, u, lines[1..], w)
    ensures SetByLines(g, v, lines, w)
  {
    SetFirst(g.isDuplicate, lines, line => true, true);
    SetFirst(IsREV(g), lines, ReverseOf(g), v.reverseA);
    SetFirst(HasType(g, THIRDBODY), lines, g.thirdBodies, v.thirdBodies);
    SetFirst(HasType(g, LOW), lines, g.numbersLOW, v.low);
    SetFirst(HasType(g, TROE), lines, TROEOf(g), v.troe);
    SetFirst(HasType(g, SRI), lines, SRIOf(g), v.sri);
  }

  lemma {:induction false} LinesSet(g: Grammar, v: View, lines: seq<string>)
    ensures var r := AddLines(g, v, lines); r.Ok? ==> SetByLines(g, v, lines, r.value)
    decreases |lines|
  {
    if lines == [] {
    } else {
      LineSets(g, v, lines[0]);
      var r := AddLine(g, v, lines[0]);
      if r.Ok? {
        LinesSet(g, r.value, lines[1..]);
        var w := AddLines(g, r.value, lines[1..]);
        if w.Ok? {
          SetInTurn(g, v, lines, r.value, w.value);
        }
      }
    }
  }

  lemma LineRefusedIff(g: Grammar, v: View, line: string)
    requires g.isREV(line) ==> |g.numbersREV(line)| >= 3
    ensures AddLine(g, v, line) == Err(Unsupported) <==> !Extensible(v.head) && Auxiliary(g, line)
    ensures AddLine(g, v, line).Ok?
            <==> if Extensible(v.head) then !IncompleteLine(g, line) else !Auxiliary(g, line)
  {
  }

  /** A reaction is refused as unsupported exactly when it takes no auxiliary lines and has one;
      any other refusal is of a TROE or SRI line with a wrong number of values. */
  lemma {:induction false} LinesRefusedIff(g: Grammar, v: View, lines: seq<string>)
    requires WellFormedREV(g, lines)
    ensures AddLines(g, v, lines) == Err(Unsupported) <==> !Extensible(v.head) && Any(IsAuxiliary(g), lines)
    ensures AddLines(g, v, lines).Ok?
            <==> if Extensible(v.head) then !Any(IsIncomplete(g), lines) else !Any(IsAuxiliary(g), lines)
    decreases |lines|
  {
    if lines == [] {
    } else {
      LineRefusedIff(g, v, lines[0]);
      LineKeepsHead(g, v, lines[0]);
      var r := AddLine(g, v, lines[0]);
      if r.Ok? {
        LinesRefusedIff(g, r.value, lines[1..]);
      }
    }
  }

  // ---------- A reaction's own line ----------

  /** Whether one of the species is the third body "M". */
  predicate NamesM(list: seq<Species>) {
    exists i :: 0 <= i < |list| && list[i].name == "M"
  }

  /** The species are those listed, but for the first "M". */
  ghost predicate ListsAllBut(list: seq<Species>, species: SpeciesMap) {
    && (!NamesM(list) ==> species == Meanings(list))
    && forall i :: 0 <= i < |list| && FirstM(list, i) ==> species == Meanings(list[..i] + list[i + 1..])
  }

  ghost predicate FirstM(list: seq<Species>, i: nat)
    requires i < |list|
  {
    list[i].name == "M" && forall j :: 0 <= j < i ==> list[j].name != "M"
  }

  lemma {:induction false} MeaningsAt(list: seq<Species>)
    ensures |Meanings(list)| == |list|
    ensures forall k :: 0 <= k < |list| ==> Meanings(list)[k] == Meaning(list[k])
  {
    if list == [] {
    } else {
      MeaningsAt(list[1..]);
    }
  }

  lemma MeaningsWithoutM(list: seq<Species>)
    ensures HasM(Meanings(list)) <==> NamesM(list)
    ensures ListsAllBut(list, WithoutM(Meanings(list)))
  {
    var m := Meanings(list);
    MeaningsAt(list);
    assert forall k :: 0 <= k < |list| ==> m[k].0 == list[k].name;
    forall i: nat | i < |list| && FirstM(list, i)
      ensures WithoutM(m) == Meanings(list[..i] + list[i + 1..])
    {
      MeaningsBut(list, i);
    }
  }

  lemma MeaningsBut(list: seq<Species>, i: nat)
    requires i < |list|
    ensures var m := Meanings(list);
            |m| == |list| && Meanings(list[..i] + list[i + 1..]) == m[..i] + m[i + 1..]
  {
    MeaningsAt(list);
    MeaningsAt(list[..i] + list[i + 1..]);
  }

  /** A reaction whose species are printed as the generator does is read as it is meant: what is
      left of the arrow are the reactants, what is right of it the products, the arrow "=>" alone
      makes it irreversible, and "M" on either side is a third body. */
  lemma PrintedReactionIsRead(g: Grammar, line: string, left: seq<Species>, right: seq<Species>, what: Match)
    requires left != [] && right != [] && (forall s :: s in left + right ==> Named(s))
    requires g.search(if g.hasPressure(line) then g.strip(line) else line) == Some(what)
    requires what.reactants == Join(left) && what.products == Join(right)
    ensures var head := HeadOf(g, line);
            && ListsAllBut(left, head.reactants) && ListsAllBut(right, head.products)
            && (head.reversible <==> what.arrow != "=>") && (head.thirdBody <==> NamesM(left) || NamesM(right))
            && head.pressureDependent == g.hasPressure(line) && head.forwardA == what.arrhenius
  {
    assert forall s :: s in left || s in right ==> s in left + right;
    ParsePrinted(left);
    ParsePrinted(right);
    MeaningsWithoutM(left);
    MeaningsWithoutM(right);
  }

  // ---------- The whole block ----------

  /** Reactions are those of the groups, in order, up to the first group that is refused. */
  lemma {:induction false} InterpretStopsAtFirstError(build: Group -> Result<View, Error>, groups: seq<Group>)
    ensures var out := Interpret(build, groups);
            var n := |out.reactions|;
            && n <= |groups|
            && (forall k :: 0 <= k < n ==> build(groups[k]) == Ok(out.reactions[k]))
            && (out.error.None? <==> n == |groups|)
            && (out.error.Some? ==> build(groups[n]) == Err(out.error.value))
  {
    if groups != [] && build(groups[0]).Ok? {
      InterpretStopsAtFirstError(build, groups[1..]);
      var out, later := Interpret(build, groups), Interpret(build, groups[1..]);
      assert out.reactions[1..] == later.reactions;
      forall k | 0 <= k < |out.reactions|
        ensures build(groups[k]) == Ok(out.reactions[k])
      {
        if k > 0 { assert out.reactions[k] == later.reactions[k - 1] && groups[k] == groups[1..][k - 1]; }
      }
    }
  }

  lemma {:induction false} GroupLines(g: Grammar, lines: seq<string>, k: nat)
    requires WellFormedREV(g, lines) && k < |Groups(g, lines)|
    ensures WellFormedREV(g, Groups(g, lines)[k].rest)
    decreases |lines|
  {
    if !IsHead(g, lines[0]) {
      GroupLines(g, lines[1..], k);
    } else {
      var n := RunLength(g, lines[1..]);
      SplitInThree(lines, n);
      if k > 0 {
        GroupLines(g, lines[1 + n..], k - 1);
      }
    }
  }

  /** A reaction with neither a third body nor a pressure dependence, and a line that needs one. */
  predicate Unsupporting(g: Grammar, group: Group) {
    !Extensible(HeadOf(g, group.head)) && Any(IsAuxiliary(g), group.rest)
  }

  predicate Incomplete(g: Grammar, group: Group) {
    Extensible(HeadOf(g, group.head)) && Any(IsIncomplete(g), group.rest)
  }

  /** What its own line says, and what the last line of each kind sets. */
  predicate IsReadFrom(g: Grammar, group: Group, v: View) {
    SetByLines(g, Bare(HeadOf(g, group.head)), group.rest, v) && WellSized(v)
  }

  lemma GroupRefusedIff(g: Grammar, group: Group)
    requires WellFormedREV(g, group.rest)
    ensures GroupMeaning(g, group) == Err(Unsupported) <==> Unsupporting(g, group)
    ensures GroupMeaning(g, group).Ok? <==> !Unsupporting(g, group) && !Incomplete(g, group)
    ensures var r := GroupMeaning(g, group); r.Ok? ==> IsReadFrom(g, group, r.value)
  {
    var start := Bare(HeadOf(g, group.head));
    LinesRefusedIff(g, start, group.rest);
    LinesExtend(g, start, group.rest);
    LinesSet(g, start, group.rest);
  }

  /** One reaction for each reaction line, in order, until a line that is refused: as unsupported
      exactly if its reaction takes no auxiliary lines. Every reaction returned is complete, and is
      read from its own line and from the last line of each kind that follows. */
  lemma ParsedReactions(g: Grammar, lines: seq<string>)
    requires WellFormedREV(g, lines)
    ensures var out, groups := Expected(g, lines), Groups(g, lines);
            var n := |out.reactions|;
            && n <= |groups|
            && (forall k :: 0 <= k < n ==>
                  && !Unsupporting(g, groups[k]) && !Incomplete(g, groups[k])
                  && IsReadFrom(g, groups[k], out.reactions[k]))
            && (out.error == None <==> n == |groups|)
            && (out.error == Some(Unsupported) <==> n < |groups| && Unsupporting(g, groups[n]))
            && (n < |groups| ==> Unsupporting(g, groups[n]) || Incomplete(g, groups[n]))
  {
    var build, groups := GroupMeaningOf(g), Groups(g, lines);
    InterpretStopsAtFirstError(build, groups);
    forall k: nat | k < |groups|
      ensures build(groups[k]) == Err(Unsupported) <==> Unsupporting(g, groups[k])
      ensures build(groups[k]).Ok? <==> !Unsupporting(g, groups[k]) && !Incomplete(g, groups[k])
      ensures build(groups[k]).Ok? ==> IsReadFrom(g, groups[k], build(groups[k]).value)
    {
      GroupLines(g, lines, k);
      GroupRefusedIff(g, groups[k]);
    }
  }

  /** With complete TROE and SRI lines, a block is refused exactly when some reaction that has
      neither a third body nor a pressure dependence is followed by an auxiliary line. */
  lemma BlockRefusedIff(g: Grammar, lines: seq<string>)
    requires WellFormedREV(g, lines)
    requires forall k :: 0 <= k < |Groups(g, lines)| ==> !Incomplete(g, Groups(g, lines)[k])
    ensures Expected(g, lines).error == Some(Unsupported)
            <==> exists k :: 0 <= k < |Groups(g, lines)| && Unsupporting(g, Groups(g, lines)[k])
    ensures Expected(g, lines).error in {None, Some(Unsupported)}
  {
    ParsedReactions(g, lines);
  }
}
