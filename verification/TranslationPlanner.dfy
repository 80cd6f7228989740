/** The backward-chaining search of translators.py: given the entity types at hand, find a
    plan of translator calls that ends in a wanted type.

    The search keeps no set of visited types, so it is bounded only by the interpreter's
    recursion limit. `depth` is what is left of that limit, and `TooDeep` is the
    RecursionError raised when it runs out (which the search does not catch). */
module TranslationPlanner {

  datatype Mtype = Mtype(name: string, version: string, ns: string)

  type TransId = nat

  /** One registered (translator, inputs, outputs)-tuple. */
  datatype Entry = Entry(trans: TransId, ins: seq<Mtype>, outs: seq<Mtype>)

  /** A plan is a type that is already at hand, or a translator with a plan for each input. */
  datatype Plan =
    | Given(output: Mtype)
    | Step(output: Mtype, trans: TransId, kids: seq<Plan>)

  datatype Search<+T> = Found(value: T) | Missing | TooDeep

  function TranslationTree(output: Mtype, inputs: set<Mtype>, reg: seq<Entry>, depth: nat): Search<Plan>
    decreases depth, 1, 0
  {
    if output in inputs then Found(Given(output))
    else if depth == 0 then TooDeep
    else TryTranslators(output, inputs, reg, 0, depth)
  }

  /** The loop over the registered translators, from the one at index `from` on. */
  function TryTranslators(output: Mtype, inputs: set<Mtype>, reg: seq<Entry>, from: nat, depth: nat): Search<Plan>
    requires from <= |reg| && depth > 0
    decreases depth, 0, |reg| - from
  {
    if from == |reg| then Missing
    else if output in reg[from].outs then
      match PlanInputs(reg[from].ins, inputs, reg, depth - 1)
      case Found(kids) => Found(Step(output, reg[from].trans, kids))
      case Missing => TryTranslators(output, inputs, reg, from + 1, depth)
      case TooDeep => TooDeep
    else TryTranslators(output, inputs, reg, from + 1, depth)
  }

  /** The list comprehension over a translator's inputs: stops at the first that fails. */
  function PlanInputs(ins: seq<Mtype>, inputs: set<Mtype>, reg: seq<Entry>, depth: nat): Search<seq<Plan>>
    decreases depth, 2, |ins|
  {
    if ins == [] then Found([])
    else
      match TranslationTree(ins[0], inputs, reg, depth)
      case Missing => Missing
      case TooDeep => TooDeep
      case Found(first) =>
        match PlanInputs(ins[1..], inputs, reg, depth)
        case Found(rest) => Found([first] + rest)
        case Missing => Missing
        case TooDeep => TooDeep
  }

  // ---------- What a plan means ----------

  ghost predicate Closed(types: iset<Mtype>, inputs: set<Mtype>, reg: seq<Entry>) {
    && (forall t :: t in inputs ==> t in types)
    && (forall e, o :: e in reg && o in e.outs && (forall t :: t in e.ins ==> t in types) ==> o in types)
  }

  /** `t` is in the least set that contains `inputs` and is closed under the translators. */
  ghost predicate Derivable(t: Mtype, inputs: set<Mtype>, reg: seq<Entry>) {
    forall types: iset<Mtype> :: Closed(types, inputs, reg) ==> t in types
  }

  ghost predicate AllDerivable(ts: seq<Mtype>, inputs: set<Mtype>, reg: seq<Entry>) {
    forall t :: t in ts ==> Derivable(t, inputs, reg)
  }

  function Outputs(plans: seq<Plan>): (ts: seq<Mtype>)
    ensures |ts| == |plans|
    ensures forall i :: 0 <= i < |plans| ==> ts[i] == plans[i].output
  {
    seq(|plans|, i requires 0 <= i < |plans| => plans[i].output)
  }

  /** Entry `i` is the first one that produces `output` from derivable inputs. */
  ghost predicate FirstUsable(i: nat, output: Mtype, inputs: set<Mtype>, reg: seq<Entry>) {
    && i < |reg|
    && output in reg[i].outs && AllDerivable(reg[i].ins, inputs, reg)
    && forall j :: 0 <= j < i && output in reg[j].outs ==> !AllDerivable(reg[j].ins, inputs, reg)
  }

  /** Every leaf is at hand; every inner node is not, and uses the first usable translator
      with one child for each of its inputs, in order. */
  ghost predicate Sound(p: Plan, inputs: set<Mtype>, reg: seq<Entry>) {
    match p
    case Given(o) => o in inputs
    case Step(o, trans, kids) =>
      && o !in inputs
      && (exists i: nat :: FirstUsable(i, o, inputs, reg) && reg[i].trans == trans && reg[i].ins == Outputs(kids))
      && forall k :: 0 <= k < |kids| ==> Sound(kids[k], inputs, reg)
  }

  // ---------- The search decides derivability ----------

  ghost predicate Refuted(t: Mtype, inputs: set<Mtype>, reg: seq<Entry>) {
    exists depth: nat :: TranslationTree(t, inputs, reg, depth).Missing?
  }

  lemma {:induction false} MissingInput(ins: seq<Mtype>, inputs: set<Mtype>, reg: seq<Entry>, depth: nat)
    requires PlanInputs(ins, inputs, reg, depth).Missing?
    ensures exists t :: t in ins && Refuted(t, inputs, reg)
  {
    if TranslationTree(ins[0], inputs, reg, depth).Missing? {
      assert Refuted(ins[0], inputs, reg);
    } else {
      MissingInput(ins[1..], inputs, reg, depth);
    }
  }

  lemma {:induction false} MissingEverywhere(output: Mtype, inputs: set<Mtype>, reg: seq<Entry>, from: nat, depth: nat)
    requires from <= |reg| && depth > 0
    requires TryTranslators(output, inputs, reg, from, depth).Missing?
    ensures forall i :: from <= i < |reg| && output in reg[i].outs ==>
                          PlanInputs(reg[i].ins, inputs, reg, depth - 1).Missing?
    decreases |reg| - from
  {
    if from < |reg| {
      MissingEverywhere(output, inputs, reg, from + 1, depth);
    }
  }

  /** Whatever the search reports missing cannot be derived: the types it never reports
      missing form a closed set. */
  lemma {:induction false} RefutedIsUnderivable(t: Mtype, inputs: set<Mtype>, reg: seq<Entry>)
    requires Refuted(t, inputs, reg)
    ensures !Derivable(t, inputs, reg)
  {
    var types := iset s | !Refuted(s, inputs, reg);
    forall e, o | e in reg && o in e.outs && (forall s :: s in e.ins ==> s in types)
      ensures o in types
    {
      if Refuted(o, inputs, reg) {
        var depth: nat :| TranslationTree(o, inputs, reg, depth).Missing?;
        MissingEverywhere(o, inputs, reg, 0, depth);
        MissingInput(e.ins, inputs, reg, depth - 1);
      }
    }
    assert Closed(types, inputs, reg);
  }

  lemma {:induction false} SearchIsSound(output: Mtype, inputs: set<Mtype>, reg: seq<Entry>, depth: nat)
    requires TranslationTree(output, inputs, reg, depth).Found?
    ensures var p := TranslationTree(output, inputs, reg, depth).value;
            p.output == output && Sound(p, inputs, reg)
    ensures Derivable(output, inputs, reg)
    decreases depth, 1, 0
  {
    if output !in inputs {
      TryIsSound(output, inputs, reg, 0, depth);
    }
  }

  lemma {:induction false} TryIsSound(output: Mtype, inputs: set<Mtype>, reg: seq<Entry>, from: nat, depth: nat)
    requires from <= |reg| && depth > 0 && output !in inputs
    requires forall j :: 0 <= j < from && output in reg[j].outs ==> !AllDerivable(reg[j].ins, inputs, reg)
    requires TryTranslators(output, inputs, reg, from, depth).Found?
    ensures var p := TryTranslators(output, inputs, reg, from, depth).value;
            p.output == output && Sound(p, inputs, reg)
    ensures Derivable(output, inputs, reg)
    decreases depth, 0, |reg| - from
  {
    if output in reg[from].outs {
      match PlanInputs(reg[from].ins, inputs, reg, depth - 1)
      case Found(kids) =>
        InputsAreSound(reg[from].ins, inputs, reg, depth - 1);
        assert FirstUsable(from, output, inputs, reg);
        UsableIsDerivable(from, output, inputs, reg);
      case Missing =>
        MissingInput(reg[from].ins, inputs, reg, depth - 1);
        var t :| t in reg[from].ins && Refuted(t, inputs, reg);
        RefutedIsUnderivable(t, inputs, reg);
        TryIsSound(output, inputs, reg, from + 1, depth);
    } else {
      TryIsSound(output, inputs, reg, from + 1, depth);
    }
  }

  lemma {:induction false} InputsAreSound(ins: seq<Mtype>, inputs: set<Mtype>, reg: seq<Entry>, depth: nat)
    requires PlanInputs(ins, inputs, reg, depth).Found?
    ensures var kids := PlanInputs(ins, inputs, reg, depth).value;
            Outputs(kids) == ins && forall k :: 0 <= k < |kids| ==> Sound(kids[k], inputs, reg)
    ensures AllDerivable(ins, inputs, reg)
    decreases depth, 2, |ins|
  {
    if ins == [] {
    } else {
      SearchIsSound(ins[0], inputs, reg, depth);
      InputsAreSound(ins[1..], inputs, reg, depth);
      var kids := PlanInputs(ins, inputs, reg, depth).value;
      assert kids[1..] == PlanInputs(ins[1..], inputs, reg, depth).value;
      assert Outputs(kids) == [kids[0].output] + Outputs(kids[1..]);
      forall t | t in ins ensures Derivable(t, inputs, reg) {
        assert t == ins[0] || t in ins[1..];
      }
    }
  }

  lemma UsableIsDerivable(i: nat, output: Mtype, inputs: set<Mtype>, reg: seq<Entry>)
    requires i < |reg| && output in reg[i].outs && AllDerivable(reg[i].ins, inputs, reg)
    ensures Derivable(output, inputs, reg)
  {
    forall types: iset<Mtype> | Closed(types, inputs, reg) ensures output in types {
      assert reg[i] in reg;
      assert forall t :: t in reg[i].ins ==> Derivable(t, inputs, reg) && t in types;
    }
  }

  /** On any registry, cyclic or not: a search that comes back returns a plan exactly when the
      wanted type can be derived, and raises SoftMissingTranslatorError otherwise. */
  lemma SearchDecidesDerivability(output: Mtype, inputs: set<Mtype>, reg: seq<Entry>, depth: nat)
    requires !TranslationTree(output, inputs, reg, depth).TooDeep?
    ensures TranslationTree(output, inputs, reg, depth).Found? <==> Derivable(output, inputs, reg)
    ensures TranslationTree(output, inputs, reg, depth).Missing? <==> !Derivable(output, inputs, reg)
  {
    if TranslationTree(output, inputs, reg, depth).Found? {
      SearchIsSound(output, inputs, reg, depth);
    } else {
      assert Refuted(output, inputs, reg);
      RefutedIsUnderivable(output, inputs, reg);
    }
  }

  // ---------- The answer does not depend on the recursion limit ----------

  lemma {:induction false} DeeperAgrees(output: Mtype, inputs: set<Mtype>, reg: seq<Entry>, depth: nat, more: nat)
    requires depth <= more && !TranslationTree(output, inputs, reg, depth).TooDeep?
    ensures TranslationTree(output, inputs, reg, more) == TranslationTree(output, inputs, reg, depth)
    decreases depth, 1, 0
  {
    if output !in inputs {
      DeeperTryAgrees(output, inputs, reg, 0, depth, more);
    }
  }

  lemma {:induction false} DeeperTryAgrees(output: Mtype, inputs: set<Mtype>, reg: seq<Entry>, from: nat,
                                           depth: nat, more: nat)
    requires from <= |reg| && 0 < depth <= more
    requires !TryTranslators(output, inputs, reg, from, depth).TooDeep?
    ensures TryTranslators(output, inputs, reg, from, more) == TryTranslators(output, inputs, reg, from, depth)
    decreases depth, 0, |reg| - from
  {
    if from < |reg| {
      if output in reg[from].outs {
        DeeperInputsAgree(reg[from].ins, inputs, reg, depth - 1, more - 1);
      }
      if output !in reg[from].outs || PlanInputs(reg[from].ins, inputs, reg, depth - 1).Missing? {
        DeeperTryAgrees(output, inputs, reg, from + 1, depth, more);
      }
    }
  }

  lemma {:induction false} DeeperInputsAgree(ins: seq<Mtype>, inputs: set<Mtype>, reg: seq<Entry>, depth: nat,
                                             more: nat)
    requires depth <= more && !PlanInputs(ins, inputs, reg, depth).TooDeep?
    ensures PlanInputs(ins, inputs, reg, more) == PlanInputs(ins, inputs, reg, depth)
    decreases depth, 2, |ins|
  {
    if ins == [] {
    } else {
      DeeperAgrees(ins[0], inputs, reg, depth, more);
      if TranslationTree(ins[0], inputs, reg, depth).Found? {
        DeeperInputsAgree(ins[1..], inputs, reg, depth, more);
      }
    }
  }

  // ---------- When the search comes back ----------

  /** Translating to `output` makes the search look for `t`: some translator for `output` lists
      `t` after inputs that are all derivable, and every earlier translator for `output` fails. */
  ghost predicate Consults(output: Mtype, t: Mtype, inputs: set<Mtype>, reg: seq<Entry>) {
    && output !in inputs
    && exists i: nat, j: nat :: ConsultsAt(i, j, output, t, inputs, reg)
  }

  ghost predicate ConsultsAt(i: nat, j: nat, output: Mtype, t: Mtype, inputs: set<Mtype>, reg: seq<Entry>) {
    && i < |reg| && j < |reg[i].ins|
    && output in reg[i].outs && reg[i].ins[j] == t
    && AllDerivable(reg[i].ins[..j], inputs, reg)
    && forall i' :: 0 <= i' < i && output in reg[i'].outs ==> !AllDerivable(reg[i'].ins, inputs, reg)
  }

  ghost predicate Ranked(rank: Mtype -> nat, inputs: set<Mtype>, reg: seq<Entry>) {
    forall o, t :: Consults(o, t, inputs, reg) ==> rank(t) < rank(o)
  }

  ghost predicate ComesBack(output: Mtype, inputs: set<Mtype>, reg: seq<Entry>) {
    exists depth: nat :: !TranslationTree(output, inputs, reg, depth).TooDeep?
  }

  lemma {:induction false} RankSuffices(rank: Mtype -> nat, output: Mtype, inputs: set<Mtype>, reg: seq<Entry>,
                                        depth: nat)
    requires Ranked(rank, inputs, reg) && rank(output) < depth
    ensures !TranslationTree(output, inputs, reg, depth).TooDeep?
    decreases depth, 1, 0
  {
    if output !in inputs {
      RankSufficesTry(rank, output, inputs, reg, 0, depth);
    }
  }

  lemma {:induction false} RankSufficesTry(rank: Mtype -> nat, output: Mtype, inputs: set<Mtype>, reg: seq<Entry>,
                                           from: nat, depth: nat)
    requires Ranked(rank, inputs, reg) && rank(output) < depth && from <= |reg| && output !in inputs
    requires forall j :: 0 <= j < from && output in reg[j].outs ==> !AllDerivable(reg[j].ins, inputs, reg)
    ensures !TryTranslators(output, inputs, reg, from, depth).TooDeep?
    decreases depth, 0, |reg| - from
  {
    if from < |reg| {
      if output in reg[from].outs {
        RankSufficesInputs(rank, output, from, 0, inputs, reg, depth - 1);
        assert reg[from].ins[0..] == reg[from].ins;
        if PlanInputs(reg[from].ins, inputs, reg, depth - 1).Missing? {
          MissingInput(reg[from].ins, inputs, reg, depth - 1);
          var t :| t in reg[from].ins && Refuted(t, inputs, reg);
          RefutedIsUnderivable(t, inputs, reg);
          RankSufficesTry(rank, output, inputs, reg, from + 1, depth);
        }
      } else {
        RankSufficesTry(rank, output, inputs, reg, from + 1, depth);
      }
    }
  }

  lemma {:induction false} RankSufficesInputs(rank: Mtype -> nat, output: Mtype, i: nat, j: nat,
                                              inputs: set<Mtype>, reg: seq<Entry>, depth: nat)
    requires Ranked(rank, inputs, reg) && rank(output) <= depth && output !in inputs
    requires i < |reg| && output in reg[i].outs && j <= |reg[i].ins|
    requires AllDerivable(reg[i].ins[..j], inputs, reg)
    requires forall i' :: 0 <= i' < i && output in reg[i'].outs ==> !AllDerivable(reg[i'].ins, inputs, reg)
    ensures !PlanInputs(reg[i].ins[j..], inputs, reg, depth).TooDeep?
    decreases depth, 2, |reg[i].ins| - j
  {
    var ins := reg[i].ins;
    if j < |ins| {
      assert ConsultsAt(i, j, output, ins[j], inputs, reg);
      assert Consults(output, ins[j], inputs, reg);
      RankSuffices(rank, ins[j], inputs, reg, depth);
      if TranslationTree(ins[j], inputs, reg, depth).Found? {
        SearchIsSound(ins[j], inputs, reg, depth);
        assert ins[..j + 1] == ins[..j] + [ins[j]];
        RankSufficesInputs(rank, output, i, j + 1, inputs, reg, depth);
        assert ins[j..][1..] == ins[j + 1..];
      }
    }
  }

  /** The number of recursive calls a search that comes back needs. */
  ghost function Need(output: Mtype, inputs: set<Mtype>, reg: seq<Entry>): nat {
    if ComesBack(output, inputs, reg) then
      var enough: nat :| !TranslationTree(output, inputs, reg, enough).TooDeep?;
      Least(output, inputs, reg, enough)
    else 0
  }

  ghost function Least(output: Mtype, inputs: set<Mtype>, reg: seq<Entry>, enough: nat): (least: nat)
    requires !TranslationTree(output, inputs, reg, enough).TooDeep?
    ensures !TranslationTree(output, inputs, reg, least).TooDeep?
    ensures forall d: nat :: d < least ==> TranslationTree(output, inputs, reg, d).TooDeep?
  {
    if enough > 0 && !TranslationTree(output, inputs, reg, enough - 1).TooDeep? then
      Least(output, inputs, reg, enough - 1)
    else
      forall d: nat | d < enough ensures TranslationTree(output, inputs, reg, d).TooDeep? {
        if !TranslationTree(output, inputs, reg, d).TooDeep? {
          DeeperAgrees(output, inputs, reg, d, enough - 1);
        }
      }
      enough
  }

  lemma {:induction false} ConsultedComesBackSooner(output: Mtype, t: Mtype, inputs: set<Mtype>, reg: seq<Entry>,
                                                    depth: nat)
    requires Consults(output, t, inputs, reg)
    requires !TranslationTree(output, inputs, reg, depth).TooDeep?
    ensures depth > 0 && !TranslationTree(t, inputs, reg, depth - 1).TooDeep?
  {
    var i: nat, j: nat :| ConsultsAt(i, j, output, t, inputs, reg);
    ReachesEntry(i, output, inputs, reg, 0, depth);
    ReachesInput(reg[i].ins, j, inputs, reg, depth - 1);
  }

  lemma {:induction false} ReachesEntry(i: nat, output: Mtype, inputs: set<Mtype>, reg: seq<Entry>, from: nat,
                                        depth: nat)
    requires from <= i < |reg| && depth > 0 && output in reg[i].outs
    requires forall j :: 0 <= j < i && output in reg[j].outs ==> !AllDerivable(reg[j].ins, inputs, reg)
    requires !TryTranslators(output, inputs, reg, from, depth).TooDeep?
    ensures !PlanInputs(reg[i].ins, inputs, reg, depth - 1).TooDeep?
    decreases i - from
  {
    if from < i {
      if output in reg[from].outs && PlanInputs(reg[from].ins, inputs, reg, depth - 1).Found? {
        InputsAreSound(reg[from].ins, inputs, reg, depth - 1);
        assert false;
      } else {
        ReachesEntry(i, output, inputs, reg, from + 1, depth);
      }
    }
  }

  lemma {:induction false} ReachesInput(ins: seq<Mtype>, j: nat, inputs: set<Mtype>, reg: seq<Entry>, depth: nat)
    requires j < |ins| && AllDerivable(ins[..j], inputs, reg)
    requires !PlanInputs(ins, inputs, reg, depth).TooDeep?
    ensures !TranslationTree(ins[j], inputs, reg, depth).TooDeep?
  {
    if j == 0 {
    } else {
      assert ins[0] in ins[..j];
      SearchDecidesDerivability(ins[0], inputs, reg, depth);
      forall t | t in ins[1..][..j - 1] ensures t in ins[..j] {
        assert ins[1..][..j - 1] == ins[..j][1..];
      }
      ReachesInput(ins[1..], j - 1, inputs, reg, depth);
    }
  }

  /** The exact condition for the search to come back: some rank decreases along every type it
      consults. On such registries, and only on those, every search terminates. */
  lemma {:induction false} SearchComesBackIffRanked(inputs: set<Mtype>, reg: seq<Entry>)
    ensures (forall output :: ComesBack(output, inputs, reg))
            <==> (exists rank: Mtype -> nat :: Ranked(rank, inputs, reg))
  {
    if rank: Mtype -> nat :| Ranked(rank, inputs, reg) {
      forall output ensures ComesBack(output, inputs, reg) {
        RankSuffices(rank, output, inputs, reg, rank(output) + 1);
      }
    }
    if forall output :: ComesBack(output, inputs, reg) {
      var rank := (t: Mtype) => Need(t, inputs, reg);
      forall o, t | Consults(o, t, inputs, reg) ensures rank(t) < rank(o) {
        assert ComesBack(o, inputs, reg) && ComesBack(t, inputs, reg);
        ConsultedComesBackSooner(o, t, inputs, reg, Need(o, inputs, reg));
      }
      assert Ranked(rank, inputs, reg);
    }
  }

  /** A registry without cycles outside the types at hand: what a caller can check up front. */
  ghost predicate Acyclic(rank: Mtype -> nat, inputs: set<Mtype>, reg: seq<Entry>) {
    forall e, o, t :: e in reg && o in e.outs && t in e.ins && o !in inputs && t !in inputs ==> rank(t) < rank(o)
  }

  lemma AcyclicSearchComesBack(rank: Mtype -> nat, output: Mtype, inputs: set<Mtype>, reg: seq<Entry>)
    requires Acyclic(rank, inputs, reg)
    ensures ComesBack(output, inputs, reg)
    ensures (exists depth: nat :: TranslationTree(output, inputs, reg, depth).Found?)
            <==> Derivable(output, inputs, reg)
    ensures (exists depth: nat :: TranslationTree(output, inputs, reg, depth).Missing?)
            <==> !Derivable(output, inputs, reg)
  {
    forall depth: nat | !TranslationTree(output, inputs, reg, depth).TooDeep?
      ensures TranslationTree(output, inputs, reg, depth).Found? <==> Derivable(output, inputs, reg)
    {
      SearchDecidesDerivability(output, inputs, reg, depth);
    }
    var lifted := (t: Mtype) => if t in inputs then 0 else rank(t) + 1;
    forall o, t | Consults(o, t, inputs, reg) ensures lifted(t) < lifted(o) {
      var i: nat, j: nat :| ConsultsAt(i, j, o, t, inputs, reg);
      assert reg[i] in reg && reg[i].ins[j] in reg[i].ins;
    }
    RankSuffices(lifted, output, inputs, reg, lifted(output) + 1);
    SearchDecidesDerivability(output, inputs, reg, lifted(output) + 1);
  }

  /** A translator that needs its own output is enough to exhaust every recursion limit. */
  lemma {:induction false} CyclicRegistryNeverComesBack(t: Mtype, trans: TransId, depth: nat)
    ensures TranslationTree(t, {}, [Entry(trans, [t], [t])], depth).TooDeep?
  {
    var reg := [Entry(trans, [t], [t])];
    if depth == 0 {
    } else {
      CyclicRegistryNeverComesBack(t, trans, depth - 1);
      assert PlanInputs([t], {}, reg, depth - 1).TooDeep?;
    }
  }
}
