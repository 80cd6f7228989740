/** `translate` of translators.py: run the plan the search found, growing a dictionary of
    instances as it goes. */
module TranslationExecutor {
  import opened Sequences
  import opened TranslationPlanner
  import opened Wrappers

  datatype Instance = Instance(mtype: Mtype, content: string)

  datatype Error =
    | SeveralOfSameType    // SoftTranslatorError
    | MissingTranslator    // SoftMissingTranslatorError
    | RecursionLimit       // RecursionError
    | AlreadyProduced      // AssertionError: output not in inputdict
    | NoSuchInstance       // KeyError

  /** One translator call: who was called for which output, and the types it received. */
  datatype Call = Call(output: Mtype, trans: TransId, received: seq<Mtype>)

  type Dict = map<Mtype, Instance>

  /** The callables behind the registry. */
  type World = (TransId, seq<Instance>) -> seq<Instance>

  function Types(insts: seq<Instance>): (ts: seq<Mtype>)
    ensures |ts| == |insts|
    ensures forall i :: 0 <= i < |insts| ==> ts[i] == insts[i].mtype
  {
    seq(|insts|, i requires 0 <= i < |insts| => insts[i].mtype)
  }

  function Range<T>(s: seq<T>): set<T> {
    set x | x in s
  }

  /** The dictionary comprehension over instances: a later instance of a type wins. */
  function InstanceDict(insts: seq<Instance>): (d: Dict)
    ensures d.Keys == Range(Types(insts))
    ensures WellTyped(d)
    ensures |d| == |insts| <==> Distinct(Types(insts))
  {
    if insts == [] then map[]
    else
      var n := |insts| - 1;
      var before := InstanceDict(insts[..n]);
      SnocCardinality(insts);
      before[insts[n].mtype := insts[n]]
  }

  /** Of several instances of one type the dictionary has the last. */
  lemma {:induction false} LaterInstanceWins(earlier: seq<Instance>, inst: Instance, later: seq<Instance>)
    requires forall other :: other in later ==> other.mtype != inst.mtype
    ensures var d := InstanceDict(earlier + [inst] + later); inst.mtype in d && d[inst.mtype] == inst
  {
    var insts := earlier + [inst] + later;
    LastAdded(insts);
    if later == [] {
    } else {
      var n := |later| - 1;
      assert insts[..|insts| - 1] == earlier + [inst] + later[..n] && insts[|insts| - 1] == later[n];
      LaterInstanceWins(earlier, inst, later[..n]);
    }
  }

  lemma LastAdded(insts: seq<Instance>)
    requires insts != []
    ensures var init, last := insts[..|insts| - 1], insts[|insts| - 1];
            InstanceDict(insts) == InstanceDict(init)[last.mtype := last]
  {
  }

  lemma SnocCardinality(insts: seq<Instance>)
    requires insts != []
    ensures var ts, n := Types(insts), |insts| - 1;
            && Range(ts) == Range(Types(insts[..n])) + {insts[n].mtype}
            && |Range(Types(insts[..n]))| <= n
            && (Distinct(ts) <==> Distinct(Types(insts[..n])) && insts[n].mtype !in Range(Types(insts[..n])))
  {
    var ts, n := Types(insts), |insts| - 1;
    assert ts == Types(insts[..n]) + [insts[n].mtype];
    RangeIsSmall(Types(insts[..n]));
  }

  lemma {:induction false} RangeIsSmall(ts: seq<Mtype>)
    ensures |Range(ts)| <= |ts|
  {
    if ts == [] {
      assert Range(ts) == {};
    } else {
      var n := |ts| - 1;
      RangeIsSmall(ts[..n]);
      assert Range(ts) == Range(ts[..n]) + {ts[n]};
    }
  }

  ghost predicate WellTyped(d: Dict) {
    forall t :: t in d ==> d[t].mtype == t
  }

  // ---------- What running a plan does ----------

  datatype Run<+T> = Run(result: Result<T, Error>, dict: Dict, calls: seq<Call>)

  function Execute(p: Plan, dict: Dict, calls: seq<Call>, world: World): Run<Instance>
    decreases p, 0
  {
    match p
    case Given(o) =>
      if o in dict then Run(Ok(dict[o]), dict, calls) else Run(Err(NoSuchInstance), dict, calls)
    case Step(o, trans, kids) =>
      if o in dict then Run(Err(AlreadyProduced), dict, calls)
      else
        Finish(o, trans, ExecuteAll(kids, 0, [], dict, calls, world), world)
  }

  /** The rest of a node once its children have run. */
  function Finish(o: Mtype, trans: TransId, below: Run<seq<Instance>>, world: World): Run<Instance> {
    if below.result.Err? then Run(Err(below.result.error), below.dict, below.calls)
    else
      var d := InstanceDict(world(trans, below.result.value));
      var log := below.calls + [Call(o, trans, Types(below.result.value))];
      if o in d then Run(Ok(d[o]), below.dict[o := d[o]], log)
      else Run(Err(NoSuchInstance), below.dict, log)
  }

  /** The comprehension over a node's children, from child `from` on, having made `insts`. */
  function ExecuteAll(kids: seq<Plan>, from: nat, insts: seq<Instance>, dict: Dict, calls: seq<Call>,
                      world: World): Run<seq<Instance>>
    requires from <= |kids|
    decreases kids, |kids| - from
  {
    if from == |kids| then Run(Ok(insts), dict, calls)
    else
      var r := Execute(kids[from], dict, calls, world);
      if r.result.Err? then Run(Err(r.result.error), r.dict, r.calls)
      else ExecuteAll(kids, from + 1, insts + [r.result.value], r.dict, r.calls, world)
  }

  /** The closure `_translate` and the `inputdict` it updates. */
  class Session {
    const world: World
    var inputdict: Dict
    ghost var calls: seq<Call>

    constructor (inputdict: Dict, world: World)
      ensures this.inputdict == inputdict && this.calls == [] && this.world == world
    {
      this.inputdict, this.calls, this.world := inputdict, [], world;
    }

    method Translate(p: Plan) returns (r: Result<Instance, Error>)
      modifies this
      ensures Run(r, inputdict, calls) == Execute(p, old(inputdict), old(calls), world)
      decreases p
    {
      match p
      case Given(o) =>
        if o !in inputdict {
          return Err(NoSuchInstance);
        }
        return Ok(inputdict[o]);
      case Step(o, trans, kids) =>
        if o in inputdict {
          return Err(AlreadyProduced);
        }
        var insts := [];
        var i := 0;
        while i < |kids|
          invariant i <= |kids|
          invariant ExecuteAll(kids, i, insts, inputdict, calls, world)
                    == ExecuteAll(kids, 0, [], old(inputdict), old(calls), world)
        {
          var kid := Translate(kids[i]);
          if kid.Err? {
            return kid;
          }
          insts := insts + [kid.value];
          i := i + 1;
        }
        var d := InstanceDict(world(trans, insts));
        calls := calls + [Call(o, trans, Types(insts))];
        if o !in d {
          return Err(NoSuchInstance);
        }
        inputdict := inputdict[o := d[o]];
        return Ok(d[o]);
    }
  }

  /** The public entry point, with the interpreter's recursion limit as a parameter. */
  method TranslateTo(output: Mtype, insts: seq<Instance>, reg: seq<Entry>, world: World, limit: nat)
    returns (r: Result<Instance, Error>)
    ensures r == TranslationResult(output, insts, reg, world, limit)
  {
    var inputdict := InstanceDict(insts);
    if |inputdict| != |insts| {
      return Err(SeveralOfSameType);
    }
    var tree := TranslationTree(output, inputdict.Keys, reg, limit);
    match tree
    case Missing => return Err(MissingTranslator);
    case TooDeep => return Err(RecursionLimit);
    case Found(p) =>
      var session := new Session(inputdict, world);
      r := session.Translate(p);
  }

  function TranslationResult(output: Mtype, insts: seq<Instance>, reg: seq<Entry>, world: World,
                             limit: nat): Result<Instance, Error> {
    var inputdict := InstanceDict(insts);
    if |inputdict| != |insts| then Err(SeveralOfSameType)
    else
      match TranslationTree(output, inputdict.Keys, reg, limit)
      case Missing => Err(MissingTranslator)
      case TooDeep => Err(RecursionLimit)
      case Found(p) => Execute(p, inputdict, [], world).result
  }

  // ---------- When running a plan succeeds ----------

  /** The types of a plan's inner nodes, children first. */
  function Inner(p: Plan): seq<Mtype>
    decreases p, 0
  {
    match p
    case Given(_) => []
    case Step(o, _, kids) => InnerAll(kids, 0) + [o]
  }

  function InnerAll(kids: seq<Plan>, from: nat): seq<Mtype>
    requires from <= |kids|
    decreases kids, |kids| - from
  {
    if from == |kids| then [] else Inner(kids[from]) + InnerAll(kids, from + 1)
  }

  /** The calls a plan stands for: each inner node after its children, on its children's types. */
  function Schedule(p: Plan): seq<Call>
    decreases p, 0
  {
    match p
    case Given(_) => []
    case Step(o, trans, kids) => ScheduleAll(kids, 0) + [Call(o, trans, Outputs(kids))]
  }

  function ScheduleAll(kids: seq<Plan>, from: nat): seq<Call>
    requires from <= |kids|
    decreases kids, |kids| - from
  {
    if from == |kids| then [] else Schedule(kids[from]) + ScheduleAll(kids, from + 1)
  }

  /** Every registered translator, given its declared inputs, returns its declared outputs. */
  ghost predicate Honest(world: World, reg: seq<Entry>) {
    forall e, insts, o :: e in reg && Types(insts) == e.ins && o in e.outs ==> o in InstanceDict(world(e.trans, insts))
  }

  /** No inner node produces the type of a node above it. */
  ghost predicate NoNesting(p: Plan)
    decreases p, 0
  {
    p.Step? ==> p.output !in InnerAll(p.kids, 0) && forall k :: 0 <= k < |p.kids| ==> NoNesting(p.kids[k])
  }

  ghost predicate Runnable(todo: seq<Mtype>, dict: Dict) {
    Distinct(todo) && Range(todo) !! dict.Keys
  }

  ghost predicate Extends(after: Dict, before: Dict, produced: seq<Mtype>) {
    && after.Keys == before.Keys + Range(produced)
    && forall t :: t in before ==> after[t] == before[t]
  }

  lemma RangeConcat<T>(a: seq<T>, b: seq<T>)
    ensures Range(a + b) == Range(a) + Range(b)
  {
  }

  lemma DistinctConcat<T>(a: seq<T>, b: seq<T>)
    ensures Distinct(a + b) <==> Distinct(a) && Distinct(b) && Range(a) !! Range(b)
  {
    var s := a + b;
    if Distinct(s) {
      assert forall i :: 0 <= i < |a| ==> a[i] == s[i];
      assert forall i :: 0 <= i < |b| ==> b[i] == s[|a| + i];
      forall i, j | 0 <= i < |a| && 0 <= j < |b| ensures a[i] != b[j] {
        assert s[i] != s[|a| + j];
      }
    }
    if Distinct(a) && Distinct(b) && Range(a) !! Range(b) {
      forall i, j | 0 <= i < j < |s| ensures s[i] != s[j] {
        if i < |a| <= j {
          assert s[i] in Range(a) && s[j] in Range(b);
        }
      }
    }
  }

  lemma RunnableConcat(a: seq<Mtype>, b: seq<Mtype>, before: Dict, after: Dict)
    requires Runnable(a, before) ==> after.Keys == before.Keys + Range(a)
    ensures Runnable(a + b, before) <==> Runnable(a, before) && Runnable(b, after)
  {
    RangeConcat(a, b);
    DistinctConcat(a, b);
  }

  /** What a run on a plan is promised to be: it succeeds exactly when `todo` is runnable, has
      then produced `todo` and made the calls `schedule`, and otherwise stops on the assertion. */
  ghost predicate RunsAs<T>(run: Run<T>, todo: seq<Mtype>, schedule: seq<Call>, dict: Dict, calls: seq<Call>) {
    && (run.result.Ok? <==> Runnable(todo, dict))
    && (run.result.Ok? ==> Extends(run.dict, dict, todo) && WellTyped(run.dict) && run.calls == calls + schedule)
    && (run.result.Err? ==> run.result.error == AlreadyProduced)
  }

  lemma RunsInTurn<T, U>(first: Run<T>, second: Run<U>, a: seq<Mtype>, b: seq<Mtype>, sa: seq<Call>, sb: seq<Call>,
                         dict: Dict, calls: seq<Call>)
    requires RunsAs(first, a, sa, dict, calls) && first.result.Ok?
    requires RunsAs(second, b, sb, first.dict, first.calls)
    ensures RunsAs(second, a + b, sa + sb, dict, calls)
  {
    RunnableConcat(a, b, dict, first.dict);
    RangeConcat(a, b);
    assert (calls + sa) + sb == calls + (sa + sb);
  }

  /** The exact condition for a plan of the search to run: no inner type occurs twice and none
      is in the dictionary already. It then never fails an assertion or a lookup, adds exactly
      the inner types, keeps every earlier entry, and makes exactly the scheduled calls.
      Otherwise it stops on the assertion, never on a lookup. */
  lemma {:induction false} PlanRunsIffDistinct(p: Plan, dict: Dict, calls: seq<Call>, world: World,
                                               inputs: set<Mtype>, reg: seq<Entry>)
    requires Sound(p, inputs, reg) && NoNesting(p) && Honest(world, reg)
    requires inputs <= dict.Keys && WellTyped(dict)
    ensures RunsAs(Execute(p, dict, calls, world), Inner(p), Schedule(p), dict, calls)
    ensures var run := Execute(p, dict, calls, world); run.result.Ok? ==> run.result.value.mtype == p.output
    decreases p, 0
  {
    if p.Step? {
      var below := ExecuteAll(p.kids, 0, [], dict, calls, world);
      if p.output !in dict {
        PlansRunIffDistinct(p.kids, 0, [], dict, calls, world, inputs, reg);
        if below.result.Ok? {
          TranslatorProduces(p, below.result.value, world, inputs, reg);
          NodeFinishes(p.output, p.trans, below, world, InnerAll(p.kids, 0), ScheduleAll(p.kids, 0), dict, calls);
        }
      }
      LastIsNotRunnable(InnerAll(p.kids, 0), p.output, dict);
    }
  }

  lemma LastIsNotRunnable(todo: seq<Mtype>, o: Mtype, dict: Dict)
    ensures o in dict || !Runnable(todo, dict) ==> !Runnable(todo + [o], dict)
  {
    RangeConcat(todo, [o]);
    DistinctConcat(todo, [o]);
    assert o in Range([o]);
  }

  lemma OneProduced(before: Run<seq<Instance>>, after: Run<Instance>, o: Mtype, call: Call)
    requires before.result.Ok? && after.result.Ok? && o !in before.dict && WellTyped(before.dict)
    requires after.result.value.mtype == o && after.dict == before.dict[o := after.result.value]
    requires after.calls == before.calls + [call]
    ensures RunsAs(after, [o], [call], before.dict, before.calls)
  {
    assert Range([o]) == {o};
  }

  lemma NodeFinishes(o: Mtype, trans: TransId, below: Run<seq<Instance>>, world: World,
                     todo: seq<Mtype>, schedule: seq<Call>, dict: Dict, calls: seq<Call>)
    requires below.result.Ok? && RunsAs(below, todo, schedule, dict, calls)
    requires o !in dict && o !in todo && o in InstanceDict(world(trans, below.result.value))
    ensures var run := Finish(o, trans, below, world);
            && run.result.Ok? && run.result.value.mtype == o
            && RunsAs(run, todo + [o], schedule + [Call(o, trans, Types(below.result.value))], dict, calls)
  {
    var run := Finish(o, trans, below, world);
    var call := Call(o, trans, Types(below.result.value));
    OneProduced(below, run, o, call);
    RunsInTurn(below, run, todo, [o], schedule, [call], dict, calls);
  }

  lemma TranslatorProduces(p: Plan, insts: seq<Instance>, world: World, inputs: set<Mtype>, reg: seq<Entry>)
    requires p.Step? && Sound(p, inputs, reg) && Honest(world, reg)
    requires Types(insts) == Outputs(p.kids)
    ensures p.output in InstanceDict(world(p.trans, insts))
  {
    var i: nat :| FirstUsable(i, p.output, inputs, reg) && reg[i].trans == p.trans && reg[i].ins == Outputs(p.kids);
    assert reg[i] in reg;
  }

  lemma {:induction false} PlansRunIffDistinct(kids: seq<Plan>, from: nat, insts: seq<Instance>, dict: Dict,
                                               calls: seq<Call>, world: World, inputs: set<Mtype>, reg: seq<Entry>)
    requires from <= |kids| && Types(insts) == Outputs(kids)[..from]
    requires forall k :: 0 <= k < |kids| ==> Sound(kids[k], inputs, reg) && NoNesting(kids[k])
    requires Honest(world, reg) && inputs <= dict.Keys && WellTyped(dict)
    ensures RunsAs(ExecuteAll(kids, from, insts, dict, calls, world),
                   InnerAll(kids, from), ScheduleAll(kids, from), dict, calls)
    ensures var run := ExecuteAll(kids, from, insts, dict, calls, world);
            run.result.Ok? ==> Types(run.result.value) == Outputs(kids)
    decreases kids, |kids| - from
  {
    if from == |kids| {
      NothingRuns(Run(Ok(insts), dict, calls), dict, calls);
    } else {
      PlanRunsIffDistinct(kids[from], dict, calls, world, inputs, reg);
      var r := Execute(kids[from], dict, calls, world);
      if r.result.Ok? {
        OneMoreInput(kids, from, insts, r.result.value);
        PlansRunIffDistinct(kids, from + 1, insts + [r.result.value], r.dict, r.calls, world, inputs, reg);
      }
      FirstThenRest(kids, from, insts, dict, calls, world);
    }
  }

  lemma OneMoreInput(kids: seq<Plan>, from: nat, insts: seq<Instance>, next: Instance)
    requires from < |kids| && Types(insts) == Outputs(kids)[..from] && next.mtype == kids[from].output
    ensures Types(insts + [next]) == Outputs(kids)[..from + 1]
  {
    assert Types(insts + [next]) == Types(insts) + [next.mtype];
  }

  lemma NothingRuns<T>(run: Run<T>, dict: Dict, calls: seq<Call>)
    requires run.result.Ok? && run.dict == dict && run.calls == calls && WellTyped(dict)
    ensures RunsAs(run, [], [], dict, calls)
  {
    assert Range<Mtype>([]) == {};
  }

  lemma FirstThenRest(kids: seq<Plan>, from: nat, insts: seq<Instance>, dict: Dict, calls: seq<Call>, world: World)
    requires from < |kids|
    requires RunsAs(Execute(kids[from], dict, calls, world), Inner(kids[from]), Schedule(kids[from]), dict, calls)
    requires var r := Execute(kids[from], dict, calls, world);
             r.result.Ok? ==>
               RunsAs(ExecuteAll(kids, from + 1, insts + [r.result.value], r.dict, r.calls, world),
                      InnerAll(kids, from + 1), ScheduleAll(kids, from + 1), r.dict, r.calls)
    ensures RunsAs(ExecuteAll(kids, from, insts, dict, calls, world),
                   InnerAll(kids, from), ScheduleAll(kids, from), dict, calls)
  {
    var r := Execute(kids[from], dict, calls, world);
    if r.result.Ok? {
      var rest := ExecuteAll(kids, from + 1, insts + [r.result.value], r.dict, r.calls, world);
      RunsInTurn(r, rest, Inner(kids[from]), InnerAll(kids, from + 1), Schedule(kids[from]), ScheduleAll(kids,
                 from + 1), dict, calls);
    } else {
      RunnableConcat(Inner(kids[from]), InnerAll(kids, from + 1), dict, dict);
    }
  }

  // ---------- Which instances a run makes ----------

  /** The instances that a dictionary has for the inputs of a node. */
  function Received(kids: seq<Plan>, d: Dict): (insts: seq<Instance>)
    requires forall k :: 0 <= k < |kids| ==> kids[k].output in d
    ensures |insts| == |kids| && forall k :: 0 <= k < |kids| ==> insts[k] == d[kids[k].output]
  {
    seq(|kids|, k requires 0 <= k < |kids| => d[kids[k].output])
  }

  /** The dictionary has every type of the plan, and for each inner node what its translator
      makes of the dictionary's own instances of its inputs. */
  ghost predicate Solves(p: Plan, d: Dict, world: World)
    decreases p
  {
    && p.output in d
    && (p.Step? ==>
          && (forall k :: 0 <= k < |p.kids| ==> Solves(p.kids[k], d, world) && p.kids[k].output in d)
          && var made := InstanceDict(world(p.trans, Received(p.kids, d)));
             p.output in made && d[p.output] == made[p.output])
  }

  ghost predicate Keeps(before: Dict, after: Dict) {
    forall t :: t in before ==> t in after && after[t] == before[t]
  }

  lemma {:induction false} SolvedStaysSolved(p: Plan, before: Dict, after: Dict, world: World)
    requires Solves(p, before, world) && Keeps(before, after)
    ensures Solves(p, after, world)
    decreases p
  {
    if p.Step? {
      forall k | 0 <= k < |p.kids| ensures Solves(p.kids[k], after, world) && p.kids[k].output in after {
        SolvedStaysSolved(p.kids[k], before, after, world);
      }
      assert Received(p.kids, after) == Received(p.kids, before);
    }
  }

  ghost predicate AddsOnly(before: Dict, after: Dict, todo: seq<Mtype>) {
    forall t :: t in after ==> t in before || t in todo
  }

  /** A run that succeeds, of a plan of the search with any translators, leaves a dictionary that
      solves the plan, keeps every earlier entry, and returns its entry for the wanted type. */
  lemma {:induction false} RunSolvesPlan(p: Plan, dict: Dict, calls: seq<Call>, world: World)
    requires NoNesting(p) && Execute(p, dict, calls, world).result.Ok?
    ensures var run := Execute(p, dict, calls, world);
            && Keeps(dict, run.dict) && AddsOnly(dict, run.dict, Inner(p))
            && Solves(p, run.dict, world) && run.result.value == run.dict[p.output]
    decreases p, 0
  {
    if p.Step? {
      var below := ExecuteAll(p.kids, 0, [], dict, calls, world);
      RunsSolvePlans(p.kids, 0, [], dict, calls, world);
      assert p.output !in below.dict;
      NodeSolved(p, below, world);
    }
  }

  lemma {:induction false} RunsSolvePlans(kids: seq<Plan>, from: nat, insts: seq<Instance>, dict: Dict,
                                          calls: seq<Call>, world: World)
    requires from <= |kids| && AllSolved(kids, from, insts, dict, world)
    requires forall k :: 0 <= k < |kids| ==> NoNesting(kids[k])
    requires ExecuteAll(kids, from, insts, dict, calls, world).result.Ok?
    ensures var run := ExecuteAll(kids, from, insts, dict, calls, world);
            && Keeps(dict, run.dict) && AddsOnly(dict, run.dict, InnerAll(kids, from))
            && AllSolved(kids, |kids|, run.result.value, run.dict, world)
    decreases kids, |kids| - from
  {
    if from < |kids| {
      var r := Execute(kids[from], dict, calls, world);
      RunSolvesPlan(kids[from], dict, calls, world);
      OneMoreSolved(kids, from, insts, dict, r.dict, world);
      RunsSolvePlans(kids, from + 1, insts + [r.result.value], r.dict, r.calls, world);
    }
  }

  /** The first `n` plans are solved, and `insts` are what the dictionary has for them. */
  ghost predicate AllSolved(kids: seq<Plan>, n: nat, insts: seq<Instance>, d: Dict, world: World)
    requires n <= |kids|
  {
    |insts| == n && forall k :: 0 <= k < n ==> Solves(kids[k], d, world) && insts[k] == d[kids[k].output]
  }

  lemma OneMoreSolved(kids: seq<Plan>, n: nat, insts: seq<Instance>, before: Dict, after: Dict, world: World)
    requires n < |kids| && AllSolved(kids, n, insts, before, world)
    requires Keeps(before, after) && Solves(kids[n], after, world)
    ensures AllSolved(kids, n + 1, insts + [after[kids[n].output]], after, world)
  {
    forall k | 0 <= k < n ensures Solves(kids[k], after, world) && insts[k] == after[kids[k].output] {
      SolvedStaysSolved(kids[k], before, after, world);
    }
  }

  lemma NodeSolved(p: Plan, below: Run<seq<Instance>>, world: World)
    requires p.Step? && below.result.Ok? && p.output !in below.dict
    requires AllSolved(p.kids, |p.kids|, below.result.value, below.dict, world)
    requires Finish(p.output, p.trans, below, world).result.Ok?
    ensures var run := Finish(p.output, p.trans, below, world);
            && Keeps(below.dict, run.dict) && run.dict.Keys == below.dict.Keys + {p.output}
            && Solves(p, run.dict, world) && run.result.value == run.dict[p.output]
  {
    var run := Finish(p.output, p.trans, below, world);
    forall k | 0 <= k < |p.kids| ensures Solves(p.kids[k], run.dict, world) && p.kids[k].output in run.dict {
      SolvedStaysSolved(p.kids[k], below.dict, run.dict, world);
    }
    assert Received(p.kids, run.dict) == below.result.value;
  }

  // ---------- The meaning of a plan ----------

  /** The instance that a plan stands for, without any dictionary: a type at hand is its own
      instance, and a node is what its translator makes of the instances of its children. */
  function Denote(p: Plan, given: Dict, world: World): Option<Instance>
    decreases p, 0
  {
    match p
    case Given(o) => if o in given then Some(given[o]) else None
    case Step(o, trans, kids) =>
      (match DenoteAll(kids, 0, given, world)
       case None => None
       case Some(insts) =>
         var made := InstanceDict(world(trans, insts));
         if o in made then Some(made[o]) else None)
  }

  function DenoteAll(kids: seq<Plan>, from: nat, given: Dict, world: World): Option<seq<Instance>>
    requires from <= |kids|
    decreases kids, |kids| - from
  {
    if from == |kids| then Some([])
    else
      match (Denote(kids[from], given, world), DenoteAll(kids, from + 1, given, world))
      case (Some(first), Some(rest)) => Some([first] + rest)
      case _ => None
  }

  /** A dictionary that solves a plan has for its type the instance the plan stands for, as long as
      it has the instances at hand. */
  lemma {:induction false} SolutionIsDenoted(p: Plan, given: Dict, d: Dict, world: World)
    requires Solves(p, d, world) && Keeps(given, d) && LeavesGiven(p, given)
    ensures Denote(p, given, world) == Some(d[p.output])
    decreases p, 0
  {
    if p.Step? {
      SolutionsAreDenoted(p.kids, 0, given, d, world);
      assert Received(p.kids, d)[0..] == Received(p.kids, d);
    }
  }

  lemma {:induction false} SolutionsAreDenoted(kids: seq<Plan>, from: nat, given: Dict, d: Dict, world: World)
    requires from <= |kids| && Keeps(given, d)
    requires forall k :: 0 <= k < |kids| ==>
                           Solves(kids[k], d, world) && kids[k].output in d && LeavesGiven(kids[k], given)
    ensures DenoteAll(kids, from, given, world) == Some(Received(kids, d)[from..])
    decreases kids, |kids| - from
  {
    if from < |kids| {
      SolutionIsDenoted(kids[from], given, d, world);
      SolutionsAreDenoted(kids, from + 1, given, d, world);
      FirstAndRest(Received(kids, d), from);
    }
  }

  lemma FirstAndRest<T>(s: seq<T>, from: nat)
    requires from < |s|
    ensures s[from..] == [s[from]] + s[from + 1..]
  {
  }

  ghost predicate LeavesGiven(p: Plan, given: Dict)
    decreases p
  {
    match p
    case Given(o) => o in given
    case Step(_, _, kids) => forall k :: 0 <= k < |kids| ==> LeavesGiven(kids[k], given)
  }

  lemma {:induction false} SoundLeavesAreGiven(p: Plan, inputs: set<Mtype>, reg: seq<Entry>, given: Dict)
    requires Sound(p, inputs, reg) && inputs <= given.Keys
    ensures LeavesGiven(p, given)
    decreases p
  {
    if p.Step? {
      forall k | 0 <= k < |p.kids| ensures LeavesGiven(p.kids[k], given) {
        SoundLeavesAreGiven(p.kids[k], inputs, reg, given);
      }
    }
  }

  // ---------- Plans of the search ----------

  lemma {:induction false} KidsAreFoundSooner(p: Plan, inputs: set<Mtype>, reg: seq<Entry>, from: nat, depth: nat)
    requires from <= |reg| && depth > 0
    requires TryTranslators(p.output, inputs, reg, from, depth) == Found(p)
    ensures p.Step? && forall k :: 0 <= k < |p.kids| ==>
                         TranslationTree(p.kids[k].output, inputs, reg, depth - 1) == Found(p.kids[k])
    decreases |reg| - from
  {
    if p.output in reg[from].outs && PlanInputs(reg[from].ins, inputs, reg, depth - 1).Found? {
      InputsAreFound(reg[from].ins, inputs, reg, depth - 1);
    } else {
      KidsAreFoundSooner(p, inputs, reg, from + 1, depth);
    }
  }

  lemma {:induction false} InputsAreFound(ins: seq<Mtype>, inputs: set<Mtype>, reg: seq<Entry>, depth: nat)
    requires PlanInputs(ins, inputs, reg, depth).Found?
    ensures var kids := PlanInputs(ins, inputs, reg, depth).value;
            forall k :: 0 <= k < |kids| ==> TranslationTree(kids[k].output, inputs, reg, depth) == Found(kids[k])
  {
    if ins == [] {
    } else {
      SearchIsSound(ins[0], inputs, reg, depth);
      InputsAreFound(ins[1..], inputs, reg, depth);
    }
  }

  lemma {:induction false} InnerComesBack(p: Plan, o: Mtype, inputs: set<Mtype>, reg: seq<Entry>, depth: nat)
    requires TranslationTree(p.output, inputs, reg, depth) == Found(p) && o in Inner(p)
    ensures !TranslationTree(o, inputs, reg, depth).TooDeep?
    decreases p, 0
  {
    if o != p.output {
      KidsAreFoundSooner(p, inputs, reg, 0, depth);
      InnerKidsComeBack(p.kids, 0, o, inputs, reg, depth - 1);
      DeeperAgrees(o, inputs, reg, depth - 1, depth);
    }
  }

  lemma {:induction false} InnerKidsComeBack(kids: seq<Plan>, from: nat, o: Mtype, inputs: set<Mtype>,
                                             reg: seq<Entry>, depth: nat)
    requires from <= |kids| && o in InnerAll(kids, from)
    requires forall k :: 0 <= k < |kids| ==> TranslationTree(kids[k].output, inputs, reg, depth) == Found(kids[k])
    ensures !TranslationTree(o, inputs, reg, depth).TooDeep?
    decreases kids, |kids| - from
  {
    if o in Inner(kids[from]) {
      InnerComesBack(kids[from], o, inputs, reg, depth);
    } else {
      InnerKidsComeBack(kids, from + 1, o, inputs, reg, depth);
    }
  }

  /** The search has no visited set, yet never plans to make a type from itself: such a plan
      would need a search that comes back sooner than itself. */
  lemma {:induction false} SearchNeverNests(p: Plan, inputs: set<Mtype>, reg: seq<Entry>, depth: nat)
    requires TranslationTree(p.output, inputs, reg, depth) == Found(p)
    ensures NoNesting(p)
    decreases p
  {
    if p.Step? {
      var least := Least(p.output, inputs, reg, depth);
      DeeperAgrees(p.output, inputs, reg, least, depth);
      KidsAreFoundSooner(p, inputs, reg, 0, least);
      if p.output in InnerAll(p.kids, 0) {
        InnerKidsComeBack(p.kids, 0, p.output, inputs, reg, least - 1);
        assert false;
      }
      forall k | 0 <= k < |p.kids| ensures NoNesting(p.kids[k]) {
        SearchNeverNests(p.kids[k], inputs, reg, least - 1);
      }
    }
  }

  /** What `translate` returns, for honest translators: an instance, or which of the things that
      can go wrong it is. */
  lemma TranslateOutcome(output: Mtype, insts: seq<Instance>, reg: seq<Entry>, world: World, limit: nat)
    requires Honest(world, reg)
    ensures var inputs := Range(Types(insts));
            match TranslationResult(output, insts, reg, world, limit)
            case Ok(inst) =>
              && Distinct(Types(insts)) && inst.mtype == output && Derivable(output, inputs, reg)
              && Distinct(Inner(TranslationTree(output, inputs, reg, limit).value))
            case Err(SeveralOfSameType) => !Distinct(Types(insts))
            case Err(MissingTranslator) => Distinct(Types(insts)) && !Derivable(output, inputs, reg)
            case Err(AlreadyProduced) =>
              && Distinct(Types(insts)) && Derivable(output, inputs, reg)
              && !Distinct(Inner(TranslationTree(output, inputs, reg, limit).value))
            case Err(RecursionLimit) => Distinct(Types(insts)) && TranslationTree(output, inputs, reg, limit).TooDeep?
            case Err(NoSuchInstance) => false
  {
    var inputs := Range(Types(insts));
    var inputdict := InstanceDict(insts);
    if !TranslationTree(output, inputs, reg, limit).TooDeep? {
      SearchDecidesDerivability(output, inputs, reg, limit);
    }
    if Distinct(Types(insts)) && TranslationTree(output, inputs, reg, limit).Found? {
      var p := TranslationTree(output, inputs, reg, limit).value;
      SearchIsSound(output, inputs, reg, limit);
      SearchNeverNests(p, inputs, reg, limit);
      PlanRunsIffDistinct(p, inputdict, [], world, inputs, reg);
      InnerNotGiven(p, inputs, reg);
    }
  }

  /** The instance that `translate` returns is the one its plan stands for: growing a dictionary on
      the way changes nothing. This holds of any translators. */
  lemma TranslatedIsDenoted(output: Mtype, insts: seq<Instance>, reg: seq<Entry>, world: World, limit: nat)
    requires TranslationResult(output, insts, reg, world, limit).Ok?
    ensures var tree := TranslationTree(output, Range(Types(insts)), reg, limit);
            && tree.Found?
            && Denote(tree.value, InstanceDict(insts), world)
               == Some(TranslationResult(output, insts, reg, world, limit).value)
  {
    var inputs, given := Range(Types(insts)), InstanceDict(insts);
    var p := TranslationTree(output, inputs, reg, limit).value;
    SearchIsSound(output, inputs, reg, limit);
    SearchNeverNests(p, inputs, reg, limit);
    RunSolvesPlan(p, given, [], world);
    SoundLeavesAreGiven(p, inputs, reg, given);
    SolutionIsDenoted(p, given, Execute(p, given, [], world).dict, world);
  }

  lemma {:induction false} InnerNotGiven(p: Plan, inputs: set<Mtype>, reg: seq<Entry>)
    requires Sound(p, inputs, reg)
    ensures Range(Inner(p)) !! inputs
    decreases p, 0
  {
    if p.Step? {
      InnerKidsNotGiven(p.kids, 0, inputs, reg);
    }
  }

  lemma {:induction false} InnerKidsNotGiven(kids: seq<Plan>, from: nat, inputs: set<Mtype>, reg: seq<Entry>)
    requires from <= |kids| && forall k :: 0 <= k < |kids| ==> Sound(kids[k], inputs, reg)
    ensures Range(InnerAll(kids, from)) !! inputs
    decreases kids, |kids| - from
  {
    if from < |kids| {
      InnerNotGiven(kids[from], inputs, reg);
      InnerKidsNotGiven(kids, from + 1, inputs, reg);
      RangeConcat(Inner(kids[from]), InnerAll(kids, from + 1));
    }
  }

  /** Two branches that need the same intermediate type `d`. */
  function Diamond(a: Mtype, b: Mtype, c: Mtype, d: Mtype, i: Mtype): seq<Entry> {
    [Entry(0, [i], [d]), Entry(1, [d], [b]), Entry(2, [d], [c]), Entry(3, [b, c], [a])]
  }

  ghost predicate AllDiffer(a: Mtype, b: Mtype, c: Mtype, d: Mtype, i: Mtype) {
    a != b && a != c && a != d && a != i && b != c && b != d && b != i && c != d && c != i && d != i
  }

  /** The plan for a diamond: `d` is made once for each branch. */
  function DiamondPlan(a: Mtype, b: Mtype, c: Mtype, d: Mtype, i: Mtype): Plan {
    var pd := Step(d, 0, [Given(i)]);
    Step(a, 3, [Step(b, 1, [pd]), Step(c, 2, [pd])])
  }

  lemma DiamondIsPlanned(a: Mtype, b: Mtype, c: Mtype, d: Mtype, i: Mtype, limit: nat)
    requires AllDiffer(a, b, c, d, i) && limit >= 3
    ensures TranslationTree(a, {i}, Diamond(a, b, c, d, i), limit) == Found(DiamondPlan(a, b, c, d, i))
  {
    var reg := Diamond(a, b, c, d, i);
    var pd := Step(d, 0, [Given(i)]);
    OnlyTranslator(d, 0, [Given(i)], {i}, reg, limit - 2);
    OnlyTranslator(b, 1, [pd], {i}, reg, limit - 1);
    OnlyTranslator(c, 2, [pd], {i}, reg, limit - 1);
    OnlyTranslator(a, 3, [Step(b, 1, [pd]), Step(c, 2, [pd])], {i}, reg, limit);
  }

  lemma DiamondRepeats(a: Mtype, b: Mtype, c: Mtype, d: Mtype, i: Mtype)
    ensures Inner(DiamondPlan(a, b, c, d, i)) == [d, b, d, c, a]
  {
    var pd := Step(d, 0, [Given(i)]);
    var pb, pc := Step(b, 1, [pd]), Step(c, 2, [pd]);
    assert Inner(pd) == [d] by { assert InnerAll([Given(i)], 0) == [] + InnerAll([Given(i)], 1); }
    assert InnerAll([pd], 0) == Inner(pd) + InnerAll([pd], 1) == [d];
    assert InnerAll([pb, pc], 0) == Inner(pb) + (Inner(pc) + InnerAll([pb, pc], 2));
  }

  lemma RepeatedTypeStops(output: Mtype, insts: seq<Instance>, reg: seq<Entry>, world: World, limit: nat, p: Plan)
    requires Honest(world, reg) && Distinct(Types(insts))
    requires TranslationTree(output, Range(Types(insts)), reg, limit) == Found(p) && !Distinct(Inner(p))
    ensures TranslationResult(output, insts, reg, world, limit) == Err(AlreadyProduced)
  {
    TranslateOutcome(output, insts, reg, world, limit);
    SearchIsSound(output, Range(Types(insts)), reg, limit);
    SearchNeverNests(p, Range(Types(insts)), reg, limit);
    PlanRunsIffDistinct(p, InstanceDict(insts), [], world, Range(Types(insts)), reg);
  }

  /** A diamond defeats `translate`, although the plan is right and every translator honest. */
  lemma DiamondStopsOnTheAssertion(a: Mtype, b: Mtype, c: Mtype, d: Mtype, inst: Instance, world: World, limit: nat)
    requires AllDiffer(a, b, c, d, inst.mtype) && limit >= 3
    requires Honest(world, Diamond(a, b, c, d, inst.mtype))
    ensures TranslationResult(a, [inst], Diamond(a, b, c, d, inst.mtype), world, limit) == Err(AlreadyProduced)
  {
    var i := inst.mtype;
    assert Types([inst]) == [i] && Range([i]) == {i};
    DiamondIsPlanned(a, b, c, d, i, limit);
    var todo := Inner(DiamondPlan(a, b, c, d, i));
    assert !Distinct(todo) by {
      DiamondRepeats(a, b, c, d, i);
      assert todo[0] == todo[2];
    }
    RepeatedTypeStops(a, [inst], Diamond(a, b, c, d, i), world, limit, DiamondPlan(a, b, c, d, i));
  }

  /** A search that has found plans for the inputs of the only translator of a type uses them. */
  lemma OnlyTranslator(o: Mtype, i: nat, kids: seq<Plan>, inputs: set<Mtype>, reg: seq<Entry>, depth: nat)
    requires i < |reg| && o !in inputs && depth > 0
    requires forall j :: 0 <= j < |reg| ==> (o in reg[j].outs <==> i == j)
    requires reg[i].ins == Outputs(kids)
    requires forall k :: 0 <= k < |kids| ==> TranslationTree(kids[k].output, inputs, reg, depth - 1) == Found(kids[k])
    ensures TranslationTree(o, inputs, reg, depth) == Found(Step(o, reg[i].trans, kids))
  {
    FoundInputs(kids, reg[i].ins, inputs, reg, depth - 1);
    SkipsTo(o, i, 0, inputs, reg, depth);
  }

  lemma {:induction false} FoundInputs(kids: seq<Plan>, ins: seq<Mtype>, inputs: set<Mtype>, reg: seq<Entry>,
                                       depth: nat)
    requires ins == Outputs(kids)
    requires forall k :: 0 <= k < |kids| ==> TranslationTree(kids[k].output, inputs, reg, depth) == Found(kids[k])
    ensures PlanInputs(ins, inputs, reg, depth) == Found(kids)
  {
    if kids == [] {
    } else {
      FoundInputs(kids[1..], ins[1..], inputs, reg, depth);
      assert kids == [kids[0]] + kids[1..];
    }
  }

  lemma {:induction false} SkipsTo(o: Mtype, i: nat, from: nat, inputs: set<Mtype>, reg: seq<Entry>, depth: nat)
    requires from <= i < |reg| && depth > 0
    requires forall j :: from <= j < i ==> o !in reg[j].outs
    ensures TryTranslators(o, inputs, reg, from, depth) == TryTranslators(o, inputs, reg, i, depth)
    decreases i - from
  {
    if from < i {
      SkipsTo(o, i, from + 1, inputs, reg, depth);
    }
  }
}
