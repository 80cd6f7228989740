/** reaction.cpp: one reaction, built up by setters. */
module Reactions {
  import opened ReactionSpecies

  datatype Arrhenius = Arrhenius(A: real, n: real, E: real)

  /** What a reaction's own line says of it. */
  datatype Head = Head(
    reversible: bool, thirdBody: bool, pressureDependent: bool,
    reactants: SpeciesMap, products: SpeciesMap, forwardA: Arrhenius)

  /** The value of a reaction, as it is copied into the result vector. */
  datatype View = View(
    head: Head, duplicate: bool, hasREV: bool, reverseA: Arrhenius, thirdBodies: SpeciesMap,
    hasLOW: bool, low: seq<real>, hasTROE: bool, troe: seq<real>, hasSRI: bool, sri: seq<real>)

  const ZERO := Arrhenius(0.0, 0.0, 0.0)

  const NO_HEAD := Head(true, false, false, [], [], ZERO)

  const EMPTY := Bare(NO_HEAD)

  /** A reaction of which nothing but its own line is read. */
  function Bare(head: Head): View {
    View(head, false, false, ZERO, [], false, [], false, [], false, [])
  }

  /** What every reaction keeps: the parameter lists have their full length once set. */
  predicate WellSized(v: View) {
    (v.hasTROE ==> |v.troe| == 4) && (v.hasSRI ==> |v.sri| == 5)
  }

  /** Where the first entry for "M" is; the length if there is none. */
  function IndexOfM(species: SpeciesMap): (i: nat)
    ensures i <= |species| && (i < |species| ==> species[i].0 == "M")
    ensures forall j :: 0 <= j < i ==> species[j].0 != "M"
  {
    if species == [] || species[0].0 == "M" then 0 else 1 + IndexOfM(species[1..])
  }

  predicate HasM(species: SpeciesMap) {
    IndexOfM(species) < |species|
  }

  /** The species without the first entry for "M". */
  function WithoutM(species: SpeciesMap): SpeciesMap {
    var i := IndexOfM(species);
    if i == |species| then species else species[..i] + species[i + 1..]
  }

  function Full(values: seq<real>, fill: seq<real>): seq<real> {
    if |values| == 3 then values + fill else values
  }

  class Reaction {
    var reversible: bool
    var duplicate: bool
    var hasREV: bool
    var thirdBody: bool
    var pressureDependent: bool
    var reactants: SpeciesMap
    var products: SpeciesMap
    var forwardA: Arrhenius
    var reverseA: Arrhenius
    var thirdBodies: SpeciesMap
    var hasLOW: bool
    var low: seq<real>
    var hasTROE: bool
    var troe: seq<real>
    var hasSRI: bool
    var sri: seq<real>

    function Value(): View
      reads this
    {
      View(OwnLine(), duplicate, hasREV, reverseA, thirdBodies, hasLOW, low, hasTROE, troe, hasSRI, sri)
    }

    function OwnLine(): Head
      reads this
    {
      Head(reversible, thirdBody, pressureDependent, reactants, products, forwardA)
    }

    constructor ()
      ensures Value() == EMPTY
      ensures reversible && !duplicate && !hasREV && !thirdBody && !pressureDependent && !hasLOW && !hasTROE && !hasSRI
      ensures forwardA == reverseA == Arrhenius(0.0, 0.0, 0.0)
      ensures reactants == products == thirdBodies == [] && low == troe == sri == []
    {
      reversible, duplicate, hasREV, thirdBody, pressureDependent := true, false, false, false, false;
      reactants, products, thirdBodies := [], [], [];
      forwardA, reverseA := ZERO, ZERO;
      hasLOW, low, hasTROE, troe, hasSRI, sri := false, [], false, [], false, [];
    }

    method SetReversible(flag: bool)
      modifies this
      ensures Value() == old(Value()).(head := old(OwnLine()).(reversible := flag))
    {
      reversible := flag;
    }

    method SetArrhenius(a: Arrhenius, reverse: bool)
      modifies this
      ensures Value() == if reverse then old(Value()).(hasREV := true, reverseA := a)
                         else old(Value()).(head := old(OwnLine()).(forwardA := a))
    {
      if reverse {
        hasREV := true;
        reverseA := a;
      } else {
        forwardA := a;
      }
    }

    /** Erases the first "M" from the species and notes that there was one. */
    method CheckForThirdBody(species: SpeciesMap) returns (rest: SpeciesMap)
      modifies this
      ensures rest == WithoutM(species)
      ensures Value() == old(Value()).(head := old(OwnLine()).(thirdBody := old(thirdBody) || HasM(species)))
    {
      var i := 0;
      while i < |species|
        invariant 0 <= i <= |species|
        invariant forall j :: 0 <= j < i ==> species[j].0 != "M"
      {
        if species[i].0 == "M" {
          assert IndexOfM(species) == i;
          thirdBody := true;
          return species[..i] + species[i + 1..];
        }
        i := i + 1;
      }
      rest := species;
    }

    method SetReactants(species: SpeciesMap)
      modifies this
      ensures Value() == old(Value()).(head := old(OwnLine()).(thirdBody := old(thirdBody) || HasM(species),
                                                               reactants := WithoutM(species)))
    {
      var rest := CheckForThirdBody(species);
      reactants := rest;
    }

    method SetProducts(species: SpeciesMap)
      modifies this
      ensures Value() == old(Value()).(head := old(OwnLine()).(thirdBody := old(thirdBody) || HasM(species),
                                                               products := WithoutM(species)))
    {
      var rest := CheckForThirdBody(species);
      products := rest;
    }

    method SetThirdBodies(species: SpeciesMap)
      modifies this
      ensures Value() == old(Value()).(thirdBodies := species)
    {
      thirdBodies := species;
    }

    method SetLOW(values: seq<real>)
      modifies this
      ensures Value() == old(Value()).(hasLOW := true, low := values)
    {
      hasLOW := true;
      low := values;
    }

    /** Throws unless there are 3 or 4 values; a missing fourth is 0. */
    method SetTROE(values: seq<real>) returns (ok: bool)
      modifies this
      ensures ok == (|values| == 3 || |values| == 4)
      ensures Value() == if ok then old(Value()).(hasTROE := true, troe := Full(values, [0.0])) else old(Value())
      ensures old(WellSized(Value())) ==> WellSized(Value())
    {
      if |values| != 3 && |values| != 4 {
        return false;
      }
      troe := values;
      if |values| == 3 {
        troe := troe + [0.0];
      }
      hasTROE := true;
      return true;
    }

    /** Throws unless there are 3 or 5 values; missing ones are 1 and 0. */
    method SetSRI(values: seq<real>) returns (ok: bool)
      modifies this
      ensures ok == (|values| == 3 || |values| == 5)
      ensures Value() == if ok then old(Value()).(hasSRI := true, sri := Full(values, [1.0, 0.0])) else old(Value())
      ensures old(WellSized(Value())) ==> WellSized(Value())
    {
      if |values| != 3 && |values| != 5 {
        return false;
      }
      sri := values;
      if |values| == 3 {
        sri := sri + [1.0];
        sri := sri + [0.0];
      }
      hasSRI := true;
      return true;
    }

    method SetPressureDependent()
      modifies this
      ensures Value() == old(Value()).(head := old(OwnLine()).(pressureDependent := true))
    {
      pressureDependent := true;
    }

    method SetDuplicate()
      modifies this
      ensures Value() == old(Value()).(duplicate := true)
    {
      duplicate := true;
    }
  }
}
