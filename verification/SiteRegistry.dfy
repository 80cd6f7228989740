/** RMC_rate.py: the parallel lists of sites, site densities, site species and surface reactions
    that are filled while the states of a surface are gone through, and then printed. */
module SiteRegistries {
  import opened Sequences

  datatype Arrhenius = Arrhenius(A: real, B: real, E: real)

  /** A species at a site, as a record of the input names it. Only adsorbed states of gas phase
      species bring the empty site along. */
  datatype Entry = Entry(species: string, site: string, density: real, adsorbed: bool)

  /** str.upper on ASCII letters. */
  function Upper(s: string): (r: string)
    ensures |r| == |s|
  {
    if s == "" then ""
    else [if 'a' <= s[0] <= 'z' then ((s[0] as int) - 32) as char else s[0]] + Upper(s[1..])
  }

  function Short(site: string): (r: string)
    requires site != ""
    ensures |r| == 2
  {
    Upper([site[0], site[|site| - 1]])
  }

  function Name(e: Entry): (r: string)
    requires e.site != ""
    ensures |r| >= 4
  {
    Upper(e.species) + "(" + Short(e.site) + ")"
  }

  /** The lists that go together. */
  datatype Registry = Registry(sites: seq<string>, sitedens: seq<real>, sitespec: seq<seq<string>>,
                               surfspec: seq<string>)

  const EMPTY := Registry([], [], [], [])

  ghost predicate Coherent(r: Registry) {
    && Distinct(r.sites) && Distinct(r.surfspec)
    && |r.sites| == |r.sitedens| == |r.sitespec|
  }

  /** What an entry adds to the list of its site, when these are the sites. */
  function Listing(e: Entry, sites: seq<string>): seq<string>
    requires e.site != ""
  {
    [Name(e)] + if e.adsorbed && Short(e.site) !in sites then [Short(e.site)] else []
  }

  /** A species that is not yet known goes to the list of its site, which may be new. */
  function Enter(r: Registry, e: Entry): (after: Registry)
    requires e.site != "" && |r.sites| == |r.sitedens| == |r.sitespec|
    ensures |after.sites| == |after.sitedens| == |after.sitespec|
  {
    var site, k := Upper(e.site), IndexOf(r.sites, Upper(e.site));
    if Name(e) in r.surfspec then r
    else if k == |r.sites| then
      Registry(r.sites + [site], r.sitedens + [e.density],
               r.sitespec + [Listing(e, r.sites + [site])], r.surfspec + [Name(e)])
    else
      Registry(r.sites, r.sitedens, r.sitespec[k := r.sitespec[k] + Listing(e, r.sites)], r.surfspec + [Name(e)])
  }

  /** No site and no species is ever listed twice, and the lists stay parallel. */
  lemma EnterKeepsCoherence(r: Registry, e: Entry)
    requires Coherent(r) && e.site != ""
    ensures Coherent(Enter(r, e))
  {
  }

  datatype Block = Block(site: string, density: real, species: seq<string>)

  class SiteRegistry {
    var sites: seq<string>
    var sitedens: seq<real>
    var sitespec: seq<seq<string>>
    var surfspec: seq<string>
    var ispec: nat
    var reacspecs: seq<string>
    var surfreacs: seq<string>
    var surfarrA: seq<real>
    var surfarrB: seq<real>
    var surfarrE: seq<real>

    ghost predicate Valid()
      reads this
    {
      && Coherent(Lists()) && ispec == |sites|
      && |surfarrA| == |surfarrB| == |surfarrE| == |surfreacs|
      && forall i :: 0 <= i < |surfspec| ==> surfspec[i] in reacspecs
    }

    function Lists(): Registry
      reads this
    {
      Registry(sites, sitedens, sitespec, surfspec)
    }

    /** The surface reactions with their parameters. */
    function Reactions(): seq<(string, Arrhenius)>
      requires |surfarrA| == |surfarrB| == |surfarrE| == |surfreacs|
      reads this
    {
      Zip(surfreacs, surfarrA, surfarrB, surfarrE)
    }

    constructor ()
      ensures Valid() && Lists() == EMPTY && Reactions() == [] && reacspecs == []
    {
      sites, sitedens, sitespec, surfspec, ispec := [], [], [], [], 0;
      reacspecs, surfreacs, surfarrA, surfarrB, surfarrE := [], [], [], [], [];
    }

    method AddSpecies(e: Entry)
      requires Valid() && e.site != ""
      modifies this
      ensures Valid() && Lists() == Enter(old(Lists()), e) && Reactions() == old(Reactions())
      ensures reacspecs == old(reacspecs) + if Name(e) in old(reacspecs) then [] else [Name(e)]
    {
      EnterKeepsCoherence(Lists(), e);
      var name := Name(e);
      if name !in reacspecs {
        reacspecs := reacspecs + [name];
      }
      if name !in surfspec {
        PutOnSite(e);
      }
    }

    /** A species that is not yet known goes to its site. */
    method PutOnSite(e: Entry)
      requires |sites| == |sitedens| == |sitespec| == ispec && e.site != "" && Name(e) !in surfspec
      modifies `sites, `sitedens, `sitespec, `surfspec, `ispec
      ensures Lists() == Enter(old(Lists()), e) && ispec == |sites|
    {
      var name, shortName := Name(e), Short(e.site);
      surfspec := surfspec + [name];
      var siteUp := Upper(e.site);
      if siteUp !in sites {
        sites := sites + [siteUp];
        sitedens := sitedens + [e.density];
        sitespec := sitespec + [[]];
        var list := AddToList(ispec, e);
        assert list == Listing(e, sites);
        ispec := ispec + 1;
      } else {
        var jspec := IndexOf(sites, siteUp);
        var _ := AddToList(jspec, e);
      }
    }

    /** Adds the species and, for an adsorbed one, its empty site to one list. */
    method AddToList(k: nat, e: Entry) returns (list: seq<string>)
      requires k < |sitespec| && e.site != ""
      modifies `sitespec
      ensures list == old(sitespec)[k] + Listing(e, sites) && sitespec == old(sitespec)[k := list]
    {
      sitespec := sitespec[k := sitespec[k] + [Name(e)]];
      if e.adsorbed && Short(e.site) !in sites {
        sitespec := sitespec[k := sitespec[k] + [Short(e.site)]];
      }
      list := sitespec[k];
    }

    /** Desorption and adsorption of a gas, with quantum vibrational partition functions. */
    method AddDesorption(gas: string, adsorbed: string, des: Arrhenius, ads: Arrhenius)
      requires Valid()
      modifies this
      ensures Valid() && Lists() == old(Lists()) && reacspecs == old(reacspecs) + [gas, adsorbed]
      ensures Reactions() == old(Reactions())
                           + [("   " + adsorbed + " => " + gas + "   ", des)]
                           + [("   " + gas + " => " + adsorbed + "   ", ads)]
    {
      AddPair(Desorption(gas, adsorbed), des, Adsorption(gas, adsorbed), ads);
      reacspecs := reacspecs + [gas];
      reacspecs := reacspecs + [adsorbed];
      assert reacspecs == old(reacspecs) + [gas, adsorbed];
    }

    /** Desorption only, with a fixed prefactor. */
    method AddFixedDesorption(gas: string, adsorbed: string, des: Arrhenius)
      requires Valid()
      modifies this
      ensures Valid() && Lists() == old(Lists()) && reacspecs == old(reacspecs)
      ensures Reactions() == old(Reactions()) + [("   " + adsorbed + " => " + gas + "   ", des)]
    {
      ZipAppend(surfreacs, surfarrA, surfarrB, surfarrE, Desorption(gas, adsorbed), des);
      surfarrA, surfarrB, surfarrE := surfarrA + [des.A], surfarrB + [des.B], surfarrE + [des.E];
      surfreacs := surfreacs + [Desorption(gas, adsorbed)];
    }

    /** A surface reaction and its reverse. */
    method AddSurfaceReaction(reactant: string, product: string, fwd: Arrhenius, rev: Arrhenius)
      requires Valid()
      modifies this
      ensures Valid() && Lists() == old(Lists()) && reacspecs == old(reacspecs)
      ensures Reactions() == old(Reactions()) + [("   " + reactant + " => " + product, fwd)]
                                              + [("   " + product + " => " + reactant, rev)]
    {
      AddPair(Surface(reactant, product), fwd, Surface(product, reactant), rev);
    }

    /** A reaction and its reverse, with the parameters of both before the names of both. */
    method AddPair(first: string, x: Arrhenius, second: string, y: Arrhenius)
      requires |surfarrA| == |surfarrB| == |surfarrE| == |surfreacs|
      modifies `surfarrA, `surfarrB, `surfarrE, `surfreacs
      ensures |surfarrA| == |surfarrB| == |surfarrE| == |surfreacs|
      ensures Reactions() == old(Reactions()) + [(first, x)] + [(second, y)]
    {
      ZipAppendTwo(surfreacs, surfarrA, surfarrB, surfarrE, first, x, second, y);
      surfarrA, surfarrB, surfarrE := surfarrA + [x.A], surfarrB + [x.B], surfarrE + [x.E];
      surfarrA, surfarrB, surfarrE := surfarrA + [y.A], surfarrB + [y.B], surfarrE + [y.E];
      surfreacs := surfreacs + [first];
      surfreacs := surfreacs + [second];
    }

    /** The SITE blocks of the SURFACE CHEMKIN file; the list of a site is looked up by its name. */
    method PrintSites() returns (blocks: seq<Block>)
      requires Valid()
      ensures |blocks| == |sites|
      ensures forall j :: 0 <= j < |sites| ==> blocks[j] == Block(sites[j], sitedens[j], sitespec[j])
    {
      blocks := [];
      var jsite := 0;
      while jsite < |sites|
        invariant 0 <= jsite <= |sites| && |blocks| == jsite
        invariant forall j :: 0 <= j < jsite ==> blocks[j] == Block(sites[j], sitedens[j], sitespec[j])
      {
        var st := sites[jsite];
        var jspec := IndexOf(sites, st);
        blocks := blocks + [Block(st, sitedens[jsite], sitespec[jspec])];
        jsite := jsite + 1;
      }
    }

    /** The REACTIONS block. */
    method PrintReactions() returns (lines: seq<(string, Arrhenius)>)
      requires Valid()
      ensures lines == Reactions()
    {
      lines := [];
      var ireac := 0;
      while ireac < |surfreacs|
        invariant 0 <= ireac <= |surfreacs|
        invariant lines == Zip(surfreacs[..ireac], surfarrA[..ireac], surfarrB[..ireac], surfarrE[..ireac])
      {
        ZipNext(surfreacs, surfarrA, surfarrB, surfarrE, ireac);
        lines := lines + [(surfreacs[ireac], Arrhenius(surfarrA[ireac], surfarrB[ireac], surfarrE[ireac]))];
        ireac := ireac + 1;
      }
      assert surfreacs[..ireac] == surfreacs && surfarrA[..ireac] == surfarrA;
      assert surfarrB[..ireac] == surfarrB && surfarrE[..ireac] == surfarrE;
    }
  }

  function Desorption(gas: string, adsorbed: string): string {
    "   " + adsorbed + " => " + gas + "   "
  }

  function Adsorption(gas: string, adsorbed: string): string {
    "   " + gas + " => " + adsorbed + "   "
  }

  function Surface(from: string, to_: string): string {
    "   " + from + " => " + to_
  }

  function Zip(names: seq<string>, a: seq<real>, b: seq<real>, e: seq<real>): (z: seq<(string, Arrhenius)>)
    requires |a| == |b| == |e| == |names|
    ensures |z| == |names|
    ensures forall i :: 0 <= i < |z| ==> z[i] == (names[i], Arrhenius(a[i], b[i], e[i]))
  {
    if names == [] then []
    else
      var n := |names| - 1;
      Zip(names[..n], a[..n], b[..n], e[..n]) + [(names[n], Arrhenius(a[n], b[n], e[n]))]
  }

  lemma ZipAppend(names: seq<string>, a: seq<real>, b: seq<real>, e: seq<real>, name: string, x: Arrhenius)
    requires |a| == |b| == |e| == |names|
    ensures Zip(names + [name], a + [x.A], b + [x.B], e + [x.E]) == Zip(names, a, b, e) + [(name, x)]
  {
  }

  lemma ZipAppendTwo(names: seq<string>, a: seq<real>, b: seq<real>, e: seq<real>,
                     first: string, x: Arrhenius, second: string, y: Arrhenius)
    requires |a| == |b| == |e| == |names|
    ensures Zip(names + [first] + [second], a + [x.A] + [y.A], b + [x.B] + [y.B], e + [x.E] + [y.E])
            == Zip(names, a, b, e) + [(first, x)] + [(second, y)]
  {
    ZipAppend(names, a, b, e, first, x);
    ZipAppend(names + [first], a + [x.A], b + [x.B], e + [x.E], second, y);
  }

  lemma ZipNext(names: seq<string>, a: seq<real>, b: seq<real>, e: seq<real>, i: nat)
    requires |a| == |b| == |e| == |names| && i < |names|
    ensures Zip(names[..i + 1], a[..i + 1], b[..i + 1], e[..i + 1])
            == Zip(names[..i], a[..i], b[..i], e[..i]) + [(names[i], Arrhenius(a[i], b[i], e[i]))]
  {
  }
}
