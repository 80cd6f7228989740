/** What is in the lists of RMC_rate.py after any series of entries. */
module SiteRegistryLaws {
  import opened Sequences
  import opened SiteRegistries
  import opened Text

  predicate HaveSites(log: seq<Entry>) {
    forall i :: 0 <= i < |log| ==> log[i].site != ""
  }

  function EnterAll(log: seq<Entry>): (r: Registry)
    requires HaveSites(log)
    ensures |r.sites| == |r.sitedens| == |r.sitespec|
  {
    if log == [] then EMPTY else Enter(EnterAll(log[..|log| - 1]), log[|log| - 1])
  }

  // ---------- How names are written ----------

  lemma LowerAndUpper(k: nat)
    requires k < 26
    ensures LOWER[k] as int == 'a' as int + k && UPPER[k] as int == 'A' as int + k
  {
  }

  lemma LowerIsListed(c: char)
    ensures 'a' <= c <= 'z' <==> c in LOWER
  {
    if 'a' <= c <= 'z' {
      LowerAndUpper((c as int) - ('a' as int));
    }
  }

  lemma UpperOfOne(s: string, k: nat)
    requires s != "" && k < 26
    ensures s[0] == LOWER[k] ==> Upper(s)[0] == UPPER[k]
    ensures s[0] !in LOWER ==> Upper(s)[0] == s[0]
  {
    LowerAndUpper(k);
    LowerIsListed(s[0]);
  }

  /** Small letters are replaced by their capitals, and nothing else is. */
  lemma {:induction false} UpperAt(s: string, i: nat, k: nat)
    requires i < |s| && k < 26
    ensures s[i] == LOWER[k] ==> Upper(s)[i] == UPPER[k]
    ensures s[i] !in LOWER ==> Upper(s)[i] == s[i]
  {
    if i == 0 {
      UpperOfOne(s, k);
    } else {
      UpperAt(s[1..], i - 1, k);
      assert Upper(s)[i] == Upper(s[1..])[i - 1];
    }
  }

  // ---------- The lists, read off the series of entries ----------

  /** The names of the entries, each where it occurs first. */
  function Names(log: seq<Entry>): (names: seq<string>)
    requires HaveSites(log)
  {
    if log == [] then []
    else
      var before, name := Names(log[..|log| - 1]), Name(log[|log| - 1]);
      if name in before then before else before + [name]
  }

  /** Whether the last entry brings a new name. */
  predicate BringsName(log: seq<Entry>)
    requires HaveSites(log)
  {
    log != [] && Name(log[|log| - 1]) !in Names(log[..|log| - 1])
  }

  /** The sites of the entries that bring a name, each where it occurs first. */
  function Sites(log: seq<Entry>): seq<string>
    requires HaveSites(log)
  {
    if log == [] then []
    else
      var before, site := Sites(log[..|log| - 1]), Upper(log[|log| - 1].site);
      if BringsName(log) && site !in before then before + [site] else before
  }

  /** What the entries that bring a name list at a site. */
  function Listed(log: seq<Entry>, site: string): seq<string>
    requires HaveSites(log)
  {
    if log == [] then []
    else
      var e := log[|log| - 1];
      Listed(log[..|log| - 1], site)
      + if BringsName(log) && Upper(e.site) == site then Listing(e, Sites(log)) else []
  }

  /** The density that came with the first entry to a site. */
  function DensityOf(log: seq<Entry>, site: string): real
    requires HaveSites(log) && site in Sites(log)
  {
    var n := |log| - 1;
    if site in Sites(log[..n]) then DensityOf(log[..n], site) else log[n].density
  }

  /** The site at which a name came first. */
  function SiteOf(log: seq<Entry>, name: string): (site: string)
    requires HaveSites(log) && name in Names(log)
  {
    var n := |log| - 1;
    if name in Names(log[..n]) then SiteOf(log[..n], name) else Upper(log[n].site)
  }

  /** The species are those entered, and the sites those of the entries that brought them. */
  lemma {:induction false} EnteredInOrder(log: seq<Entry>)
    requires HaveSites(log)
    ensures Coherent(EnterAll(log))
    ensures EnterAll(log).surfspec == Names(log) && EnterAll(log).sites == Sites(log)
  {
    if log == [] {
    } else {
      var n := |log| - 1;
      EnteredInOrder(log[..n]);
      EnterKeepsCoherence(EnterAll(log[..n]), log[n]);
    }
  }

  /** Every list holds exactly what was entered for its site, in order, and nothing else, and the
      density is that of the first entry to the site. */
  lemma {:induction false} ListsHoldWhatWasEntered(log: seq<Entry>, k: nat)
    requires HaveSites(log) && k < |Sites(log)|
    ensures EnterAll(log).sites == Sites(log)
    ensures EnterAll(log).sitespec[k] == Listed(log, Sites(log)[k])
    ensures EnterAll(log).sitedens[k] == DensityOf(log, Sites(log)[k])
  {
    var n := |log| - 1;
    var init := log[..n];
    EnteredInOrder(init);
    EnteredInOrder(log);
    if k < |Sites(init)| {
      ListsHoldWhatWasEntered(init, k);
    } else {
      NothingListedElsewhere(init, Upper(log[n].site));
    }
  }

  lemma {:induction false} NothingListedElsewhere(log: seq<Entry>, site: string)
    requires HaveSites(log) && site !in Sites(log)
    ensures Listed(log, site) == []
  {
    if log == [] {
    } else {
      NothingListedElsewhere(log[..|log| - 1], site);
    }
  }

  // ---------- Each species is at one site ----------

  lemma ListingHolds(e: Entry, sites: seq<string>, name: string)
    requires e.site != "" && |name| >= 4
    ensures multiset(Listing(e, sites))[name] == if Name(e) == name then 1 else 0
  {
  }

  lemma {:induction false} ListedOnceAtItsSite(log: seq<Entry>, name: string, site: string)
    requires HaveSites(log) && |name| >= 4
    ensures multiset(Listed(log, site))[name] == if name in Names(log) && SiteOf(log, name) == site then 1 else 0
  {
    if log == [] {
    } else {
      var n := |log| - 1;
      ListedOnceAtItsSite(log[..n], name, site);
      ListingHolds(log[n], Sites(log), name);
    }
  }

  lemma {:induction false} SiteOfIsASite(log: seq<Entry>, name: string)
    requires HaveSites(log) && name in Names(log)
    ensures SiteOf(log, name) in Sites(log) && |name| >= 4
  {
    var n := |log| - 1;
    if name in Names(log[..n]) {
      SiteOfIsASite(log[..n], name);
    }
  }

  /** After any series of entries, each known species is in the list of exactly one site, and once;
      sites and species are distinct; and looking a site up by its name gives its own position. */
  lemma EachSpeciesAtOneSite(log: seq<Entry>, name: string)
    requires HaveSites(log) && name in Names(log)
    ensures var r := EnterAll(log);
            && Coherent(r) && r.surfspec == Names(log)
            && SiteOf(log, name) in r.sites
            && (forall k :: 0 <= k < |r.sites| ==> IndexOf(r.sites, r.sites[k]) == k)
            && (forall k :: 0 <= k < |r.sites| ==>
                  multiset(r.sitespec[k])[name] == if r.sites[k] == SiteOf(log, name) then 1 else 0)
  {
    var r := EnterAll(log);
    EnteredInOrder(log);
    SiteOfIsASite(log, name);
    forall k: nat | k < |r.sites|
      ensures multiset(r.sitespec[k])[name] == if r.sites[k] == SiteOf(log, name) then 1 else 0
    {
      ListsHoldWhatWasEntered(log, k);
      ListedOnceAtItsSite(log, name, r.sites[k]);
    }
  }

  // ---------- Empty sites ----------

  /** Entry `i` is of an adsorbed species, brings a new name to the site, and has a short name that no
      site has by then. */
  ghost predicate BringsEmptySite(log: seq<Entry>, i: nat, site: string, short: string)
    requires HaveSites(log) && i < |log|
  {
    && BringsName(log[..i + 1]) && log[i].adsorbed
    && Upper(log[i].site) == site && Short(log[i].site) == short
    && short !in Sites(log[..i + 1])
  }

  lemma SamePrefix(log: seq<Entry>, i: nat, site: string, short: string)
    requires HaveSites(log) && i + 1 < |log|
    ensures var init := log[..|log| - 1];
            HaveSites(init) && (BringsEmptySite(init, i, site, short) <==> BringsEmptySite(log, i, site, short))
  {
    assert log[..|log| - 1][..i + 1] == log[..i + 1];
  }

  lemma LastBringsEmptySite(log: seq<Entry>, site: string, short: string)
    requires HaveSites(log) && log != [] && |short| == 2
    ensures var n := |log| - 1;
            multiset(Listed(log, site))[short]
            == multiset(Listed(log[..n], site))[short] + if BringsEmptySite(log, n, site, short) then 1 else 0
  {
    var n := |log| - 1;
    assert log[..n + 1] == log;
    var before, now := Listed(log[..n], site), Listed(log, site);
    var more := if BringsName(log) && Upper(log[n].site) == site then Listing(log[n], Sites(log)) else [];
    assert now == before + more;
  }

  /** The entries that bring the empty site. */
  ghost function Bringing(log: seq<Entry>, site: string, short: string): set<nat>
    requires HaveSites(log)
  {
    set i: nat | i < |log| && BringsEmptySite(log, i, site, short)
  }

  lemma BringingOneMore(log: seq<Entry>, site: string, short: string)
    requires HaveSites(log) && log != []
    ensures var n := |log| - 1;
            && n !in Bringing(log[..n], site, short)
            && Bringing(log, site, short)
               == Bringing(log[..n], site, short) + if BringsEmptySite(log, n, site, short) then {n} else {}
  {
    var n := |log| - 1;
    forall i: nat | i < n
      ensures BringsEmptySite(log[..n], i, site, short) <==> BringsEmptySite(log, i, site, short)
    {
      SamePrefix(log, i, site, short);
    }
  }

  lemma BringingSnoc(log: seq<Entry>, site: string, short: string)
    requires HaveSites(log) && log != []
    ensures var n := |log| - 1;
            |Bringing(log, site, short)|
            == |Bringing(log[..n], site, short)| + if BringsEmptySite(log, n, site, short) then 1 else 0
  {
    BringingOneMore(log, site, short);
  }

  lemma {:induction false} EmptySiteIsListedForEach(log: seq<Entry>, site: string, short: string)
    requires HaveSites(log) && |short| == 2
    ensures multiset(Listed(log, site))[short] == |Bringing(log, site, short)|
  {
    if log == [] {
      assert Bringing(log, site, short) == {};
    } else {
      EmptySiteIsListedForEach(log[..|log| - 1], site, short);
      LastBringsEmptySite(log, site, short);
      BringingSnoc(log, site, short);
    }
  }

  lemma TwoElements(s: set<nat>)
    ensures |s| > 1 <==> exists i, j :: i in s && j in s && i < j
  {
    if i, j :| i in s && j in s && i < j {
      assert {i, j} <= s;
      assert |s| == |s - {i, j}| + |{i, j}|;
    }
    if |s| > 1 {
      var i :| i in s;
      assert |s - {i}| > 0;
      var j :| j in s - {i};
      assert i < j || j < i;
    }
  }

  /** The empty site is listed more than once if and only if two entries bring it. */
  lemma EmptySiteIsListedTwiceIff(log: seq<Entry>, site: string, short: string)
    requires HaveSites(log) && |short| == 2
    ensures multiset(Listed(log, site))[short] > 1
            <==> exists i: nat, j: nat ::
                   i < j < |log| && BringsEmptySite(log, i, site, short) && BringsEmptySite(log, j, site, short)
  {
    EmptySiteIsListedForEach(log, site, short);
    TwoElements(Bringing(log, site, short));
    assert forall i: nat :: i < |log| && BringsEmptySite(log, i, site, short) <==> i in Bringing(log, site, short);
  }

  lemma TopIsWritten()
    ensures Upper("top") == "TOP" && Short("top") == "TP"
  {
    assert Upper("p") == "P" && Upper("op") == "OP";
  }

  /** A species "a" adsorbed at a site "top" is the name "A(TP)". */
  lemma NamesAreWritten(density: real)
    ensures Name(Entry("a", "top", density, true)) == "A(TP)" && Name(Entry("b", "top", density, true)) == "B(TP)"
  {
    TopIsWritten();
    assert Upper("a") == "A" && Upper("b") == "B";
  }

  lemma FirstAtTop(log: seq<Entry>, density: real)
    requires log == [Entry("a", "top", density, true)]
    ensures Names(log) == ["A(TP)"] && BringsName(log) && Sites(log) == ["TOP"]
    ensures Listed(log, "TOP") == ["A(TP)", "TP"]
  {
    NamesAreWritten(density);
    TopIsWritten();
    assert log[..0] == [];
    assert |"TP"| != |"TOP"|;
    assert Listing(log[0], ["TOP"]) == ["A(TP)", "TP"];
  }

  lemma SecondAtTop(log: seq<Entry>, density: real)
    requires log == [Entry("a", "top", density, true), Entry("b", "top", density, true)]
    ensures log[..1] == [log[0]] && BringsName(log) && Sites(log) == ["TOP"]
    ensures Listed(log, "TOP") == ["A(TP)", "TP", "B(TP)", "TP"]
  {
    assert log[..1] == [log[0]];
    FirstAtTop(log[..1], density);
    NamesAreWritten(density);
    TopIsWritten();
    assert "A(TP)"[0] != "B(TP)"[0];
    assert |"TP"| != |"TOP"|;
    assert Listing(log[1], ["TOP"]) == ["B(TP)", "TP"];
  }

  lemma BothBring(log: seq<Entry>, density: real)
    requires log == [Entry("a", "top", density, true), Entry("b", "top", density, true)]
    ensures BringsEmptySite(log, 0, "TOP", "TP") && BringsEmptySite(log, 1, "TOP", "TP")
  {
    TopIsWritten();
    SecondAtTop(log, density);
    FirstAtTop(log[..1], density);
    assert log[..2] == log && |"TP"| != |"TOP"|;
  }

  /** Two adsorbed species at a site "top": its empty site "TP" is listed twice. */
  lemma EmptySiteIsListedTwice(log: seq<Entry>, density: real)
    requires log == [Entry("a", "top", density, true), Entry("b", "top", density, true)]
    ensures Listed(log, "TOP") == ["A(TP)", "TP", "B(TP)", "TP"]
    ensures multiset(Listed(log, "TOP"))["TP"] > 1
  {
    SecondAtTop(log, density);
    BothBring(log, density);
    EmptySiteIsListedTwiceIff(log, "TOP", "TP");
  }
}
