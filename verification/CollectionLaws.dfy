/** What saving a collection and loading it into another one restores. */
module CollectionLaws {
  import opened Triplets
  import opened TripletLaws
  import opened Collections
  import opened Wrappers

  /** A collection that `attachEntity` can have built: what is attached is registered. */
  ghost predicate Registered(v: View) {
    forall l :: l in v.entities ==> Triple(l, IS_A, ENTITY) in v.history
  }

  function LoadBack(source: View, keys: seq<string>, dm: DataModel, target: View, codec: Codec): Loaded {
    LoadedFrom(target, Saved(source, Printout(source.history, keys), dm, codec), codec)
  }

  lemma LabelCount(h: seq<Triple>, l: string)
    ensures multiset(Labels(Build(h)))[l]
         == multiset(h)[Triple(ENTITY, "^" + IS_A, l)] + multiset(h)[Triple(l, IS_A, ENTITY)]
  {
    var p := "^" + IS_A;
    assert Hat(p) && p[1..] == IS_A;
    FindCountsAdds(h, ENTITY, p, l);
  }

  lemma SizesAdd<T>(a: seq<T>, b: seq<T>, c: seq<T>)
    requires forall x :: multiset(c)[x] == multiset(a)[x] + multiset(b)[x]
    ensures |c| == |a| + |b|
  {
    assert multiset(c) == multiset(a) + multiset(b);
    assert |multiset(c)| == |multiset(a)| + |multiset(b)|;
  }

  lemma NumEntitiesAdds(a: seq<Triple>, b: seq<Triple>, c: seq<Triple>)
    requires multiset(c) == multiset(a) + multiset(b)
    ensures NumEntities(c) == NumEntities(a) + NumEntities(b)
  {
    var la, lb, lc := Labels(Build(a)), Labels(Build(b)), Labels(Build(c));
    forall l ensures multiset(lc)[l] == multiset(la)[l] + multiset(lb)[l] {
      LabelCount(a, l);
      LabelCount(b, l);
      LabelCount(c, l);
    }
    SizesAdd(la, lb, lc);
  }

  lemma RegisteredIsLabelled(h: seq<Triple>, l: string)
    requires Triple(l, IS_A, ENTITY) in h
    ensures l in Labels(Build(h))
  {
    LabelCount(h, l);
    assert Triple(l, IS_A, ENTITY) in multiset(h);
    assert l in multiset(Labels(Build(h)));
  }

  /** What is saved, property by property: three strings and one model for each attached entity,
      with its id, its type and its contents; anything else in the data model stays. */
  lemma SavedProperties(v: View, csv: string, dm: DataModel, codec: Codec, key: string)
    ensures var saved := Saved(v, csv, dm, codec);
            var strings, models := saved.body.strings, saved.body.models;
            && saved.id == v.id && saved.meta == dm.meta
            && strings["__name__"] == v.name && strings["__version__"] == v.version && strings["triplets"] == csv
            && (key !in {"__name__", "__version__", "triplets"} ==>
                  GetString(saved, key, "") == GetString(dm, key, "") && (key in strings <==> key in dm.body.strings))
            && (key in v.entities ==>
                  key in models && models[key]
                                   == DataModel(v.entities[key].id, v.entities[key].meta,
                                                codec.encode(v.entities[key].content)))
            && (key !in v.entities ==>
                  && (key in models <==> key in dm.body.models)
                  && (key in models ==> models[key] == dm.body.models[key]))
  {
  }

  /** Saving a collection of clean triples and loading it into any other restores id, name and
      version, leaves the namespace alone, and makes the target's triples its old ones and the
      saved ones, so that their numbers of entities add up. */
  lemma LoadRestoresCollection(source: View, keys: seq<string>, dm: DataModel, target: View, codec: Codec)
    requires Enumerates(keys, Build(source.history)) && AllClean(source.history)
    ensures var r := LoadBack(source, keys, dm, target, codec);
            && r.ok
            && r.view.id == source.id && r.view.name == source.name && r.view.version == source.version
            && r.view.ns == target.ns
            && target.history <= r.view.history
            && multiset(r.view.history) == multiset(target.history) + multiset(source.history)
            && NumEntities(r.view.history) == NumEntities(target.history) + NumEntities(source.history)
  {
    CleanTriplesAreReadBack(source.history, keys);
    var back := Parse(Printout(source.history, keys)).triples;
    assert multiset(target.history + back) == multiset(target.history) + multiset(back);
    NumEntitiesAdds(target.history, source.history, target.history + back);
  }

  /** Every label knows that it shares its own entity. */
  ghost predicate SharesItself(v: View, l: string) {
    l in v.entities && l in v.sharers && l in v.sharers[l]
  }

  /** What was saved for all labels of the target's entity under `l` is one and the same. */
  ghost predicate SavedAlike(source: View, dm: DataModel, target: View, l: string)
    requires SharesItself(target, l)
  {
    l in source.entities &&
      forall k :: k in target.sharers[l] ==>
                    if k in source.entities then
                      && source.entities[k].content == source.entities[l].content
                      && source.entities[k].id == source.entities[l].id
                    else k !in dm.body.models
  }

  /** Every entity attached on both sides gets back its contents and its id, and keeps its own type,
      even under several labels if they were saved alike, as those of one entity are; entities the
      save knows nothing of are left as they were. */
  lemma LoadRestoresEntities(source: View, keys: seq<string>, dm: DataModel, target: View, codec: Codec, l: string)
    requires Enumerates(keys, Build(source.history)) && AllClean(source.history)
    requires Registered(source) && Inverse(codec) && SharesItself(target, l)
    ensures var after := LoadBack(source, keys, dm, target, codec).view.entities;
            && l in after && after[l].meta == target.entities[l].meta
            && (SavedAlike(source, dm, target, l) ==>
                  after[l].content == source.entities[l].content && after[l].id == source.entities[l].id)
            && (target.sharers[l] !! source.entities.Keys + dm.body.models.Keys ==> after[l] == target.entities[l])
  {
    LoadRestoresCollection(source, keys, dm, target, codec);
    var r := LoadBack(source, keys, dm, target, codec);
    var saved := Saved(source, Printout(source.history, keys), dm, codec);
    var labels, sources := Labels(Build(r.view.history)), Sources(target.sharers, l, saved);
    if SavedAlike(source, dm, target, l) {
      var t := Triple(l, IS_A, ENTITY);
      assert t in r.view.history by {
        assert t in multiset(source.history) && t in multiset(r.view.history);
      }
      RegisteredIsLabelled(r.view.history, l);
      assert l in sources;
      var k := LastIn(labels, sources).value;
      assert k in source.entities && saved.body.models[k] == ModelOf(source.entities[k], codec);
    }
  }

  /** An entity attached under two labels takes what was saved for the one that the lookup lists
      later. */
  lemma LastLabelWins(source: View, keys: seq<string>, dm: DataModel, target: View, codec: Codec, l: string, k: string)
    requires Enumerates(keys, Build(source.history)) && AllClean(source.history)
    requires Inverse(codec) && SharesItself(target, l)
    requires k in target.sharers[l] && k in source.entities
    requires var labels := Labels(Build(LoadBack(source, keys, dm, target, codec).view.history));
             exists i :: 0 <= i < |labels| && labels[i] == k &&
                           forall j :: i < j < |labels| ==> labels[j] !in target.sharers[l]
    ensures var after := LoadBack(source, keys, dm, target, codec).view.entities;
            after[l].content == source.entities[k].content && after[l].id == source.entities[k].id
  {
    LoadRestoresCollection(source, keys, dm, target, codec);
    var saved := Saved(source, Printout(source.history, keys), dm, codec);
    var labels := Labels(Build(LoadBack(source, keys, dm, target, codec).view.history));
    var i :| 0 <= i < |labels| && labels[i] == k && forall j :: i < j < |labels| ==> labels[j] !in target.sharers[l];
    LastIsAt(labels, Sources(target.sharers, l, saved), i);
    assert saved.body.models[k] == ModelOf(source.entities[k], codec);
  }

  lemma {:induction false} LastIsAt(labels: seq<string>, among: set<string>, i: nat)
    requires i < |labels| && labels[i] in among && forall j :: i < j < |labels| ==> labels[j] !in among
    ensures LastIn(labels, among) == Some(labels[i])
  {
    if i == |labels| - 1 {
    } else {
      LastIsAt(labels[..|labels| - 1], among, i);
    }
  }

  /** Which object `findEntity` picks for a label registered several times: the newest. */
  lemma FindEntityPicksNewest(h: seq<Triple>, lbl: string, p: string)
    requires !Hat(p) && Added(h, lbl, p) != []
    ensures First(h, lbl, p) == Added(h, lbl, p)[|Added(h, lbl, p)| - 1]
  {
    FindIsNewestFirst(h, lbl, p);
  }

  /** After a save and a load it is the oldest one that was saved, even when the target had
      objects of its own. */
  lemma FindEntityPicksOldestAfterLoad(source: View, keys: seq<string>, dm: DataModel, target: View, codec: Codec,
                                       lbl: string, p: string)
    requires Enumerates(keys, Build(source.history)) && AllClean(source.history)
    requires !Hat(p) && Added(source.history, lbl, p) != []
    ensures First(LoadBack(source, keys, dm, target, codec).view.history, lbl, p) == Added(source.history, lbl, p)[0]
  {
    PlainHistoryIsReadBack(source.history, keys);
    var back := ShownAll(Build(source.history), keys);
    var h := target.history + back;
    AddedOfShownAll(Build(source.history), keys, lbl, p);
    FindIsNewestFirst(source.history, lbl, p);
    AddedConcat(target.history, back, lbl, p);
    FindIsNewestFirst(h, lbl, p);
    ReverseEnds(Added(source.history, lbl, p));
    assert Bucket(Build(source.history), lbl) == [] ==> Objects(Bucket(Build(source.history), lbl), p) == [];
  }

  lemma {:induction false} ReverseEnds<T>(s: seq<T>)
    requires s != []
    ensures |Reverse(s)| == |s| && Reverse(s)[|s| - 1] == s[0]
  {
    if |s| <= 1 {
    } else {
      ReverseEnds(s[..|s| - 1]);
    }
  }
}
