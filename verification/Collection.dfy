/** collection.cpp: entities registered under labels in a triple store, saved to and loaded
    from a data model. */
module Collections {
  import opened Triplets
  import opened TripletLaws
  import opened Wrappers

  /** An IDataModel: a header, string properties and sub-models keyed by label. */
  datatype DataModel = DataModel(id: string, meta: Meta, body: Body)

  datatype Meta = Meta(name: string, version: string, ns: string)

  datatype Body = Body(strings: map<string, string>, models: map<string, DataModel>)

  /** How the attached entities write and read their own contents. */
  datatype Codec = Codec(encode: string -> Body, decode: Body -> string)

  ghost predicate Inverse(codec: Codec) {
    forall s :: codec.decode(codec.encode(s)) == s
  }

  class Entity {
    const meta: Meta
    var id: string
    var content: string

    constructor (meta: Meta, id: string, content: string)
      ensures this.meta == meta && this.id == id && this.content == content
    {
      this.meta, this.id, this.content := meta, id, content;
    }

    method Save(codec: Codec, dm: DataModel) returns (r: DataModel)
      ensures r == dm.(body := codec.encode(content))
    {
      r := dm.(body := codec.encode(content));
    }

    method Load(codec: Codec, dm: DataModel)
      modifies this
      ensures content == codec.decode(dm.body) && id == old(id)
    {
      content := codec.decode(dm.body);
    }

    method SetId(id: string)
      modifies this
      ensures this.id == id && content == old(content)
    {
      this.id := id;
    }
  }

  // ---------- Specification ----------

  datatype EntityView = EntityView(meta: Meta, id: string, content: string)

  /** `sharers` are the labels under which the entity of a label is attached. */
  datatype View = View(
    id: string, name: string, version: string, ns: string, history: seq<Triple>,
    entities: map<string, EntityView>, sharers: map<string, set<string>>)

  const NAME := "__name__"
  const VERSION := "__version__"
  const TRIPLETS := "triplets"
  const ENTITY := "Entity"
  const IS_A := "is-a"

  function Labels(m: Buckets): seq<string> {
    Objects(Bucket(m, ENTITY), "^" + IS_A)
  }

  function NumEntities(h: seq<Triple>): nat {
    |Labels(Build(h))|
  }

  function ModelOf(e: EntityView, codec: Codec): DataModel {
    DataModel(e.id, e.meta, codec.encode(e.content))
  }

  function Saved(v: View, csv: string, dm: DataModel, codec: Codec): DataModel {
    DataModel(v.id, dm.meta,
      Body(dm.body.strings[NAME := v.name][VERSION := v.version][TRIPLETS := csv],
           dm.body.models + SubModels(v.entities, v.entities.Keys, codec)))
  }

  function SubModels(entities: map<string, EntityView>, labels: set<string>, codec: Codec): map<string, DataModel> {
    map l | l in entities && l in labels :: ModelOf(entities[l], codec)
  }

  lemma OneMoreSubModel(models: map<string, DataModel>, entities: map<string, EntityView>, labels: set<string>,
                        l: string, codec: Codec)
    requires l in entities
    ensures models + SubModels(entities, labels + {l}, codec)
         == (models + SubModels(entities, labels, codec))[l := ModelOf(entities[l], codec)]
  {
  }

  function GetString(dm: DataModel, key: string, default: string): string {
    if key in dm.body.strings then dm.body.strings[key] else default
  }

  function Restored(e: EntityView, dm: DataModel, codec: Codec): EntityView {
    e.(id := dm.id, content := codec.decode(dm.body))
  }

  datatype Loaded = Loaded(view: View, ok: bool)

  /** What comes before the attached entities: the triples up to the first malformed line. */
  function LoadedHead(v: View, dm: DataModel): View {
    v.(id := dm.id, name := GetString(dm, NAME, v.name), version := GetString(dm, VERSION, v.version),
       history := v.history + Parse(GetString(dm, TRIPLETS, "")).triples)
  }

  function LoadedFrom(v: View, dm: DataModel, codec: Codec): Loaded {
    var head := LoadedHead(v, dm);
    if !Parse(GetString(dm, TRIPLETS, "")).ok then Loaded(head, false)
    else Loaded(head.(entities := RestoredAll(v.entities, v.sharers, Labels(Build(head.history)), dm, codec)), true)
  }

  /** The last of the labels that is among some. */
  function LastIn(labels: seq<string>, among: set<string>): (last: Option<string>)
    ensures last.Some? ==> last.value in among && last.value in labels
    ensures last.None? ==> forall l :: l in labels ==> l !in among
  {
    if labels == [] then None
    else if labels[|labels| - 1] in among then Some(labels[|labels| - 1])
    else LastIn(labels[..|labels| - 1], among)
  }

  /** The labels from whose models the entity of label `l` is loaded. */
  function Sources(sharers: map<string, set<string>>, l: string, dm: DataModel): set<string> {
    if l in sharers then sharers[l] * dm.body.models.Keys else {}
  }

  function RestoredBy(e: EntityView, source: Option<string>, dm: DataModel, codec: Codec): EntityView
    requires source.Some? ==> source.value in dm.body.models
  {
    if source.Some? then Restored(e, dm.body.models[source.value], codec) else e
  }

  /** The attached entities once those that are labelled and have a model have been loaded: of
      several models for one entity, the one whose label comes last stays. */
  function RestoredAll(entities: map<string, EntityView>, sharers: map<string, set<string>>,
                       labels: seq<string>, dm: DataModel, codec: Codec): map<string, EntityView> {
    map l | l in entities :: RestoredBy(entities[l], LastIn(labels, Sources(sharers, l, dm)), dm, codec)
  }

  lemma SavedInSteps(v: View, csv: string, dm: DataModel, codec: Codec, saved: DataModel)
    requires saved.id == v.id && saved.meta == dm.meta
    requires saved.body.strings == dm.body.strings[NAME := v.name][VERSION := v.version][TRIPLETS := csv]
    requires saved.body.models == dm.body.models + SubModels(v.entities, v.entities.Keys, codec)
    ensures saved == Saved(v, csv, dm, codec)
    ensures saved.body.strings["__name__"] == v.name && saved.body.strings["__version__"] == v.version
    ensures saved.body.strings["triplets"] == csv
  {
  }

  lemma LoadedInSteps(v: View, dm: DataModel, codec: Codec, head: View, after: View, ok: bool)
    requires head == LoadedHead(v, dm) && ok == Parse(GetString(dm, TRIPLETS, "")).ok
    requires after == if ok then head.(entities := RestoredAll(head.entities, head.sharers,
                                                               Labels(Build(head.history)), dm, codec))
                      else head
    ensures Loaded(after, ok) == LoadedFrom(v, dm, codec)
  {
  }

  // ---------- Registrations ----------

  /** The triples `addEntity` adds for a label. */
  function Registration(lbl: string, meta: Meta, uuid: string): seq<Triple> {
    [Triple(lbl, IS_A, ENTITY), Triple(lbl, "name", meta.name), Triple(lbl, "version", meta.version),
     Triple(lbl, "namespace", meta.ns), Triple(lbl, "id", uuid)]
  }

  /** The object a lookup takes: the first one listed, or nothing. */
  function First(h: seq<Triple>, lbl: string, pred: string): string {
    var objs := Objects(Bucket(Build(h), lbl), pred);
    if objs == [] then "" else objs[0]
  }

  lemma LastAdded(h: seq<Triple>, t: Triple, k: string, p: string)
    requires !Hat(p)
    ensures First(h + [t], k, p) == if t.subj == k && t.pred == p then t.obj else First(h, k, p)
  {
    FindIsNewestFirst(h, k, p);
    FindIsNewestFirst(h + [t], k, p);
    assert (h + [t])[..|h|] == h;
    var now := if t.subj == k && t.pred == p then [t.obj] else [];
    ReverseConcat(Added(h, k, p), now);
    assert Reverse(now) == now;
  }

  lemma RegisteredOneByOne(h: seq<Triple>, lbl: string, meta: Meta, uuid: string)
    ensures h + Registration(lbl, meta, uuid)
         == h + [Triple(lbl, "is-a", "Entity")] + [Triple(lbl, "name", meta.name)]
            + [Triple(lbl, "version", meta.version)] + [Triple(lbl, "namespace", meta.ns)] + [Triple(lbl, "id", uuid)]
  {
  }

  /** A lookup after a registration finds what was registered last; lookups of other labels find
      what they found before. */
  lemma RegistrationIsFound(h: seq<Triple>, lbl: string, meta: Meta, uuid: string, k: string, p: string)
    requires !Hat(p)
    ensures First(h + Registration(lbl, meta, uuid), k, p)
         == if k != lbl then First(h, k, p)
            else if p == "is-a" then "Entity"
            else if p == "name" then meta.name
            else if p == "version" then meta.version
            else if p == "namespace" then meta.ns
            else if p == "id" then uuid
            else First(h, k, p)
  {
    RegisteredOneByOne(h, lbl, meta, uuid);
    var t0, t1 := Triple(lbl, "is-a", "Entity"), Triple(lbl, "name", meta.name);
    var t2, t3 := Triple(lbl, "version", meta.version), Triple(lbl, "namespace", meta.ns);
    var t4 := Triple(lbl, "id", uuid);
    LastAdded(h, t0, k, p);
    LastAdded(h + [t0], t1, k, p);
    LastAdded(h + [t0] + [t1], t2, k, p);
    LastAdded(h + [t0] + [t1] + [t2], t3, k, p);
    LastAdded(h + [t0] + [t1] + [t2] + [t3], t4, k, p);
  }

  lemma OnlyFirstIsLabelled(lbl: string, meta: Meta, uuid: string)
    ensures Found(Triple(lbl, "is-a", "Entity"), "Entity", "^is-a") == [lbl]
    ensures Found(Triple(lbl, "name", meta.name), "Entity", "^is-a") == []
    ensures Found(Triple(lbl, "version", meta.version), "Entity", "^is-a") == []
    ensures Found(Triple(lbl, "namespace", meta.ns), "Entity", "^is-a") == []
    ensures Found(Triple(lbl, "id", uuid), "Entity", "^is-a") == []
  {
    assert "^" + "is-a" == "^is-a";
    assert ("^" + "name")[1] != "^is-a"[1] && ("^" + "id")[2] != "^is-a"[2];
  }

  /** A registration puts its label before those of all earlier ones. */
  lemma RegistrationIsCounted(h: seq<Triple>, lbl: string, meta: Meta, uuid: string)
    ensures Labels(Build(h + Registration(lbl, meta, uuid))) == [lbl] + Labels(Build(h))
    ensures NumEntities(h + Registration(lbl, meta, uuid)) == NumEntities(h) + 1
  {
    RegisteredOneByOne(h, lbl, meta, uuid);
    var t0, t1 := Triple(lbl, "is-a", "Entity"), Triple(lbl, "name", meta.name);
    var t2, t3 := Triple(lbl, "version", meta.version), Triple(lbl, "namespace", meta.ns);
    var t4 := Triple(lbl, "id", uuid);
    OnlyFirstIsLabelled(lbl, meta, uuid);
    FoundFirst(h, t0, ENTITY, "^is-a");
    FoundFirst(h + [t0], t1, ENTITY, "^is-a");
    FoundFirst(h + [t0] + [t1], t2, ENTITY, "^is-a");
    FoundFirst(h + [t0] + [t1] + [t2], t3, ENTITY, "^is-a");
    FoundFirst(h + [t0] + [t1] + [t2] + [t3], t4, ENTITY, "^is-a");
    assert "^" + IS_A == "^is-a";
  }

  /** What lookups find once the label is registered: what it was registered with; those of other
      labels find what they found before. There is one entity more. */
  ghost predicate Registers(h: seq<Triple>, h': seq<Triple>, lbl: string, meta: Meta, uuid: string) {
    && First(h', lbl, "name") == meta.name && First(h', lbl, "version") == meta.version
    && First(h', lbl, "namespace") == meta.ns && First(h', lbl, "id") == uuid
    && (forall k, p :: k != lbl && !Hat(p) ==> First(h', k, p) == First(h, k, p))
    && NumEntities(h') == NumEntities(h) + 1
  }

  lemma RegistrationRegisters(h: seq<Triple>, lbl: string, meta: Meta, uuid: string)
    ensures Registers(h, h + Registration(lbl, meta, uuid), lbl, meta, uuid)
  {
    forall k, p | k != lbl && !Hat(p) {
      RegistrationIsFound(h, lbl, meta, uuid, k, p);
    }
    RegistrationIsFound(h, lbl, meta, uuid, lbl, "name");
    RegistrationIsFound(h, lbl, meta, uuid, lbl, "version");
    RegistrationIsFound(h, lbl, meta, uuid, lbl, "namespace");
    RegistrationIsFound(h, lbl, meta, uuid, lbl, "id");
    RegistrationIsCounted(h, lbl, meta, uuid);
  }

  // ---------- The class ----------

  /** For each label, the labels under which the same entity is attached. */
  ghost function SharersOf(entityMap: map<string, Entity>): map<string, set<string>> {
    map l | l in entityMap :: set k | k in entityMap && entityMap[k] == entityMap[l]
  }

  class Collection {
    var id: string
    var name: string
    var version: string
    var ns: string
    var entityMap: map<string, Entity>
    const store: TripletStore

    ghost predicate Valid()
      reads this, store
    {
      && store.Valid()
      // what is attached is registered
      && forall l :: l in entityMap ==> Triple(l, IS_A, ENTITY) in store.history
    }

    ghost function Abs(): View
      reads this, store, entityMap.Values
    {
      View(id, name, version, ns, store.history, Entities(), SharersOf(entityMap))
    }

    ghost function Entities(): map<string, EntityView>
      reads this`entityMap, entityMap.Values
    {
      map l | l in entityMap :: EntityView(entityMap[l].meta, entityMap[l].id, entityMap[l].content)
    }

    constructor (id: string)
      ensures Valid() && fresh(store) && Abs() == View(id, "", "", "", [], map[], map[])
      ensures entityMap == map[]
    {
      this.id, name, version, ns, entityMap := id, "", "", "", map[];
      store := new TripletStore();
    }

    method AddEntity(lbl: string, name: string, version: string, ns: string, uuid: string)
      requires Valid()
      modifies store
      ensures Valid() && store.history == old(store.history) + Registration(lbl, Meta(name, version, ns), uuid)
      ensures Registers(old(store.history), store.history, lbl, Meta(name, version, ns), uuid)
    {
      store.AddTriplet(lbl, IS_A, ENTITY);
      store.AddTriplet(lbl, "name", name);
      store.AddTriplet(lbl, "version", version);
      store.AddTriplet(lbl, "namespace", ns);
      store.AddTriplet(lbl, "id", uuid);
      RegisteredOneByOne(old(store.history), lbl, Meta(name, version, ns), uuid);
      RegistrationRegisters(old(store.history), lbl, Meta(name, version, ns), uuid);
    }

    /** `insert` keeps the entity already attached under a label; it is registered all the same. */
    method AttachEntity(lbl: string, entity: Entity)
      requires Valid()
      modifies this`entityMap, store
      ensures Valid() && store.history == old(store.history) + Registration(lbl, entity.meta, entity.id)
      ensures Registers(old(store.history), store.history, lbl, entity.meta, entity.id)
      ensures entityMap == if lbl in old(entityMap) then old(entityMap) else old(entityMap)[lbl := entity]
    {
      AddEntity(lbl, entity.meta.name, entity.meta.version, entity.meta.ns, entity.id);
      assert Registration(lbl, entity.meta, entity.id)[0] in store.history;
      if lbl !in entityMap {
        entityMap := entityMap[lbl := entity];
      }
    }

    method FindEntity(lbl: string) returns (name: string, version: string, ns: string, uuid: string)
      requires Valid()
      ensures name == First(store.history, lbl, "name") && version == First(store.history, lbl, "version")
      ensures ns == First(store.history, lbl, "namespace") && uuid == First(store.history, lbl, "id")
    {
      name := FindFirstTriplet(lbl, "name");
      version := FindFirstTriplet(lbl, "version");
      ns := FindFirstTriplet(lbl, "namespace");
      uuid := FindFirstTriplet(lbl, "id");
    }

    method FindFirstTriplet(lbl: string, pred: string) returns (s: string)
      requires Valid() && pred != ""
      ensures s == First(store.history, lbl, pred)
    {
      var t := store.FindTriplets(lbl, pred, false);
      if |t| > 0 {
        return t[0];
      }
      return "";
    }

    method CountEntities() returns (n: nat)
      requires Valid()
      ensures n == NumEntities(store.history)
    {
      var labels := store.FindTriplets(ENTITY, "^" + IS_A, false);
      n := |labels|;
    }

    /** `keys` is the order in which the store's hash enumerates its keys. */
    method Save(dataModel: DataModel, keys: seq<string>, codec: Codec) returns (dm: DataModel)
      requires Valid() && Enumerates(keys, store.triplets)
      ensures dm == Saved(Abs(), Printout(store.history, keys), dataModel, codec)
      ensures dm.id == id && dm.body.strings["__name__"] == name && dm.body.strings["__version__"] == version
      ensures dm.body.strings["triplets"] == Printout(store.history, keys)
    {
      var csv := store.ToCSV(keys);
      dm := dataModel.(id := id);
      var strings := dm.body.strings[NAME := name][VERSION := version][TRIPLETS := csv];
      var models := dataModel.body.models;
      ghost var entities := Entities();
      assert entities.Keys == entityMap.Keys;
      var todo := entityMap.Keys;
      while todo != {}
        invariant todo <= entityMap.Keys
        invariant models == dataModel.body.models + SubModels(entities, entityMap.Keys - todo, codec)
      {
        var l :| l in todo;
        var e := entityMap[l];
        var sub := e.Save(codec, DataModel(e.id, e.meta, Body(map[], map[])));
        models := models[l := sub];
        OneMoreSubModel(dataModel.body.models, entities, entityMap.Keys - todo, l, codec);
        assert entityMap.Keys - (todo - {l}) == entityMap.Keys - todo + {l};
        todo := todo - {l};
      }
      assert entityMap.Keys - {} == entityMap.Keys;
      dm := dm.(body := Body(strings, models));
      SavedInSteps(Abs(), csv, dataModel, codec, dm);
    }

    method Load(dataModel: DataModel, codec: Codec) returns (ok: bool)
      requires Valid()
      modifies this`id, this`name, this`version, store, entityMap.Values
      ensures Valid()
      ensures Loaded(Abs(), ok) == LoadedFrom(old(Abs()), dataModel, codec)
    {
      ok := LoadHead(dataModel);
      ghost var head := Abs();
      assert head.entities == Entities() && head.sharers == SharersOf(entityMap) && head.history == store.history;
      if ok {
        var labels := store.FindTriplets(ENTITY, "^" + IS_A, false);
        assert labels == Labels(Build(head.history));
        LoadEntities(labels, dataModel, codec);
      }
      LoadedInSteps(old(Abs()), dataModel, codec, head, Abs(), ok);
    }

    /** The part of `load` that comes before the attached entities. */
    method LoadHead(dataModel: DataModel) returns (ok: bool)
      requires Valid()
      modifies this`id, this`name, this`version, store
      ensures Valid() && Abs() == LoadedHead(old(Abs()), dataModel)
      ensures ok == Parse(GetString(dataModel, TRIPLETS, "")).ok
      ensures var strings := dataModel.body.strings;
              && name == (if "__name__" in strings then strings["__name__"] else old(name))
              && version == (if "__version__" in strings then strings["__version__"] else old(version))
              && ("triplets" !in strings ==> ok && store.history == old(store.history))
    {
      assert Parse("") == Parsed([], true);
      id := dataModel.id;
      name := GetString(dataModel, NAME, name);
      version := GetString(dataModel, VERSION, version);
      ok := store.FromCSV(GetString(dataModel, TRIPLETS, ""));
      assert Entities() == old(Entities());
    }

    method LoadEntities(labels: seq<string>, dataModel: DataModel, codec: Codec)
      requires Valid()
      modifies entityMap.Values
      ensures Valid() && store.history == old(store.history)
      ensures Abs() == old(Abs()).(entities := RestoredAll(old(Entities()), SharersOf(entityMap),
                                                           labels, dataModel, codec))
    {
      ghost var before, sharers := Entities(), SharersOf(entityMap);
      var i := 0;
      while i < |labels|
        modifies entityMap.Values
        invariant i <= |labels|
        invariant Entities() == RestoredAll(before, sharers, labels[..i], dataModel, codec)
      {
        ghost var now := Entities();
        var l := labels[i];
        assert labels[..i + 1] == labels[..i] + [l];
        if l in dataModel.body.models && l in entityMap {
          LoadEntity(l, dataModel.body.models[l], codec);
          assert Entities() == LoadedUnder(now, sharers, l, dataModel.body.models[l], codec);
          OneMoreLabel(before, now, sharers, labels[..i], l, dataModel, codec);
        } else {
          OneMoreIdleLabel(before, sharers, labels[..i], l, dataModel, codec);
        }
        i := i + 1;
      }
      assert labels[..i] == labels;
    }

    /** Loads the entity of a label, under whatever labels it is attached. */
    method LoadEntity(l: string, dm: DataModel, codec: Codec)
      requires Valid() && l in entityMap
      modifies entityMap.Values
      ensures Valid() && store.history == old(store.history)
      ensures Entities() == LoadedUnder(old(Entities()), SharersOf(entityMap), l, dm, codec)
    {
      var e := entityMap[l];
      e.Load(codec, dm);
      e.SetId(dm.id);
    }
  }

  /** All labels that share the entity of `l` see it restored. */
  function LoadedUnder(entities: map<string, EntityView>, sharers: map<string, set<string>>, l: string,
                       dm: DataModel, codec: Codec): map<string, EntityView> {
    map k | k in entities :: if k in sharers && l in sharers[k] then Restored(entities[k], dm, codec) else entities[k]
  }

  lemma OneMoreLabel(before: map<string, EntityView>, now: map<string, EntityView>, sharers: map<string, set<string>>,
                     labels: seq<string>, l: string, dm: DataModel, codec: Codec)
    requires now == RestoredAll(before, sharers, labels, dm, codec) && l in dm.body.models
    ensures LoadedUnder(now, sharers, l, dm.body.models[l], codec)
         == RestoredAll(before, sharers, labels + [l], dm, codec)
  {
    assert (labels + [l])[..|labels|] == labels;
  }

  lemma OneMoreIdleLabel(before: map<string, EntityView>, sharers: map<string, set<string>>,
                         labels: seq<string>, l: string, dm: DataModel, codec: Codec)
    requires l !in dm.body.models || forall k :: k in sharers ==> l !in sharers[k]
    ensures RestoredAll(before, sharers, labels, dm, codec) == RestoredAll(before, sharers, labels + [l], dm, codec)
  {
    assert (labels + [l])[..|labels|] == labels;
  }
}
