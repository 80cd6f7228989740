/** What the triple store promises: which objects a lookup finds and in which order, and what
    survives a round trip through CSV. */
module TripletLaws {
  import opened Text
  import opened Triplets

  function Mirror(t: Triple): Triple {
    Triple(t.obj, "^" + t.pred, t.subj)
  }

  // ---------- What is filed under a key ----------

  function Filed(h: seq<Triple>, k: string): seq<Entry> {
    if h == [] then []
    else
      var t := h[|h| - 1];
      FiledOne(t, k) + Filed(h[..|h| - 1], k)
  }

  function FiledOne(t: Triple, k: string): seq<Entry> {
    (if t.obj == k then [("^" + t.pred, t.subj)] else []) + (if t.subj == k then [(t.pred, t.obj)] else [])
  }

  lemma BucketAfterInsert(m: Buckets, key: string, e: Entry, k: string)
    ensures Bucket(Insert(m, key, e), k) == (if key == k then [e] else []) + Bucket(m, k)
    ensures k in Insert(m, key, e) <==> k in m || k == key
  {
  }

  lemma BucketAfterAdd(m: Buckets, t: Triple, k: string)
    ensures Bucket(Add(m, t), k) == FiledOne(t, k) + Bucket(m, k)
    ensures k in Add(m, t) <==> k in m || k == t.subj || k == t.obj
  {
    var m' := Insert(m, t.subj, (t.pred, t.obj));
    BucketAfterInsert(m, t.subj, (t.pred, t.obj), k);
    BucketAfterInsert(m', t.obj, ("^" + t.pred, t.subj), k);
    var a := if t.obj == k then [("^" + t.pred, t.subj)] else [];
    var b := if t.subj == k then [(t.pred, t.obj)] else [];
    assert a + (b + Bucket(m, k)) == (a + b) + Bucket(m, k);
  }

  lemma {:induction false} BucketIsFiled(h: seq<Triple>, k: string)
    ensures Bucket(Build(h), k) == Filed(h, k)
    ensures k in Build(h) <==> Filed(h, k) != []
  {
    if h == [] {
    } else {
      var n := |h| - 1;
      BucketIsFiled(h[..n], k);
      BucketAfterAdd(Build(h[..n]), h[n], k);
    }
  }

  lemma {:induction false} ObjectsCount(b: seq<Entry>, pred: string, obj: string)
    ensures multiset(Objects(b, pred))[obj] == multiset(b)[(pred, obj)]
  {
    if b == [] {
    } else {
      var n := |b| - 1;
      ObjectsCount(b[..n], pred, obj);
      assert b == b[..n] + [b[n]];
    }
  }

  lemma {:induction false} FiledCount(h: seq<Triple>, s: string, p: string, o: string)
    ensures multiset(Filed(h, s))[(p, o)]
         == multiset(h)[Triple(s, p, o)] + if Hat(p) then multiset(h)[Triple(o, p[1..], s)] else 0
  {
    if h == [] {
    } else {
      var n := |h| - 1;
      FiledCount(h[..n], s, p, o);
      FiledOneCount(h[n], s, p, o);
      CountConcat(FiledOne(h[n], s), Filed(h[..n], s), (p, o));
      CountSnoc(h, Triple(s, p, o));
      if Hat(p) {
        CountSnoc(h, Triple(o, p[1..], s));
      }
    }
  }

  lemma CountConcat<T>(a: seq<T>, b: seq<T>, x: T)
    ensures multiset(a + b)[x] == multiset(a)[x] + multiset(b)[x]
  {
  }

  lemma CountSnoc<T>(s: seq<T>, x: T)
    requires s != []
    ensures multiset(s)[x] == multiset(s[..|s| - 1])[x] + if s[|s| - 1] == x then 1 else 0
  {
    assert s == s[..|s| - 1] + [s[|s| - 1]];
  }

  lemma FiledOneCount(t: Triple, s: string, p: string, o: string)
    ensures multiset(FiledOne(t, s))[(p, o)]
         == (if t == Triple(s, p, o) then 1 else 0) + if Hat(p) && t == Triple(o, p[1..], s) then 1 else 0
  {
    var rpred := "^" + t.pred;
    assert rpred == p <==> Hat(p) && t.pred == p[1..] by {
      assert rpred[1..] == t.pred;
      if Hat(p) && t.pred == p[1..] {
        assert p == [p[0]] + p[1..];
      }
    }
    var a, b := if t.obj == s then [(rpred, t.subj)] else [], if t.subj == s then [(t.pred, t.obj)] else [];
    assert multiset(a + b) == multiset(a) + multiset(b);
  }

  /** After any history of adds, a lookup finds `obj` as often as (s, p, o) was added, plus, for
      a reverse predicate ^q, as often as (o, q, s) was. */
  lemma FindCountsAdds(h: seq<Triple>, s: string, p: string, o: string)
    ensures multiset(Objects(Bucket(Build(h), s), p))[o]
         == multiset(h)[Triple(s, p, o)] + if Hat(p) then multiset(h)[Triple(o, p[1..], s)] else 0
  {
    BucketIsFiled(h, s);
    ObjectsCount(Filed(h, s), p, o);
    FiledCount(h, s, p, o);
  }

  // ---------- Order ----------

  function Reverse<T>(s: seq<T>): seq<T> {
    if s == [] then [] else [s[|s| - 1]] + Reverse(s[..|s| - 1])
  }

  lemma {:induction false} ReverseConcat<T>(a: seq<T>, b: seq<T>)
    ensures Reverse(a + b) == Reverse(b) + Reverse(a)
  {
    if b == [] {
      assert a + b == a;
    } else {
      assert (a + b)[..|a + b| - 1] == a + b[..|b| - 1];
      ReverseConcat(a, b[..|b| - 1]);
    }
  }

  lemma {:induction false} ReverseTwice<T>(s: seq<T>)
    ensures Reverse(Reverse(s)) == s
  {
    if s == [] {
    } else {
      var n := |s| - 1;
      ReverseTwice(s[..n]);
      ReverseConcat([s[n]], Reverse(s[..n]));
      assert Reverse([s[n]]) == [s[n]];
      assert s == s[..n] + [s[n]];
    }
  }

  /** The objects added for a subject and predicate, oldest first. */
  function Added(h: seq<Triple>, s: string, p: string): seq<string> {
    if h == [] then []
    else
      var n := |h| - 1;
      Added(h[..n], s, p) + if h[n].subj == s && h[n].pred == p then [h[n].obj] else []
  }

  lemma {:induction false} AddedConcat(a: seq<Triple>, b: seq<Triple>, s: string, p: string)
    ensures Added(a + b, s, p) == Added(a, s, p) + Added(b, s, p)
  {
    if b == [] {
      assert a + b == a;
    } else {
      var n := |b| - 1;
      assert (a + b)[..|a + b| - 1] == a + b[..n];
      AddedConcat(a, b[..n], s, p);
    }
  }

  lemma {:induction false} ObjectsConcat(a: seq<Entry>, b: seq<Entry>, p: string)
    ensures Objects(a + b, p) == Objects(a, p) + Objects(b, p)
  {
    if b == [] {
      assert a + b == a;
    } else {
      var n := |b| - 1;
      assert (a + b)[..|a + b| - 1] == a + b[..n];
      ObjectsConcat(a, b[..n], p);
    }
  }

  /** What a lookup finds of one triple: its object, or for a reverse predicate its subject. */
  function Found(t: Triple, s: string, p: string): seq<string> {
    if t.subj == s && t.pred == p then [t.obj]
    else if t.obj == s && "^" + t.pred == p then [t.subj]
    else []
  }

  function FoundAll(h: seq<Triple>, s: string, p: string): seq<string> {
    if h == [] then [] else FoundAll(h[..|h| - 1], s, p) + Found(h[|h| - 1], s, p)
  }

  lemma ObjectsOfFiledOne(t: Triple, s: string, p: string)
    ensures Objects(FiledOne(t, s), p) == Found(t, s, p)
  {
    var a, b := if t.obj == s then [("^" + t.pred, t.subj)] else [], if t.subj == s then [(t.pred, t.obj)] else [];
    ObjectsConcat(a, b, p);
    assert |"^" + t.pred| != |t.pred|;
    assert a != [] ==> a[..0] == [];
    assert b != [] ==> b[..0] == [];
  }

  /** Any lookup lists what was added for it, newest first. */
  lemma {:induction false} EveryFindIsNewestFirst(h: seq<Triple>, s: string, p: string)
    ensures Objects(Bucket(Build(h), s), p) == Reverse(FoundAll(h, s, p))
  {
    BucketIsFiled(h, s);
    if h == [] {
    } else {
      var n := |h| - 1;
      BucketIsFiled(h[..n], s);
      EveryFindIsNewestFirst(h[..n], s, p);
      ObjectsConcat(FiledOne(h[n], s), Filed(h[..n], s), p);
      ObjectsOfFiledOne(h[n], s, p);
      var now := Found(h[n], s, p);
      ReverseConcat(FoundAll(h[..n], s, p), now);
      assert Reverse(now) == now;
    }
  }

  lemma {:induction false} FoundIsAdded(h: seq<Triple>, s: string, p: string)
    requires !Hat(p)
    ensures FoundAll(h, s, p) == Added(h, s, p)
  {
    if h == [] {
    } else {
      FoundIsAdded(h[..|h| - 1], s, p);
      assert ("^" + h[|h| - 1].pred)[0] == '^';
    }
  }

  /** A forward lookup lists the objects added, newest first. */
  lemma FindIsNewestFirst(h: seq<Triple>, s: string, p: string)
    requires !Hat(p)
    ensures Objects(Bucket(Build(h), s), p) == Reverse(Added(h, s, p))
  {
    EveryFindIsNewestFirst(h, s, p);
    FoundIsAdded(h, s, p);
  }

  lemma FoundSnoc(h: seq<Triple>, t: Triple, s: string, p: string)
    ensures FoundAll(h + [t], s, p) == FoundAll(h, s, p) + Found(t, s, p)
  {
    assert (h + [t])[..|h|] == h;
  }

  /** One more triple puts what is found of it before what was found so far. */
  lemma FoundFirst(h: seq<Triple>, t: Triple, s: string, p: string)
    ensures Objects(Bucket(Build(h + [t]), s), p) == Found(t, s, p) + Objects(Bucket(Build(h), s), p)
  {
    EveryFindIsNewestFirst(h, s, p);
    EveryFindIsNewestFirst(h + [t], s, p);
    FoundSnoc(h, t, s, p);
    ReverseConcat(FoundAll(h, s, p), Found(t, s, p));
    ReverseOfFound(t, s, p);
  }

  lemma ReverseOfFound(t: Triple, s: string, p: string)
    ensures Reverse(Found(t, s, p)) == Found(t, s, p)
  {
    assert Reverse([t.obj]) == [t.obj] + Reverse([t.obj][..0]) == [t.obj];
    assert Reverse([t.subj]) == [t.subj] + Reverse([t.subj][..0]) == [t.subj];
  }

  // ---------- The printed triples ----------

  lemma ShownSnoc(k: string, b: seq<Entry>, s: string, p: string)
    requires !Hat(p) && b != []
    ensures var n := |b| - 1;
            Added(Shown(k, b), s, p)
            == Added(Shown(k, b[..n]), s, p) + if k == s && b[n].0 == p then [b[n].1] else []
  {
    var n := |b| - 1;
    var now := if Hat(b[n].0) then [] else [Triple(k, b[n].0, b[n].1)];
    AddedConcat(Shown(k, b[..n]), now, s, p);
    if now != [] {
      assert now[..0] == [];
    }
  }

  lemma {:induction false} AddedOfShown(k: string, b: seq<Entry>, s: string, p: string)
    requires !Hat(p)
    ensures Added(Shown(k, b), s, p) == if k == s then Objects(b, p) else []
  {
    if b == [] {
    } else {
      AddedOfShown(k, b[..|b| - 1], s, p);
      ShownSnoc(k, b, s, p);
    }
  }

  lemma AddedOfLastKey(m: Buckets, keys: seq<string>, s: string, p: string)
    requires !Hat(p) && keys != []
    ensures var n := |keys| - 1;
            Added(ShownAll(m, keys), s, p)
            == Added(ShownAll(m, keys[..n]), s, p) + if keys[n] == s then Objects(Bucket(m, s), p) else []
  {
    var n := |keys| - 1;
    AddedConcat(ShownAll(m, keys[..n]), Shown(keys[n], Bucket(m, keys[n])), s, p);
    AddedOfShown(keys[n], Bucket(m, keys[n]), s, p);
  }

  lemma {:induction false} AddedOfShownAll(m: Buckets, keys: seq<string>, s: string, p: string)
    requires !Hat(p)
    requires forall i, j :: 0 <= i < j < |keys| ==> keys[i] != keys[j]
    ensures Added(ShownAll(m, keys), s, p) == if s in keys then Objects(Bucket(m, s), p) else []
  {
    if keys == [] {
    } else {
      var n := |keys| - 1;
      AddedOfShownAll(m, keys[..n], s, p);
      AddedOfLastKey(m, keys, s, p);
      if keys[n] == s {
        assert s !in keys[..n];
      } else {
        assert s in keys <==> s in keys[..n];
      }
    }
  }

  lemma {:induction false} AddedCount(h: seq<Triple>, t: Triple)
    ensures multiset(Added(h, t.subj, t.pred))[t.obj] == multiset(h)[t]
  {
    if h == [] {
    } else {
      var n := |h| - 1;
      AddedCount(h[..n], t);
      CountSnoc(h, t);
      var now := if h[n].subj == t.subj && h[n].pred == t.pred then [h[n].obj] else [];
      CountConcat(Added(h[..n], t.subj, t.pred), now, t.obj);
    }
  }

  lemma {:induction false} ShownHasNoHat(m: Buckets, keys: seq<string>)
    ensures forall t :: t in ShownAll(m, keys) ==> !Hat(t.pred)
  {
    if keys == [] {
    } else {
      var n := |keys| - 1;
      ShownHasNoHat(m, keys[..n]);
      ShownBucketHasNoHat(keys[n], Bucket(m, keys[n]));
    }
  }

  lemma {:induction false} ShownBucketHasNoHat(k: string, b: seq<Entry>)
    ensures forall t :: t in Shown(k, b) ==> !Hat(t.pred)
  {
    if b == [] {
    } else {
      ShownBucketHasNoHat(k, b[..|b| - 1]);
    }
  }

  /** The number of times a triple is printed: as often as it was added, unless its predicate
      starts with '^', for then it is taken for a mirror and never printed. */
  lemma ShownCount(h: seq<Triple>, keys: seq<string>, t: Triple)
    requires Enumerates(keys, Build(h))
    ensures multiset(ShownAll(Build(h), keys))[t] == if Hat(t.pred) then 0 else multiset(h)[t]
  {
    if Hat(t.pred) {
      ShownHasNoHat(Build(h), keys);
    } else {
      AddedOfShownAll(Build(h), keys, t.subj, t.pred);
      AddedCount(ShownAll(Build(h), keys), t);
      FindCountsAdds(h, t.subj, t.pred, t.obj);
    }
  }

  // ---------- The whole store ----------

  lemma {:induction false} EntriesCount(k: string, b: seq<Entry>, t: Triple)
    ensures multiset(EntriesOf(k, b))[t] == if t.subj == k then multiset(b)[(t.pred, t.obj)] else 0
  {
    if b == [] {
    } else {
      var n := |b| - 1;
      EntriesCount(k, b[..n], t);
      assert b == b[..n] + [b[n]];
      assert EntriesOf(k, b) == EntriesOf(k, b[..n]) + [Triple(k, b[n].0, b[n].1)];
    }
  }

  lemma {:induction false} AllEntriesCount(m: Buckets, keys: seq<string>, t: Triple)
    requires forall i, j :: 0 <= i < j < |keys| ==> keys[i] != keys[j]
    ensures multiset(AllEntries(m, keys))[t]
            == if t.subj in keys then multiset(Bucket(m, t.subj))[(t.pred, t.obj)] else 0
  {
    if keys == [] {
    } else {
      var n := |keys| - 1;
      AllEntriesCount(m, keys[..n], t);
      EntriesCount(keys[n], Bucket(m, keys[n]), t);
      assert t.subj in keys <==> t.subj in keys[..n] || t.subj == keys[n];
    }
  }

  function Mirrors(h: seq<Triple>): (ms: seq<Triple>)
    ensures |ms| == |h|
  {
    seq(|h|, i requires 0 <= i < |h| => Mirror(h[i]))
  }

  lemma {:induction false} MirrorsCount(h: seq<Triple>, t: Triple)
    ensures multiset(Mirrors(h))[t] == if Hat(t.pred) then multiset(h)[Triple(t.obj, t.pred[1..], t.subj)] else 0
  {
    if h == [] {
    } else {
      var n := |h| - 1;
      MirrorsCount(h[..n], t);
      assert h == h[..n] + [h[n]] && Mirrors(h) == Mirrors(h[..n]) + [Mirror(h[n])];
      assert Mirror(h[n]).pred[1..] == h[n].pred;
      if Hat(t.pred) {
        assert t.pred == "^" + t.pred[1..];
      }
    }
  }

  /** The store holds every triple added and its mirror, nothing else, whatever order the hash
      enumerates its keys in; so `size`, which counts both, is the number of entries. */
  lemma StoreHoldsTriplesAndMirrors(h: seq<Triple>, keys: seq<string>)
    requires Enumerates(keys, Build(h))
    ensures multiset(AllEntries(Build(h), keys)) == multiset(h) + multiset(Mirrors(h))
    ensures |AllEntries(Build(h), keys)| == 2 * |h|
  {
    var all := AllEntries(Build(h), keys);
    forall t ensures multiset(all)[t] == (multiset(h) + multiset(Mirrors(h)))[t] {
      AllEntriesCount(Build(h), keys, t);
      BucketIsFiled(h, t.subj);
      FiledCount(h, t.subj, t.pred, t.obj);
      MirrorsCount(h, t);
    }
    assert multiset(all) == multiset(h) + multiset(Mirrors(h));
    assert |multiset(all)| == |multiset(h)| + |multiset(Mirrors(h))|;
  }

  // ---------- The round trip through CSV ----------

  /** A field that CSV can carry. */
  predicate Plain(s: string) {
    s != "" && Without(s, ',') && Without(s, '\n') && Without(s, '\0')
  }

  predicate PlainTriple(t: Triple) {
    Plain(t.subj) && Plain(t.pred) && Plain(t.obj)
  }

  predicate Clean(t: Triple) {
    PlainTriple(t) && !Hat(t.pred)
  }

  ghost predicate AllClean(h: seq<Triple>) {
    forall t :: t in h ==> Clean(t)
  }

  lemma LineSplits(t: Triple)
    requires PlainTriple(t)
    ensures SplitSkip(Line(t), ',') == [t.subj, t.pred, t.obj]
    ensures Without(Line(t), '\n') && Without(Line(t), '\0') && Line(t) != ""
  {
    assert Line(t) == t.subj + [','] + (t.pred + [','] + t.obj);
    SplitOffFirst(t.subj, t.pred + [','] + t.obj, ',');
    SplitOffFirst(t.pred, t.obj, ',');
    SplitWhole(t.obj, ',');
    assert Split(Line(t), ',') == [t.subj, t.pred, t.obj];
    assert SkipEmpty([t.obj]) == [t.obj];
    assert SkipEmpty([t.pred, t.obj]) == [t.pred, t.obj];
  }

  lemma {:induction false} LinesCons(t: Triple, ts: seq<Triple>)
    ensures Lines([t] + ts) == Line(t) + "\n" + Lines(ts)
  {
    var all := [t] + ts;
    if ts == [] {
      assert all[..0] == [];
    } else {
      var n := |ts| - 1;
      assert all[..|all| - 1] == [t] + ts[..n];
      LinesCons(t, ts[..n]);
    }
  }

  /** Printed triples with plain fields are read back, in the printed order. */
  lemma {:induction false} ParseReadsLines(ts: seq<Triple>)
    requires forall t :: t in ts ==> PlainTriple(t)
    ensures ParseLines(SplitSkip(Lines(ts), '\n')) == Parsed(ts, true)
    ensures Without(Lines(ts), '\0')
  {
    if ts == [] {
    } else {
      LinesCons(ts[0], ts[1..]);
      assert [ts[0]] + ts[1..] == ts;
      ParseReadsLines(ts[1..]);
      LineSplits(ts[0]);
      SplitOffFirst(Line(ts[0]), Lines(ts[1..]), '\n');
      assert Lines(ts) == Line(ts[0]) + ['\n'] + Lines(ts[1..]);
      var lines := SplitSkip(Lines(ts), '\n');
      assert lines == [Line(ts[0])] + SplitSkip(Lines(ts[1..]), '\n');
    }
  }

  /** Whatever text is read, only plain fields come out of it. */
  lemma {:induction false} ParsedLinesArePlain(lines: seq<string>)
    requires forall l :: l in lines ==> Without(l, '\n') && Without(l, '\0')
    ensures forall t :: t in ParseLines(lines).triples ==> PlainTriple(t)
  {
    if lines != [] && |SplitSkip(lines[0], ',')| == 3 {
      ParsedLinesArePlain(lines[1..]);
      PiecesAreFree(lines[0], ',', '\n');
      PiecesAreFree(lines[0], ',', '\0');
      var fields := SplitSkip(lines[0], ',');
      assert fields[0] in fields && fields[1] in fields && fields[2] in fields;
    }
  }

  lemma {:induction false} LinesReadUntilMalformed(lines: seq<string>)
    ensures var r := ParseLines(lines);
            var n := |r.triples|;
            && n <= |lines| && (r.ok <==> n == |lines|)
            && (forall k :: 0 <= k < n ==>
                  SplitSkip(lines[k], ',') == [r.triples[k].subj, r.triples[k].pred, r.triples[k].obj])
            && (n < |lines| ==> |SplitSkip(lines[n], ',')| != 3)
  {
    if lines != [] && |SplitSkip(lines[0], ',')| == 3 {
      LinesReadUntilMalformed(lines[1..]);
      var fields := SplitSkip(lines[0], ',');
      assert fields == [fields[0], fields[1], fields[2]];
    }
  }

  /** Reading fails exactly on a text in which some line that is not empty has not exactly three
      fields that are not; the triples read are those of the lines before the first such line. */
  lemma ReadUntilMalformed(csv: string)
    ensures var lines, r := SplitSkip(UntilNul(csv), '\n'), Parse(csv);
            && (r.ok <==> forall line :: line in lines ==> |SplitSkip(line, ',')| == 3)
            && |r.triples| <= |lines|
            && (forall k :: 0 <= k < |r.triples| ==>
                  SplitSkip(lines[k], ',') == [r.triples[k].subj, r.triples[k].pred, r.triples[k].obj])
            && (!r.ok ==> |r.triples| < |lines| && |SplitSkip(lines[|r.triples|], ',')| != 3)
  {
    LinesReadUntilMalformed(SplitSkip(UntilNul(csv), '\n'));
  }

  lemma ParsedIsPlain(csv: string)
    ensures forall t :: t in Parse(csv).triples ==> PlainTriple(t)
  {
    UntilNulIsFree(csv);
    PiecesAreFree(UntilNul(csv), '\n', '\0');
    ParsedLinesArePlain(SplitSkip(UntilNul(csv), '\n'));
  }

  ghost predicate SameEntries(a: Buckets, b: Buckets) {
    forall k :: multiset(Bucket(a, k)) == multiset(Bucket(b, k))
  }

  function Printout(h: seq<Triple>, keys: seq<string>): string {
    Lines(ShownAll(Build(h), keys))
  }

  ghost predicate RoundTripRestores(h: seq<Triple>, keys: seq<string>) {
    var parsed := Parse(Printout(h, keys));
    parsed.ok && SameEntries(Build(parsed.triples), Build(h))
  }

  lemma PlainHistoryIsReadBack(h: seq<Triple>, keys: seq<string>)
    requires Enumerates(keys, Build(h)) && forall t :: t in h ==> PlainTriple(t)
    ensures Parse(Printout(h, keys)) == Parsed(ShownAll(Build(h), keys), true)
  {
    var ts := ShownAll(Build(h), keys);
    forall t | t in ts ensures PlainTriple(t) {
      ShownCount(h, keys, t);
      assert t in multiset(h);
    }
    ParseReadsLines(ts);
    UntilNulIsFree(Lines(ts));
  }

  /** Reading a clean printout gives the triples that were added, in some other order. */
  lemma CleanTriplesAreReadBack(h: seq<Triple>, keys: seq<string>)
    requires Enumerates(keys, Build(h)) && AllClean(h)
    ensures Parse(Printout(h, keys)).ok
    ensures multiset(Parse(Printout(h, keys)).triples) == multiset(h)
  {
    PlainHistoryIsReadBack(h, keys);
    forall t ensures multiset(ShownAll(Build(h), keys))[t] == multiset(h)[t] {
      ShownCount(h, keys, t);
      assert t in h <==> t in multiset(h);
    }
  }

  lemma SameTriplesSameEntries(a: seq<Triple>, b: seq<Triple>)
    requires multiset(a) == multiset(b)
    ensures SameEntries(Build(a), Build(b))
  {
    forall k ensures multiset(Bucket(Build(a), k)) == multiset(Bucket(Build(b), k)) {
      BucketIsFiled(a, k);
      BucketIsFiled(b, k);
      forall e: Entry ensures multiset(Filed(a, k))[e] == multiset(Filed(b, k))[e] {
        FiledCount(a, k, e.0, e.1);
        FiledCount(b, k, e.0, e.1);
      }
    }
  }

  /** An entry of a rebuilt store goes back to a triple with plain fields. */
  lemma EntryComesFromTriple(h: seq<Triple>, k: string, e: Entry)
    requires e in multiset(Bucket(Build(h), k))
    ensures Triple(k, e.0, e.1) in h || (Hat(e.0) && Triple(e.1, e.0[1..], k) in h)
  {
    BucketIsFiled(h, k);
    FiledCount(h, k, e.0, e.1);
    if !(Triple(k, e.0, e.1) in h) {
      assert Triple(e.1, e.0[1..], k) in multiset(h);
    }
  }

  lemma HatTripleIsLost(h: seq<Triple>, keys: seq<string>, t: Triple)
    requires Enumerates(keys, Build(h)) && (forall u :: u in h ==> PlainTriple(u))
    requires t in h && Hat(t.pred)
    ensures !RoundTripRestores(h, keys)
  {
    PlainHistoryIsReadBack(h, keys);
    var back := ShownAll(Build(h), keys);
    ShownHasNoHat(Build(h), keys);
    var m := Mirror(t);
    assert m.pred[1..] == t.pred;
    assert Triple(m.obj, m.pred[1..], m.subj) == t;
    BucketIsFiled(h, m.subj);
    FiledCount(h, m.subj, m.pred, m.obj);
    assert (m.pred, m.obj) in multiset(Bucket(Build(h), m.subj));
    if SameEntries(Build(back), Build(h)) {
      assert (m.pred, m.obj) in multiset(Bucket(Build(back), m.subj));
      EntryComesFromTriple(back, m.subj, (m.pred, m.obj));
      assert false;
    }
  }

  lemma MirrorOfPlain(t: Triple)
    requires Hat(t.pred) && PlainTriple(Triple(t.obj, t.pred[1..], t.subj))
    ensures PlainTriple(t)
  {
    assert t.pred == ['^'] + t.pred[1..];
  }

  lemma UnplainTripleIsLost(h: seq<Triple>, keys: seq<string>, t: Triple)
    requires t in h && !PlainTriple(t)
    ensures !RoundTripRestores(h, keys)
  {
    var back := Parse(Printout(h, keys)).triples;
    ParsedIsPlain(Printout(h, keys));
    BucketIsFiled(h, t.subj);
    FiledCount(h, t.subj, t.pred, t.obj);
    assert (t.pred, t.obj) in multiset(Bucket(Build(h), t.subj));
    if SameEntries(Build(back), Build(h)) {
      assert (t.pred, t.obj) in multiset(Bucket(Build(back), t.subj));
      EntryComesFromTriple(back, t.subj, (t.pred, t.obj));
      if t !in back {
        MirrorOfPlain(t);
      }
      assert false;
    }
  }

  /** The exact condition for a printed store to be restored when it is read into an empty one,
      mirrors included and for every order of the keys: every triple has plain fields and a
      predicate that does not start with '^'. */
  lemma RoundTripIffClean(h: seq<Triple>, keys: seq<string>)
    requires Enumerates(keys, Build(h))
    ensures RoundTripRestores(h, keys) <==> AllClean(h)
  {
    if AllClean(h) {
      CleanTriplesAreReadBack(h, keys);
      SameTriplesSameEntries(Parse(Printout(h, keys)).triples, h);
    } else {
      var t :| t in h && !Clean(t);
      if u :| u in h && !PlainTriple(u) {
        UnplainTripleIsLost(h, keys, u);
      } else {
        HatTripleIsLost(h, keys, t);
      }
    }
  }

  /** A round trip lists the objects of every forward lookup in the opposite order. */
  lemma RoundTripReversesLookups(h: seq<Triple>, keys: seq<string>, s: string, p: string)
    requires Enumerates(keys, Build(h)) && AllClean(h) && !Hat(p)
    ensures var back := Parse(Printout(h, keys)).triples;
            Objects(Bucket(Build(back), s), p) == Reverse(Objects(Bucket(Build(h), s), p))
  {
    PlainHistoryIsReadBack(h, keys);
    FindIsNewestFirst(ShownAll(Build(h), keys), s, p);
    AddedOfShownAll(Build(h), keys, s, p);
  }

  /** A second round trip restores it, whatever order the keys come in each time. */
  lemma TwoRoundTripsRestoreLookups(h: seq<Triple>, keys: seq<string>, keys': seq<string>, s: string, p: string)
    requires Enumerates(keys, Build(h)) && AllClean(h) && !Hat(p)
    requires Enumerates(keys', Build(Parse(Printout(h, keys)).triples))
    ensures var back := Parse(Printout(h, keys)).triples;
            var again := Parse(Printout(back, keys')).triples;
            Objects(Bucket(Build(again), s), p) == Objects(Bucket(Build(h), s), p)
  {
    var back := Parse(Printout(h, keys)).triples;
    CleanTriplesAreReadBack(h, keys);
    assert AllClean(back) by {
      forall t | t in back ensures Clean(t) {
        assert t in multiset(back) && t in multiset(h);
      }
    }
    RoundTripReversesLookups(h, keys, s, p);
    RoundTripReversesLookups(back, keys', s, p);
    ReverseTwice(Objects(Bucket(Build(h), s), p));
  }

  // ---------- Stores that are not restored ----------

  /** A predicate that starts with '^' is taken for a mirror and lost. */
  lemma ReversePredicateIsLost(h: seq<Triple>, keys: seq<string>)
    requires Enumerates(keys, Build(h)) && h == [Triple("a", "^b", "c")]
    ensures !RoundTripRestores(h, keys)
  {
    assert h[0] in h && Hat(h[0].pred);
    RoundTripIffClean(h, keys);
  }

  /** The newer of two objects of a lookup comes first, and last after a round trip. */
  lemma LookupTurnsAround(h: seq<Triple>, keys: seq<string>, s: string, p: string, old_: string, new_: string)
    requires Enumerates(keys, Build(h)) && AllClean(h) && h == [Triple(s, p, old_), Triple(s, p, new_)]
    ensures Objects(Bucket(Build(h), s), p) == [new_, old_]
    ensures Objects(Bucket(Build(Parse(Printout(h, keys)).triples), s), p) == [old_, new_]
  {
    assert Clean(h[0]);
    FindIsNewestFirst(h, s, p);
    RoundTripReversesLookups(h, keys, s, p);
    TwoAdded(h, s, p, old_, new_);
    ReversePair(old_, new_);
    ReversePair(new_, old_);
  }

  lemma TwoAdded(h: seq<Triple>, s: string, p: string, a: string, b: string)
    requires h == [Triple(s, p, a), Triple(s, p, b)]
    ensures Added(h, s, p) == [a, b]
  {
    assert h[..1] == [h[0]] && [h[0]][..0] == [];
    assert Added([h[0]], s, p) == [a];
  }

  lemma ReversePair(a: string, b: string)
    ensures Reverse([a, b]) == [b, a]
  {
    assert [a, b][..1] == [a] && [a][..0] == [];
    assert Reverse([a]) == [a];
  }

  /** The text of a store that holds a single triple. */
  lemma PrintoutOfOne(t: Triple, keys: seq<string>)
    requires Enumerates(keys, Build([t])) && !Hat(t.pred)
    ensures Printout([t], keys) == t.subj + "," + t.pred + "," + t.obj + "\n"
  {
    var ts := ShownAll(Build([t]), keys);
    forall u ensures multiset(ts)[u] == if u == t then 1 else 0 {
      ShownCount([t], keys, u);
    }
    OnlyOne(ts, t);
    LinesOfOne(t);
  }

  lemma OnlyOne<T>(s: seq<T>, x: T)
    requires forall y :: multiset(s)[y] == if y == x then 1 else 0
    ensures s == [x]
  {
    assert multiset(s) == multiset{x};
    assert |multiset(s)| == 1;
    assert s[0] in multiset(s);
  }

  lemma LinesOfOne(t: Triple)
    ensures Lines([t]) == t.subj + "," + t.pred + "," + t.obj + "\n"
  {
    assert [t][..0] == [];
    assert Lines([t]) == "" + Line(t) + "\n";
  }
}
