/** tripletstore.cpp: a multi-hash from subjects to (predicate, object) pairs that also holds
    the mirror image of every triple under the predicate prefixed with '^'. */
module Triplets {
  import opened Text

  datatype Triple = Triple(subj: string, pred: string, obj: string)

  type Entry = (string, string)

  /** The hash, one bucket for each key, the most recently inserted entry first. */
  type Buckets = map<string, seq<Entry>>

  function Bucket(m: Buckets, k: string): seq<Entry> {
    if k in m then m[k] else []
  }

  function Insert(m: Buckets, k: string, e: Entry): Buckets {
    m[k := [e] + Bucket(m, k)]
  }

  function Add(m: Buckets, t: Triple): Buckets {
    Insert(Insert(m, t.subj, (t.pred, t.obj)), t.obj, ("^" + t.pred, t.subj))
  }

  function AddAll(m: Buckets, ts: seq<Triple>): Buckets {
    if ts == [] then m else Add(AddAll(m, ts[..|ts| - 1]), ts[|ts| - 1])
  }

  /** The hash after the given triples have been added to an empty store, oldest first. */
  function Build(h: seq<Triple>): Buckets {
    AddAll(map[], h)
  }

  lemma {:induction false} AddAllConcat(m: Buckets, a: seq<Triple>, b: seq<Triple>)
    ensures AddAll(AddAll(m, a), b) == AddAll(m, a + b)
  {
    if b == [] {
      assert a + b == a;
    } else {
      var n := |b| - 1;
      AddAllConcat(m, a, b[..n]);
      assert (a + b)[..|a + b| - 1] == a + b[..n];
    }
  }

  predicate Hat(s: string) {
    s != "" && s[0] == '^'
  }

  /** The objects of a bucket's entries with the given predicate, in iteration order. */
  function Objects(b: seq<Entry>, pred: string): seq<string> {
    if b == [] then []
    else
      var n := |b| - 1;
      Objects(b[..n], pred) + if b[n].0 == pred then [b[n].1] else []
  }

  function AllObjects(b: seq<Entry>): (objs: seq<string>)
    ensures |objs| == |b| && forall i :: 0 <= i < |b| ==> objs[i] == b[i].1
  {
    if b == [] then [] else AllObjects(b[..|b| - 1]) + [b[|b| - 1].1]
  }

  // ---------- Printing ----------

  function Line(t: Triple): string {
    t.subj + "," + t.pred + "," + t.obj
  }

  function Lines(ts: seq<Triple>): string {
    if ts == [] then "" else Lines(ts[..|ts| - 1]) + Line(ts[|ts| - 1]) + "\n"
  }

  /** The triples of a bucket that are printed: its mirrors are left out. */
  function Shown(k: string, b: seq<Entry>): seq<Triple> {
    if b == [] then []
    else
      var n := |b| - 1;
      Shown(k, b[..n]) + if Hat(b[n].0) then [] else [Triple(k, b[n].0, b[n].1)]
  }

  function ShownAll(m: Buckets, keys: seq<string>): seq<Triple> {
    if keys == [] then []
    else ShownAll(m, keys[..|keys| - 1]) + Shown(keys[|keys| - 1], Bucket(m, keys[|keys| - 1]))
  }

  /** What `uniqueKeys` may return: every key once, in any order. */
  ghost predicate Enumerates(keys: seq<string>, m: Buckets) {
    && (forall i, j :: 0 <= i < j < |keys| ==> keys[i] != keys[j])
    && (forall k :: k in keys <==> k in m)
  }

  // ---------- Parsing ----------

  /** The triples read before the first malformed line, and whether there was none. */
  datatype Parsed = Parsed(triples: seq<Triple>, ok: bool)

  function ParseLines(lines: seq<string>): Parsed {
    if lines == [] then Parsed([], true)
    else
      var fields := SplitSkip(lines[0], ',');
      if |fields| != 3 then Parsed([], false)
      else
        var rest := ParseLines(lines[1..]);
        Parsed([Triple(fields[0], fields[1], fields[2])] + rest.triples, rest.ok)
  }

  function Parse(csv: string): Parsed {
    ParseLines(SplitSkip(UntilNul(csv), '\n'))
  }

  class TripletStore {
    var triplets: Buckets
    var count: nat                 // what QMultiHash::size reports
    ghost var history: seq<Triple> // the triples added since the last clear

    ghost predicate Valid()
      reads this
    {
      triplets == Build(history) && count == 2 * |history|
    }

    constructor ()
      ensures Valid() && history == []
    {
      triplets, count, history := map[], 0, [];
    }

    method Clear()
      modifies this
      ensures Valid() && history == []
    {
      triplets, count, history := map[], 0, [];
    }

    method AddTriplet(subj: string, pred: string, obj: string)
      requires Valid()
      modifies this
      ensures Valid() && history == old(history) + [Triple(subj, pred, obj)]
    {
      var rpred := "^" + pred;
      triplets := Insert(triplets, subj, (pred, obj));
      triplets := Insert(triplets, obj, (rpred, subj));
      count := count + 2;
      history := history + [Triple(subj, pred, obj)];
      assert history[..|history| - 1] == old(history);
    }

    /** `keys` is the order in which the hash enumerates its keys. */
    method ToCSV(keys: seq<string>) returns (csv: string)
      requires Valid() && Enumerates(keys, triplets)
      ensures csv == Lines(ShownAll(triplets, keys))
    {
      csv := "";
      var i := 0;
      while i < |keys|
        invariant i <= |keys| && csv == Lines(ShownAll(triplets, keys[..i]))
      {
        var bucket := Bucket(triplets, keys[i]);
        var j := 0;
        PrintingKey(triplets, keys, i);
        while j < |bucket|
          invariant j <= |bucket| && csv == Printed(triplets, keys, i, j)
        {
          PrintedOneMore(triplets, keys, i, j);
          if !Hat(bucket[j].0) {
            csv := csv + Line(Triple(keys[i], bucket[j].0, bucket[j].1)) + "\n";
          }
          j := j + 1;
        }
        i := i + 1;
      }
      assert keys[..i] == keys;
    }

    /** Throws on a malformed line; what was read before it stays added. */
    method FromCSV(csv: string) returns (ok: bool)
      requires Valid()
      modifies this
      ensures Valid() && history == old(history) + Parse(csv).triples && ok == Parse(csv).ok
    {
      var c := UntilNul(csv);
      var relations := SplitSkip(c, '\n');
      var i := 0;
      while i < |relations|
        invariant Valid() && i <= |relations|
        invariant old(history) + ParseLines(relations).triples == history + ParseLines(relations[i..]).triples
        invariant ParseLines(relations).ok == ParseLines(relations[i..]).ok
      {
        var triplet := SplitSkip(relations[i], ',');
        if |triplet| != 3 {
          return false;
        }
        ParsedOneMore(relations, i, triplet, history);
        AddTriplet(triplet[0], triplet[1], triplet[2]);
        i := i + 1;
      }
      return true;
    }

    /** An empty predicate finds everything if its conversion makes a null string. */
    method FindTriplets(subj: string, pred: string, emptyIsNull: bool) returns (objs: seq<string>)
      requires Valid()
      ensures objs == if pred == "" && emptyIsNull then AllObjects(Bucket(triplets, subj))
                      else Objects(Bucket(triplets, subj), pred)
    {
      var bucket := Bucket(triplets, subj);
      var isNull := pred == "" && emptyIsNull;
      objs := [];
      var i := 0;
      while i < |bucket|
        invariant i <= |bucket|
        invariant objs == if isNull then AllObjects(bucket[..i]) else Objects(bucket[..i], pred)
      {
        assert bucket[..i + 1][..i] == bucket[..i];
        if isNull || pred == bucket[i].0 {
          objs := objs + [bucket[i].1];
        }
        i := i + 1;
      }
      assert bucket[..i] == bucket;
    }

    method AllTriplets(keys: seq<string>) returns (ts: seq<Triple>)
      requires Valid() && Enumerates(keys, triplets)
      ensures ts == AllEntries(triplets, keys)
    {
      ts := [];
      var i := 0;
      while i < |keys|
        invariant i <= |keys| && ts == AllEntries(triplets, keys[..i])
      {
        ts := ts + EntriesOf(keys[i], Bucket(triplets, keys[i]));
        assert keys[..i + 1][..i] == keys[..i];
        i := i + 1;
      }
      assert keys[..i] == keys;
    }

    method Size() returns (n: nat)
      requires Valid()
      ensures n == 2 * |history|
    {
      n := count;
    }
  }

  function EntriesOf(k: string, b: seq<Entry>): (ts: seq<Triple>)
    ensures |ts| == |b| && forall i :: 0 <= i < |b| ==> ts[i] == Triple(k, b[i].0, b[i].1)
  {
    seq(|b|, i requires 0 <= i < |b| => Triple(k, b[i].0, b[i].1))
  }

  function AllEntries(m: Buckets, keys: seq<string>): seq<Triple> {
    if keys == [] then []
    else AllEntries(m, keys[..|keys| - 1]) + EntriesOf(keys[|keys| - 1], Bucket(m, keys[|keys| - 1]))
  }

  /** The output once `j` entries of the bucket at key number `i` have been seen. */
  ghost function Printed(m: Buckets, keys: seq<string>, i: nat, j: nat): string
    requires i < |keys| && j <= |Bucket(m, keys[i])|
  {
    Lines(ShownAll(m, keys[..i]) + Shown(keys[i], Bucket(m, keys[i])[..j]))
  }

  lemma PrintingKey(m: Buckets, keys: seq<string>, i: nat)
    requires i < |keys|
    ensures Printed(m, keys, i, 0) == Lines(ShownAll(m, keys[..i]))
    ensures Printed(m, keys, i, |Bucket(m, keys[i])|) == Lines(ShownAll(m, keys[..i + 1]))
  {
    assert ShownAll(m, keys[..i]) + Shown(keys[i], Bucket(m, keys[i])[..0]) == ShownAll(m, keys[..i]);
    assert Bucket(m, keys[i])[..|Bucket(m, keys[i])|] == Bucket(m, keys[i]);
    assert keys[..i + 1][..i] == keys[..i];
  }

  lemma PrintedOneMore(m: Buckets, keys: seq<string>, i: nat, j: nat)
    requires i < |keys| && j < |Bucket(m, keys[i])|
    ensures var e := Bucket(m, keys[i])[j];
            Printed(m, keys, i, j + 1)
            == if Hat(e.0) then Printed(m, keys, i, j)
               else Printed(m, keys, i, j) + Line(Triple(keys[i], e.0, e.1)) + "\n"
  {
    var bucket := Bucket(m, keys[i]);
    var before := ShownAll(m, keys[..i]) + Shown(keys[i], bucket[..j]);
    var after := ShownAll(m, keys[..i]) + Shown(keys[i], bucket[..j + 1]);
    assert bucket[..j + 1][..j] == bucket[..j];
    if Hat(bucket[j].0) {
      assert after == before;
    } else {
      assert after == before + [Triple(keys[i], bucket[j].0, bucket[j].1)];
      assert after[..|before|] == before;
    }
  }

  lemma ParsedOneMore(lines: seq<string>, i: nat, fields: seq<string>, done: seq<Triple>)
    requires i < |lines| && fields == SplitSkip(lines[i], ',') && |fields| == 3
    ensures ParseLines(lines[i..]).ok == ParseLines(lines[i + 1..]).ok
    ensures done + ParseLines(lines[i..]).triples
         == done + [Triple(fields[0], fields[1], fields[2])] + ParseLines(lines[i + 1..]).triples
  {
    assert lines[i..][1..] == lines[i + 1..];
  }
}
