/** vasp_outcar.py: `read_composition`, which sorts two parallel lists and moves H and C to the front. */
module Composition {
  import opened Numerals
  import opened Sequences
  import opened Wrappers

  /** A kind of atom with the number of atoms of it, as text. */
  datatype Part = Part(kind: string, number: string)

  /** The order of strings. */
  predicate Le(a: string, b: string) {
    a == "" || (b != "" && (a[0] < b[0] || (a[0] == b[0] && Le(a[1..], b[1..]))))
  }

  predicate Within(index: seq<nat>, n: nat) {
    forall k :: 0 <= k < |index| ==> index[k] < n
  }

  /** list.sort of `index` by a key: stable. */
  function SortBy(keys: seq<string>, index: seq<nat>): (sorted: seq<nat>)
    requires Within(index, |keys|)
    ensures |sorted| == |index| && Within(sorted, |keys|)
  {
    if index == [] then [] else InsertBy(keys, index[0], SortBy(keys, index[1..]))
  }

  function InsertBy(keys: seq<string>, x: nat, index: seq<nat>): (more: seq<nat>)
    requires x < |keys| && Within(index, |keys|)
    ensures |more| == |index| + 1 && Within(more, |keys|)
  {
    if index == [] || Le(keys[x], keys[index[0]]) then [x] + index
    else [index[0]] + InsertBy(keys, x, index[1..])
  }

  /** [s[i] for i in index] */
  function Gather<T>(s: seq<T>, index: seq<nat>): (g: seq<T>)
    requires Within(index, |s|)
    ensures |g| == |index| && forall k :: 0 <= k < |index| ==> g[k] == s[index[k]]
  {
    if index == [] then [] else [s[index[0]]] + Gather(s, index[1..])
  }

  function UpTo(n: nat): (index: seq<nat>)
    ensures |index| == n && forall k :: 0 <= k < n ==> index[k] == k
  {
    if n == 0 then [] else UpTo(n - 1) + [n - 1]
  }

  /** insert(0, pop(i)) */
  function ToFront<T>(s: seq<T>, i: nat): seq<T>
    requires i < |s|
  {
    [s[i]] + (s[..i] + s[i + 1..])
  }

  function Kinds(parts: seq<Part>): (kinds: seq<string>)
    ensures |kinds| == |parts| && forall i :: 0 <= i < |parts| ==> kinds[i] == parts[i].kind
  {
    if parts == [] then [] else [parts[0].kind] + Kinds(parts[1..])
  }

  function Zip(species: seq<string>, numbers: seq<string>): (parts: seq<Part>)
    requires |species| == |numbers|
    ensures |parts| == |species| && forall i :: 0 <= i < |parts| ==> parts[i] == Part(species[i], numbers[i])
  {
    if species == [] then [] else [Part(species[0], numbers[0])] + Zip(species[1..], numbers[1..])
  }

  function Sorted(parts: seq<Part>): (sorted: seq<Part>) {
    Gather(parts, SortBy(Kinds(parts), UpTo(|parts|)))
  }

  function Front(x: string, parts: seq<Part>): seq<Part> {
    if x in Kinds(parts) then ToFront(parts, IndexOf(Kinds(parts), x)) else parts
  }

  function Ordered(parts: seq<Part>): seq<Part> {
    Front("C", Front("H", Sorted(parts)))
  }

  /** The atoms that are not of the surface. */
  function Kept(a: seq<string>, n: seq<nat>, surface: seq<string>): seq<Part>
    requires |a| == |n|
  {
    if a == [] then []
    else
      var k := |a| - 1;
      Kept(a[..k], n[..k], surface) + if a[k] in surface then [] else [Part(a[k], Decimal(n[k]))]
  }

  function Formula(parts: seq<Part>, name: bool): string {
    if parts == [] then ""
    else
      var p := parts[|parts| - 1];
      Formula(parts[..|parts| - 1], name) + p.kind + if name && !Several(p.number) then "" else p.number
  }

  /** int(n) > 1 */
  predicate Several(number: string) {
    AllDigits(number) && Value(number) > 1
  }

  /** What is read; nothing if an ordered composition is asked for and some atoms were removed. */
  function Reading(a: seq<string>, n: seq<nat>, ordered: bool, surface: seq<string>, name: bool): Option<string>
    requires |a| == |n|
  {
    var kept := Kept(a, n, surface);
    if !ordered then Some(Formula(kept, name))
    else if |kept| < |a| then None
    else Some(Formula(Ordered(kept), name))
  }

  /** `surface` is empty unless surface atoms are to be removed. Sorting takes the index of every
      atom, so that it fails on a list from which some were removed. */
  method ReadComposition(a: seq<string>, n: seq<nat>, ordered: bool, surface: seq<string>, name: bool)
    returns (composition: Option<string>)
    requires |a| == |n|
    ensures composition == Reading(a, n, ordered, surface, name)
    ensures composition.None? <==> ordered && exists i :: 0 <= i < |a| && a[i] in surface
  {
    var index := UpTo(|a|);
    var species, numbers := WithoutSurface(a, n, surface);
    if ordered {
      var ok;
      ok, species, numbers := Order(index, species, numbers);
      if !ok {
        return None;
      }
    }
    var text := Write(species, numbers, name);
    return Some(text);
  }

  /** Fails when there is an index without a species to look up. */
  method Order(index: seq<nat>, species: seq<string>, numbers: seq<string>)
    returns (ok: bool, species': seq<string>, numbers': seq<string>)
    requires |species| == |numbers| <= |index| && index == UpTo(|index|)
    ensures |species'| == |numbers'| && (ok <==> |species| == |index|)
    ensures ok ==> Zip(species', numbers') == Ordered(Zip(species, numbers))
  {
    if |species| < |index| {
      return false, [], [];
    }
    var sorted := SortBy(species, index);
    KindsOfZip(species, numbers);
    GatherZip(species, numbers, sorted);
    species', numbers' := Gather(species, sorted), Gather(numbers, sorted);
    assert Zip(species', numbers') == Sorted(Zip(species, numbers));
    species', numbers' := MoveToFront("H", species', numbers');
    species', numbers' := MoveToFront("C", species', numbers');
    ok := true;
  }

  lemma KeptSnoc(a: seq<string>, n: seq<nat>, surface: seq<string>, i: nat)
    requires |a| == |n| && i < |a|
    ensures Kept(a[..i + 1], n[..i + 1], surface)
         == Kept(a[..i], n[..i], surface) + if a[i] in surface then [] else [Part(a[i], Decimal(n[i]))]
  {
    assert a[..i + 1][..i] == a[..i] && n[..i + 1][..i] == n[..i];
  }

  method WithoutSurface(a: seq<string>, n: seq<nat>, surface: seq<string>)
    returns (species: seq<string>, numbers: seq<string>)
    requires |a| == |n|
    ensures |species| == |numbers| <= |a| && Zip(species, numbers) == Kept(a, n, surface)
    ensures |species| < |a| <==> exists i :: 0 <= i < |a| && a[i] in surface
  {
    species, numbers := [], [];
    for i := 0 to |a|
      invariant |species| == |numbers| <= i && Zip(species, numbers) == Kept(a[..i], n[..i], surface)
      invariant |species| < i <==> exists j :: 0 <= j < i && a[j] in surface
    {
      KeptSnoc(a, n, surface, i);
      if a[i] !in surface {
        ZipAppend(species, numbers, a[i], Decimal(n[i]));
        species := species + [a[i]];
        numbers := numbers + [Decimal(n[i])];
      }
    }
    assert a[..|a|] == a && n[..|n|] == n;
  }

  method Write(species: seq<string>, numbers: seq<string>, name: bool) returns (text: string)
    requires |species| == |numbers|
    ensures text == Formula(Zip(species, numbers), name)
  {
    text := "";
    ghost var parts := Zip(species, numbers);
    for i := 0 to |species|
      invariant text == Formula(parts[..i], name)
    {
      assert parts[..i + 1][..i] == parts[..i];
      text := text + species[i];
      if !name || Several(numbers[i]) {
        text := text + numbers[i];
      }
    }
    assert parts[..|species|] == parts;
  }

  method MoveToFront(x: string, species: seq<string>, numbers: seq<string>)
    returns (species': seq<string>, numbers': seq<string>)
    requires |species| == |numbers|
    ensures |species'| == |numbers'| && Zip(species', numbers') == Front(x, Zip(species, numbers))
  {
    species', numbers' := species, numbers;
    KindsOfZip(species, numbers);
    if x in species {
      var i := IndexOf(species, x);
      species', numbers' := ToFront(species, i), ToFront(numbers, i);
      FrontOfZip(species, numbers, i);
    }
  }

  /** Where the items of a list are after one is moved to the front. */
  lemma FrontShifts<T>(s: seq<T>, i: nat)
    requires i < |s|
    ensures |ToFront(s, i)| == |s| && ToFront(s, i)[0] == s[i]
    ensures forall k :: 0 < k < |s| ==> ToFront(s, i)[k] == s[if k <= i then k - 1 else k]
  {
  }

  lemma FrontOfZip(species: seq<string>, numbers: seq<string>, i: nat)
    requires |species| == |numbers| && i < |species|
    ensures Zip(ToFront(species, i), ToFront(numbers, i)) == ToFront(Zip(species, numbers), i)
  {
    FrontShifts(species, i);
    FrontShifts(numbers, i);
    FrontShifts(Zip(species, numbers), i);
    var moved, front := Zip(ToFront(species, i), ToFront(numbers, i)), ToFront(Zip(species, numbers), i);
    assert |moved| == |front| && forall k :: 0 <= k < |moved| ==> moved[k] == front[k];
  }

  lemma ZipAppend(species: seq<string>, numbers: seq<string>, s: string, n: string)
    requires |species| == |numbers|
    ensures Zip(species + [s], numbers + [n]) == Zip(species, numbers) + [Part(s, n)]
  {
  }

  lemma KindsOfZip(species: seq<string>, numbers: seq<string>)
    requires |species| == |numbers|
    ensures Kinds(Zip(species, numbers)) == species
  {
  }

  lemma GatherZip(species: seq<string>, numbers: seq<string>, index: seq<nat>)
    requires |species| == |numbers| && Within(index, |species|)
    ensures Zip(Gather(species, index), Gather(numbers, index)) == Gather(Zip(species, numbers), index)
  {
  }

  // ---------- Nothing is lost, and the order is C, H, then alphabetical ----------

  lemma {:induction false} LeIsTotal(a: string, b: string)
    ensures Le(a, b) || Le(b, a)
  {
    if a != "" && b != "" {
      LeIsTotal(a[1..], b[1..]);
    }
  }

  lemma {:induction false} LeIsTransitive(a: string, b: string, c: string)
    requires Le(a, b) && Le(b, c)
    ensures Le(a, c)
  {
    if a != "" && a[0] == b[0] == c[0] {
      LeIsTransitive(a[1..], b[1..], c[1..]);
    }
  }

  /** Alphabetical order: a prefix comes first, and otherwise the string with the smaller character
      where the two first differ. */
  ghost predicate Alphabetical(a: string, b: string) {
    a <= b || exists k: nat :: SmallerAt(a, b, k)
  }

  /** The strings first differ at `k`, where `a` has the smaller character. */
  ghost predicate SmallerAt(a: string, b: string, k: nat) {
    k < |a| && k < |b| && a[k] < b[k] && forall j :: 0 <= j < k ==> a[j] == b[j]
  }

  lemma {:induction false} LeIffAlphabetical(a: string, b: string)
    ensures Le(a, b) <==> Alphabetical(a, b)
  {
    if a == "" || b == "" {
      assert a == "" ==> a <= b;
      assert forall k: nat :: !SmallerAt(a, b, k);
    } else if a[0] != b[0] {
      FirstDecides(a, b);
    } else {
      LeIffAlphabetical(a[1..], b[1..]);
      RestDecides(a, b);
    }
  }

  lemma FirstDecides(a: string, b: string)
    requires a != "" && b != "" && a[0] != b[0]
    ensures Alphabetical(a, b) <==> a[0] < b[0]
  {
    assert a[0] < b[0] ==> SmallerAt(a, b, 0);
    assert forall k: nat :: SmallerAt(a, b, k) ==> k == 0;
  }

  lemma RestDecides(a: string, b: string)
    requires a != "" && b != "" && a[0] == b[0]
    ensures Alphabetical(a, b) <==> Alphabetical(a[1..], b[1..])
  {
    var a', b' := a[1..], b[1..];
    assert a == [a[0]] + a' && b == [a[0]] + b';
    if a' <= b' {
      assert a == [a[0]] + b'[..|a'|] == b[..|a|];
    }
    if k: nat :| SmallerAt(a, b, k) {
      assert SmallerAt(a', b', k - 1);
    }
    if k: nat :| SmallerAt(a', b', k) {
      assert SmallerAt(a, b, k + 1);
    }
    if a <= b {
      assert a' == b'[..|a'|];
    }
  }

  /** No key along `index` comes before `low`. */
  predicate From(keys: seq<string>, low: string, index: seq<nat>)
    requires Within(index, |keys|)
  {
    index == [] || (Le(low, keys[index[0]]) && From(keys, low, index[1..]))
  }

  predicate InOrder(keys: seq<string>, index: seq<nat>)
    requires Within(index, |keys|)
  {
    index == [] || (From(keys, keys[index[0]], index[1..]) && InOrder(keys, index[1..]))
  }

  lemma {:induction false} FromLower(keys: seq<string>, low: string, lower: string, index: seq<nat>)
    requires Within(index, |keys|) && Le(lower, low) && From(keys, low, index)
    ensures From(keys, lower, index)
  {
    if index == [] {
    } else {
      LeIsTransitive(lower, low, keys[index[0]]);
      FromLower(keys, low, lower, index[1..]);
    }
  }

  lemma {:induction false} InsertKeepsFrom(keys: seq<string>, x: nat, index: seq<nat>, low: string)
    requires x < |keys| && Within(index, |keys|) && Le(low, keys[x]) && From(keys, low, index)
    ensures From(keys, low, InsertBy(keys, x, index))
  {
    if index == [] || Le(keys[x], keys[index[0]]) {
      assert ([x] + index)[1..] == index;
    } else {
      InsertKeepsFrom(keys, x, index[1..], low);
      var rest := InsertBy(keys, x, index[1..]);
      assert ([index[0]] + rest)[1..] == rest;
    }
  }

  lemma {:induction false} InsertKeepsOrder(keys: seq<string>, x: nat, index: seq<nat>)
    requires x < |keys| && Within(index, |keys|) && InOrder(keys, index)
    ensures InOrder(keys, InsertBy(keys, x, index))
  {
    if index == [] || Le(keys[x], keys[index[0]]) {
      assert ([x] + index)[1..] == index;
      if index != [] {
        FromLower(keys, keys[index[0]], keys[x], index[1..]);
      }
    } else {
      LeIsTotal(keys[x], keys[index[0]]);
      InsertKeepsOrder(keys, x, index[1..]);
      InsertKeepsFrom(keys, x, index[1..], keys[index[0]]);
      var rest := InsertBy(keys, x, index[1..]);
      assert ([index[0]] + rest)[1..] == rest;
    }
  }

  lemma {:induction false} SortsInOrder(keys: seq<string>, index: seq<nat>)
    requires Within(index, |keys|)
    ensures InOrder(keys, SortBy(keys, index))
  {
    if index == [] {
    } else {
      SortsInOrder(keys, index[1..]);
      InsertKeepsOrder(keys, index[0], SortBy(keys, index[1..]));
    }
  }

  lemma {:induction false} FromAt(keys: seq<string>, low: string, index: seq<nat>, k: nat)
    requires Within(index, |keys|) && From(keys, low, index) && k < |index|
    ensures Le(low, keys[index[k]])
  {
    if k == 0 {
    } else {
      FromAt(keys, low, index[1..], k - 1);
    }
  }

  lemma {:induction false} InOrderAt(keys: seq<string>, index: seq<nat>, j: nat, k: nat)
    requires Within(index, |keys|) && InOrder(keys, index) && j < k < |index|
    ensures Le(keys[index[j]], keys[index[k]])
  {
    if j > 0 {
      InOrderAt(keys, index[1..], j - 1, k - 1);
    } else {
      FromAt(keys, keys[index[0]], index[1..], k - 1);
    }
  }

  lemma {:induction false} InsertGathers(parts: seq<Part>, keys: seq<string>, x: nat, index: seq<nat>)
    requires |keys| == |parts| && x < |keys| && Within(index, |keys|)
    ensures multiset(Gather(parts, InsertBy(keys, x, index))) == multiset{parts[x]} + multiset(Gather(parts, index))
  {
    if index != [] && !Le(keys[x], keys[index[0]]) {
      InsertGathers(parts, keys, x, index[1..]);
    }
  }

  lemma {:induction false} SortGathers(parts: seq<Part>, keys: seq<string>, index: seq<nat>)
    requires |keys| == |parts| && Within(index, |keys|)
    ensures multiset(Gather(parts, SortBy(keys, index))) == multiset(Gather(parts, index))
  {
    if index == [] {
    } else {
      SortGathers(parts, keys, index[1..]);
      InsertGathers(parts, keys, index[0], SortBy(keys, index[1..]));
    }
  }

  /** The order `le` with `x` put first. */
  function First(x: string, le: (string, string) -> bool): (string, string) -> bool {
    (a, b) => a == x || (b != x && le(a, b))
  }

  ghost predicate SortedBy(le: (string, string) -> bool, parts: seq<Part>) {
    forall j, k :: 0 <= j < k < |parts| ==> le(parts[j].kind, parts[k].kind)
  }

  /** No two parts, and no part twice, of one kind. */
  ghost predicate AtMostOnce(x: string, parts: multiset<Part>) {
    forall p, q :: p in parts && q in parts && p.kind == x && q.kind == x ==> p == q && parts[p] == 1
  }

  lemma AtMostOnePosition(x: string, parts: seq<Part>, j: nat, k: nat)
    requires AtMostOnce(x, multiset(parts)) && j < k < |parts| && parts[j].kind == x
    ensures parts[k].kind != x
  {
    assert parts[j] in multiset(parts) && parts[k] in multiset(parts);
    var front, back := parts[..k], parts[k..];
    assert parts == front + back;
    assert front[j] == parts[j] && back[0] == parts[k];
    assert parts[j] in multiset(front) && parts[k] in multiset(back);
  }

  lemma FrontPermutes(x: string, parts: seq<Part>)
    ensures multiset(Front(x, parts)) == multiset(parts)
  {
    if x in Kinds(parts) {
      var i := IndexOf(Kinds(parts), x);
      assert parts == parts[..i] + ([parts[i]] + parts[i + 1..]);
    }
  }

  lemma OthersDiffer(x: string, parts: seq<Part>)
    requires x in Kinds(parts) && AtMostOnce(x, multiset(parts))
    ensures var i := IndexOf(Kinds(parts), x);
            forall k :: 0 <= k < |parts| && k != i ==> parts[k].kind != x
  {
    var i := IndexOf(Kinds(parts), x);
    forall k | 0 <= k < |parts| && k != i ensures parts[k].kind != x {
      if k < i {
        assert Kinds(parts)[k] == parts[k].kind;
      } else {
        AtMostOnePosition(x, parts, i, k);
      }
    }
  }

  lemma FrontSorts(x: string, le: (string, string) -> bool, parts: seq<Part>)
    requires SortedBy(le, parts) && AtMostOnce(x, multiset(parts))
    ensures SortedBy(First(x, le), Front(x, parts))
  {
    if x in Kinds(parts) {
      var i := IndexOf(Kinds(parts), x);
      OthersDiffer(x, parts);
      MovedIsSorted(x, le, parts, i);
    } else {
      forall k | 0 <= k < |parts| ensures parts[k].kind != x {
        assert Kinds(parts)[k] == parts[k].kind;
      }
    }
  }

  lemma MovedIsSorted(x: string, le: (string, string) -> bool, parts: seq<Part>, i: nat)
    requires SortedBy(le, parts) && i < |parts| && parts[i].kind == x
    requires forall k :: 0 <= k < |parts| && k != i ==> parts[k].kind != x
    ensures SortedBy(First(x, le), ToFront(parts, i))
  {
    FrontShifts(parts, i);
  }

  lemma SortIsSorted(parts: seq<Part>)
    ensures SortedBy(Le, Sorted(parts))
  {
    var keys := Kinds(parts);
    var index := SortBy(keys, UpTo(|parts|));
    SortsInOrder(keys, UpTo(|parts|));
    forall j: nat, k: nat | j < k < |parts|
      ensures Le(Sorted(parts)[j].kind, Sorted(parts)[k].kind)
    {
      InOrderAt(keys, index, j, k);
    }
  }

  lemma SortPermutes(parts: seq<Part>)
    ensures multiset(Sorted(parts)) == multiset(parts)
  {
    SortGathers(parts, Kinds(parts), UpTo(|parts|));
    assert Gather(parts, UpTo(|parts|)) == parts;
  }

  /** C comes before all others, H before all others but C, and the rest is in alphabetical order. */
  ghost predicate HillBefore(a: string, b: string) {
    a == "C" || (b != "C" && (a == "H" || (b != "H" && Alphabetical(a, b))))
  }

  /** Ordering only permutes the parts, and leaves C first, then H, then the others in
      alphabetical order, unless C or H occur more than once. */
  lemma OrderedIsHillOrder(parts: seq<Part>)
    ensures multiset(Ordered(parts)) == multiset(parts)
    ensures AtMostOnce("C", multiset(parts)) && AtMostOnce("H", multiset(parts))
            ==> var out := Ordered(parts);
                forall j, k :: 0 <= j < k < |out| ==> HillBefore(out[j].kind, out[k].kind)
  {
    var sorted := Sorted(parts);
    var h := Front("H", sorted);
    SortIsSorted(parts);
    SortPermutes(parts);
    FrontPermutes("H", sorted);
    FrontPermutes("C", h);
    if AtMostOnce("C", multiset(parts)) && AtMostOnce("H", multiset(parts)) {
      FrontSorts("H", Le, sorted);
      FrontSorts("C", First("H", Le), h);
      forall j, k | 0 <= j < k < |Ordered(parts)|
        ensures HillBefore(Ordered(parts)[j].kind, Ordered(parts)[k].kind)
      {
        LeIffAlphabetical(Ordered(parts)[j].kind, Ordered(parts)[k].kind);
      }
    }
  }

  // ---------- Parts of one kind keep their order ----------

  function OfKind(x: string, parts: seq<Part>): seq<Part> {
    if parts == [] then [] else (if parts[0].kind == x then [parts[0]] else []) + OfKind(x, parts[1..])
  }

  lemma OfKindCons(x: string, part: Part, parts: seq<Part>)
    ensures OfKind(x, [part] + parts) == (if part.kind == x then [part] else []) + OfKind(x, parts)
  {
    assert ([part] + parts)[1..] == parts;
  }

  lemma Associate(a: seq<Part>, b: seq<Part>, c: seq<Part>)
    ensures a + (b + c) == (a + b) + c
  {
  }

  lemma {:induction false} OfKindConcat(x: string, a: seq<Part>, b: seq<Part>)
    ensures OfKind(x, a + b) == OfKind(x, a) + OfKind(x, b)
  {
    if a == [] {
      assert a + b == b;
    } else {
      OfKindConcat(x, a[1..], b);
      OfKindCons(x, a[0], a[1..] + b);
      Associate([a[0]], a[1..], b);
      assert [a[0]] + a[1..] == a;
      Associate(OfKind(x, [a[0]]), OfKind(x, a[1..]), OfKind(x, b));
      OfKindCons(x, a[0], []);
    }
  }

  lemma {:induction false} NoneOfKind(x: string, parts: seq<Part>)
    requires forall p :: p in parts ==> p.kind != x
    ensures OfKind(x, parts) == []
  {
    if parts == [] {
    } else {
      NoneOfKind(x, parts[1..]);
    }
  }

  /** Moving a part to the front, over parts of other kinds, does not change the order of a kind. */
  lemma MoveIsStable(x: string, before: seq<Part>, part: Part, after: seq<Part>)
    requires forall p :: p in before ==> p.kind != part.kind
    ensures OfKind(x, [part] + (before + after)) == OfKind(x, before + ([part] + after))
  {
    OfKindCons(x, part, before + after);
    OfKindCons(x, part, after);
    OfKindConcat(x, before, after);
    OfKindConcat(x, before, [part] + after);
    if x == part.kind {
      NoneOfKind(x, before);
    }
  }

  /** An index is put before those of its own kind, whatever it is put after. */
  lemma {:induction false} InsertIsStable(x: string, parts: seq<Part>, i: nat, index: seq<nat>)
    requires i < |parts| && Within(index, |parts|)
    ensures OfKind(x, Gather(parts, InsertBy(Kinds(parts), i, index)))
         == OfKind(x, [parts[i]] + Gather(parts, index))
  {
    var keys := Kinds(parts);
    if index == [] || Le(keys[i], keys[index[0]]) {
      assert Gather(parts, [i] + index) == [parts[i]] + Gather(parts, index);
    } else {
      var first, rest := parts[index[0]], Gather(parts, index[1..]);
      InsertIsStable(x, parts, i, index[1..]);
      LeIsTotal(keys[i], keys[i]);
      OfKindCons(x, first, Gather(parts, InsertBy(keys, i, index[1..])));
      OfKindCons(x, first, [parts[i]] + rest);
      MoveIsStable(x, [first], parts[i], rest);
      assert [first] + rest == Gather(parts, index);
    }
  }

  lemma {:induction false} SortIsStable(x: string, parts: seq<Part>, index: seq<nat>)
    requires Within(index, |parts|)
    ensures OfKind(x, Gather(parts, SortBy(Kinds(parts), index))) == OfKind(x, Gather(parts, index))
  {
    if index == [] {
    } else {
      var sorted := SortBy(Kinds(parts), index[1..]);
      SortIsStable(x, parts, index[1..]);
      InsertIsStable(x, parts, index[0], sorted);
      OfKindCons(x, parts[index[0]], Gather(parts, sorted));
      OfKindCons(x, parts[index[0]], Gather(parts, index[1..]));
    }
  }

  lemma FrontIsStable(x: string, kind: string, parts: seq<Part>)
    ensures OfKind(x, Front(kind, parts)) == OfKind(x, parts)
  {
    if kind in Kinds(parts) {
      var i := IndexOf(Kinds(parts), kind);
      MoveIsStable(x, parts[..i], parts[i], parts[i + 1..]);
      assert parts == parts[..i] + ([parts[i]] + parts[i + 1..]);
    }
  }

  /** Parts of one kind stay in the order they had. */
  lemma OrderedIsStable(x: string, parts: seq<Part>)
    ensures OfKind(x, Ordered(parts)) == OfKind(x, parts)
  {
    SortIsStable(x, parts, UpTo(|parts|));
    assert Gather(parts, UpTo(|parts|)) == parts;
    FrontIsStable(x, "H", Sorted(parts));
    FrontIsStable(x, "C", Front("H", Sorted(parts)));
  }

  // ---------- The formula ----------

  /** A part is written with its number, but for numbers below 2 if names are asked for. */
  lemma FormulaSnoc(parts: seq<Part>, kind: string, n: nat, name: bool)
    ensures Formula(parts + [Part(kind, Decimal(n))], name)
         == Formula(parts, name) + kind + if name && n < 2 then "" else Decimal(n)
  {
    ValueOfDecimal(n);
    assert (parts + [Part(kind, Decimal(n))])[..|parts|] == parts;
  }

  lemma FormulaOfOne(part: Part)
    ensures Formula([part], false) == part.kind + part.number
  {
    assert [part][..0] == [];
    assert Formula([part], false) == ("" + part.kind) + part.number;
  }

  lemma KeptOfTwo(a: seq<string>, n: seq<nat>, surface: seq<string>)
    requires |a| == |n| == 2 && a[0] in surface && a[1] !in surface
    ensures Kept(a, n, surface) == [Part(a[1], Decimal(n[1]))]
  {
    assert a[..1][..0] == [] && n[..1][..0] == [];
    assert Kept(a[..1], n[..1], surface) == [];
  }

  /** One surface atom and one that is not, such as iron and hydrogen: the composition can be read
      as it stands, but not in order. */
  lemma AdsorbateIsNotReadInOrder(a: seq<string>, n: seq<nat>, surface: seq<string>)
    requires |a| == |n| == 2 && a[0] in surface && a[1] !in surface
    ensures Reading(a, n, false, surface, false) == Some(a[1] + Decimal(n[1]))
    ensures Reading(a, n, true, surface, false) == None
  {
    KeptOfTwo(a, n, surface);
    FormulaOfOne(Part(a[1], Decimal(n[1])));
  }
}
