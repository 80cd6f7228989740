/** The array copiers of softc-datamodel.cpp, which read and build pointer tables. A row made by
    `new T[]` is modelled as a data area whose counter is never used. */
module SoftcDatamodel {
  import opened Dimensions
  import opened Sequences
  import opened SoftcHeap
  import opened SoftcTables
  import opened SoftcMemory
  import opened SoftcOwnership
  import opened SoftcRuns

  // ---------- Reading through a table ----------

  predicate Readable1(h: Heap, p: Ptr, i: nat) {
    p.At? && IsArea(h, p.base) && p.off + i <= |h[p.base].elems|
  }

  predicate Readable2(h: Heap, p: Ptr, i: nat, j: nat) {
    && IsTable(h, p) && j <= |h[p.base].slots|
    && forall k :: 0 <= k < j ==> Readable1(h, h[p.base].slots[k], i)
  }

  predicate Readable3(h: Heap, p: Ptr, i: nat, j: nat, k: nat) {
    && IsTable(h, p) && k <= |h[p.base].slots|
    && forall l :: 0 <= l < k ==> Readable2(h, h[p.base].slots[l], i, j)
  }

  function Read1(h: Heap, p: Ptr, i: nat): (row: seq<Value>)
    requires Readable1(h, p, i)
    ensures |row| == i
  {
    h[p.base].elems[p.off..p.off + i]
  }

  function Read2(h: Heap, p: Ptr, i: nat, j: nat): (rows: seq<seq<Value>>)
    requires Readable2(h, p, i, j)
    ensures |rows| == j && forall k :: 0 <= k < j ==> rows[k] == Read1(h, h[p.base].slots[k], i)
  {
    seq(j, k requires 0 <= k < j => Read1(h, h[p.base].slots[k], i))
  }

  function Read3(h: Heap, p: Ptr, i: nat, j: nat, k: nat): (planes: seq<seq<seq<Value>>>)
    requires Readable3(h, p, i, j, k)
    ensures |planes| == k && forall l :: 0 <= l < k ==> planes[l] == Read2(h, h[p.base].slots[l], i, j)
  {
    seq(k, l requires 0 <= l < k => Read2(h, h[p.base].slots[l], i, j))
  }

  method PtrToArray1(h: Heap, src: Ptr, length: nat) returns (dest: seq<Value>)
    requires Readable1(h, src, length)
    ensures |dest| == length
    ensures forall k :: 0 <= k < length ==> dest[k] == h[src.base].elems[src.off + k]
  {
    dest := seq(length, _ => 0);
    for k := 0 to length
      invariant |dest| == length
      invariant forall l :: 0 <= l < k ==> dest[l] == h[src.base].elems[src.off + l]
    {
      dest := dest[k := h[src.base].elems[src.off + k]];
    }
  }

  method PtrToArray2(h: Heap, src: Ptr, i: nat, j: nat) returns (dest: seq<seq<Value>>)
    requires Readable2(h, src, i, j)
    ensures dest == Read2(h, src, i, j)
  {
    dest := seq(j, _ => []);
    for idx := 0 to j
      invariant |dest| == j
      invariant forall k :: 0 <= k < idx ==> dest[k] == Read1(h, h[src.base].slots[k], i)
    {
      var row := PtrToArray1(h, h[src.base].slots[idx], i);
      assert row == Read1(h, h[src.base].slots[idx], i);
      dest := dest[idx := row];
    }
  }

  method PtrToArray3(h: Heap, src: Ptr, i: nat, j: nat, k: nat) returns (dest: seq<seq<seq<Value>>>)
    requires Readable3(h, src, i, j, k)
    ensures dest == Read3(h, src, i, j, k)
  {
    dest := seq(k, _ => []);
    for idx := 0 to k
      invariant |dest| == k
      invariant forall l :: 0 <= l < idx ==> dest[l] == Read2(h, h[src.base].slots[l], i, j)
    {
      var plane := PtrToArray2(h, h[src.base].slots[idx], i, j);
      dest := dest[idx := plane];
    }
  }

  // ---------- Copying an allocatable's table ----------

  function Concat<T>(rows: seq<seq<T>>): seq<T> {
    if rows == [] then [] else Concat(rows[..|rows| - 1]) + rows[|rows| - 1]
  }

  function Concat2<T>(planes: seq<seq<seq<T>>>): seq<T> {
    if planes == [] then [] else Concat2(planes[..|planes| - 1]) + Concat(planes[|planes| - 1])
  }

  /** Slot `k` of a table points to the row of length `len` that starts `k` rows after `off`. */
  ghost predicate RowAt(h: Heap, p: Ptr, k: nat, area: Addr, off: nat, len: nat) {
    IsTable(h, p) && k < |h[p.base].slots| && h[p.base].slots[k] == At(area, off + k * len)
  }

  lemma RowOfRank2(h: Heap, p: Ptr, ni: nat, nj: nat, area: Addr, off: nat, k: nat)
    requires TableAt(h, p, [ni, nj], area, off) && k < nj
    ensures RowAt(h, p, k, area, off, ni)
  {
    var dims := [ni, nj];
    assert dims[..1] == [ni];
    ProductOne(ni);
    SlotAt(h, p.base, h[p.base].slots, [ni], area, off, nj, k);
  }

  lemma OneMoreRow(h: Heap, p: Ptr, len: nat, n: nat)
    requires n > 0 && Readable2(h, p, len, n)
    ensures Concat(Read2(h, p, len, n)) == Concat(Read2(h, p, len, n - 1)) + Read1(h, h[p.base].slots[n - 1], len)
  {
    assert Read2(h, p, len, n)[..n - 1] == Read2(h, p, len, n - 1);
  }

  lemma RowIsSlice(h: Heap, p: Ptr, k: nat, area: Addr, off: nat, len: nat, start: nat)
    requires RowAt(h, p, k, area, off, len) && start == off + k * len
    requires IsArea(h, area) && start + len <= |h[area].elems|
    ensures Readable1(h, h[p.base].slots[k], len)
    ensures Read1(h, h[p.base].slots[k], len) == h[area].elems[start..start + len]
  {
  }

  lemma LastRowStart(off: nat, n: nat, len: nat, end: nat) returns (start: nat)
    requires n > 0 && end == off + n * len
    ensures start == off + (n - 1) * len && off <= start && start + len == end
  {
    MulStep(n, len);
    start := off + (n - 1) * len;
  }

  lemma {:induction false} CopyOfRows(h: Heap, p: Ptr, len: nat, area: Addr, off: nat, n: nat, end: nat)
    requires IsArea(h, area) && end == off + n * len && end <= |h[area].elems|
    requires IsTable(h, p) && n <= |h[p.base].slots|
    requires forall k: nat :: k < n ==> RowAt(h, p, k, area, off, len)
    ensures Readable2(h, p, len, n)
    ensures Concat(Read2(h, p, len, n)) == h[area].elems[off..end]
    decreases n
  {
    if n == 0 {
      assert Read2(h, p, len, n) == [];
    } else {
      var start := LastRowStart(off, n, len, end);
      CopyOfRows(h, p, len, area, off, n - 1, start);
      assert RowAt(h, p, n - 1, area, off, len);
      RowIsSlice(h, p, n - 1, area, off, len, start);
      OneMoreRow(h, p, len, n);
      SliceConcat(h[area].elems, off, start, end);
    }
  }

  /** Copying a rank-2 table gives rows whose concatenation is the raw data. */
  lemma CopyOfRank2(h: Heap, p: Ptr, ni: nat, nj: nat, area: Addr, off: nat)
    requires IsArea(h, area) && off + nj * ni <= |h[area].elems|
    requires TableAt(h, p, [ni, nj], area, off)
    ensures Readable2(h, p, ni, nj)
    ensures Concat(Read2(h, p, ni, nj)) == h[area].elems[off..off + nj * ni]
  {
    forall k: nat | k < nj ensures RowAt(h, p, k, area, off, ni) {
      RowOfRank2(h, p, ni, nj, area, off, k);
    }
    CopyOfRows(h, p, ni, area, off, nj, off + nj * ni);
  }

  lemma PlaneOfRank3(h: Heap, p: Ptr, ni: nat, nj: nat, nk: nat, area: Addr, l: nat)
    requires TableAt(h, p, [ni, nj, nk], area, 0) && l < nk
    ensures IsTable(h, p) && |h[p.base].slots| == nk
    ensures TableAt(h, h[p.base].slots[l], [ni, nj], area, l * (nj * ni))
  {
    var dims := [ni, nj, nk];
    assert dims[..2] == [ni, nj];
    ProductOfTwo(ni, nj);
    SlotAt(h, p.base, h[p.base].slots, [ni, nj], area, 0, nk, l);
  }

  lemma ProductOfTwo(ni: nat, nj: nat)
    ensures Product([ni, nj]) == nj * ni
  {
    assert [ni, nj][..1] == [ni];
    ProductOne(ni);
  }

  lemma OneMorePlane(h: Heap, p: Ptr, i: nat, j: nat, n: nat)
    requires n > 0 && Readable3(h, p, i, j, n)
    ensures Concat2(Read3(h, p, i, j, n))
         == Concat2(Read3(h, p, i, j, n - 1)) + Concat(Read2(h, h[p.base].slots[n - 1], i, j))
  {
    assert Read3(h, p, i, j, n)[..n - 1] == Read3(h, p, i, j, n - 1);
  }

  lemma ProductOfThree(ni: nat, nj: nat, nk: nat)
    ensures Product([ni, nj, nk]) == nk * (nj * ni)
  {
    ProductOfTwo(ni, nj);
    ProductSnoc([ni, nj], nk);
    assert [ni, nj] + [nk] == [ni, nj, nk];
  }

  lemma {:induction false} CopyOfPlanes(h: Heap, p: Ptr, ni: nat, nj: nat, nk: nat, area: Addr, n: nat, end: nat)
    requires IsArea(h, area) && n <= nk && end == n * (nj * ni) && end <= |h[area].elems|
    requires TableAt(h, p, [ni, nj, nk], area, 0)
    ensures Readable3(h, p, ni, nj, n)
    ensures Concat2(Read3(h, p, ni, nj, n)) == h[area].elems[0..end]
    decreases n
  {
    if n == 0 {
      assert Read3(h, p, ni, nj, n) == [];
    } else {
      MulStep(n, nj * ni);
      var start := end - nj * ni;
      CopyOfPlanes(h, p, ni, nj, nk, area, n - 1, start);
      PlaneOfRank3(h, p, ni, nj, nk, area, n - 1);
      CopyOfRank2(h, h[p.base].slots[n - 1], ni, nj, area, start);
      OneMorePlane(h, p, ni, nj, n);
      SliceConcat(h[area].elems, 0, start, end);
    }
  }

  /** Copying a rank-3 table gives planes whose row-major flattening is the raw data. */
  lemma CopyOfRank3(h: Heap, p: Ptr, ni: nat, nj: nat, nk: nat, area: Addr)
    requires IsArea(h, area) && |h[area].elems| == nk * (nj * ni)
    requires TableAt(h, p, [ni, nj, nk], area, 0)
    ensures Readable3(h, p, ni, nj, nk)
    ensures Concat2(Read3(h, p, ni, nj, nk)) == h[area].elems
  {
    CopyOfPlanes(h, p, ni, nj, nk, area, nk, nk * (nj * ni));
    assert h[area].elems[0..nk * (nj * ni)] == h[area].elems;
  }

  /** At every point of every run, copying an allocatable of rank 2 with its own dims stays within
      its memory and gives rows whose concatenation is its raw data. */
  lemma RunsCopyRank2(trace: seq<Heap>, ops: seq<Op>, i: nat, a: Addr, ni: nat, nj: nat)
    requires Run(trace, ops) && i < |trace| && IsAlloc(trace[i], a)
    requires BlockAt(trace[i], trace[i][a].block) && SizesOf(trace[i], trace[i][a].block) == [ni, nj]
    ensures var h := trace[i];
            && Readable2(h, h[a].table, ni, nj)
            && Concat(Read2(h, h[a].table, ni, nj)) == h[h[h[a].block].data].elems
  {
    RunsKeepAllocs(trace, ops, i, a);
    var h := trace[i];
    var area := h[h[a].block].data;
    ProductOfTwo(ni, nj);
    CopyOfRank2(h, h[a].table, ni, nj, area, 0);
    assert h[area].elems[0..nj * ni] == h[area].elems;
  }

  /** For rank 3 it is the row-major flattening of the planes. */
  lemma RunsCopyRank3(trace: seq<Heap>, ops: seq<Op>, i: nat, a: Addr, ni: nat, nj: nat, nk: nat)
    requires Run(trace, ops) && i < |trace| && IsAlloc(trace[i], a)
    requires BlockAt(trace[i], trace[i][a].block) && SizesOf(trace[i], trace[i][a].block) == [ni, nj, nk]
    ensures var h := trace[i];
            && Readable3(h, h[a].table, ni, nj, nk)
            && Concat2(Read3(h, h[a].table, ni, nj, nk)) == h[h[h[a].block].data].elems
  {
    RunsKeepAllocs(trace, ops, i, a);
    var h := trace[i];
    ProductOfThree(ni, nj, nk);
    CopyOfRank3(h, h[a].table, ni, nj, nk, h[h[a].block].data);
  }

  // ---------- Building a table from nested vectors ----------

  predicate Holds1(h: Heap, p: Ptr, v: seq<Value>) {
    p.At? && p.off == 0 && IsArea(h, p.base) && h[p.base].elems == v
  }

  predicate Holds2(h: Heap, p: Ptr, v: seq<seq<Value>>) {
    && IsTable(h, p) && |h[p.base].slots| == |v|
    && forall k :: 0 <= k < |v| ==> Holds1(h, h[p.base].slots[k], v[k])
  }

  predicate Holds3(h: Heap, p: Ptr, v: seq<seq<seq<Value>>>) {
    && IsTable(h, p) && |h[p.base].slots| == |v|
    && forall k :: 0 <= k < |v| ==> Holds2(h, h[p.base].slots[k], v[k])
  }

  /** Everything that was there is still there. */
  ghost predicate Keeps(h: Heap, g: Heap) {
    forall x :: x in h ==> x in g && g[x] == h[x]
  }

  /** The memory of a table of rows. */
  function Memory2(h: Heap, p: Ptr): set<Addr>
    requires IsTable(h, p)
  {
    {p.base} + (set q | q in h[p.base].slots && q.At? :: q.base)
  }

  /** Rows that share no memory with each other or with the table. */
  ghost predicate RowsApart(h: Heap, p: Ptr)
    requires IsTable(h, p)
  {
    var slots := h[p.base].slots;
    && (forall k :: 0 <= k < |slots| ==> slots[k].At? && slots[k].base != p.base)
    && (forall k, l :: 0 <= k < l < |slots| ==> slots[k].base != slots[l].base)
  }

  /** Planes that share no memory with each other or with the table. */
  ghost predicate PlanesApart(h: Heap, p: Ptr)
    requires IsTable(h, p)
  {
    var slots := h[p.base].slots;
    && (forall k :: 0 <= k < |slots| ==>
          IsTable(h, slots[k]) && RowsApart(h, slots[k]) && p.base !in Memory2(h, slots[k]))
    && (forall k, l :: 0 <= k < l < |slots| ==> Memory2(h, slots[k]) !! Memory2(h, slots[l]))
  }

  method ArrayToPtr1(m: Memory, source: seq<Value>) returns (dest: Ptr)
    modifies m
    ensures Keeps(old(m.cells), m.cells) && Holds1(m.cells, dest, source) && dest.base !in old(m.cells)
    ensures m.cells.Keys == old(m.cells.Keys) + {dest.base}
  {
    var a := m.Malloc(Area(0, source));
    dest := At(a, 0);
  }

  method ArrayToPtr2(m: Memory, source: seq<seq<Value>>) returns (dest: Ptr)
    modifies m
    ensures Keeps(old(m.cells), m.cells) && Holds2(m.cells, dest, source) && RowsApart(m.cells, dest)
    ensures Memory2(m.cells, dest) !! old(m.cells.Keys)
    ensures m.cells.Keys == old(m.cells.Keys) + Memory2(m.cells, dest)
  {
    var vec := m.Malloc(Table([]));
    var slots: seq<Ptr> := [];
    for k := 0 to |source|
      invariant |slots| == k
      invariant vec !in old(m.cells) && vec in m.cells && m.cells[vec].Table?
      invariant Keeps(old(m.cells), m.cells)
      invariant forall l :: 0 <= l < k ==> Holds1(m.cells, slots[l], source[l])
      invariant forall l :: 0 <= l < k ==> slots[l].base !in old(m.cells) && slots[l].base != vec
      invariant forall i, j :: 0 <= i < j < k ==> slots[i].base != slots[j].base
      invariant m.cells.Keys == old(m.cells.Keys) + {vec} + (set q | q in slots && q.At? :: q.base)
    {
      var q := ArrayToPtr1(m, source[k]);
      slots := slots + [q];
    }
    m.cells := m.cells[vec := Table(slots)];
    dest := At(vec, 0);
  }

  method ArrayToPtr3(m: Memory, source: seq<seq<seq<Value>>>) returns (dest: Ptr)
    modifies m
    ensures Keeps(old(m.cells), m.cells) && Holds3(m.cells, dest, source) && PlanesApart(m.cells, dest)
    ensures dest.base !in old(m.cells)
    ensures forall l :: 0 <= l < |source| ==> Memory2(m.cells, m.cells[dest.base].slots[l]) !! old(m.cells.Keys)
  {
    var vec := m.Malloc(Table([]));
    var slots: seq<Ptr> := [];
    ghost var start := m.cells;
    for k := 0 to |source|
      invariant |slots| == k
      invariant vec !in old(m.cells) && Keeps(start, m.cells)
      invariant PlanesHeld(m.cells, slots, source[..k], start.Keys)
    {
      ghost var before := m.cells;
      var q := ArrayToPtr2(m, source[k]);
      OneMorePlaneHeld(before, m.cells, slots, source[..k], start.Keys, q, source[k]);
      assert source[..k + 1] == source[..k] + [source[k]];
      slots := slots + [q];
    }
    assert source[..|source|] == source;
    ghost var before := m.cells;
    m.cells := m.cells[vec := Table(slots)];
    RootKeepsPlanes(before, m.cells, vec, slots, source, start.Keys);
    dest := At(vec, 0);
  }

  /** The planes hold `v`, apart from each other and from the memory `s`. */
  ghost predicate PlanesHeld(h: Heap, slots: seq<Ptr>, v: seq<seq<seq<Value>>>, s: set<Addr>) {
    && |slots| == |v|
    && (forall l :: 0 <= l < |v| ==> PlaneHeld(h, slots[l], v[l], s))
    && (forall k, l :: 0 <= k < l < |v| ==> Memory2(h, slots[k]) !! Memory2(h, slots[l]))
  }

  ghost predicate PlaneHeld(h: Heap, p: Ptr, v: seq<seq<Value>>, s: set<Addr>) {
    Holds2(h, p, v) && RowsApart(h, p) && Memory2(h, p) !! s && Memory2(h, p) <= h.Keys
  }

  lemma PlaneStays(h: Heap, g: Heap, p: Ptr, v: seq<seq<Value>>, s: set<Addr>)
    requires PlaneHeld(h, p, v, s) && Keeps(h, g)
    ensures PlaneHeld(g, p, v, s) && Memory2(g, p) == Memory2(h, p)
  {
    forall k | 0 <= k < |v| ensures Holds1(g, h[p.base].slots[k], v[k]) {
      assert Holds1(h, h[p.base].slots[k], v[k]);
    }
  }

  lemma OneMorePlaneHeld(h: Heap, g: Heap, slots: seq<Ptr>, v: seq<seq<seq<Value>>>, s: set<Addr>,
                         q: Ptr, w: seq<seq<Value>>)
    requires PlanesHeld(h, slots, v, s) && Keeps(h, g) && s <= h.Keys
    requires PlaneHeld(g, q, w, h.Keys)
    ensures PlanesHeld(g, slots + [q], v + [w], s)
  {
    forall l | 0 <= l < |v|
      ensures PlaneHeld(g, slots[l], v[l], s) && Memory2(g, slots[l]) == Memory2(h, slots[l]) <= h.Keys
    {
      PlaneStays(h, g, slots[l], v[l], s);
    }
  }

  /** Filling in the root, which is apart from the planes, leaves them as they are. */
  lemma RootKeepsPlanes(h: Heap, g: Heap, root: Addr, slots: seq<Ptr>, v: seq<seq<seq<Value>>>, s: set<Addr>)
    requires PlanesHeld(h, slots, v, s) && root in s && root in g && g == h[root := Table(slots)]
    ensures Holds3(g, At(root, 0), v) && PlanesApart(g, At(root, 0))
    ensures forall l :: 0 <= l < |v| ==> Memory2(g, slots[l]) !! s
  {
    var rest := h - {root};
    forall l | 0 <= l < |v|
      ensures PlaneHeld(g, slots[l], v[l], s) && Memory2(g, slots[l]) == Memory2(h, slots[l])
    {
      assert PlaneHeld(h, slots[l], v[l], s);
      RowsAvoid(h, slots[l], v[l], s, root);
      assert PlaneHeld(rest, slots[l], v[l], s);
      PlaneStays(rest, g, slots[l], v[l], s);
    }
  }

  lemma RowsAvoid(h: Heap, p: Ptr, v: seq<seq<Value>>, s: set<Addr>, root: Addr)
    requires PlaneHeld(h, p, v, s) && root in s
    ensures PlaneHeld(h - {root}, p, v, s) && Memory2(h - {root}, p) == Memory2(h, p)
  {
    var rest := h - {root};
    forall k | 0 <= k < |v| ensures Holds1(rest, h[p.base].slots[k], v[k]) {
      var q := h[p.base].slots[k];
      assert Holds1(h, q, v[k]) && q in h[p.base].slots && q.base in Memory2(h, p);
    }
  }

  // ---------- There and back ----------

  predicate Rectangular2<T>(v: seq<seq<T>>, i: nat, j: nat) {
    |v| == j && forall k :: 0 <= k < j ==> |v[k]| == i
  }

  predicate Rectangular3<T>(v: seq<seq<seq<T>>>, i: nat, j: nat, k: nat) {
    |v| == k && forall l :: 0 <= l < k ==> Rectangular2(v[l], i, j)
  }

  /** The exact condition for a matrix that was copied out with the sizes that
      `softc_datamodel_get_array_double_2d` reports, those of the first row and of the whole, to
      be read back unchanged and within bounds: all rows are as long as the first. */
  lemma ThereAndBack2Iff(h: Heap, p: Ptr, v: seq<seq<Value>>)
    requires Holds2(h, p, v) && v != []
    ensures var i, j := |v[0]|, |v|;
            Readable2(h, p, i, j) && Read2(h, p, i, j) == v <==> Rectangular2(v, i, j)
  {
    var i, j := |v[0]|, |v|;
    if Readable2(h, p, i, j) && Read2(h, p, i, j) == v {
      assert forall k :: 0 <= k < j ==> |v[k]| == |Read1(h, h[p.base].slots[k], i)|;
    }
    if Rectangular2(v, i, j) {
      forall k | 0 <= k < j ensures Readable1(h, h[p.base].slots[k], i) && Read1(h, h[p.base].slots[k], i) == v[k] {
        assert Holds1(h, h[p.base].slots[k], v[k]);
      }
      assert Read2(h, p, i, j) == v;
    }
  }

  lemma ThereAndBack3Iff(h: Heap, p: Ptr, v: seq<seq<seq<Value>>>)
    requires Holds3(h, p, v) && v != [] && v[0] != []
    ensures var i, j, k := |v[0][0]|, |v[0]|, |v|;
            Readable3(h, p, i, j, k) && Read3(h, p, i, j, k) == v <==> Rectangular3(v, i, j, k)
  {
    var i, j, k := |v[0][0]|, |v[0]|, |v|;
    if Readable3(h, p, i, j, k) && Read3(h, p, i, j, k) == v {
      forall l | 0 <= l < k ensures Rectangular2(v[l], i, j) {
        assert v[l] == Read2(h, h[p.base].slots[l], i, j);
        assert forall m :: 0 <= m < j ==> |v[l][m]| == i;
      }
    }
    if Rectangular3(v, i, j, k) {
      forall l | 0 <= l < k
        ensures Readable2(h, h[p.base].slots[l], i, j) && Read2(h, h[p.base].slots[l], i, j) == v[l]
      {
        assert Holds2(h, h[p.base].slots[l], v[l]) && Rectangular2(v[l], i, j);
        ReadsBack2(h, h[p.base].slots[l], v[l], i, j);
      }
      assert Read3(h, p, i, j, k) == v;
    }
  }

  lemma ReadsBack2(h: Heap, p: Ptr, v: seq<seq<Value>>, i: nat, j: nat)
    requires Holds2(h, p, v) && Rectangular2(v, i, j)
    ensures Readable2(h, p, i, j) && Read2(h, p, i, j) == v
  {
    forall k | 0 <= k < j ensures Readable1(h, h[p.base].slots[k], i) && Read1(h, h[p.base].slots[k], i) == v[k] {
      assert Holds1(h, h[p.base].slots[k], v[k]);
    }
    assert Read2(h, p, i, j) == v;
  }

  /** A ragged matrix, and a ragged array of three dimensions, that are not read back. */
  lemma RaggedIsNotReadBack(h: Heap, p: Ptr, q: Ptr)
    requires Holds2(h, p, [[1], [2, 3]]) && Holds3(h, q, [[[1]], [[2], [3]]])
    ensures !(Readable2(h, p, 1, 2) && Read2(h, p, 1, 2) == [[1], [2, 3]])
    ensures !(Readable3(h, q, 1, 1, 2) && Read3(h, q, 1, 1, 2) == [[[1]], [[2], [3]]])
  {
    ThereAndBack2Iff(h, p, [[1], [2, 3]]);
    ThereAndBack3Iff(h, q, [[[1]], [[2], [3]]]);
    assert !Rectangular2([[1], [2, 3]], 1, 2) by { assert |[[1], [2, 3]][1]| == 2; }
    assert !Rectangular3([[[1]], [[2], [3]]], 1, 1, 2) by { assert |[[[1]], [[2], [3]]][1]| == 2; }
  }
}
