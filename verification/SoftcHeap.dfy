/** The heap of softc-block.c and softc-allocatable.c: what malloc has handed out and free has
    not taken back, by address. */
module SoftcHeap {
  import opened Dimensions

  type Addr = nat
  type Value = int

  /** A pointer to a table, or to the element number `off` of a data area. */
  datatype Ptr = Null | At(base: Addr, off: nat)

  datatype Cell =
    | Area(refs: nat, elems: seq<Value>)         // refmalloc: a counter, then the data
    | Dims(sizes: seq<nat>)
    | Block(rank: nat, dims: Addr, data: Addr)   // softc_block_s
    | Table(slots: seq<Ptr>)                     // one level of a pointer table
    | Alloc(block: Addr, table: Ptr)             // softc_allocatable_s

  type Heap = map<Addr, Cell>

  // ---------- Blocks ----------

  predicate IsBlock(h: Heap, b: Addr) {
    b in h && h[b].Block?
  }

  predicate IsArea(h: Heap, r: Addr) {
    r in h && h[r].Area?
  }

  predicate IsDims(h: Heap, d: Addr) {
    d in h && h[d].Dims?
  }

  predicate BlockAt(h: Heap, b: Addr) {
    && IsBlock(h, b)
    && IsDims(h, h[b].dims) && |h[h[b].dims].sizes| == h[b].rank
    && IsArea(h, h[b].data) && |h[h[b].data].elems| == Product(h[h[b].dims].sizes)
  }

  function SizesOf(h: Heap, b: Addr): seq<nat>
    requires BlockAt(h, b)
  {
    h[h[b].dims].sizes
  }

  function RefsOf(h: Heap, b: Addr): nat
    requires BlockAt(h, b)
  {
    h[h[b].data].refs
  }

  /** The live blocks that point to a data area. */
  function Users(h: Heap, r: Addr): set<Addr> {
    set b | b in h && h[b].Block? && h[b].data == r
  }

  /** Every block is whole. */
  ghost predicate BlocksWhole(h: Heap) {
    forall b :: IsBlock(h, b) ==> BlockAt(h, b)
  }

  /** Every dims cell belongs to exactly one block. */
  ghost predicate DimsOwned(h: Heap) {
    && (forall b, c :: IsBlock(h, b) && IsBlock(h, c) && b != c ==> h[b].dims != h[c].dims)
    && (forall d :: IsDims(h, d) ==> exists b :: IsBlock(h, b) && h[b].dims == d)
  }

  /** Every counter is the number of live blocks that point to its area, minus one; so every
      area is in use. */
  ghost predicate Counted(h: Heap) {
    forall r :: IsArea(h, r) ==> |Users(h, r)| == h[r].refs + 1
  }

  ghost predicate BlockInv(h: Heap) {
    BlocksWhole(h) && DimsOwned(h) && Counted(h)
  }

  ghost predicate BlockCreated(h: Heap, h': Heap, b: Addr, dims: seq<nat>) {
    && IsBlock(h', b)
    && var d, r := h'[b].dims, h'[b].data;
    && b !in h && d !in h && r !in h && b != d && b != r && d != r
    && IsArea(h', r) && h'[r].refs == 0 && |h'[r].elems| == Product(dims)
    && h' == h[b := Block(|dims|, d, r)][d := Dims(dims)][r := h'[r]]
  }

  ghost predicate BlockCopied(h: Heap, h': Heap, b: Addr, orig: Addr)
    requires BlockAt(h, orig)
  {
    && IsBlock(h', b)
    && var d, r := h'[b].dims, h[orig].data;
    && b !in h && d !in h && b != d
    && h' == h[r := h[r].(refs := h[r].refs + 1)][b := Block(h[orig].rank, d, r)][d := h[h[orig].dims]]
  }

  function FreedBlock(h: Heap, b: Addr): Heap
    requires BlockAt(h, b)
  {
    var d, r := h[b].dims, h[b].data;
    if h[r].refs > 0 then (h - {b, d})[r := h[r].(refs := h[r].refs - 1)] else h - {b, d, r}
  }

  /** An unshared block is given up and built anew at the same address, its data area possibly
      moved, its leading elements kept. */
  ghost predicate BlockResized(h: Heap, h': Heap, b: Addr, dims: seq<nat>)
    requires BlockAt(h, b)
  {
    && RefsOf(h, b) == 0
    && BlockCreated(FreedBlock(h, b), h', b, dims)
    && KeptElems(h[h[b].data].elems, h'[h'[b].data].elems)
  }

  ghost predicate KeptElems(before: seq<Value>, after: seq<Value>) {
    forall k :: 0 <= k < |before| && k < |after| ==> after[k] == before[k]
  }

  // ---------- The counters stay right ----------

  /** `h'` is `h` with one more block, on a new data area or on one that was there already. */
  ghost predicate OneMoreBlock(h: Heap, h': Heap, b: Addr) {
    && b !in h && BlockAt(h', b) && h'[b].dims !in h
    && var r := h'[b].data;
    && h'.Keys == h.Keys + {b, h'[b].dims, r}
    && (forall x :: x in h && x != r ==> h'[x] == h[x])
    && (r in h ==> h[r].Area? && h[r].elems == h'[r].elems && h'[r].refs == h[r].refs + 1)
  }

  lemma SameBlocks(h: Heap, h': Heap, b: Addr)
    requires OneMoreBlock(h, h', b)
    ensures forall x :: IsBlock(h', x) <==> x == b || IsBlock(h, x)
    ensures forall x :: IsBlock(h, x) ==> h'[x] == h[x]
    ensures forall x :: IsDims(h', x) <==> x == h'[b].dims || IsDims(h, x)
    ensures forall x :: IsDims(h, x) ==> h'[x] == h[x]
    ensures forall x :: IsArea(h', x) <==> x == h'[b].data || IsArea(h, x)
    ensures forall x :: IsArea(h, x) ==> h'[x].elems == h[x].elems && (x != h'[b].data ==> h'[x] == h[x])
  {
  }

  lemma AddKeepsWhole(h: Heap, h': Heap, b: Addr)
    requires OneMoreBlock(h, h', b) && BlocksWhole(h)
    ensures BlocksWhole(h')
  {
    SameBlocks(h, h', b);
  }

  lemma RemoveKeepsWhole(h: Heap, h': Heap, b: Addr)
    requires OneMoreBlock(h, h', b) && BlocksWhole(h') && DimsOwned(h')
    requires h'[b].data in h || Users(h', h'[b].data) == {b}
    ensures BlocksWhole(h)
  {
    SameBlocks(h, h', b);
    forall x | IsBlock(h, x) ensures BlockAt(h, x) {
      assert BlockAt(h', x);
      if h[x].data == h'[b].data {
        assert x in Users(h', h'[b].data);
      }
    }
  }

  lemma AddKeepsDims(h: Heap, h': Heap, b: Addr)
    requires OneMoreBlock(h, h', b) && BlocksWhole(h) && DimsOwned(h)
    ensures DimsOwned(h')
  {
    SameBlocks(h, h', b);
    forall d | IsDims(h', d) ensures exists c :: IsBlock(h', c) && h'[c].dims == d {
      if d != h'[b].dims {
        var c :| IsBlock(h, c) && h[c].dims == d;
        assert IsBlock(h', c) && h'[c].dims == d;
      }
    }
    forall x, y | IsBlock(h', x) && IsBlock(h', y) && x != y ensures h'[x].dims != h'[y].dims {
      assert x == b || BlockAt(h, x);
      assert y == b || BlockAt(h, y);
    }
  }

  lemma RemoveKeepsDims(h: Heap, h': Heap, b: Addr)
    requires OneMoreBlock(h, h', b) && DimsOwned(h')
    ensures DimsOwned(h)
  {
    SameBlocks(h, h', b);
    forall d | IsDims(h, d) ensures exists c :: IsBlock(h, c) && h[c].dims == d {
      var c :| IsBlock(h', c) && h'[c].dims == d;
      assert IsBlock(h, c) && h[c].dims == d;
    }
  }

  lemma UsersDiffer(h: Heap, h': Heap, b: Addr, r: Addr)
    requires OneMoreBlock(h, h', b)
    ensures Users(h', r) == Users(h, r) + if h'[b].data == r then {b} else {}
    ensures |Users(h', r)| == |Users(h, r)| + if h'[b].data == r then 1 else 0
  {
    SameBlocks(h, h', b);
    forall x ensures x in Users(h', r) <==> x in Users(h, r) || (x == b && h'[b].data == r) {
      assert IsBlock(h', x) <==> x == b || IsBlock(h, x);
    }
    assert Users(h', r) == Users(h, r) + if h'[b].data == r then {b} else {};
    assert b !in Users(h, r);
  }

  lemma NoUsersYet(h: Heap, r: Addr)
    requires BlocksWhole(h) && r !in h
    ensures Users(h, r) == {}
  {
    forall c | IsBlock(h, c) ensures h[c].data != r {
      assert BlockAt(h, c);
    }
  }

  lemma AddKeepsCounts(h: Heap, h': Heap, b: Addr)
    requires OneMoreBlock(h, h', b) && BlocksWhole(h) && Counted(h)
    requires h'[b].data !in h ==> h'[h'[b].data].refs == 0
    ensures Counted(h')
  {
    SameBlocks(h, h', b);
    forall x | IsArea(h', x) ensures |Users(h', x)| == h'[x].refs + 1 {
      UsersDiffer(h, h', b, x);
      if x !in h {
        NoUsersYet(h, x);
      } else {
        assert IsArea(h, x);
      }
    }
  }

  lemma RemoveKeepsCounts(h: Heap, h': Heap, b: Addr)
    requires OneMoreBlock(h, h', b) && Counted(h')
    ensures Counted(h)
  {
    SameBlocks(h, h', b);
    forall x | IsArea(h, x) ensures |Users(h, x)| == h[x].refs + 1 {
      UsersDiffer(h, h', b, x);
      assert IsArea(h', x);
    }
  }

  lemma CreateKeepsBlockInv(h: Heap, h': Heap, b: Addr, dims: seq<nat>)
    requires BlockInv(h) && BlockCreated(h, h', b, dims)
    ensures OneMoreBlock(h, h', b) && BlockInv(h')
  {
    AddKeepsWhole(h, h', b);
    AddKeepsDims(h, h', b);
    AddKeepsCounts(h, h', b);
  }

  lemma CopyKeepsBlockInv(h: Heap, h': Heap, b: Addr, orig: Addr)
    requires BlockInv(h) && BlockAt(h, orig) && BlockCopied(h, h', b, orig)
    ensures OneMoreBlock(h, h', b) && BlockInv(h')
  {
    AddKeepsWhole(h, h', b);
    AddKeepsDims(h, h', b);
    AddKeepsCounts(h, h', b);
  }

  /** Freeing a block gives up its data area exactly when it is the last block on it. */
  lemma FreeKeepsBlockInv(h: Heap, b: Addr)
    requires BlockInv(h) && BlockAt(h, b)
    ensures OneMoreBlock(FreedBlock(h, b), h, b) && BlockInv(FreedBlock(h, b))
    ensures h[b].data in FreedBlock(h, b) <==> Users(h, h[b].data) != {b}
  {
    var r := h[b].data;
    assert IsArea(h, r) && b in Users(h, r);
    if Users(h, r) == {b} {
      assert |Users(h, r)| == 1;
    } else if RefsOf(h, b) == 0 {
      OnlyUser(Users(h, r), b);
    }
    RemoveKeepsWhole(FreedBlock(h, b), h, b);
    RemoveKeepsDims(FreedBlock(h, b), h, b);
    RemoveKeepsCounts(FreedBlock(h, b), h, b);
  }

  lemma OnlyUser(s: set<Addr>, b: Addr)
    requires b in s && |s| == 1
    ensures s == {b}
  {
    assert |s - {b}| == 0;
  }

  lemma ResizeKeepsBlockInv(h: Heap, h': Heap, b: Addr, dims: seq<nat>)
    requires BlockInv(h) && BlockAt(h, b) && BlockResized(h, h', b, dims)
    ensures BlockInv(h')
  {
    FreeKeepsBlockInv(h, b);
    CreateKeepsBlockInv(FreedBlock(h, b), h', b, dims);
  }
}
