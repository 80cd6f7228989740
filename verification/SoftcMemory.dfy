/** softc-block.c and softc-allocatable.c as they run, on a heap that malloc, realloc and free
    change. Where malloc puts a new cell, and whether realloc moves one, is left open. */
module SoftcMemory {
  import opened Dimensions
  import opened SoftcHeap
  import opened SoftcTables
  import opened SoftcOwnership
  import opened SoftcRuns
  import opened Wrappers

  lemma {:induction false} FreshAddress(s: set<Addr>) returns (a: Addr)
    ensures forall x :: x in s ==> x < a
  {
    if s == {} {
      a := 0;
    } else {
      var x :| x in s;
      var below := FreshAddress(s - {x});
      assert s == (s - {x}) + {x};
      a := if x < below then below else x + 1;
    }
  }

  class Memory {
    var cells: Heap

    constructor ()
      ensures cells == map[]
    {
      cells := map[];
    }

    method Malloc(cell: Cell) returns (a: Addr)
      modifies this
      ensures a !in old(cells) && cells == old(cells)[a := cell]
    {
      ghost var some := FreshAddress(cells.Keys);
      assert some !in cells;
      a :| a !in cells;
      cells := cells[a := cell];
    }

    method Free(a: Addr)
      requires a in cells
      modifies this
      ensures cells == old(cells) - {a}
    {
      cells := cells - {a};
    }

    method Realloc(a: Addr, cell: Cell) returns (b: Addr)
      requires a in cells
      modifies this
      ensures b == a || b !in old(cells)
      ensures cells == (old(cells) - {a})[b := cell]
    {
      cells := cells - {a};
      ghost var some := FreshAddress(cells.Keys);
      assert some !in cells;
      b :| b !in cells;
      cells := cells[b := cell];
    }

    method RefMalloc(total: nat) returns (r: Addr)
      modifies this
      ensures IsArea(cells, r) && cells[r].refs == 0 && |cells[r].elems| == total
      ensures r !in old(cells) && cells == old(cells)[r := cells[r]]
    {
      assert |seq(total, _ => 0)| == total;
      var elems: seq<Value> :| |elems| == total;
      r := Malloc(Area(0, elems));
    }

    // ---------- softc-block.c ----------

    method BlockCreate(dims: seq<nat>) returns (b: Addr)
      requires dims != []
      modifies this
      ensures BlockCreated(old(cells), cells, b, dims)
    {
      b := Malloc(Block(|dims|, 0, 0));
      var tot := TotalOf(dims);
      var d := Malloc(Dims(dims));
      var r := RefMalloc(tot);
      cells := cells[b := Block(|dims|, d, r)];
    }

    method BlockShallowCopy(orig: Addr) returns (b: Addr)
      requires BlockAt(cells, orig)
      modifies this
      ensures BlockAt(old(cells), orig) && BlockCopied(old(cells), cells, b, orig)
    {
      var c := cells[orig];
      b := Malloc(Block(c.rank, 0, 0));
      var d := Malloc(cells[c.dims]);
      Inc(c.data);
      cells := cells[b := Block(c.rank, d, c.data)];
    }

    method Inc(r: Addr)
      requires IsArea(cells, r)
      modifies this
      ensures cells == old(cells)[r := old(cells)[r].(refs := old(cells)[r].refs + 1)]
    {
      cells := cells[r := cells[r].(refs := cells[r].refs + 1)];
    }

    method Dec(r: Addr)
      requires IsArea(cells, r)
      modifies this
      ensures cells == if old(cells)[r].refs > 0 then old(cells)[r := old(cells)[r].(refs := old(cells)[r].refs - 1)]
                       else old(cells) - {r}
    {
      if cells[r].refs > 0 {
        cells := cells[r := cells[r].(refs := cells[r].refs - 1)];
      } else {
        Free(r);
      }
    }

    /** Does nothing for NULL. */
    method BlockFree(block: Option<Addr>)
      requires block.Some? ==> BlockAt(cells, block.value)
      modifies this
      ensures block.None? ==> cells == old(cells)
      ensures block.Some? ==> BlockAt(old(cells), block.value) && cells == FreedBlock(old(cells), block.value)
    {
      if block.Some? {
        var b := block.value;
        var r := cells[b].data;
        Free(cells[b].dims);
        Dec(r);
        Free(b);
      }
    }

    method BlockResize(b: Addr, dims: seq<nat>)
      requires BlockAt(cells, b) && RefsOf(cells, b) == 0
      modifies this
      ensures BlockAt(old(cells), b) && BlockResized(old(cells), cells, b, dims)
      ensures BlockAt(cells, b) && SizesOf(cells, b) == dims
      ensures var before, after := old(cells[cells[b].data].elems), cells[cells[b].data].elems;
              |after| == Product(dims) && forall k :: 0 <= k < |before| && k < Product(dims) ==> after[k] == before[k]
    {
      var tot := TotalOf(dims);
      var before := cells[cells[b].data].elems;
      var n := if |before| <= tot then |before| else tot;
      assert |seq(tot - n, _ => 0)| == tot - n;
      var fill: seq<Value> :| |fill| == tot - n;
      var d := Realloc(cells[b].dims, Dims(dims));
      var r := Realloc(cells[b].data, Area(0, before[..n] + fill));
      cells := cells[b := Block(|dims|, d, r)];
    }

    /** As written: the rank is set, room is made, and the new dims are not copied. */
    method BlockReshape(b: Addr, dims: seq<nat>) returns (ghost left: seq<nat>)
      requires BlockAt(cells, b) && Product(SizesOf(cells, b)) == Product(dims)
      modifies this
      ensures |left| == Grown(SizesOf(old(cells), b), dims)
      ensures IsBlock(cells, b) && cells[b].rank == |dims| && cells[b].data == old(cells)[b].data
      ensures IsDims(cells, cells[b].dims)
      ensures cells[cells[b].dims].sizes == ReshapedDims(SizesOf(old(cells), b), dims, left)
      ensures |cells[cells[b].dims].sizes| == |dims|
      ensures forall k :: 0 <= k < |dims| && k < |SizesOf(old(cells), b)| ==>
                            cells[cells[b].dims].sizes[k] == SizesOf(old(cells), b)[k]
    {
      var sizes := cells[cells[b].dims].sizes;
      assert |seq<nat>(Grown(sizes, dims), _ => 0)| == Grown(sizes, dims);
      var fill: seq<nat> :| |fill| == Grown(sizes, dims);
      left := fill;
      var d := Realloc(cells[b].dims, Dims(ReshapedDims(sizes, dims, fill)));
      cells := cells[b := Block(|dims|, d, cells[b].data)];
    }

    // ---------- softc-allocatable.c ----------

    /** alloc_rank1 to alloc_rank4: a table for `dims` over `area`, `off` elements in. */
    method BuildTable(area: Addr, off: nat, dims: seq<nat>) returns (p: Ptr)
      requires dims != []
      modifies this
      ensures TableAt(cells, p, dims, area, off)
      ensures Adds(old(cells), cells, TableAddrs(cells, p, dims))
      decreases |dims|
    {
      if |dims| == 1 {
        return At(area, off);
      }
      var n := |dims| - 1;
      var vec := Malloc(Table(seq(dims[n], _ => Null)));
      var slots: seq<Ptr> := [];
      var k := 0;
      while k < dims[n]
        invariant k == |slots| <= dims[n]
        invariant vec !in old(cells) && vec in cells && cells[vec].Table?
        invariant SlotsAt(cells, vec, slots, dims[..n], area, off, k)
        invariant vec !in SlotAddrs(cells, slots, dims[..n], k)
        invariant Adds(old(cells), cells, {vec} + SlotAddrs(cells, slots, dims[..n], k))
      {
        ghost var before := cells;
        var q := BuildTable(area, off + k * Product(dims[..n]), dims[..n]);
        ghost var grown := cells;
        cells := cells[vec := Table(slots + [q] + seq(dims[n] - k - 1, _ => Null))];
        OneMoreSlot(before, grown, cells, vec, slots, q, dims[..n], area, off);
        AddsInTurn(old(cells), before, grown, cells, vec, SlotAddrs(before, slots, dims[..n], k), TableAddrs(grown,
                   q, dims[..n]));
        slots := slots + [q];
        k := k + 1;
      }
      ghost var filled := cells;
      cells := cells[vec := Table(slots)];
      p := At(vec, 0);
      RootFilled(filled, cells, vec, slots, dims, area, off);
    }

    /** free_rank1 to free_rank4. */
    method FreeTable(p: Ptr, dims: seq<nat>, ghost area: Addr, ghost off: nat)
      requires dims != [] && TableAt(cells, p, dims, area, off)
      modifies this
      ensures cells == old(cells) - TableAddrs(old(cells), p, dims)
      decreases |dims|
    {
      if |dims| == 1 {
        return;
      }
      var n := |dims| - 1;
      var slots := cells[p.base].slots;
      if n > 1 {
        var k := 0;
        while k < dims[n]
          invariant k <= dims[n]
          invariant cells == old(cells) - SlotAddrs(old(cells), slots, dims[..n], k)
        {
          SlotAt(old(cells), p.base, slots, dims[..n], area, off, dims[n], k);
          TableAddrsAreTables(old(cells), slots[k], dims[..n]);
          TableFrame(old(cells), cells, slots[k], dims[..n], area, off + k * Product(dims[..n]));
          FreeTable(slots[k], dims[..n], area, off + k * Product(dims[..n]));
          k := k + 1;
        }
        RootIsNoSlot(old(cells), p.base, slots, dims[..n], area, off, k);
      } else {
        NoSubtables(cells, slots, dims[..n], dims[n]);
      }
      Free(p.base);
    }

    method AllocatableCreate(dims: seq<nat>) returns (a: Addr)
      requires Rank(dims)
      modifies this
      ensures AllocCreated(old(cells), cells, a, dims)
    {
      a := Malloc(Alloc(0, Null));
      ghost var h0 := cells - {a};
      assert h0 == old(cells);
      var b := BlockCreate(dims);
      ghost var h1 := cells - {a};
      assert BlockCreated(h0, h1, b, dims);
      FinishAlloc(a, b, dims);
      assert cells - Holdings(cells, a) == h1;
    }

    /** The call through `alloc_fptrs` that ends create, resize and shallow copy. */
    method FinishAlloc(a: Addr, b: Addr, dims: seq<nat>)
      requires IsAlloc(cells, a) && BlockAt(cells, b) && SizesOf(cells, b) == dims && Rank(dims)
      modifies this
      ensures AllocAt(cells, a) && cells[a].block == b && TablesOf(cells, a) !! old(cells).Keys
      ensures cells - Holdings(cells, a) == old(cells) - {a}
      ensures BlockAt(cells, b) && SizesOf(cells, b) == dims && cells[b] == old(cells)[b]
    {
      ghost var h := cells;
      var p := BuildTable(cells[b].data, 0, dims);
      ghost var g := cells;
      cells := cells[a := Alloc(b, p)];
      TableAddrsAreTables(g, p, dims);
      TableFrame(g, cells, p, dims, g[b].data, 0);
      assert TablesOf(cells, a) == TableAddrs(g, p, dims);
      assert (cells - Holdings(cells, a)).Keys == (h - {a}).Keys;
    }

    method AllocatableShallowCopy(orig: Addr) returns (a: Addr)
      requires AllocAt(cells, orig)
      modifies this
      ensures AllocAt(old(cells), orig) && AllocCopied(old(cells), cells, a, orig)
    {
      a := Malloc(Alloc(0, Null));
      ghost var h0 := cells - {a};
      assert h0 == old(cells);
      var c := cells[orig].block;
      var b := BlockShallowCopy(c);
      ghost var h1 := cells - {a};
      assert BlockCopied(h0, h1, b, c);
      FinishAlloc(a, b, cells[cells[b].dims].sizes);
      assert cells - Holdings(cells, a) == h1;
    }

    /** The call through `free_fptrs` that begins free and resize. */
    method FreeTables(a: Addr)
      requires AllocAt(cells, a)
      modifies this
      ensures AllocAt(old(cells), a) && IsAlloc(cells, a) && cells[a] == old(cells)[a]
      ensures cells - {a} == old(cells) - Holdings(old(cells), a)
      ensures BlockAt(cells, cells[a].block) && BlockAt(cells - {a}, cells[a].block)
      ensures RefsOf(cells, cells[a].block) == RefsOf(old(cells), cells[a].block)
    {
      var b := cells[a].block;
      FreeTable(cells[a].table, cells[cells[b].dims].sizes, cells[b].data, 0);
      TableAddrsAreTables(old(cells), old(cells)[a].table, SizesOf(old(cells), b));
      HoldingsDoNotCount(old(cells), a);
      assert cells - {a} == old(cells) - Holdings(old(cells), a);
      assert BlockAt(cells - {a}, b);
    }

    method AllocatableFree(a: Addr)
      requires AllocAt(cells, a)
      modifies this
      ensures AllocAt(old(cells), a) && cells == FreedAlloc(old(cells), a)
    {
      var b := cells[a].block;
      FreeTables(a);
      BlockFree(Some(b));
      Free(a);
    }

    method AllocatableResize(a: Addr, dims: seq<nat>)
      requires AllocAt(cells, a) && Rank(dims) && RefsOf(cells, cells[a].block) == 0
      modifies this
      ensures AllocResized(old(cells), cells, a, dims)
      ensures cells[a].block == old(cells)[a].block && BlockAt(cells, cells[a].block)
      ensures SizesOf(cells, cells[a].block) == dims
      ensures var before, after := old(cells[cells[cells[a].block].data].elems),
                                   cells[cells[cells[a].block].data].elems;
              |after| == Product(dims) && forall k :: 0 <= k < |before| && k < Product(dims) ==> after[k] == before[k]
    {
      var b := cells[a].block;
      ghost var h := cells;
      FreeTables(a);
      ghost var g := cells;
      BlockResize(b, dims);
      ResizeAside(g, cells, a, b, dims);
      FinishAlloc(a, b, dims);
      assert h - Holdings(h, a) == g - {a};
    }
  }

  /** A resize does the same to the heap without the allocatable. */
  lemma ResizeAside(h: Heap, h': Heap, a: Addr, b: Addr, dims: seq<nat>)
    requires IsAlloc(h, a) && BlockAt(h, b) && BlockResized(h, h', b, dims)
    ensures BlockAt(h - {a}, b) && BlockResized(h - {a}, h' - {a}, b, dims)
    ensures IsAlloc(h', a) && h'[a] == h[a] && BlockAt(h', b) && SizesOf(h', b) == dims
  {
    assert FreedBlock(h - {a}, b) == FreedBlock(h, b) - {a};
  }

  /** The loop that multiplies the dims up. */
  method TotalOf(dims: seq<nat>) returns (tot: nat)
    ensures tot == Product(dims)
  {
    tot := 1;
    for idx := 0 to |dims|
      invariant tot == Product(dims[..idx])
    {
      assert dims[..idx + 1][..idx] == dims[..idx];
      tot := tot * dims[idx];
    }
    assert dims[..|dims|] == dims;
  }

  /** `g` is `h` with new cells at exactly the addresses `s`. */
  ghost predicate Adds(h: Heap, g: Heap, s: set<Addr>) {
    && s !! h.Keys && g.Keys == h.Keys + s
    && forall x :: x in h ==> g[x] == h[x]
  }

  /** A table is whole once its root holds all the slots. */
  lemma RootFilled(filled: Heap, after: Heap, vec: Addr, slots: seq<Ptr>, dims: seq<nat>, area: Addr, off: nat)
    requires |dims| > 1 && |slots| == dims[|dims| - 1] && vec in filled && after == filled[vec := Table(slots)]
    requires SlotsAt(filled, vec, slots, dims[..|dims| - 1], area, off, |slots|)
    requires vec !in SlotAddrs(filled, slots, dims[..|dims| - 1], |slots|)
    ensures TableAt(after, At(vec, 0), dims, area, off)
    ensures TableAddrs(after, At(vec, 0), dims) == {vec} + SlotAddrs(filled, slots, dims[..|dims| - 1], |slots|)
  {
    SlotAddrsAreTables(filled, slots, dims[..|dims| - 1], |slots|);
    SlotsFrame(filled, after, vec, slots, dims[..|dims| - 1], area, off, |slots|);
  }

  lemma AddsInTurn(h: Heap, before: Heap, grown: Heap, after: Heap, vec: Addr, s: set<Addr>, t: set<Addr>)
    requires Adds(h, before, {vec} + s) && Adds(before, grown, t)
    requires vec in after && after == grown[vec := after[vec]]
    ensures Adds(h, after, {vec} + s + t)
  {
  }

  lemma OneMoreSlot(before: Heap, grown: Heap, after: Heap, vec: Addr, slots: seq<Ptr>, q: Ptr, dims: seq<nat>,
                    area: Addr, off: nat)
    requires dims != [] && SlotsAt(before, vec, slots, dims, area, off, |slots|)
    requires vec in before && vec !in SlotAddrs(before, slots, dims, |slots|)
    requires TableAt(grown, q, dims, area, off + |slots| * Product(dims))
    requires Adds(before, grown, TableAddrs(grown, q, dims))
    requires vec in after && after == grown[vec := after[vec]]
    ensures var more := slots + [q];
            && SlotsAt(after, vec, more, dims, area, off, |more|)
            && SlotAddrs(after, more, dims, |more|)
               == SlotAddrs(before, slots, dims, |slots|) + TableAddrs(grown, q, dims)
            && vec !in SlotAddrs(after, more, dims, |more|)
  {
    var more := slots + [q];
    SlotAddrsAreTables(before, slots, dims, |slots|);
    TableAddrsAreTables(grown, q, dims);
    SlotsFrame(before, after, vec, slots, dims, area, off, |slots|);
    TableFrame(grown, after, q, dims, area, off + |slots| * Product(dims));
    SlotsPrefix(after, vec, slots, more, dims, area, off, |slots|);
  }

  lemma {:induction false} RootIsNoSlot(h: Heap, root: Addr, slots: seq<Ptr>, dims: seq<nat>, area: Addr, off: nat,
                                        n: nat)
    requires dims != [] && n <= |slots| && SlotsAt(h, root, slots, dims, area, off, n)
    ensures root !in SlotAddrs(h, slots, dims, n)
    decreases n
  {
    if n == 0 {
    } else {
      RootIsNoSlot(h, root, slots, dims, area, off, n - 1);
    }
  }

  lemma {:induction false} NoSubtables(h: Heap, slots: seq<Ptr>, dims: seq<nat>, n: nat)
    requires |dims| == 1 && n <= |slots|
    ensures SlotAddrs(h, slots, dims, n) == {}
    decreases n
  {
    if n == 0 {
    } else {
      NoSubtables(h, slots, dims, n - 1);
    }
  }
}
