/** Who owns what on the heap, and what every operation on blocks and allocatables keeps. */
module SoftcOwnership {
  import opened SoftcHeap
  import opened SoftcTables

  const MAX_RANK := 4

  predicate IsAlloc(h: Heap, a: Addr) {
    a in h && h[a].Alloc?
  }

  predicate HasBlock(h: Heap, a: Addr) {
    IsAlloc(h, a) && BlockAt(h, h[a].block) && SizesOf(h, h[a].block) != []
  }

  /** All the tables of an allocatable, for the dims its block has now. */
  function TablesOf(h: Heap, a: Addr): set<Addr> {
    if HasBlock(h, a) then TableAddrs(h, h[a].table, SizesOf(h, h[a].block)) else {}
  }

  ghost predicate AllocAt(h: Heap, a: Addr) {
    && HasBlock(h, a) && |SizesOf(h, h[a].block)| <= MAX_RANK
    && TableAt(h, h[a].table, SizesOf(h, h[a].block), h[h[a].block].data, 0)
  }

  /** Every allocatable is whole: its table fits the dims and the data of its block. */
  ghost predicate AllocsWhole(h: Heap) {
    forall a :: IsAlloc(h, a) ==> AllocAt(h, a)
  }

  /** Allocatables share neither blocks nor tables. */
  ghost predicate AllocsApart(h: Heap) {
    forall a, c :: IsAlloc(h, a) && IsAlloc(h, c) && a != c ==>
                     h[a].block != h[c].block && TablesOf(h, a) !! TablesOf(h, c)
  }

  /** Every table belongs to an allocatable. */
  ghost predicate TablesOwned(h: Heap) {
    forall t :: t in h && h[t].Table? ==> exists a :: IsAlloc(h, a) && t in TablesOf(h, a)
  }

  ghost predicate AllocInv(h: Heap) {
    AllocsWhole(h) && AllocsApart(h) && TablesOwned(h)
  }

  ghost predicate Inv(h: Heap) {
    BlockInv(h) && AllocInv(h)
  }

  /** No allocatable uses the block. */
  ghost predicate Unowned(h: Heap, b: Addr) {
    forall a :: IsAlloc(h, a) ==> h[a].block != b
  }

  // ---------- Block operations do not disturb allocatables ----------

  lemma AllocsUndisturbed(h: Heap, h': Heap, b: Addr, a: Addr)
    requires OneMoreBlock(h, h', b) && BlocksWhole(h) && BlocksWhole(h')
    ensures IsAlloc(h, a) <==> IsAlloc(h', a)
    ensures IsAlloc(h, a) && h[a].block != b && (AllocAt(h, a) || AllocAt(h', a)) ==>
              h'[a] == h[a] && AllocAt(h, a) && AllocAt(h', a) && TablesOf(h', a) == TablesOf(h, a)
  {
    SameBlocks(h, h', b);
    if IsAlloc(h, a) && h[a].block != b && (AllocAt(h, a) || AllocAt(h', a)) {
      var c := h[a].block;
      assert IsBlock(h, c) && IsBlock(h', c);
      assert BlockAt(h, c) && BlockAt(h', c);
      var dims, area := SizesOf(h, c), h[c].data;
      if AllocAt(h, a) {
        TableAddrsAreTables(h, h[a].table, dims);
        TableFrame(h, h', h[a].table, dims, area, 0);
      } else {
        TableAddrsAreTables(h', h[a].table, dims);
        TableFrame(h', h, h[a].table, dims, area, 0);
      }
    }
  }

  lemma AddBlockKeepsAllocInv(h: Heap, h': Heap, b: Addr)
    requires OneMoreBlock(h, h', b) && BlocksWhole(h) && BlocksWhole(h') && AllocInv(h)
    ensures AllocInv(h') && Unowned(h', b)
  {
    forall a ensures IsAlloc(h, a) <==> IsAlloc(h', a)
      ensures IsAlloc(h, a) ==> h'[a] == h[a] && h[a].block != b && AllocAt(h', a) && TablesOf(h', a) == TablesOf(h, a)
    {
      AllocsUndisturbed(h, h', b, a);
      assert IsAlloc(h, a) ==> AllocAt(h, a);
    }
    forall t | t in h' && h'[t].Table? ensures exists a :: IsAlloc(h', a) && t in TablesOf(h', a) {
      assert t in h && h[t].Table?;
      var a :| IsAlloc(h, a) && t in TablesOf(h, a);
      assert IsAlloc(h', a) && t in TablesOf(h', a);
    }
  }

  lemma RemoveBlockKeepsAllocInv(h: Heap, h': Heap, b: Addr)
    requires OneMoreBlock(h, h', b) && BlocksWhole(h) && BlocksWhole(h') && AllocInv(h') && Unowned(h', b)
    ensures AllocInv(h)
  {
    forall a ensures IsAlloc(h, a) <==> IsAlloc(h', a)
      ensures IsAlloc(h, a) ==> h'[a] == h[a] && AllocAt(h, a) && TablesOf(h', a) == TablesOf(h, a)
    {
      AllocsUndisturbed(h, h', b, a);
      if IsAlloc(h, a) {
        assert IsAlloc(h', a) && AllocAt(h', a) && h'[a] == h[a];
      }
    }
    forall t | t in h && h[t].Table? ensures exists a :: IsAlloc(h, a) && t in TablesOf(h, a) {
      assert t in h' && h'[t].Table?;
      var a :| IsAlloc(h', a) && t in TablesOf(h', a);
      assert IsAlloc(h, a) && t in TablesOf(h, a);
    }
  }

  // ---------- Allocatables come and go with their tables ----------

  /** What an allocatable holds besides its block. */
  function Holdings(h: Heap, a: Addr): set<Addr> {
    {a} + TablesOf(h, a)
  }

  lemma HoldingsAreNoBlocks(h: Heap, a: Addr)
    requires IsAlloc(h, a)
    ensures forall x :: x in Holdings(h, a) ==> x in h && (h[x].Alloc? || h[x].Table?) && (h[x].Alloc? ==> x == a)
  {
    if HasBlock(h, a) {
      TableAddrsAreTables(h, h[a].table, SizesOf(h, h[a].block));
    }
  }

  /** Blocks, dims and areas are the same with and without an allocatable. */
  lemma HoldingsDoNotCount(h: Heap, a: Addr)
    requires IsAlloc(h, a)
    ensures var h0 := h - Holdings(h, a);
            && (forall x :: x in h0 <==> x in h && x !in Holdings(h, a)) && (forall x :: x in h0 ==> h0[x] == h[x])
            && (forall x :: IsBlock(h0, x) <==> IsBlock(h, x))
            && (forall x :: BlockAt(h0, x) <==> BlockAt(h, x))
            && (forall r :: Users(h0, r) == Users(h, r))
            && (BlockInv(h0) <==> BlockInv(h))
  {
    var h0 := h - Holdings(h, a);
    HoldingsAreNoBlocks(h, a);
    forall x ensures IsBlock(h0, x) <==> IsBlock(h, x) {}
    forall x ensures IsDims(h0, x) <==> IsDims(h, x) {}
    forall x ensures IsArea(h0, x) <==> IsArea(h, x) {}
    forall r ensures Users(h0, r) == Users(h, r) {
      forall x ensures x in Users(h0, r) <==> x in Users(h, r) {
        assert IsBlock(h0, x) <==> IsBlock(h, x);
      }
    }
    forall x ensures BlockAt(h0, x) <==> BlockAt(h, x) {}
    SameDimsOwners(h0, h);
    SameDimsOwners(h, h0);
  }

  lemma SameDimsOwners(h: Heap, g: Heap)
    requires forall x :: IsBlock(h, x) <==> IsBlock(g, x)
    requires forall x :: IsDims(h, x) <==> IsDims(g, x)
    requires forall x :: IsBlock(h, x) && IsBlock(g, x) ==> h[x] == g[x]
    ensures DimsOwned(h) ==> DimsOwned(g)
  {
    if DimsOwned(h) {
      forall d | IsDims(g, d) ensures exists b :: IsBlock(g, b) && g[b].dims == d {
        var b :| IsBlock(h, b) && h[b].dims == d;
        assert IsBlock(g, b) && g[b].dims == d;
      }
    }
  }

  /** The other allocatables look the same with and without `a`. */
  lemma OthersUndisturbed(h: Heap, a: Addr, c: Addr)
    requires IsAlloc(h, a) && c != a
    ensures var h0 := h - Holdings(h, a);
            && (IsAlloc(h0, c) <==> IsAlloc(h, c))
            && (IsAlloc(h, c) && (AllocAt(h0, c) || (AllocAt(h, c) && TablesOf(h, c) !! TablesOf(h, a))) ==>
                  h0[c] == h[c] && AllocAt(h0, c) && AllocAt(h, c) && TablesOf(h0, c) == TablesOf(h, c))
  {
    var h0 := h - Holdings(h, a);
    HoldingsAreNoBlocks(h, a);
    HoldingsDoNotCount(h, a);
    if IsAlloc(h, c) && (AllocAt(h0, c) || (AllocAt(h, c) && TablesOf(h, c) !! TablesOf(h, a))) {
      var b := h[c].block;
      assert BlockAt(h0, b) && BlockAt(h, b) && SizesOf(h0, b) == SizesOf(h, b);
      if AllocAt(h0, c) {
        TableAddrsAreTables(h0, h[c].table, SizesOf(h, b));
        TableFrame(h0, h, h[c].table, SizesOf(h, b), h[b].data, 0);
      } else {
        TableAddrsAreTables(h, h[c].table, SizesOf(h, b));
        TableFrame(h, h0, h[c].table, SizesOf(h, b), h[b].data, 0);
      }
    }
  }

  lemma RemoveAllocKeepsInv(h: Heap, a: Addr)
    requires Inv(h) && IsAlloc(h, a)
    ensures var h0 := h - Holdings(h, a); Inv(h0) && BlockAt(h0, h[a].block) && Unowned(h0, h[a].block)
  {
    var h0 := h - Holdings(h, a);
    HoldingsDoNotCount(h, a);
    HoldingsAreNoBlocks(h, a);
    assert AllocAt(h, a);
    forall c ensures IsAlloc(h0, c) <==> IsAlloc(h, c) && c != a
      ensures IsAlloc(h0, c) ==> h0[c] == h[c] && AllocAt(h0, c) && TablesOf(h0, c) == TablesOf(h, c)
    {
      if c != a {
        OthersUndisturbed(h, a, c);
        assert IsAlloc(h, c) ==> AllocAt(h, c) && TablesOf(h, c) !! TablesOf(h, a);
      }
    }
    forall t | t in h0 && h0[t].Table? ensures exists c :: IsAlloc(h0, c) && t in TablesOf(h0, c) {
      assert t in h && h[t].Table?;
      var c :| IsAlloc(h, c) && t in TablesOf(h, c);
      assert IsAlloc(h0, c) && t in TablesOf(h0, c);
    }
  }

  lemma OthersStay(h: Heap, a: Addr, c: Addr)
    requires IsAlloc(h, a) && c != a && IsAlloc(h, c)
    requires var h0 := h - Holdings(h, a); AllocsWhole(h0) && Unowned(h0, h[a].block)
    ensures IsAlloc(h - Holdings(h, a), c)
    ensures AllocAt(h, c) && TablesOf(h - Holdings(h, a), c) == TablesOf(h, c)
    ensures h[c].block != h[a].block && TablesOf(h, c) !! TablesOf(h, a)
  {
    var h0 := h - Holdings(h, a);
    OthersUndisturbed(h, a, c);
    assert IsAlloc(h0, c) && AllocAt(h0, c);
    TableAddrsAreTables(h0, h0[c].table, SizesOf(h0, h0[c].block));
  }

  lemma AddAllocKeepsInv(h: Heap, a: Addr)
    requires IsAlloc(h, a) && AllocAt(h, a)
    requires var h0 := h - Holdings(h, a); Inv(h0) && Unowned(h0, h[a].block)
    ensures Inv(h)
  {
    assert BlockInv(h) by { HoldingsDoNotCount(h, a); }
    AddAllocKeepsWhole(h, a);
    AddAllocKeepsApart(h, a);
    AddAllocKeepsTablesOwned(h, a);
  }

  lemma AddAllocKeepsWhole(h: Heap, a: Addr)
    requires IsAlloc(h, a) && AllocAt(h, a)
    requires var h0 := h - Holdings(h, a); AllocInv(h0) && Unowned(h0, h[a].block)
    ensures AllocsWhole(h)
  {
    forall c | IsAlloc(h, c) ensures AllocAt(h, c) {
      if c != a { OthersStay(h, a, c); }
    }
  }

  lemma AddAllocKeepsApart(h: Heap, a: Addr)
    requires IsAlloc(h, a)
    requires var h0 := h - Holdings(h, a); AllocInv(h0) && Unowned(h0, h[a].block)
    ensures AllocsApart(h)
  {
    forall c, e | IsAlloc(h, c) && IsAlloc(h, e) && c != e
      ensures h[c].block != h[e].block && TablesOf(h, c) !! TablesOf(h, e)
    {
      AddAllocKeepsPairApart(h, a, c, e);
    }
  }

  lemma AddAllocKeepsPairApart(h: Heap, a: Addr, c: Addr, e: Addr)
    requires IsAlloc(h, a) && IsAlloc(h, c) && IsAlloc(h, e) && c != e
    requires var h0 := h - Holdings(h, a); AllocInv(h0) && Unowned(h0, h[a].block)
    ensures h[c].block != h[e].block && TablesOf(h, c) !! TablesOf(h, e)
  {
    if c == a {
      OthersStay(h, a, e);
    } else if e == a {
      OthersStay(h, a, c);
    } else {
      OthersStay(h, a, c);
      OthersStay(h, a, e);
      var h0 := h - Holdings(h, a);
      assert IsAlloc(h0, c) && IsAlloc(h0, e);
      assert h0[c] == h[c] && h0[e] == h[e];
    }
  }

  lemma AddAllocKeepsTablesOwned(h: Heap, a: Addr)
    requires IsAlloc(h, a)
    requires var h0 := h - Holdings(h, a); AllocInv(h0) && Unowned(h0, h[a].block)
    ensures TablesOwned(h)
  {
    var h0 := h - Holdings(h, a);
    forall t | t in h && h[t].Table? ensures exists c :: IsAlloc(h, c) && t in TablesOf(h, c) {
      if t !in TablesOf(h, a) {
        assert t in h0 && h0[t].Table?;
        var c :| IsAlloc(h0, c) && t in TablesOf(h0, c);
        OthersStay(h, a, c);
        assert IsAlloc(h, c) && t in TablesOf(h, c);
      }
    }
  }
}
