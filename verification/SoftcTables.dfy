/** The pointer tables of softc-allocatable.c. The macros for ranks 2 to 4 differ only in how
    deep they nest, so one definition by recursion on the rank covers them. */
module SoftcTables {
  import opened Dimensions
  import opened SoftcIndexing
  import opened SoftcHeap

  predicate IsTable(h: Heap, p: Ptr) {
    p.At? && p.off == 0 && p.base in h && h[p.base].Table?
  }

  /** The addresses of the table at `p` for the given dims, and of all tables below it. */
  function TableAddrs(h: Heap, p: Ptr, dims: seq<nat>): set<Addr>
    requires dims != []
    decreases |dims|, 0
  {
    if |dims| == 1 || !IsTable(h, p) then {}
    else {p.base} + SlotAddrs(h, h[p.base].slots, dims[..|dims| - 1], |h[p.base].slots|)
  }

  /** The addresses of the tables in the first `n` slots. */
  function SlotAddrs(h: Heap, slots: seq<Ptr>, dims: seq<nat>, n: nat): set<Addr>
    requires dims != [] && n <= |slots|
    decreases |dims|, 1, n
  {
    if n == 0 then {} else SlotAddrs(h, slots, dims, n - 1) + TableAddrs(h, slots[n - 1], dims)
  }

  /** `p` leads to the elements of `area` from `off` on, through tables that share no memory. */
  ghost predicate TableAt(h: Heap, p: Ptr, dims: seq<nat>, area: Addr, off: nat)
    requires dims != []
    decreases |dims|, 0
  {
    if |dims| == 1 then p == At(area, off)
    else
      && IsTable(h, p) && |h[p.base].slots| == dims[|dims| - 1]
      && SlotsAt(h, p.base, h[p.base].slots, dims[..|dims| - 1], area, off, |h[p.base].slots|)
  }

  ghost predicate SlotsAt(h: Heap, root: Addr, slots: seq<Ptr>, dims: seq<nat>, area: Addr, off: nat, n: nat)
    requires dims != [] && n <= |slots|
    decreases |dims|, 1, n
  {
    n > 0 ==>
      && SlotsAt(h, root, slots, dims, area, off, n - 1)
      && TableAt(h, slots[n - 1], dims, area, off + (n - 1) * Product(dims))
      && root !in TableAddrs(h, slots[n - 1], dims)
      && TableAddrs(h, slots[n - 1], dims) !! SlotAddrs(h, slots, dims, n - 1)
  }

  ghost predicate Agree(h: Heap, g: Heap, s: set<Addr>) {
    forall x :: x in s ==> x in h && x in g && h[x] == g[x]
  }

  lemma {:induction false} TableAddrsAreTables(h: Heap, p: Ptr, dims: seq<nat>)
    requires dims != []
    ensures forall x :: x in TableAddrs(h, p, dims) ==> x in h && h[x].Table?
    decreases |dims|, 0
  {
    if |dims| > 1 && IsTable(h, p) {
      SlotAddrsAreTables(h, h[p.base].slots, dims[..|dims| - 1], |h[p.base].slots|);
    }
  }

  lemma {:induction false} SlotAddrsAreTables(h: Heap, slots: seq<Ptr>, dims: seq<nat>, n: nat)
    requires dims != [] && n <= |slots|
    ensures forall x :: x in SlotAddrs(h, slots, dims, n) ==> x in h && h[x].Table?
    decreases |dims|, 1, n
  {
    if n == 0 {
    } else {
      SlotAddrsAreTables(h, slots, dims, n - 1);
      TableAddrsAreTables(h, slots[n - 1], dims);
    }
  }

  /** A table depends on nothing but its own memory. */
  lemma {:induction false} TableFrame(h: Heap, g: Heap, p: Ptr, dims: seq<nat>, area: Addr, off: nat)
    requires dims != [] && TableAt(h, p, dims, area, off)
    requires Agree(h, g, TableAddrs(h, p, dims))
    ensures TableAt(g, p, dims, area, off) && TableAddrs(g, p, dims) == TableAddrs(h, p, dims)
    decreases |dims|, 0
  {
    if |dims| <= 1 {
    } else {
      SlotsFrame(h, g, p.base, h[p.base].slots, dims[..|dims| - 1], area, off, |h[p.base].slots|);
    }
  }

  lemma {:induction false} SlotsFrame(h: Heap, g: Heap, root: Addr, slots: seq<Ptr>, dims: seq<nat>, area: Addr,
                                      off: nat, n: nat)
    requires dims != [] && n <= |slots| && SlotsAt(h, root, slots, dims, area, off, n)
    requires Agree(h, g, SlotAddrs(h, slots, dims, n))
    ensures SlotsAt(g, root, slots, dims, area, off, n) && SlotAddrs(g, slots, dims, n) == SlotAddrs(h, slots, dims, n)
    decreases |dims|, 1, n
  {
    if n == 0 {
    } else {
      SlotsFrame(h, g, root, slots, dims, area, off, n - 1);
      TableFrame(h, g, slots[n - 1], dims, area, off + (n - 1) * Product(dims));
    }
  }

  /** Only the first `n` slots matter for the first `n` subtables. */
  lemma {:induction false} SlotsPrefix(h: Heap, root: Addr, slots: seq<Ptr>, slots': seq<Ptr>, dims: seq<nat>,
                                       area: Addr, off: nat, n: nat)
    requires dims != [] && n <= |slots| && n <= |slots'| && slots[..n] == slots'[..n]
    ensures SlotAddrs(h, slots', dims, n) == SlotAddrs(h, slots, dims, n)
    ensures SlotsAt(h, root, slots', dims, area, off, n) <==> SlotsAt(h, root, slots, dims, area, off, n)
    decreases n
  {
    if n == 0 {
    } else {
      assert slots[n - 1] == slots[..n][n - 1] && slots'[n - 1] == slots'[..n][n - 1];
      assert slots[..n - 1] == slots[..n][..n - 1] && slots'[..n - 1] == slots'[..n][..n - 1];
      SlotsPrefix(h, root, slots, slots', dims, area, off, n - 1);
    }
  }

  /** Subtable `k` of a table is whole, apart from the root, and from the subtables before it. */
  lemma {:induction false} SlotAt(h: Heap, root: Addr, slots: seq<Ptr>, dims: seq<nat>, area: Addr, off: nat,
                                  n: nat, k: nat)
    requires dims != [] && k < n <= |slots| && SlotsAt(h, root, slots, dims, area, off, n)
    ensures TableAt(h, slots[k], dims, area, off + k * Product(dims))
    ensures root !in TableAddrs(h, slots[k], dims)
    ensures TableAddrs(h, slots[k], dims) !! SlotAddrs(h, slots, dims, k)
    ensures SlotAddrs(h, slots, dims, k) + TableAddrs(h, slots[k], dims) <= SlotAddrs(h, slots, dims, n)
    decreases n
  {
    if k < n - 1 {
      SlotAt(h, root, slots, dims, area, off, n - 1, k);
    }
  }

  /** Following the table with indices, slowest last, leads to the element at their offset. */
  function Walk(h: Heap, p: Ptr, idx: seq<nat>): Ptr
    requires idx != []
    decreases |idx|
  {
    var n := |idx| - 1;
    if n == 0 then (if p.At? then At(p.base, p.off + idx[0]) else Null)
    else if IsTable(h, p) && idx[n] < |h[p.base].slots| then Walk(h, h[p.base].slots[idx[n]], idx[..n])
    else Null
  }

  lemma {:induction false} WalkReachesOffset(h: Heap, p: Ptr, dims: seq<nat>, area: Addr, off: nat, idx: seq<nat>)
    requires dims != [] && TableAt(h, p, dims, area, off) && InRange(dims, idx)
    ensures Walk(h, p, idx) == At(area, off + Offset(dims, idx))
    decreases |dims|
  {
    var n := |dims| - 1;
    if n == 0 {
      assert Offset(dims, idx) == idx[0] * Product(dims[..0]);
      assert Product(dims[..0]) == 1;
    } else {
      SlotAt(h, p.base, h[p.base].slots, dims[..n], area, off, |h[p.base].slots|, idx[n]);
      WalkReachesOffset(h, h[p.base].slots[idx[n]], dims[..n], area, off + idx[n] * Product(dims[..n]), idx[..n]);
    }
  }
}
