/** The effect of every call on blocks and allocatables, and what holds over any run of them. */
module SoftcRuns {
  import opened Dimensions
  import opened SoftcIndexing
  import opened SoftcHeap
  import opened SoftcTables
  import opened SoftcOwnership

  predicate Rank(dims: seq<nat>) {
    1 <= |dims| <= MAX_RANK
  }

  /** A new allocatable `a` with its tables, on top of a new block. */
  ghost predicate AllocCreated(h: Heap, h': Heap, a: Addr, dims: seq<nat>) {
    && Rank(dims) && a !in h && IsAlloc(h', a) && AllocAt(h', a)
    && BlockCreated(h, h' - Holdings(h', a), h'[a].block, dims)
  }

  ghost predicate AllocCopied(h: Heap, h': Heap, a: Addr, orig: Addr) {
    && AllocAt(h, orig) && a !in h && IsAlloc(h', a) && AllocAt(h', a)
    && BlockCopied(h, h' - Holdings(h', a), h'[a].block, h[orig].block)
  }

  function FreedAlloc(h: Heap, a: Addr): Heap
    requires AllocAt(h, a)
  {
    HoldingsDoNotCount(h, a);
    FreedBlock(h - Holdings(h, a), h[a].block)
  }

  /** Torn down and built anew at the same addresses of allocatable and block. */
  ghost predicate AllocResized(h: Heap, h': Heap, a: Addr, dims: seq<nat>) {
    && AllocAt(h, a) && RefsOf(h, h[a].block) == 0
    && AllocCreated(FreedAlloc(h, a), h', a, dims)
    && h'[a].block == h[a].block
    && KeptElems(h[h[h[a].block].data].elems, h'[h'[h'[a].block].data].elems)
  }

  datatype Op =
    | CreateBlock(b: Addr, dims: seq<nat>)
    | CopyBlock(b: Addr, orig: Addr)
    | ResizeBlock(b: Addr, dims: seq<nat>)
    | FreeBlock(b: Addr)
    | Create(a: Addr, dims: seq<nat>)
    | Copy(a: Addr, orig: Addr)
    | Resize(a: Addr, dims: seq<nat>)
    | Free(a: Addr)

  /** One call. Blocks inside an allocatable are not resized or freed behind its back, and only
      unshared data is resized, as the source asserts. */
  ghost predicate Next(h: Heap, h': Heap, op: Op) {
    match op
    case CreateBlock(b, dims) => dims != [] && BlockCreated(h, h', b, dims)
    case CopyBlock(b, orig) => BlockAt(h, orig) && BlockCopied(h, h', b, orig)
    case ResizeBlock(b, dims) => BlockAt(h, b) && Unowned(h, b) && BlockResized(h, h', b, dims)
    case FreeBlock(b) => BlockAt(h, b) && Unowned(h, b) && h' == FreedBlock(h, b)
    case Create(a, dims) => AllocCreated(h, h', a, dims)
    case Copy(a, orig) => AllocCopied(h, h', a, orig)
    case Resize(a, dims) => AllocResized(h, h', a, dims)
    case Free(a) => AllocAt(h, a) && h' == FreedAlloc(h, a)
  }

  lemma CreateBlockKeepsInv(h: Heap, h': Heap, b: Addr, dims: seq<nat>)
    requires Inv(h) && BlockCreated(h, h', b, dims)
    ensures Inv(h') && Unowned(h', b)
  {
    CreateKeepsBlockInv(h, h', b, dims);
    AddBlockKeepsAllocInv(h, h', b);
  }

  lemma CopyBlockKeepsInv(h: Heap, h': Heap, b: Addr, orig: Addr)
    requires Inv(h) && BlockAt(h, orig) && BlockCopied(h, h', b, orig)
    ensures Inv(h') && Unowned(h', b)
  {
    CopyKeepsBlockInv(h, h', b, orig);
    AddBlockKeepsAllocInv(h, h', b);
  }

  lemma FreeBlockKeepsInv(h: Heap, b: Addr)
    requires Inv(h) && BlockAt(h, b) && Unowned(h, b)
    ensures Inv(FreedBlock(h, b))
  {
    FreeKeepsBlockInv(h, b);
    RemoveBlockKeepsAllocInv(FreedBlock(h, b), h, b);
  }

  lemma CreateKeepsInv(h: Heap, h': Heap, a: Addr, dims: seq<nat>)
    requires Inv(h) && AllocCreated(h, h', a, dims)
    ensures Inv(h')
  {
    CreateBlockKeepsInv(h, h' - Holdings(h', a), h'[a].block, dims);
    AddAllocKeepsInv(h', a);
  }

  lemma CopyKeepsInv(h: Heap, h': Heap, a: Addr, orig: Addr)
    requires Inv(h) && AllocCopied(h, h', a, orig)
    ensures Inv(h')
  {
    CopyBlockKeepsInv(h, h' - Holdings(h', a), h'[a].block, h[orig].block);
    AddAllocKeepsInv(h', a);
  }

  lemma FreeKeepsInv(h: Heap, a: Addr)
    requires Inv(h) && AllocAt(h, a)
    ensures Inv(FreedAlloc(h, a))
  {
    RemoveAllocKeepsInv(h, a);
    FreeBlockKeepsInv(h - Holdings(h, a), h[a].block);
  }

  lemma NextKeepsInv(h: Heap, h': Heap, op: Op)
    requires Inv(h) && Next(h, h', op)
    ensures Inv(h')
  {
    match op
    case CreateBlock(b, dims) => CreateBlockKeepsInv(h, h', b, dims);
    case CopyBlock(b, orig) => CopyBlockKeepsInv(h, h', b, orig);
    case ResizeBlock(b, dims) =>
      FreeBlockKeepsInv(h, b);
      CreateBlockKeepsInv(FreedBlock(h, b), h', b, dims);
    case FreeBlock(b) => FreeBlockKeepsInv(h, b);
    case Create(a, dims) => CreateKeepsInv(h, h', a, dims);
    case Copy(a, orig) => CopyKeepsInv(h, h', a, orig);
    case Resize(a, dims) =>
      FreeKeepsInv(h, a);
      CreateKeepsInv(FreedAlloc(h, a), h', a, dims);
    case Free(a) => FreeKeepsInv(h, a);
  }

  ghost predicate Run(trace: seq<Heap>, ops: seq<Op>) {
    && |trace| == |ops| + 1 && trace[0] == map[]
    && forall i :: 0 <= i < |ops| ==> Next(trace[i], trace[i + 1], ops[i])
  }

  /** At every point of every run of calls: each counter is right, no block points to freed
      data, and every allocatable has the tables for the dims its block has. */
  lemma {:induction false} RunsKeepInv(trace: seq<Heap>, ops: seq<Op>, i: nat)
    requires Run(trace, ops) && i < |trace|
    ensures Inv(trace[i])
  {
    if i == 0 {
      assert forall r :: !IsArea(trace[0], r);
    } else {
      RunsKeepInv(trace, ops, i - 1);
      NextKeepsInv(trace[i - 1], trace[i], ops[i - 1]);
    }
  }

  /** Nothing is lost: once a run has freed its blocks and allocatables, everything it ever
      allocated has been freed. */
  lemma RunsLeakNothing(trace: seq<Heap>, ops: seq<Op>, i: nat)
    requires Run(trace, ops) && i < |trace|
    requires forall x :: !IsAlloc(trace[i], x) && !IsBlock(trace[i], x)
    ensures trace[i] == map[]
  {
    RunsKeepInv(trace, ops, i);
    var h := trace[i];
    forall r ensures !IsArea(h, r) {
      assert forall b :: b in Users(h, r) ==> IsBlock(h, b);
      assert Users(h, r) == {};
    }
    forall x ensures x !in h {
      assert !IsArea(h, x) && !IsDims(h, x) && !IsBlock(h, x) && !IsAlloc(h, x);
    }
  }

  /** At every point of every run, the counter of an area that a block points to is the number
      of blocks that do, minus one; and the block's last owner to go takes the area with it. */
  lemma RunsCountReferences(trace: seq<Heap>, ops: seq<Op>, i: nat, b: Addr)
    requires Run(trace, ops) && i < |trace| && IsBlock(trace[i], b)
    ensures BlockAt(trace[i], b) && RefsOf(trace[i], b) + 1 == |Users(trace[i], trace[i][b].data)|
    ensures trace[i][b].data in FreedBlock(trace[i], b) <==> Users(trace[i], trace[i][b].data) != {b}
  {
    RunsKeepInv(trace, ops, i);
    var h := trace[i];
    assert BlockAt(h, b) && IsArea(h, h[b].data);
    FreeKeepsBlockInv(h, b);
  }

  /** At every point of every run, the table of an allocatable leads to the elements of its data
      area, of which there are as many as its dims stand for. */
  lemma RunsKeepAllocs(trace: seq<Heap>, ops: seq<Op>, i: nat, a: Addr)
    requires Run(trace, ops) && i < |trace| && IsAlloc(trace[i], a)
    ensures var h := trace[i];
            && AllocAt(h, a) && IsArea(h, h[h[a].block].data)
            && TableAt(h, h[a].table, SizesOf(h, h[a].block), h[h[a].block].data, 0)
            && |h[h[h[a].block].data].elems| == Product(SizesOf(h, h[a].block))
            && 1 <= |SizesOf(h, h[a].block)| <= 4
  {
    RunsKeepInv(trace, ops, i);
  }

  /** At every point of every run, following the table of any allocatable with in-range indices
      leads to the element of its data area at the row-major offset of the indices. */
  lemma RunsAddressElements(trace: seq<Heap>, ops: seq<Op>, i: nat, a: Addr)
    requires Run(trace, ops) && i < |trace| && IsAlloc(trace[i], a)
    ensures AllocAt(trace[i], a)
    ensures var h := trace[i];
            var b := h[a].block;
            forall idx :: InRange(SizesOf(h, b), idx) ==>
                            && Walk(h, h[a].table, idx) == At(h[b].data, Offset(SizesOf(h, b), idx))
                            && Offset(SizesOf(h, b), idx) < |h[h[b].data].elems|
  {
    RunsKeepAllocs(trace, ops, i, a);
    var h := trace[i];
    var b := h[a].block;
    forall idx | InRange(SizesOf(h, b), idx)
      ensures Walk(h, h[a].table, idx) == At(h[b].data, Offset(SizesOf(h, b), idx))
      ensures Offset(SizesOf(h, b), idx) < |h[h[b].data].elems|
    {
      WalkReachesOffset(h, h[a].table, SizesOf(h, b), h[b].data, 0, idx);
      OffsetInRange(SizesOf(h, b), idx);
    }
  }

  // ---------- What calls do to the data of blocks ----------

  /** The block has the same dims and the same data, in the same places. */
  ghost predicate SameData(h: Heap, h': Heap, b: Addr) {
    && BlockAt(h, b) && BlockAt(h', b) && h'[b] == h[b]
    && h'[h[b].dims].sizes == h[h[b].dims].sizes && h'[h[b].data].elems == h[h[b].data].elems
  }

  /** The block has the dims asked for, and its data are the old ones as far as both go. */
  ghost predicate ResizedData(h: Heap, h': Heap, b: Addr, dims: seq<nat>) {
    && BlockAt(h, b) && BlockAt(h', b) && h'[h'[b].dims].sizes == dims
    && |h'[h'[b].data].elems| == Product(dims)
    && forall k :: 0 <= k < |h[h[b].data].elems| && k < Product(dims) ==>
                     h'[h'[b].data].elems[k] == h[h[b].data].elems[k]
  }

  lemma OthersKeepData(h: Heap, h': Heap, c: Addr, b: Addr)
    requires OneMoreBlock(h, h', c) && BlockAt(h, b)
    ensures SameData(h, h', b)
  {
    SameBlocks(h, h', c);
    assert IsBlock(h, b) && IsDims(h, h[b].dims) && IsArea(h, h[b].data);
  }

  lemma CreateKeepsData(h: Heap, h': Heap, a: Addr, dims: seq<nat>, b: Addr)
    requires Inv(h) && AllocCreated(h, h', a, dims) && BlockAt(h, b)
    ensures SameData(h, h', b)
  {
    var g := h' - Holdings(h', a);
    CreateKeepsBlockInv(h, g, h'[a].block, dims);
    OthersKeepData(h, g, h'[a].block, b);
    HoldingsDoNotCount(h', a);
  }

  lemma CopyKeepsData(h: Heap, h': Heap, a: Addr, orig: Addr, b: Addr)
    requires Inv(h) && AllocCopied(h, h', a, orig) && BlockAt(h, b)
    ensures SameData(h, h', b)
  {
    var g := h' - Holdings(h', a);
    CopyKeepsBlockInv(h, g, h'[a].block, h[orig].block);
    OthersKeepData(h, g, h'[a].block, b);
    HoldingsDoNotCount(h', a);
  }

  lemma FreeBlockKeepsData(h: Heap, c: Addr, b: Addr)
    requires BlockInv(h) && BlockAt(h, c) && BlockAt(h, b) && b != c
    ensures SameData(h, FreedBlock(h, c), b)
  {
    FreeKeepsBlockInv(h, c);
    SameBlocks(FreedBlock(h, c), h, c);
    assert IsBlock(FreedBlock(h, c), b);
    OthersKeepData(FreedBlock(h, c), h, c, b);
  }

  lemma FreeKeepsData(h: Heap, a: Addr, b: Addr)
    requires Inv(h) && AllocAt(h, a) && BlockAt(h, b) && b != h[a].block
    ensures SameData(h, FreedAlloc(h, a), b)
  {
    HoldingsDoNotCount(h, a);
    FreeBlockKeepsData(h - Holdings(h, a), h[a].block, b);
  }

  lemma FreeKeepsOtherData(h: Heap, h': Heap, a: Addr, b: Addr)
    requires Inv(h) && AllocAt(h, a) && h' == FreedAlloc(h, a) && BlockAt(h, b) && IsBlock(h', b)
    ensures SameData(h, h', b)
  {
    FreeKeepsData(h, a, b);
  }

  lemma ResizeKeepsData(h: Heap, h': Heap, a: Addr, dims: seq<nat>, b: Addr)
    requires Inv(h) && AllocResized(h, h', a, dims) && BlockAt(h, b)
    ensures if b == h[a].block then ResizedData(h, h', b, dims) else SameData(h, h', b)
  {
    FreeKeepsInv(h, a);
    if b == h[a].block {
      HoldingsDoNotCount(h', a);
      CreateKeepsBlockInv(FreedAlloc(h, a), h' - Holdings(h', a), b, dims);
    } else {
      FreeKeepsData(h, a, b);
      CreateKeepsData(FreedAlloc(h, a), h', a, dims, b);
    }
  }

  predicate Resizes(h: Heap, op: Op, b: Addr) {
    || (op.ResizeBlock? && op.b == b)
    || (op.Resize? && IsAlloc(h, op.a) && h[op.a].block == b)
  }

  lemma CreateBlockKeepsData(h: Heap, h': Heap, c: Addr, dims: seq<nat>, b: Addr)
    requires BlockInv(h) && BlockCreated(h, h', c, dims) && BlockAt(h, b)
    ensures SameData(h, h', b)
  {
    CreateKeepsBlockInv(h, h', c, dims);
    OthersKeepData(h, h', c, b);
  }

  lemma CopyBlockKeepsData(h: Heap, h': Heap, c: Addr, orig: Addr, b: Addr)
    requires BlockInv(h) && BlockAt(h, orig) && BlockCopied(h, h', c, orig) && BlockAt(h, b)
    ensures SameData(h, h', b)
  {
    CopyKeepsBlockInv(h, h', c, orig);
    OthersKeepData(h, h', c, b);
  }

  lemma ResizeBlockKeepsData(h: Heap, h': Heap, c: Addr, dims: seq<nat>, b: Addr)
    requires BlockInv(h) && BlockAt(h, c) && BlockResized(h, h', c, dims) && BlockAt(h, b)
    ensures if b == c then ResizedData(h, h', b, dims) else SameData(h, h', b)
  {
    FreeKeepsBlockInv(h, c);
    CreateKeepsBlockInv(FreedBlock(h, c), h', c, dims);
    if b != c {
      FreeBlockKeepsData(h, c, b);
      OthersKeepData(FreedBlock(h, c), h', c, b);
    }
  }

  lemma StepKeepsData(h: Heap, h': Heap, op: Op, b: Addr)
    requires Inv(h) && Next(h, h', op) && BlockAt(h, b) && IsBlock(h', b)
    ensures if Resizes(h, op, b) then ResizedData(h, h', b, op.dims) else SameData(h, h', b)
  {
    match op
    case CreateBlock(c, dims) => CreateBlockKeepsData(h, h', c, dims, b);
    case CopyBlock(c, orig) => CopyBlockKeepsData(h, h', c, orig, b);
    case ResizeBlock(c, dims) => ResizeBlockKeepsData(h, h', c, dims, b);
    case FreeBlock(c) => FreeBlockKeepsData(h, c, b);
    case Create(a, dims) => CreateKeepsData(h, h', a, dims, b);
    case Copy(a, orig) => CopyKeepsData(h, h', a, orig, b);
    case Resize(a, dims) => ResizeKeepsData(h, h', a, dims, b);
    case Free(a) => FreeKeepsOtherData(h, h', a, b);
  }

  /** In every run, a step that resizes a block gives it the dims asked for and keeps each element
      that has a place in both the old and the new data area. Any other step leaves the dims and
      the data of the block as they are, whatever happens to blocks that share the data. */
  lemma RunsKeepData(trace: seq<Heap>, ops: seq<Op>, i: nat, b: Addr)
    requires Run(trace, ops) && i < |ops| && IsBlock(trace[i], b) && IsBlock(trace[i + 1], b)
    ensures var h, h' := trace[i], trace[i + 1];
            && BlockAt(h, b) && BlockAt(h', b)
            && var before, after := h[h[b].data].elems, h'[h'[b].data].elems;
            if Resizes(h, ops[i], b) then
              && h'[h'[b].dims].sizes == ops[i].dims && |after| == Product(ops[i].dims)
              && forall k :: 0 <= k < |before| && k < |after| ==> after[k] == before[k]
            else
              h'[h'[b].dims].sizes == h[h[b].dims].sizes && after == before
  {
    RunsKeepInv(trace, ops, i);
    StepKeepsData(trace[i], trace[i + 1], ops[i], b);
  }

  /** The block has the dims and the data of the other one, which it shares. */
  ghost predicate Shares(h: Heap, b: Addr, orig: Addr) {
    && BlockAt(h, b) && BlockAt(h, orig) && b != orig
    && h[b].data == h[orig].data && h[h[b].dims].sizes == h[h[orig].dims].sizes
  }

  lemma CopyShares(h: Heap, h': Heap, b: Addr, orig: Addr)
    requires BlockInv(h) && BlockAt(h, orig) && BlockCopied(h, h', b, orig)
    ensures Shares(h', b, orig)
  {
    CopyKeepsBlockInv(h, h', b, orig);
    OthersKeepData(h, h', b, orig);
  }

  lemma AllocCopyShares(h: Heap, h': Heap, a: Addr, orig: Addr)
    requires Inv(h) && AllocCopied(h, h', a, orig)
    ensures Shares(h', h'[a].block, h[orig].block)
  {
    CopyShares(h, h' - Holdings(h', a), h'[a].block, h[orig].block);
    HoldingsDoNotCount(h', a);
  }

  lemma CreateMakes(h: Heap, h': Heap, a: Addr, dims: seq<nat>)
    requires AllocCreated(h, h', a, dims)
    ensures AllocAt(h', a) && h'[h'[h'[a].block].dims].sizes == dims
  {
    HoldingsDoNotCount(h', a);
  }

  lemma FreeTakesAway(h: Heap, a: Addr)
    requires AllocAt(h, a)
    ensures a !in FreedAlloc(h, a) && h[a].block !in FreedAlloc(h, a)
  {
    HoldingsDoNotCount(h, a);
  }

  /** What a step of a run makes: a block or allocatable of the dims asked for, or one that shares
      the data of another and has the same dims; or what it takes away. */
  lemma RunsMakeWhatIsAsked(trace: seq<Heap>, ops: seq<Op>, i: nat)
    requires Run(trace, ops) && i < |ops|
    ensures var h, h' := trace[i], trace[i + 1];
            match ops[i]
            case CreateBlock(b, dims) => b !in h && BlockAt(h', b) && h'[h'[b].dims].sizes == dims
            case CopyBlock(b, orig) => b !in h && Shares(h', b, orig)
            case FreeBlock(b) => b in h && b !in h'
            case Create(a, dims) => a !in h && AllocAt(h', a) && h'[h'[h'[a].block].dims].sizes == dims
            case Copy(a, orig) =>
              a !in h && AllocAt(h', a) && AllocAt(h, orig) && Shares(h', h'[a].block, h[orig].block)
            case Free(a) => AllocAt(h, a) && a !in h' && h[a].block !in h'
            case _ => true
  {
    var h, h' := trace[i], trace[i + 1];
    RunsKeepInv(trace, ops, i);
    match ops[i]
    case CopyBlock(b, orig) => CopyShares(h, h', b, orig);
    case Create(a, dims) => CreateMakes(h, h', a, dims);
    case Copy(a, orig) => AllocCopyShares(h, h', a, orig);
    case Free(a) => FreeTakesAway(h, a);
    case _ =>
  }

  /** The block is there from point `i` to point `j` of a run, and no call resizes it. */
  ghost predicate Untouched(trace: seq<Heap>, ops: seq<Op>, i: nat, j: nat, b: Addr)
    requires i <= j < |trace| == |ops| + 1
  {
    && (forall m :: i <= m <= j ==> IsBlock(trace[m], b))
    && (forall m :: i <= m < j ==> !Resizes(trace[m], ops[m], b))
  }

  lemma UntouchedStep(trace: seq<Heap>, ops: seq<Op>, i: nat, j: nat, b: Addr)
    requires Run(trace, ops) && i < j < |trace| && Untouched(trace, ops, i, j, b)
    ensures Untouched(trace, ops, i, j - 1, b) && SameData(trace[j - 1], trace[j], b)
  {
    RunsKeepInv(trace, ops, j - 1);
    assert IsBlock(trace[j - 1], b) && !Resizes(trace[j - 1], ops[j - 1], b);
    StepKeepsData(trace[j - 1], trace[j], ops[j - 1], b);
  }

  lemma SameDataInTurn(h: Heap, g: Heap, h': Heap, b: Addr)
    requires SameData(h, g, b) && SameData(g, h', b)
    ensures SameData(h, h', b)
  {
  }

  /** So a block that is there all along has the dims and the data it had at the start, if it was
      never resized in between. */
  lemma {:induction false} RunsKeepDataThroughout(trace: seq<Heap>, ops: seq<Op>, i: nat, j: nat, b: Addr)
    requires Run(trace, ops) && i <= j < |trace| && Untouched(trace, ops, i, j, b)
    ensures SameData(trace[i], trace[j], b)
    decreases j
  {
    if i == j {
      RunsKeepInv(trace, ops, i);
      assert IsBlock(trace[i], b);
    } else {
      UntouchedStep(trace, ops, i, j, b);
      RunsKeepDataThroughout(trace, ops, i, j - 1, b);
      SameDataInTurn(trace[i], trace[j - 1], trace[j], b);
    }
  }

  // ---------- Reshaping ----------

  /** The dims a reshape leaves: realloc keeps what fits, and the values asked for are never
      copied, so that grown space holds `left`, whatever that is. */
  function ReshapedDims(sizes: seq<nat>, dims: seq<nat>, left: seq<nat>): seq<nat> {
    if |dims| <= |sizes| then sizes[..|dims|] else sizes + left
  }

  /** The exact condition for `softc_block_reshape` to leave the dims it was asked for, whatever
      realloc leaves in grown space: the dims asked for are the leading ones of the old dims. */
  lemma ReshapeGivesDimsIff(sizes: seq<nat>, dims: seq<nat>)
    ensures (forall left: seq<nat> :: |left| == Grown(sizes, dims) ==> ReshapedDims(sizes, dims, left) == dims)
        <==> dims <= sizes
  {
    if |dims| <= |sizes| {
      assert ReshapedDims(sizes, dims, []) == sizes[..|dims|];
      assert dims <= sizes <==> dims == sizes[..|dims|];
    } else {
      var n := Grown(sizes, dims);
      var other := seq(n, i requires 0 <= i < n => dims[|sizes| + i] + 1);
      assert ReshapedDims(sizes, dims, other)[|sizes|] != dims[|sizes|];
    }
  }

  function Grown(sizes: seq<nat>, dims: seq<nat>): nat {
    if |dims| <= |sizes| then 0 else |dims| - |sizes|
  }

  /** A call that passes the assertion on sizes and leaves other dims than those asked for. */
  lemma ReshapeKeepsOldDims()
    ensures Product([2, 3]) == Product([3, 2])
    ensures ReshapedDims([2, 3], [3, 2], []) == [2, 3] != [3, 2]
  {
    ProductOne(2);
    ProductOne(3);
    ProductSnoc([2], 3);
    ProductSnoc([3], 2);
    assert [2] + [3] == [2, 3] && [3] + [2] == [3, 2];
    assert [2, 3][..2] == [2, 3];
    assert [2, 3][0] != [3, 2][0];
  }
}
