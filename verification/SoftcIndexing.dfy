/** Where softc-allocatable.c puts the element with given indices: dims are listed fastest
    first, so dims [ni, nj, nk, nl] and indices [i, j, k, l] belong together. */
module SoftcIndexing {
  import opened Dimensions

  ghost predicate InRange(dims: seq<nat>, idx: seq<nat>) {
    |idx| == |dims| && forall d :: 0 <= d < |dims| ==> idx[d] < dims[d]
  }

  function Offset(dims: seq<nat>, idx: seq<nat>): nat
    requires |idx| == |dims|
  {
    if dims == [] then 0
    else
      var n := |dims| - 1;
      Offset(dims[..n], idx[..n]) + idx[n] * Product(dims[..n])
  }

  /** The indices that lie at an offset. */
  function Indices(dims: seq<nat>, offset: nat): (idx: seq<nat>)
    requires offset < Product(dims)
    ensures |idx| == |dims|
  {
    if dims == [] then []
    else
      var n := |dims| - 1;
      var p := Product(dims[..n]);
      DigitIsSmall(p, dims[n], offset);
      Indices(dims[..n], offset % p) + [offset / p]
  }

  lemma DigitIsSmall(p: nat, d: nat, offset: nat)
    requires offset < p * d
    ensures p > 0 && offset / p < d && offset % p < p
  {
  }

  lemma DivideBack(p: nat, rest: nat, digit: nat)
    requires rest < p
    ensures (rest + digit * p) / p == digit && (rest + digit * p) % p == rest
  {
    var q, r := (rest + digit * p) / p, (rest + digit * p) % p;
    assert rest - r == (q - digit) * p;
    if q > digit {
      MulMonotone(p, 1, q - digit);
    } else if q < digit {
      MulMonotone(p, 1, digit - q);
    }
  }

  lemma {:induction false} OffsetInRange(dims: seq<nat>, idx: seq<nat>)
    requires InRange(dims, idx)
    ensures Offset(dims, idx) < Product(dims)
  {
    if dims == [] {
    } else {
      var n := |dims| - 1;
      var p := Product(dims[..n]);
      OffsetInRange(dims[..n], idx[..n]);
      MulMonotone(p, idx[n] + 1, dims[n]);
      assert p * (idx[n] + 1) == idx[n] * p + p;
    }
  }

  /** The offset map is a bijection from the in-range indices onto [0, product of dims):
      `Indices` undoes it ... */
  lemma {:induction false} IndicesOfOffset(dims: seq<nat>, idx: seq<nat>)
    requires InRange(dims, idx)
    ensures Offset(dims, idx) < Product(dims) && Indices(dims, Offset(dims, idx)) == idx
  {
    OffsetInRange(dims, idx);
    if dims == [] {
    } else {
      var n := |dims| - 1;
      IndicesOfOffset(dims[..n], idx[..n]);
      DivideBack(Product(dims[..n]), Offset(dims[..n], idx[..n]), idx[n]);
    }
  }

  /** ... and every offset below the product has in-range indices. */
  lemma {:induction false} OffsetOfIndices(dims: seq<nat>, offset: nat)
    requires offset < Product(dims)
    ensures InRange(dims, Indices(dims, offset)) && Offset(dims, Indices(dims, offset)) == offset
  {
    if dims == [] {
    } else {
      var n := |dims| - 1;
      var p := Product(dims[..n]);
      DigitIsSmall(p, dims[n], offset);
      OffsetOfIndices(dims[..n], offset % p);
      var idx := Indices(dims, offset);
      assert idx[..n] == Indices(dims[..n], offset % p);
      assert offset == p * (offset / p) + offset % p;
      assert (offset / p) * p == p * (offset / p);
    }
  }

  lemma OffsetSnoc(dims: seq<nat>, idx: seq<nat>, d: nat, x: nat)
    requires |idx| == |dims|
    ensures Product(dims + [d]) == Product(dims) * d
    ensures Offset(dims + [d], idx + [x]) == Offset(dims, idx) + x * Product(dims)
  {
    assert (dims + [d])[..|dims|] == dims && (idx + [x])[..|idx|] == idx;
  }

  /** At rank 4 this is the expression in the source. */
  lemma OffsetRank4(ni: nat, nj: nat, nk: nat, nl: nat, i: nat, j: nat, k: nat, l: nat)
    ensures Offset([ni, nj, nk, nl], [i, j, k, l]) == i + j * ni + k * ni * nj + l * ni * nj * nk
    ensures Product([ni, nj, nk, nl]) == ni * nj * nk * nl
  {
    OffsetSnoc([], [], ni, i);
    OffsetSnoc([ni], [i], nj, j);
    OffsetSnoc([ni, nj], [i, j], nk, k);
    OffsetSnoc([ni, nj, nk], [i, j, k], nl, l);
    assert [] + [ni] == [ni] && [] + [i] == [i];
    assert [ni] + [nj] == [ni, nj] && [i] + [j] == [i, j];
    assert [ni, nj] + [nk] == [ni, nj, nk] && [i, j] + [k] == [i, j, k];
    assert [ni, nj, nk] + [nl] == [ni, nj, nk, nl] && [i, j, k] + [l] == [i, j, k, l];
    MulAssociates(k, ni, nj);
    MulAssociates(l, ni * nj, nk);
    MulAssociates(l, ni, nj);
  }

  /** Element `o` lies inside an area of `total` elements that was sized as one pointer each. */
  ghost predicate LiesInside(o: nat, total: nat, elementSize: nat, pointerSize: nat) {
    (o + 1) * elementSize <= pointerSize * total
  }

  /** The exact condition for every element to lie inside its area: there are none, or elements
      are no larger than pointers. */
  lemma ElementsFitIff(total: nat, elementSize: nat, pointerSize: nat)
    ensures (forall o: nat :: o < total ==> LiesInside(o, total, elementSize, pointerSize))
        <==> total == 0 || elementSize <= pointerSize
  {
    if elementSize <= pointerSize {
      forall o: nat | o < total ensures LiesInside(o, total, elementSize, pointerSize) {
        MulMonotone(elementSize, o + 1, total);
        MulMonotone(total, elementSize, pointerSize);
      }
    } else if total > 0 {
      MulMonotone(total, pointerSize + 1, elementSize);
      assert !LiesInside(total - 1, total, elementSize, pointerSize);
    }
  }

  /** One double, where pointers have four bytes. */
  lemma DoubleOverflows()
    ensures !LiesInside(0, 1, 8, 4)
  {
  }
}
