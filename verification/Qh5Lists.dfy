/** The conversions of qh5.cpp between nested QVariant lists and the flat buffers of HDF5. */
module Qh5Lists {
  import opened Dimensions
  import opened Sequences

  datatype Variant<T> = Scalar(value: T) | List(items: seq<Variant<T>>)

  const INT_LIMIT := 0x8000_0000
  const U32 := 0x1_0000_0000
  const U64 := 0x1_0000_0000_0000_0000

  // ---------- Sizes ----------

  /** Conversion to a 32-bit int. */
  function ToInt(x: int): int {
    var r := x % U32;
    if r < INT_LIMIT then r else r - U32
  }

  /** `acc *= v` for an int and an unsigned 64-bit factor. */
  function TimesAssign(acc: int, v: nat): int {
    ToInt((acc % U64) * v % U64)
  }

  lemma ModOfMod(x: int)
    ensures (x % U64) % U32 == x % U32
  {
    var q := x / U64;
    assert x == q * U64 + x % U64;
    assert x == (q * U32) * U32 + x % U64;
    ModOfSum(q * U32, x % U64);
  }

  lemma ModOfSum(k: int, r: int)
    ensures (k * U32 + r) % U32 == r % U32
  {
    var q := r / U32;
    assert r == q * U32 + r % U32;
    assert k * U32 + r == (k + q) * U32 + r % U32;
  }

  lemma ModOfProduct(a: int, b: int, v: int)
    requires a % U32 == b % U32
    ensures (a * v) % U32 == (b * v) % U32
  {
    var k := a / U32 - b / U32;
    assert a - b == k * U32;
    assert a * v == (k * v) * U32 + b * v by {
      assert a == b + k * U32;
      assert (b + k * U32) * v == b * v + (k * U32) * v;
      assert (k * U32) * v == (k * v) * U32;
    }
    ModOfSum(k * v, b * v);
  }

  lemma ToIntKeepsMod(x: int)
    ensures ToInt(x) % U32 == x % U32 && -INT_LIMIT <= ToInt(x) < INT_LIMIT
    ensures 0 <= x < INT_LIMIT ==> ToInt(x) == x
  {
  }

  lemma TimesAssignKeepsMod(acc: int, exact: nat, v: nat)
    requires acc % U32 == exact % U32
    ensures TimesAssign(acc, v) % U32 == (exact * v) % U32
    ensures -INT_LIMIT <= TimesAssign(acc, v) < INT_LIMIT
  {
    ModOfMod(acc);
    ModOfProduct(acc % U64, exact, v);
    ModOfMod((acc % U64) * v);
    ToIntKeepsMod((acc % U64) * v % U64);
  }

  /** The product as the source computes it. */
  function IntProduct(dims: seq<nat>): int {
    if dims == [] then 1 else TimesAssign(IntProduct(dims[..|dims| - 1]), dims[|dims| - 1])
  }

  /** The size `allocateBuffer` computes, 32-bit arithmetic and all. It is the product of the
      dims exactly when that fits an int. */
  method TotalSize(dims: seq<nat>) returns (totsize: int)
    ensures totsize == IntProduct(dims)
    ensures totsize % U32 == Product(dims) % U32 && -INT_LIMIT <= totsize < INT_LIMIT
    ensures totsize == Product(dims) <==> Product(dims) < INT_LIMIT
  {
    var acc := 1;
    for i := 0 to |dims|
      invariant acc == IntProduct(dims[..i])
    {
      assert dims[..i + 1][..i] == dims[..i];
      acc := TimesAssign(acc, dims[i]);
    }
    assert dims[..|dims|] == dims;
    IntProductKeepsMod(dims);
    SameIfSmall(acc, Product(dims));
    totsize := acc;
  }

  lemma SameIfSmall(x: int, exact: nat)
    requires x % U32 == exact % U32 && -INT_LIMIT <= x < INT_LIMIT
    ensures x == exact <==> exact < INT_LIMIT
  {
  }

  lemma {:induction false} IntProductKeepsMod(dims: seq<nat>)
    ensures IntProduct(dims) % U32 == Product(dims) % U32 && -INT_LIMIT <= IntProduct(dims) < INT_LIMIT
  {
    if dims == [] {
    } else {
      var n := |dims| - 1;
      IntProductKeepsMod(dims[..n]);
      TimesAssignKeepsMod(IntProduct(dims[..n]), Product(dims[..n]), dims[n]);
    }
  }

  /** 65536 rows of 65536 elements get a buffer of none. */
  lemma SquareGetsNoBuffer()
    ensures IntProduct([65536, 65536]) == 0 && Product([65536, 65536]) == U32
  {
    assert [65536, 65536][..1] == [65536] && [65536][..0] == [];
    assert IntProduct([65536]) == 65536;
    ProductOne(65536);
  }

  // ---------- Lists to buffers ----------

  /** The elements of a nested list, outermost first. */
  function Flat<T>(v: Variant<T>): seq<T> {
    match v
    case Scalar(x) => [x]
    case List(items) => FlatAll(items)
  }

  function FlatAll<T>(items: seq<Variant<T>>): seq<T> {
    if items == [] then [] else FlatAll(items[..|items| - 1]) + Flat(items[|items| - 1])
  }

  method StdFlat<T>(value: Variant<T>) returns (vector: seq<T>)
    ensures vector == Flat(value)
    decreases value
  {
    match value
    case Scalar(x) =>
      vector := [x];
    case List(items) =>
      vector := [];
      for i := 0 to |items|
        invariant vector == FlatAll(items[..i])
      {
        var v := StdFlat(items[i]);
        assert items[..i + 1][..i] == items[..i];
        vector := vector + v;
      }
      assert items[..|items|] == items;
  }

  /** `getListDims` looks down the first elements only; on an empty list it has none to look at. */
  predicate FirstsExist<T>(v: Variant<T>) {
    v.List? ==> v.items != [] && FirstsExist(v.items[0])
  }

  function GetListDims<T>(v: Variant<T>): (dims: seq<nat>)
    requires FirstsExist(v)
    ensures forall d :: d in dims ==> d > 0
  {
    match v
    case Scalar(_) => []
    case List(items) => [|items|] + GetListDims(items[0])
  }

  /** Nested to the depth of `dims`, every list at level d having dims[d] items. */
  predicate Rectangular<T>(v: Variant<T>, dims: seq<nat>)
    decreases |dims|
  {
    if dims == [] then v.Scalar?
    else v.List? && |v.items| == dims[0] && forall i :: 0 <= i < |v.items| ==> Rectangular(v.items[i], dims[1..])
  }

  // ---------- Buffers to lists ----------

  /** `repeat` takes an unsigned 32-bit count. */
  function Times(dim: nat): nat {
    dim % U32
  }

  /** The dims with every count cut to what `repeat` sees. */
  function Cut(dims: seq<nat>): (cut: seq<nat>)
    ensures |cut| == |dims| && forall i :: 0 <= i < |dims| ==> cut[i] == Times(dims[i])
  {
    seq(|dims|, i requires 0 <= i < |dims| => Times(dims[i]))
  }

  /** Where the cursor stands after `n` items of the given dims. */
  function After(dims: seq<nat>, d: nat, n: nat): nat {
    if n == 0 then d else After(dims, d, n - 1) + Product(dims)
  }

  lemma {:induction false} AfterIs(dims: seq<nat>, d: nat, n: nat)
    ensures After(dims, d, n) == d + n * Product(dims)
  {
    if n == 0 {
    } else {
      AfterIs(dims, d, n - 1);
      MulStep(n, Product(dims));
    }
  }

  lemma {:induction false} AfterGrows(dims: seq<nat>, d: nat, k: nat, n: nat)
    requires k <= n
    ensures d <= After(dims, d, k) <= After(dims, d, n)
    decreases n
  {
    if k < n {
      AfterGrows(dims, d, k, n - 1);
    } else if n > 0 {
      AfterGrows(dims, d, n - 1, n - 1);
    }
  }

  /** The list that is rectangular for `dims` and flattens to the data from `d` on. */
  function Shape<T>(dims: seq<nat>, data: seq<T>, d: nat): Variant<T>
    requires d + Product(dims) <= |data|
    decreases |dims|, 1
  {
    if dims == [] then Scalar(data[d])
    else
      ProductFront(dims);
      AfterIs(dims[1..], d, dims[0]);
      List(Shapes(dims[1..], data, d, dims[0]))
  }

  function Shapes<T>(dims: seq<nat>, data: seq<T>, d: nat, n: nat): (items: seq<Variant<T>>)
    requires After(dims, d, n) <= |data|
    ensures |items| == n
    decreases |dims|, 2, n
  {
    if n == 0 then []
    else Shapes(dims, data, d, n - 1) + [Shape(dims, data, After(dims, d, n - 1))]
  }

  function Converted<T, U>(data: seq<T>, convert: T -> U): (c: seq<U>)
    ensures |c| == |data| && forall i :: 0 <= i < |data| ==> c[i] == convert(data[i])
  {
    seq(|data|, i requires 0 <= i < |data| => convert(data[i]))
  }

  /** `reshape` with its cursor, and `reshapeStr`, which is the same for ranks above 0: `convert`
      is QVariant::fromValue in the one and QString::fromLatin1 in the other. `d` is where it
      starts to read; `d'` where it stops. */
  method Reshape<T, U>(dims: seq<nat>, data: array<T>, convert: T -> U, d: nat) returns (v: Variant<U>, d': nat)
    requires d + Product(Cut(dims)) <= data.Length
    ensures d' == d + Product(Cut(dims))
    ensures v == Shape(Cut(dims), Converted(data[..], convert), d)
    decreases |dims|, 1
  {
    if |dims| == 0 {
      return Scalar(convert(data[d])), d + 1;
    }
    assert Cut(dims)[0] == Times(dims[0]) && Cut(dims)[1..] == Cut(dims[1..]);
    ProductFront(Cut(dims));
    AfterIs(Cut(dims[1..]), d, Times(dims[0]));
    var list;
    if |dims| == 1 {
      list, d' := RepeatRead(Times(dims[0]), data, convert, d);
    } else {
      list, d' := RepeatReshape(Times(dims[0]), dims[1..], data, convert, d);
    }
    v := List(list);
  }

  /** `repeat` over single elements. */
  method RepeatRead<T, U>(n: nat, data: array<T>, convert: T -> U, d: nat) returns (list: seq<Variant<U>>, d': nat)
    requires After([], d, n) <= data.Length
    ensures d' == After([], d, n) && list == Shapes([], Converted(data[..], convert), d, n)
  {
    AfterGrows([], d, 0, n);
    list, d' := [], d;
    ghost var c := Converted(data[..], convert);
    var left := n;
    while left > 0
      invariant 0 <= left <= n && d' == After([], d, n - left) <= data.Length
      invariant list == Shapes([], c, d, n - left)
    {
      left := left - 1;
      AfterGrows([], d, n - left, n);
      list := list + [Scalar(convert(data[d']))];
      d' := d' + 1;
    }
  }

  /** `repeat` over the remaining dims. */
  method RepeatReshape<T, U>(n: nat, dims: seq<nat>, data: array<T>, convert: T -> U, d: nat)
    returns (list: seq<Variant<U>>, d': nat)
    requires After(Cut(dims), d, n) <= data.Length
    ensures d' == After(Cut(dims), d, n) && list == Shapes(Cut(dims), Converted(data[..], convert), d, n)
    decreases |dims|, 2
  {
    AfterGrows(Cut(dims), d, 0, n);
    list, d' := [], d;
    ghost var c := Converted(data[..], convert);
    var left := n;
    while left > 0
      invariant 0 <= left <= n && d' == After(Cut(dims), d, n - left) <= data.Length
      invariant list == Shapes(Cut(dims), c, d, n - left)
    {
      left := left - 1;
      AfterGrows(Cut(dims), d, n - left, n);
      var item;
      item, d' := Reshape(dims, data, convert, d');
      list := list + [item];
    }
  }

  // ---------- What reshape and flatten promise ----------

  /** Dims whose product fits an int lose nothing when their counts are cut to 32 bits, or are
      empty either way. */
  lemma {:induction false} CutKeepsProduct(dims: seq<nat>)
    requires Product(dims) < INT_LIMIT
    ensures Product(Cut(dims)) == Product(dims)
    ensures Product(dims) > 0 ==> Cut(dims) == dims
  {
    if dims == [] {
    } else {
      assert Cut(dims)[1..] == Cut(dims[1..]);
      ProductFront(dims);
      ProductFront(Cut(dims));
      if Product(dims) == 0 {
        CutZero(dims);
      } else {
        var rest := Product(dims[1..]);
        assert dims[0] > 0 && rest > 0;
        MulMonotone(dims[0], 1, rest);
        MulMonotone(rest, 1, dims[0]);
        CutKeepsProduct(dims[1..]);
        assert Cut(dims) == [Times(dims[0])] + Cut(dims)[1..];
        assert dims == [dims[0]] + dims[1..];
      }
    }
  }

  lemma {:induction false} CutZero(dims: seq<nat>)
    requires Product(dims) == 0
    ensures Product(Cut(dims)) == 0
  {
    ProductFront(dims);
    ProductFront(Cut(dims));
    if dims[0] != 0 {
      if Product(dims[1..]) > 0 {
        MulMonotone(dims[0], 1, Product(dims[1..]));
      }
      assert Cut(dims)[1..] == Cut(dims[1..]);
      CutZero(dims[1..]);
    }
  }

  lemma {:induction false} ShapeIsRectangular<T>(dims: seq<nat>, data: seq<T>, d: nat)
    requires d + Product(dims) <= |data|
    ensures Rectangular(Shape(dims, data, d), dims)
    decreases |dims|, 1
  {
    if dims == [] {
    } else {
      ProductFront(dims);
      AfterIs(dims[1..], d, dims[0]);
      ShapesAreRectangular(dims[1..], data, d, dims[0]);
    }
  }

  lemma {:induction false} ShapesAreRectangular<T>(dims: seq<nat>, data: seq<T>, d: nat, n: nat)
    requires After(dims, d, n) <= |data|
    ensures forall i :: 0 <= i < n ==> Rectangular(Shapes(dims, data, d, n)[i], dims)
    decreases |dims|, 2, n
  {
    if n == 0 {
    } else {
      ShapesAreRectangular(dims, data, d, n - 1);
      ShapeIsRectangular(dims, data, After(dims, d, n - 1));
    }
  }

  /** Flattening a reshaped buffer gives back exactly the stretch that was read. */
  lemma {:induction false} FlatOfShape<T>(dims: seq<nat>, data: seq<T>, d: nat)
    requires d + Product(dims) <= |data|
    ensures Flat(Shape(dims, data, d)) == data[d..d + Product(dims)]
    decreases |dims|, 1
  {
    if dims == [] {
    } else {
      ProductFront(dims);
      AfterIs(dims[1..], d, dims[0]);
      FlatOfShapes(dims[1..], data, d, dims[0]);
    }
  }

  lemma {:induction false} FlatOfShapes<T>(dims: seq<nat>, data: seq<T>, d: nat, n: nat)
    requires After(dims, d, n) <= |data|
    ensures d <= After(dims, d, n) && FlatAll(Shapes(dims, data, d, n)) == data[d..After(dims, d, n)]
    decreases |dims|, 2, n
  {
    if n == 0 {
    } else {
      var m := After(dims, d, n - 1);
      FlatOfShapes(dims, data, d, n - 1);
      FlatOfShape(dims, data, m);
      FlatAllSnoc(Shapes(dims, data, d, n - 1), Shape(dims, data, m));
      SliceConcat(data, d, m, m + Product(dims));
    }
  }

  lemma FlatAllSnoc<T>(items: seq<Variant<T>>, v: Variant<T>)
    ensures FlatAll(items + [v]) == FlatAll(items) + Flat(v)
  {
    assert (items + [v])[..|items|] == items;
  }

  /** For dims, zeros included, whose product fits an int: `reshape` reads exactly the elements
      that `allocateBuffer` reserved, and flattening its result gives them back in order. */
  method ReadBack<T, U>(dims: seq<nat>, data: array<T>, convert: T -> U) returns (v: Variant<U>, d: nat)
    requires Product(dims) < INT_LIMIT && data.Length == Product(dims)
    ensures d == data.Length && Flat(v) == Converted(data[..], convert)
    ensures Rectangular(v, Cut(dims))
    ensures data.Length > 0 ==> Rectangular(v, dims)
  {
    CutKeepsProduct(dims);
    v, d := Reshape(dims, data, convert, 0);
    ghost var c := Converted(data[..], convert);
    FlatOfShape(Cut(dims), c, 0);
    ShapeIsRectangular(Cut(dims), c, 0);
    assert c[0..data.Length] == c;
  }

  lemma {:induction false} DimsOfRectangular<T>(v: Variant<T>, dims: seq<nat>)
    requires Rectangular(v, dims) && forall i :: 0 <= i < |dims| ==> dims[i] > 0
    ensures FirstsExist(v) && GetListDims(v) == dims
    decreases |dims|
  {
    if dims == [] {
    } else {
      DimsOfRectangular(v.items[0], dims[1..]);
      assert dims == [dims[0]] + dims[1..];
    }
  }

  /** `getListDims` recovers positive dims from any buffer reshaped to them. */
  lemma DimsOfReshaped<T>(dims: seq<nat>, data: seq<T>, d: nat)
    requires d + Product(dims) <= |data| && forall i :: 0 <= i < |dims| ==> dims[i] > 0
    ensures FirstsExist(Shape(dims, data, d)) && GetListDims(Shape(dims, data, d)) == dims
  {
    ShapeIsRectangular(dims, data, d);
    DimsOfRectangular(Shape(dims, data, d), dims);
  }

  /** A rectangular list is the shape of its own elements, wherever they lie in a buffer. */
  lemma {:induction false} ShapeOfFlat<T>(v: Variant<T>, dims: seq<nat>, data: seq<T>, d: nat, end: nat)
    requires Rectangular(v, dims) && d <= end <= |data| && Flat(v) == data[d..end]
    ensures end == d + Product(dims) && Shape(dims, data, d) == v
    decreases |dims|, 1
  {
    if dims == [] {
      assert |Flat(v)| == 1;
    } else {
      ProductFront(dims);
      AfterIs(dims[1..], d, dims[0]);
      ShapesOfFlat(v.items, dims[1..], data, d, end);
    }
  }

  lemma {:induction false} ShapesOfFlat<T>(items: seq<Variant<T>>, dims: seq<nat>, data: seq<T>, d: nat, end: nat)
    requires forall i :: 0 <= i < |items| ==> Rectangular(items[i], dims)
    requires d <= end <= |data| && FlatAll(items) == data[d..end]
    ensures end == After(dims, d, |items|) && Shapes(dims, data, d, |items|) == items
    decreases |dims|, 2, |items|
  {
    if items == [] {
      assert |FlatAll(items)| == 0;
    } else {
      var n := |items| - 1;
      var mid := SplitSlice(FlatAll(items[..n]), Flat(items[n]), data, d, end);
      ShapesOfFlat(items[..n], dims, data, d, mid);
      ShapeOfFlat(items[n], dims, data, mid, end);
    }
  }

  lemma SplitSlice<T>(a: seq<T>, b: seq<T>, data: seq<T>, d: nat, end: nat) returns (mid: nat)
    requires d <= end <= |data| && a + b == data[d..end]
    ensures d <= mid <= end && a == data[d..mid] && b == data[mid..end]
  {
    mid := d + |a|;
    var s := data[d..end];
    assert |s| == |a| + |b|;
    assert a == s[..|a|] && b == s[|a|..];
  }

  /** The exact condition for a nested list to survive a write and a read: that it is
      rectangular for its own first dims. Of any other list, with first elements all the way
      down, the flat data are too few or come back in another shape. */
  lemma WriteThenReadIff<T>(v: Variant<T>)
    requires FirstsExist(v)
    ensures var dims := GetListDims(v);
            Product(dims) <= |Flat(v)| && Shape(dims, Flat(v), 0) == v <==> Rectangular(v, dims)
  {
    var dims := GetListDims(v);
    if Rectangular(v, dims) {
      assert Flat(v)[0..|Flat(v)|] == Flat(v);
      ShapeOfFlat(v, dims, Flat(v), 0, |Flat(v)|);
    }
    if Product(dims) <= |Flat(v)| && Shape(dims, Flat(v), 0) == v {
      ShapeIsRectangular(dims, Flat(v), 0);
    }
  }

  /** A ragged list, of which the last element is not read back. */
  lemma RaggedIsNotReadBack()
    ensures var v := List([List([Scalar(1)]), List([Scalar(2), Scalar(3)])]);
            && FirstsExist(v) && GetListDims(v) == [2, 1]
            && !(Product([2, 1]) <= |Flat(v)| && Shape([2, 1], Flat(v), 0) == v)
  {
    var long := List([Scalar(2), Scalar(3)]);
    var v := List([List([Scalar(1)]), long]);
    assert !Rectangular(long, [1]) by { assert |long.items| == 2; }
    assert [2, 1][1..] == [1];
    assert !Rectangular(v, [2, 1]) by { assert v.items[1] == long; }
    assert GetListDims(v.items[0]) == [1];
    WriteThenReadIff(v);
  }
}
