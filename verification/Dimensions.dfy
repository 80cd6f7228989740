/** The number of elements that dimensions stand for. */
module Dimensions {

  function Product(dims: seq<nat>): nat {
    if dims == [] then 1 else Product(dims[..|dims| - 1]) * dims[|dims| - 1]
  }

  lemma MulMonotone(p: nat, a: nat, b: nat)
    requires a <= b
    ensures p * a <= p * b
  {
  }

  lemma MulAssociates(a: nat, b: nat, c: nat)
    ensures a * (b * c) == a * b * c
  {
  }

  lemma MulStep(n: nat, p: nat)
    requires n > 0
    ensures (n - 1) * p + p == n * p
  {
  }

  lemma ProductSnoc(dims: seq<nat>, d: nat)
    ensures Product(dims + [d]) == Product(dims) * d
  {
    assert (dims + [d])[..|dims|] == dims;
  }

  lemma ProductOne(d: nat)
    ensures Product([d]) == d
  {
    assert [d][..0] == [];
  }

  /** The product can be taken from the front as well. */
  lemma {:induction false} ProductFront(dims: seq<nat>)
    requires dims != []
    ensures Product(dims) == dims[0] * Product(dims[1..])
  {
    var n := |dims| - 1;
    if n == 0 {
      assert dims == [dims[0]] && dims[1..] == [];
      ProductOne(dims[0]);
    } else {
      ProductFront(dims[..n]);
      assert dims[..n][1..] == dims[1..][..n - 1];
      MulAssociates(dims[0], Product(dims[1..][..n - 1]), dims[n]);
    }
  }
}
