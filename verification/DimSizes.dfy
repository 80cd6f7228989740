/** entity.py: `soft_get_property_dim_sizes`, which writes the sizes of dimensions into the text of
    a dimension expression, label by label, and then evaluates the text. */
module DimSizes {
  import opened Numerals
  import opened ArithmeticEval
  import opened Wrappers

  /** str.replace: all occurrences from the left that do not overlap; "" occurs around every character. */
  function Replace(s: string, old_: string, new_: string): string
    decreases |s|
  {
    if old_ == "" then new_ + if s == "" then "" else [s[0]] + Replace(s[1..], old_, new_)
    else if s == "" then ""
    else if old_ <= s then new_ + Replace(s[|old_|..], old_, new_)
    else [s[0]] + Replace(s[1..], old_, new_)
  }

  /** str() of an int. */
  function Str(n: int): string {
    if n < 0 then "-" + Decimal(-n) else Decimal(n)
  }

  datatype Size = Size(name: string, size: int)

  function ReplaceAll(s: string, sizes: seq<Size>): string
    decreases |sizes|
  {
    if sizes == [] then s else ReplaceAll(Replace(s, sizes[0].name, Str(sizes[0].size)), sizes[1..])
  }

  method SoftGetPropertyDimSizes(dims: seq<string>, sizes: seq<Size>) returns (dimSizes: Option<seq<int>>)
    ensures dimSizes.Some? <==> forall k :: 0 <= k < |dims| ==> Evaluate(ReplaceAll(dims[k], sizes), map[]).Some?
    ensures dimSizes.Some? ==> |dimSizes.value| == |dims|
    ensures dimSizes.Some? ==>
              forall k :: 0 <= k < |dims| ==> Evaluate(ReplaceAll(dims[k], sizes), map[]) == Some(dimSizes.value[k])
  {
    var result: seq<int> := [];
    var i := 0;
    while i < |dims|
      invariant 0 <= i <= |dims| && |result| == i
      invariant forall k :: 0 <= k < i ==> Evaluate(ReplaceAll(dims[k], sizes), map[]) == Some(result[k])
    {
      var sizeexpr := dims[i];
      var j := 0;
      while j < |sizes|
        invariant 0 <= j <= |sizes|
        invariant ReplaceAll(dims[i], sizes) == ReplaceAll(sizeexpr, sizes[j..])
      {
        sizeexpr := Replace(sizeexpr, sizes[j].name, Str(sizes[j].size));
        j := j + 1;
      }
      var value := Evaluate(sizeexpr, map[]);
      if value.None? {
        return None;
      }
      result := result + [value.value];
      i := i + 1;
    }
    return Some(result);
  }
}
