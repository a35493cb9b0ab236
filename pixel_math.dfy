/** The kernels GeneratePixelMath prints into PixelMath, one routine per pixel type: here one
    routine per kernel, parameterised by the PixelType. Every per-pixel kernel walks the rows,
    and within a row advances a source and a destination index side by side; the per-pixel
    arithmetic is a function of the type and the stored element. */
module PixelMath {
  import opened Numeric
  import opened Outcomes
  import opened ImageBase
  import opened Images

  // ---------------------------------------------------------------------------------------
  // The row-major loops shared by the single- and two-input kernels

  /** The inner loop of a single-input kernel: row y of the output := f(row y of the
      input). Only the elements of that output row change. */
  method MapRow(src: array<int>, inL: Layout, dst: array<int>, outL: Layout, y: int, f: int -> int)
    requires inL.Fits(src.Length) && outL.Fits(dst.Length) && inL.SameShape(outL)
    requires DisjointOrSame(src, inL, dst, outL)
    requires 0 <= y < inL.height
    modifies dst
    ensures forall x :: 0 <= x < inL.width ==> dst[outL.Index(x, y)] == f(old(src[inL.Index(x, y)]))
    ensures forall i :: 0 <= i < dst.Length && !(outL.Index(0, y) <= i < outL.Index(0, y) + outL.width) ==>
              dst[i] == old(dst[i])
  {
    RowSpan(inL, src.Length, y);
    RowSpan(outL, dst.Length, y);
    var indexSrc := inL.startIndex + y * inL.stride;
    var indexDst := outL.startIndex + y * outL.stride;
    var end := indexSrc + inL.width;
    ghost var x := 0;
    while indexSrc < end
      invariant 0 <= x <= inL.width && indexSrc == inL.Index(x, y) && indexDst == outL.Index(x, y)
      invariant forall x' :: 0 <= x' < x ==> dst[outL.Index(x', y)] == f(old(src[inL.Index(x', y)]))
      invariant forall x' :: x <= x' < inL.width ==> src[inL.Index(x', y)] == old(src[inL.Index(x', y)])
      invariant forall i :: 0 <= i < dst.Length && !(outL.Index(0, y) <= i < indexDst) ==> dst[i] == old(dst[i])
    {
      dst[indexDst] := f(src[indexSrc]);
      indexSrc, indexDst, x := indexSrc + 1, indexDst + 1, x + 1;
    }
  }

  /** output(x, y) := f(input(x, y)) for every pixel, after the same-shape check. Input and
      output may be the same instance; the output's padding is never written. */
  method Transform(input: Image, output: Image, f: int -> int) returns (r: Outcome)
    requires input.Valid() && output.Valid()
    requires DisjointOrSame(input.data, input.Layout(), output.data, output.Layout())
    modifies output.data
    ensures r == if input.Layout().SameShape(output.Layout()) then Pass else Fail(ShapeMismatch)
    ensures r.Fail? ==> output.data[..] == old(output.data[..])
    ensures r.Pass? ==> forall x, y :: output.InBounds(x, y) ==>
                          output.data[output.Index(x, y)] == f(old(input.data[input.Index(x, y)]))
    ensures KeepsPadding(output.Layout(), old(output.data[..]), output.data[..])
  {
    if !input.Layout().SameShape(output.Layout()) {
      return Fail(ShapeMismatch);
    }
    var src, inL, dst, outL := input.data, input.Layout(), output.data, output.Layout();
    ghost var in0, out0 := src[..], dst[..];
    var y := 0;
    while y < inL.height
      invariant 0 <= y <= inL.height
      invariant forall x', y' :: outL.InBounds(x', y') && y' < y ==> dst[outL.Index(x', y')] == f(in0[inL.Index(x', y')])
      invariant forall x', y' :: outL.InBounds(x', y') && y' >= y ==> dst[outL.Index(x', y')] == out0[outL.Index(x', y')]
      invariant forall i :: 0 <= i < dst.Length && i !in outL.Pixels() ==> dst[i] == out0[i]
      invariant src != dst ==> src[..] == in0
    {
      RowSpan(outL, dst.Length, y);
      MapRow(src, inL, dst, outL, y, f);
      y := y + 1;
    }
    r := Pass;
  }

  /** The inner loop of a two-input kernel: row y of the output := f(row y of a, row y of b). */
  method CombineRow(srcA: array<int>, la: Layout, srcB: array<int>, lb: Layout, dst: array<int>, lo: Layout,
                    y: int, f: (int, int) -> int)
    requires la.Fits(srcA.Length) && lb.Fits(srcB.Length) && lo.Fits(dst.Length)
    requires la.SameShape(lb) && la.SameShape(lo)
    requires DisjointOrSame(srcA, la, dst, lo) && DisjointOrSame(srcB, lb, dst, lo)
    requires 0 <= y < la.height
    modifies dst
    ensures forall x :: 0 <= x < la.width ==>
              dst[lo.Index(x, y)] == f(old(srcA[la.Index(x, y)]), old(srcB[lb.Index(x, y)]))
    ensures forall i :: 0 <= i < dst.Length && !(lo.Index(0, y) <= i < lo.Index(0, y) + lo.width) ==>
              dst[i] == old(dst[i])
  {
    RowSpan(la, srcA.Length, y);
    RowSpan(lb, srcB.Length, y);
    RowSpan(lo, dst.Length, y);
    var indexA := la.startIndex + y * la.stride;
    var indexB := lb.startIndex + y * lb.stride;
    var indexOut := lo.startIndex + y * lo.stride;
    var indexEnd := indexA + la.width;
    ghost var x := 0;
    while indexA < indexEnd
      invariant 0 <= x <= la.width && indexA == la.Index(x, y) && indexB == lb.Index(x, y) && indexOut == lo.Index(x, y)
      invariant forall x' :: 0 <= x' < x ==> dst[lo.Index(x', y)] == f(old(srcA[la.Index(x', y)]), old(srcB[lb.Index(x', y)]))
      invariant forall x' :: x <= x' < la.width ==> srcA[la.Index(x', y)] == old(srcA[la.Index(x', y)])
      invariant forall x' :: x <= x' < la.width ==> srcB[lb.Index(x', y)] == old(srcB[lb.Index(x', y)])
      invariant forall i :: 0 <= i < dst.Length && !(lo.Index(0, y) <= i < indexOut) ==> dst[i] == old(dst[i])
    {
      dst[indexOut] := f(srcA[indexA], srcB[indexB]);
      indexA, indexB, indexOut, x := indexA + 1, indexB + 1, indexOut + 1, x + 1;
    }
  }

  /** output(x, y) := f(imgA(x, y), imgB(x, y)) for every pixel, after the three-way shape
      check. Either input may be the same instance as the output. */
  method Combine(imgA: Image, imgB: Image, output: Image, f: (int, int) -> int) returns (r: Outcome)
    requires imgA.Valid() && imgB.Valid() && output.Valid()
    requires DisjointOrSame(imgA.data, imgA.Layout(), output.data, output.Layout())
    requires DisjointOrSame(imgB.data, imgB.Layout(), output.data, output.Layout())
    modifies output.data
    ensures r == if SameShape3(imgA, imgB, output) then Pass else Fail(ShapeMismatch)
    ensures r.Fail? ==> output.data[..] == old(output.data[..])
    ensures r.Pass? ==> forall x, y :: output.InBounds(x, y) ==>
                          output.data[output.Index(x, y)] ==
                          f(old(imgA.data[imgA.Index(x, y)]), old(imgB.data[imgB.Index(x, y)]))
    ensures KeepsPadding(output.Layout(), old(output.data[..]), output.data[..])
  {
    if !SameShape3(imgA, imgB, output) {
      return Fail(ShapeMismatch);
    }
    var srcA, la, srcB, lb, dst, lo := imgA.data, imgA.Layout(), imgB.data, imgB.Layout(), output.data, output.Layout();
    ghost var a0, b0, o0 := srcA[..], srcB[..], dst[..];
    var y := 0;
    while y < la.height
      invariant 0 <= y <= la.height
      invariant forall x', y' :: lo.InBounds(x', y') && y' < y ==> dst[lo.Index(x', y')] == f(a0[la.Index(x', y')], b0[lb.Index(x', y')])
      invariant forall x', y' :: lo.InBounds(x', y') && y' >= y ==> dst[lo.Index(x', y')] == o0[lo.Index(x', y')]
      invariant forall i :: 0 <= i < dst.Length && i !in lo.Pixels() ==> dst[i] == o0[i]
      invariant srcA != dst ==> srcA[..] == a0
      invariant srcB != dst ==> srcB[..] == b0
    {
      RowSpan(lo, dst.Length, y);
      CombineRow(srcA, la, srcB, lb, dst, lo, y, f);
      y := y + 1;
    }
    r := Pass;
  }

  /** checkSameShape(imgA, imgB, output). */
  predicate SameShape3(imgA: Image, imgB: Image, output: Image)
    reads imgA, imgB, output
  {
    imgA.Layout().SameShape(imgB.Layout()) && imgA.Layout().SameShape(output.Layout())
  }

  // ---------------------------------------------------------------------------------------
  // abs

  /** One pixel of abs: Math.abs in the sum type, cast back. */
  function AbsPixel(t: PixelType, raw: int): (r: int)
    ensures InPrimitive(t.DataWidth(), r)
  {
    CastFromSum(t, JavaAbs(t.SumWidth(), WrapSum(t, Read(t, raw))))
  }

  /** abs sets each pixel to the absolute value of the input pixel; only the type's most
      negative value, whose absolute value the type cannot hold, maps to itself. */
  lemma {:induction false} AbsPixelValue(t: PixelType, raw: int)
    requires !t.Unsigned() && InPrimitive(t.DataWidth(), raw)
    ensures raw != t.Min() ==> Read(t, AbsPixel(t, raw)) == (if raw < 0 then -raw else raw)
    ensures raw == t.Min() ==> AbsPixel(t, raw) == raw
  {
    t.RangeInSum(raw);
    if raw != t.Min() {
      if t.SumWidth() == t.DataWidth() {
        assert raw != -Half(t.SumWidth());
      }
      StoreThenRead(t, if raw < 0 then -raw else raw);
    } else {
      StoreThenRead(t, raw);
      if t.SumWidth() != t.DataWidth() {
        WrapCongruent(t.DataWidth(), -raw, raw);
      }
    }
  }

  method Abs(t: PixelType, input: Image, output: Image) returns (r: Outcome)
    requires !t.Unsigned()
    requires input.Valid() && output.Valid()
    requires DisjointOrSame(input.data, input.Layout(), output.data, output.Layout())
    modifies output.data
    ensures r == if input.Layout().SameShape(output.Layout()) then Pass else Fail(ShapeMismatch)
    ensures r.Fail? ==> output.data[..] == old(output.data[..])
    ensures r.Pass? ==> forall x, y :: output.InBounds(x, y) ==>
                          output.data[output.Index(x, y)] == AbsPixel(t, old(input.data[input.Index(x, y)]))
    ensures KeepsPadding(output.Layout(), old(output.data[..]), output.data[..])
  {
    r := Transform(input, output, raw => AbsPixel(t, raw));
  }

  // ---------------------------------------------------------------------------------------
  // multiply and divide by a double scalar

  /** One pixel of multiply: the product is computed in double, converted to the sum type and
      cast to the element type. */
  function MultiplyPixel(t: PixelType, raw: int, value: real): (r: int)
    ensures InPrimitive(t.DataWidth(), r)
  {
    CastFromSum(t, DoubleToSum(t, Read(t, raw) as real * value))
  }

  /** A product the type can hold is stored exactly (truncated toward zero); int and long
      products saturate at the type's bounds instead of wrapping. */
  lemma {:induction false} MultiplyValue(t: PixelType, raw: int, value: real)
    ensures var p := Truncate(Read(t, raw) as real * value);
            t.Min() <= p <= t.Max() ==> Read(t, MultiplyPixel(t, raw, value)) == p
    ensures !t.Narrow() ==>
            Read(t, MultiplyPixel(t, raw, value)) == Saturate(t.SumWidth(), Truncate(Read(t, raw) as real * value))
  {
    var p := Truncate(Read(t, raw) as real * value);
    if t.Min() <= p <= t.Max() {
      t.RangeInSum(p);
      StoreThenRead(t, p);
    }
  }

  /** A narrow product the type cannot hold wraps: 200 * 2.0 in an 8-bit unsigned image
      reads back as 400 - 256. */
  lemma MultiplyWrapsExample()
    ensures Read(U8, MultiplyPixel(U8, 200, 2.0)) == 144
  {
    assert Truncate(200.0 * 2.0) == 400;
  }

  /** One pixel of the bounded multiply: the sum-type product clipped to [lower, upper]. */
  function MultiplyBoundedPixel(t: PixelType, raw: int, value: real, lower: int, upper: int): (r: int)
    ensures InPrimitive(t.DataWidth(), r)
  {
    CastFromSum(t, Bound(DoubleToSum(t, Read(t, raw) as real * value), lower, upper))
  }

  /** With bounds inside the type's range every output pixel lies in [lower, upper] and is the
      clipped product. */
  lemma {:induction false} MultiplyBoundedValue(t: PixelType, raw: int, value: real, lower: int, upper: int)
    requires t.Min() <= lower <= upper <= t.Max()
    ensures lower <= Read(t, MultiplyBoundedPixel(t, raw, value, lower, upper)) <= upper
    ensures Read(t, MultiplyBoundedPixel(t, raw, value, lower, upper)) == Bound(Truncate(Read(t, raw) as real * value), lower, upper)
  {
    ClampThenStore(t, DoubleToSum(t, Read(t, raw) as real * value), lower, upper);
    t.RangeInSum(lower);
    t.RangeInSum(upper);
  }

  /** multiplyBounded(40 * 3.0) with bounds [0, 100] gives 100. */
  lemma MultiplyBoundedExample()
    ensures Read(U8, MultiplyBoundedPixel(U8, 40, 3.0, 0, 100)) == 100
  {
    assert Truncate(40.0 * 3.0) == 120;
  }

  /** One pixel of divide: the quotient computed in double (an infinity or NaN when the
      denominator is zero), converted to the sum type and cast to the element type. */
  function DividePixel(t: PixelType, raw: int, denominator: real): (r: int)
    ensures InPrimitive(t.DataWidth(), r)
  {
    CastFromSum(t, QuotientToSum(t, Read(t, raw), denominator))
  }

  /** A quotient the type can hold is stored exactly (truncated toward zero); a zero pixel
      divided by zero (NaN) gives 0; any other pixel divided by zero gives the int or long
      bound of its sign. */
  lemma {:induction false} DivideValue(t: PixelType, raw: int, denominator: real)
    ensures denominator != 0.0 ==>
              var q := Truncate(Read(t, raw) as real / denominator);
              t.Min() <= q <= t.Max() ==> Read(t, DividePixel(t, raw, denominator)) == q
    ensures denominator == 0.0 && Read(t, raw) == 0 ==> DividePixel(t, raw, denominator) == 0
    ensures denominator == 0.0 && !t.Narrow() && Read(t, raw) > 0 ==> Read(t, DividePixel(t, raw, denominator)) == t.Max()
    ensures denominator == 0.0 && !t.Narrow() && Read(t, raw) < 0 ==> Read(t, DividePixel(t, raw, denominator)) == t.Min()
  {
    if denominator != 0.0 {
      var q := Truncate(Read(t, raw) as real / denominator);
      if t.Min() <= q <= t.Max() {
        t.RangeInSum(q);
        StoreThenRead(t, q);
      }
    }
  }

  /** One pixel of the bounded divide. */
  function DivideBoundedPixel(t: PixelType, raw: int, denominator: real, lower: int, upper: int): (r: int)
    ensures InPrimitive(t.DataWidth(), r)
  {
    CastFromSum(t, Bound(QuotientToSum(t, Read(t, raw), denominator), lower, upper))
  }

  lemma {:induction false} DivideBoundedValue(t: PixelType, raw: int, denominator: real, lower: int, upper: int)
    requires t.Min() <= lower <= upper <= t.Max()
    ensures lower <= Read(t, DivideBoundedPixel(t, raw, denominator, lower, upper)) <= upper
    ensures denominator != 0.0 ==>
              Read(t, DivideBoundedPixel(t, raw, denominator, lower, upper)) ==
                Bound(Truncate(Read(t, raw) as real / denominator), lower, upper)
  {
    ClampThenStore(t, QuotientToSum(t, Read(t, raw), denominator), lower, upper);
    t.RangeInSum(lower);
    t.RangeInSum(upper);
  }

  // ---------------------------------------------------------------------------------------
  // plus a sum-type scalar

  /** One pixel of plus: the sum in the sum type, cast back. */
  function PlusPixel(t: PixelType, raw: int, value: int): (r: int)
    ensures InPrimitive(t.DataWidth(), r)
  {
    CastFromSum(t, WrapSum(t, Read(t, raw) + value))
  }

  /** A sum the type can hold is stored exactly. */
  lemma {:induction false} PlusValue(t: PixelType, raw: int, value: int)
    requires t.Min() <= Read(t, raw) + value <= t.Max()
    ensures Read(t, PlusPixel(t, raw, value)) == Read(t, raw) + value
  {
    t.RangeInSum(Read(t, raw) + value);
    StoreThenRead(t, Read(t, raw) + value);
  }

  /** One pixel of the bounded plus. */
  function PlusBoundedPixel(t: PixelType, raw: int, value: int, lower: int, upper: int): (r: int)
    ensures InPrimitive(t.DataWidth(), r)
  {
    CastFromSum(t, Bound(WrapSum(t, Read(t, raw) + value), lower, upper))
  }

  lemma {:induction false} PlusBoundedValue(t: PixelType, raw: int, value: int, lower: int, upper: int)
    requires t.Min() <= lower <= upper <= t.Max()
    ensures lower <= Read(t, PlusBoundedPixel(t, raw, value, lower, upper)) <= upper
    ensures InPrimitive(t.SumWidth(), Read(t, raw) + value) ==>
              Read(t, PlusBoundedPixel(t, raw, value, lower, upper)) == Bound(Read(t, raw) + value, lower, upper)
  {
    ClampThenStore(t, WrapSum(t, Read(t, raw) + value), lower, upper);
  }

  method Multiply(t: PixelType, input: Image, value: real, output: Image) returns (r: Outcome)
    requires input.Valid() && output.Valid()
    requires DisjointOrSame(input.data, input.Layout(), output.data, output.Layout())
    modifies output.data
    ensures r == if input.Layout().SameShape(output.Layout()) then Pass else Fail(ShapeMismatch)
    ensures r.Fail? ==> output.data[..] == old(output.data[..])
    ensures r.Pass? ==> forall x, y :: output.InBounds(x, y) ==>
                          output.data[output.Index(x, y)] == MultiplyPixel(t, old(input.data[input.Index(x, y)]), value)
    ensures KeepsPadding(output.Layout(), old(output.data[..]), output.data[..])
  {
    r := Transform(input, output, raw => MultiplyPixel(t, raw, value));
  }

  method MultiplyBounded(t: PixelType, input: Image, value: real, lower: int, upper: int, output: Image) returns (r: Outcome)
    requires input.Valid() && output.Valid()
    requires DisjointOrSame(input.data, input.Layout(), output.data, output.Layout())
    modifies output.data
    ensures r == if input.Layout().SameShape(output.Layout()) then Pass else Fail(ShapeMismatch)
    ensures r.Fail? ==> output.data[..] == old(output.data[..])
    ensures r.Pass? ==> forall x, y :: output.InBounds(x, y) ==>
                          output.data[output.Index(x, y)] ==
                          MultiplyBoundedPixel(t, old(input.data[input.Index(x, y)]), value, lower, upper)
    ensures KeepsPadding(output.Layout(), old(output.data[..]), output.data[..])
  {
    r := Transform(input, output, raw => MultiplyBoundedPixel(t, raw, value, lower, upper));
  }

  method Divide(t: PixelType, input: Image, denominator: real, output: Image) returns (r: Outcome)
    requires input.Valid() && output.Valid()
    requires DisjointOrSame(input.data, input.Layout(), output.data, output.Layout())
    modifies output.data
    ensures r == if input.Layout().SameShape(output.Layout()) then Pass else Fail(ShapeMismatch)
    ensures r.Fail? ==> output.data[..] == old(output.data[..])
    ensures r.Pass? ==> forall x, y :: output.InBounds(x, y) ==>
                          output.data[output.Index(x, y)] == DividePixel(t, old(input.data[input.Index(x, y)]), denominator)
    ensures KeepsPadding(output.Layout(), old(output.data[..]), output.data[..])
  {
    r := Transform(input, output, raw => DividePixel(t, raw, denominator));
  }

  method DivideBounded(t: PixelType, input: Image, denominator: real, lower: int, upper: int, output: Image) returns (r: Outcome)
    requires input.Valid() && output.Valid()
    requires DisjointOrSame(input.data, input.Layout(), output.data, output.Layout())
    modifies output.data
    ensures r == if input.Layout().SameShape(output.Layout()) then Pass else Fail(ShapeMismatch)
    ensures r.Fail? ==> output.data[..] == old(output.data[..])
    ensures r.Pass? ==> forall x, y :: output.InBounds(x, y) ==>
                          output.data[output.Index(x, y)] ==
                          DivideBoundedPixel(t, old(input.data[input.Index(x, y)]), denominator, lower, upper)
    ensures KeepsPadding(output.Layout(), old(output.data[..]), output.data[..])
  {
    r := Transform(input, output, raw => DivideBoundedPixel(t, raw, denominator, lower, upper));
  }

  method Plus(t: PixelType, input: Image, value: int, output: Image) returns (r: Outcome)
    requires input.Valid() && output.Valid()
    requires DisjointOrSame(input.data, input.Layout(), output.data, output.Layout())
    modifies output.data
    ensures r == if input.Layout().SameShape(output.Layout()) then Pass else Fail(ShapeMismatch)
    ensures r.Fail? ==> output.data[..] == old(output.data[..])
    ensures r.Pass? ==> forall x, y :: output.InBounds(x, y) ==>
                          output.data[output.Index(x, y)] == PlusPixel(t, old(input.data[input.Index(x, y)]), value)
    ensures KeepsPadding(output.Layout(), old(output.data[..]), output.data[..])
  {
    r := Transform(input, output, raw => PlusPixel(t, raw, value));
  }

  method PlusBounded(t: PixelType, input: Image, value: int, lower: int, upper: int, output: Image) returns (r: Outcome)
    requires input.Valid() && output.Valid()
    requires DisjointOrSame(input.data, input.Layout(), output.data, output.Layout())
    modifies output.data
    ensures r == if input.Layout().SameShape(output.Layout()) then Pass else Fail(ShapeMismatch)
    ensures r.Fail? ==> output.data[..] == old(output.data[..])
    ensures r.Pass? ==> forall x, y :: output.InBounds(x, y) ==>
                          output.data[output.Index(x, y)] ==
                          PlusBoundedPixel(t, old(input.data[input.Index(x, y)]), value, lower, upper)
    ensures KeepsPadding(output.Layout(), old(output.data[..]), output.data[..])
  {
    r := Transform(input, output, raw => PlusBoundedPixel(t, raw, value, lower, upper));
  }

  // ---------------------------------------------------------------------------------------
  // boundImage

  /** One pixel of boundImage: a pixel below min becomes min, one above max becomes max, and
      any other pixel is not written. */
  function BoundPixel(t: PixelType, raw: int, min: int, max: int): (r: int)
    ensures InPrimitive(t.DataWidth(), raw) ==> InPrimitive(t.DataWidth(), r)
  {
    var value := Read(t, raw);
    if value < min then CastFromSum(t, min) else if value > max then CastFromSum(t, max) else raw
  }

  /** With bounds inside the type's range, every pixel ends in [min, max], a pixel already in
      range is left as it is, and a second application changes nothing. */
  lemma {:induction false} BoundPixelValue(t: PixelType, raw: int, min: int, max: int)
    requires t.Min() <= min <= max <= t.Max()
    ensures min <= Read(t, BoundPixel(t, raw, min, max)) <= max
    ensures min <= Read(t, raw) <= max ==> BoundPixel(t, raw, min, max) == raw
    ensures BoundPixel(t, BoundPixel(t, raw, min, max), min, max) == BoundPixel(t, raw, min, max)
  {
    StoreThenRead(t, min);
    StoreThenRead(t, max);
  }

  /** s' is s after boundImage on the image of layout l. */
  ghost predicate BoundedImage(t: PixelType, l: Layout, s: seq<int>, s': seq<int>, min: int, max: int)
  {
    && l.Fits(|s|)
    && KeepsPadding(l, s, s')
    && forall x, y :: l.InBounds(x, y) ==> s'[l.Index(x, y)] == BoundPixel(t, s[l.Index(x, y)], min, max)
  }

  /** boundImage is idempotent. */
  lemma {:induction false} BoundImageIdempotent(t: PixelType, l: Layout, s: seq<int>, s1: seq<int>, s2: seq<int>, min: int, max: int)
    requires t.Min() <= min <= max <= t.Max()
    requires BoundedImage(t, l, s, s1, min, max) && BoundedImage(t, l, s1, s2, min, max)
    ensures s2 == s1
  {
    forall i | 0 <= i < |s1|
      ensures s2[i] == s1[i]
    {
      if i in l.Pixels() {
        var x, y := PixelOf(l, i);
        BoundPixelValue(t, s[i], min, max);
      }
    }
  }

  /** The inner loop of boundImage over row y: an element is written only when its value
      lies outside [min, max]. */
  method BoundRow(t: PixelType, data: array<int>, l: Layout, y: int, min: int, max: int)
    requires l.Fits(data.Length) && 0 <= y < l.height
    modifies data
    ensures forall x :: 0 <= x < l.width ==> data[l.Index(x, y)] == BoundPixel(t, old(data[l.Index(x, y)]), min, max)
    ensures forall i :: 0 <= i < data.Length && !(l.Index(0, y) <= i < l.Index(0, y) + l.width) ==>
              data[i] == old(data[i])
  {
    RowSpan(l, data.Length, y);
    var index := l.startIndex + y * l.stride;
    var indexEnd := index + l.width;
    ghost var x := 0;
    while index < indexEnd
      invariant 0 <= x <= l.width && index == l.Index(x, y)
      invariant forall x' :: 0 <= x' < x ==> data[l.Index(x', y)] == BoundPixel(t, old(data[l.Index(x', y)]), min, max)
      invariant forall i :: 0 <= i < data.Length && !(l.Index(0, y) <= i < index) ==> data[i] == old(data[i])
    {
      var value := Read(t, data[index]);
      if value < min {
        data[index] := CastFromSum(t, min);
      } else if value > max {
        data[index] := CastFromSum(t, max);
      }
      index, x := index + 1, x + 1;
    }
  }

  /** boundImage: every pixel is clipped to [min, max] in place; padding is untouched. */
  method BoundImage(t: PixelType, img: Image, min: int, max: int)
    requires img.Valid()
    modifies img.data
    ensures BoundedImage(t, img.Layout(), old(img.data[..]), img.data[..], min, max)
  {
    var data, l := img.data, img.Layout();
    ghost var s0 := data[..];
    var y := 0;
    while y < l.height
      invariant 0 <= y <= l.height
      invariant forall x', y' :: l.InBounds(x', y') && y' < y ==> data[l.Index(x', y')] == BoundPixel(t, s0[l.Index(x', y')], min, max)
      invariant forall x', y' :: l.InBounds(x', y') && y' >= y ==> data[l.Index(x', y')] == s0[l.Index(x', y')]
      invariant forall i :: 0 <= i < data.Length && i !in l.Pixels() ==> data[i] == s0[i]
    {
      RowSpan(l, data.Length, y);
      BoundRow(t, data, l, y, min, max);
      y := y + 1;
    }
  }

  // ---------------------------------------------------------------------------------------
  // diffAbs, add, subtract

  /** One pixel of diffAbs: Math.abs of the difference in the sum type, cast back. */
  function DiffAbsPixel(t: PixelType, a: int, b: int): (r: int)
    ensures InPrimitive(t.DataWidth(), r)
  {
    CastFromSum(t, JavaAbs(t.SumWidth(), WrapSum(t, Read(t, a) - Read(t, b))))
  }

  /** d(x, y) = |imgA(x, y) - imgB(x, y)| whenever the type can hold that value, which is
      always the case for the unsigned types. */
  lemma {:induction false} DiffAbsValue(t: PixelType, a: int, b: int)
    requires InPrimitive(t.DataWidth(), a) && InPrimitive(t.DataWidth(), b)
    ensures var d := Read(t, a) - Read(t, b);
            (t.Unsigned() || (if d < 0 then -d else d) <= t.Max()) ==>
              Read(t, DiffAbsPixel(t, a, b)) == (if d < 0 then -d else d)
  {
    var d := Read(t, a) - Read(t, b);
    var m := if d < 0 then -d else d;
    if t.Unsigned() || m <= t.Max() {
      assert InPrimitive(t.SumWidth(), d);
      StoreThenRead(t, m);
    }
  }

  /** A signed 8-bit difference can exceed the type: |127 - (-128)| = 255 is stored as -1. */
  lemma DiffAbsOverflowExample()
    ensures Read(S8, DiffAbsPixel(S8, 127, -128)) == -1
  {
  }

  /** diffAbs does not depend on the order of its inputs. */
  lemma {:induction false} DiffAbsSymmetric(t: PixelType, a: int, b: int)
    ensures DiffAbsPixel(t, a, b) == DiffAbsPixel(t, b, a)
  {
    var d := Read(t, a) - Read(t, b);
    JavaAbsOfNegation(t.SumWidth(), d);
    assert Read(t, b) - Read(t, a) == -d;
  }

  method DiffAbs(t: PixelType, imgA: Image, imgB: Image, diff: Image) returns (r: Outcome)
    requires imgA.Valid() && imgB.Valid() && diff.Valid()
    requires DisjointOrSame(imgA.data, imgA.Layout(), diff.data, diff.Layout())
    requires DisjointOrSame(imgB.data, imgB.Layout(), diff.data, diff.Layout())
    modifies diff.data
    ensures r == if SameShape3(imgA, imgB, diff) then Pass else Fail(ShapeMismatch)
    ensures r.Fail? ==> diff.data[..] == old(diff.data[..])
    ensures r.Pass? ==> forall x, y :: diff.InBounds(x, y) ==>
                          diff.data[diff.Index(x, y)] ==
                          DiffAbsPixel(t, old(imgA.data[imgA.Index(x, y)]), old(imgB.data[imgB.Index(x, y)]))
    ensures KeepsPadding(diff.Layout(), old(diff.data[..]), diff.data[..])
  {
    r := Combine(imgA, imgB, diff, (a, b) => DiffAbsPixel(t, a, b));
  }

  /** One pixel of add: the sum in the input's sum type, cast to the output's element type. */
  function AddPixel(t: PixelType, a: int, b: int): (r: int)
    ensures InPrimitive(AddOutput(t).DataWidth(), r)
  {
    CastFromSum(AddOutput(t), WrapSum(t, Read(t, a) + Read(t, b)))
  }

  /** d(x, y) = imgA(x, y) + imgB(x, y) read in the output type: always for the narrow input
      types, whose output type holds every sum, and otherwise whenever the sum fits. */
  lemma {:induction false} AddValue(t: PixelType, a: int, b: int)
    requires InPrimitive(t.DataWidth(), a) && InPrimitive(t.DataWidth(), b)
    ensures var s := Read(t, a) + Read(t, b);
            (t.Narrow() || InPrimitive(t.SumWidth(), s)) ==> Read(AddOutput(t), AddPixel(t, a, b)) == s
  {
    var s := Read(t, a) + Read(t, b);
    if t.Narrow() || InPrimitive(t.SumWidth(), s) {
      StoreThenRead(AddOutput(t), s);
    }
  }

  method Add(t: PixelType, imgA: Image, imgB: Image, output: Image) returns (r: Outcome)
    requires imgA.Valid() && imgB.Valid() && output.Valid()
    requires DisjointOrSame(imgA.data, imgA.Layout(), output.data, output.Layout())
    requires DisjointOrSame(imgB.data, imgB.Layout(), output.data, output.Layout())
    modifies output.data
    ensures r == if SameShape3(imgA, imgB, output) then Pass else Fail(ShapeMismatch)
    ensures r.Fail? ==> output.data[..] == old(output.data[..])
    ensures r.Pass? ==> forall x, y :: output.InBounds(x, y) ==>
                          output.data[output.Index(x, y)] ==
                          AddPixel(t, old(imgA.data[imgA.Index(x, y)]), old(imgB.data[imgB.Index(x, y)]))
    ensures KeepsPadding(output.Layout(), old(output.data[..]), output.data[..])
  {
    r := Combine(imgA, imgB, output, (a, b) => AddPixel(t, a, b));
  }

  /** One pixel of subtract: the difference in the input's sum type, cast to the output's
      element type (a short for both 16-bit output types). */
  function SubtractPixel(t: PixelType, a: int, b: int): (r: int)
    ensures InPrimitive(SubtractOutput(t).DataWidth(), r)
  {
    CastFromSum(SubtractOutput(t), WrapSum(t, Read(t, a) - Read(t, b)))
  }

  /** With the output table the generator prints, 0 - 1 on 8-bit unsigned inputs lands in an
      unsigned 16-bit output and reads back as 65535 instead of -1. */
  lemma SubtractAsWrittenWraps()
    ensures SubtractOutputAsWritten(U8) == U16
    ensures Read(SubtractOutputAsWritten(U8), SubtractPixel(U8, 0, 1)) == 65535
  {
  }

  /** d(x, y) = imgA(x, y) - imgB(x, y) read in the corrected output type: always for the
      narrow input types, and otherwise whenever the difference fits. */
  lemma {:induction false} SubtractValue(t: PixelType, a: int, b: int)
    requires InPrimitive(t.DataWidth(), a) && InPrimitive(t.DataWidth(), b)
    ensures var d := Read(t, a) - Read(t, b);
            (t.Narrow() || InPrimitive(t.SumWidth(), d)) ==> Read(SubtractOutput(t), SubtractPixel(t, a, b)) == d
  {
    var d := Read(t, a) - Read(t, b);
    if t.Narrow() || InPrimitive(t.SumWidth(), d) {
      StoreThenRead(SubtractOutput(t), d);
    }
  }

  method Subtract(t: PixelType, imgA: Image, imgB: Image, output: Image) returns (r: Outcome)
    requires imgA.Valid() && imgB.Valid() && output.Valid()
    requires DisjointOrSame(imgA.data, imgA.Layout(), output.data, output.Layout())
    requires DisjointOrSame(imgB.data, imgB.Layout(), output.data, output.Layout())
    modifies output.data
    ensures r == if SameShape3(imgA, imgB, output) then Pass else Fail(ShapeMismatch)
    ensures r.Fail? ==> output.data[..] == old(output.data[..])
    ensures r.Pass? ==> forall x, y :: output.InBounds(x, y) ==>
                          output.data[output.Index(x, y)] ==
                          SubtractPixel(t, old(imgA.data[imgA.Index(x, y)]), old(imgB.data[imgB.Index(x, y)]))
    ensures KeepsPadding(output.Layout(), old(output.data[..]), output.data[..])
  {
    r := Combine(imgA, imgB, output, (a, b) => SubtractPixel(t, a, b));
  }

  // ---------------------------------------------------------------------------------------
  // averageBand

  /** Java's integer division by a positive count: the quotient truncated toward zero. */
  function JavaDiv(a: int, n: int): (q: int)
    requires n > 0
    ensures 0 <= a ==> 0 <= a - q * n < n
    ensures a < 0 ==> -n < a - q * n <= 0
  {
    if a >= 0 then a / n else -((-a) / n)
  }

  /** The running total of averageBand over the band values vals: int (long) overflow at
      every step. */
  function BandTotal(t: PixelType, vals: seq<int>): (total: int)
    ensures InPrimitive(t.SumWidth(), total)
  {
    if |vals| == 0 then 0 else AddBand(t, BandTotal(t, vals[..|vals| - 1]), vals[|vals| - 1])
  }

  /** `total += bands[i].data[index] & mask` */
  function AddBand(t: PixelType, total: int, raw: int): (r: int)
    ensures InPrimitive(t.SumWidth(), r)
  {
    WrapSum(t, total + Read(t, raw))
  }

  /** The mathematical sum of the band values. */
  function BandSum(t: PixelType, vals: seq<int>): int
  {
    if |vals| == 0 then 0 else BandSum(t, vals[..|vals| - 1]) + Read(t, vals[|vals| - 1])
  }

  /** One output pixel of averageBand. */
  function AveragePixel(t: PixelType, vals: seq<int>): (r: int)
    requires |vals| > 0
    ensures InPrimitive(t.DataWidth(), r)
  {
    CastFromSum(t, JavaDiv(BandTotal(t, vals), |vals|))
  }

  /** The output value averageBand computes for the pixel at index of the bands c. */
  function AverageAt(t: PixelType, c: seq<seq<int>>, index: int): (r: int)
    requires |c| > 0
    ensures InPrimitive(t.DataWidth(), r)
  {
    AveragePixel(t, Column(c, index))
  }

  /** For the narrow types, up to 32768 bands never overflow the int total. */
  lemma {:induction false} BandTotalExact(t: PixelType, vals: seq<int>)
    requires t.Narrow() && |vals| <= 0x8000
    requires forall i :: 0 <= i < |vals| ==> InPrimitive(t.DataWidth(), vals[i])
    ensures BandTotal(t, vals) == BandSum(t, vals)
    ensures -0x8000 * |vals| <= BandSum(t, vals) <= 0xFFFF * |vals|
    decreases |vals|
  {
    if |vals| > 0 {
      var init := vals[..|vals| - 1];
      BandTotalExact(t, init);
      var v := Read(t, vals[|vals| - 1]);
      assert -0x8000 <= v <= 0xFFFF;
      assert InPrimitive(W32, BandSum(t, init) + v);
    }
  }

  /** The sum of n values in [lo, hi] lies in [n * lo, n * hi]. */
  lemma {:induction false} BandSumBounds(t: PixelType, vals: seq<int>, lo: int, hi: int)
    requires forall i :: 0 <= i < |vals| ==> lo <= Read(t, vals[i]) <= hi
    ensures |vals| * lo <= BandSum(t, vals) <= |vals| * hi
    decreases |vals|
  {
    if |vals| > 0 {
      var n, init := |vals|, vals[..|vals| - 1];
      assert forall i :: 0 <= i < n - 1 ==> init[i] == vals[i];
      BandSumBounds(t, init, lo, hi);
      assert BandSum(t, vals) == BandSum(t, init) + Read(t, vals[n - 1]);
      assert n * lo == (n - 1) * lo + lo;
      assert n * hi == (n - 1) * hi + hi;
    }
  }

  /** A truncated quotient of a value in [n * lo, n * hi] by n lies in [lo, hi]. */
  lemma {:induction false} JavaDivBounds(s: int, n: int, lo: int, hi: int)
    requires n > 0 && n * lo <= s <= n * hi
    ensures lo <= JavaDiv(s, n) <= hi
  {
    if s >= 0 {
      FloorDivBounds(s, n, lo, hi);
    } else {
      assert n * -hi <= -s <= n * -lo;
      FloorDivBounds(-s, n, -hi, -lo);
    }
  }

  lemma FloorDivBounds(s: int, n: int, lo: int, hi: int)
    requires n > 0 && n * lo <= s <= n * hi
    ensures lo <= s / n <= hi
  {
    var q, r := s / n, s % n;
    assert s == n * q + r && 0 <= r < n;
    if q > hi {
      MulAtLeast(n, q - hi);
    } else if q < lo {
      MulAtLeast(n, lo - q);
    }
  }

  /** averageBand over a narrow type with at most 32768 bands: each output pixel lies between
      the smallest and the largest of its band values. */
  lemma {:induction false} AverageWithinBands(t: PixelType, vals: seq<int>, lo: int, hi: int)
    requires t.Narrow() && 0 < |vals| <= 0x8000
    requires t.Min() <= lo && hi <= t.Max()
    requires forall i :: 0 <= i < |vals| ==> InPrimitive(t.DataWidth(), vals[i])
    requires forall i :: 0 <= i < |vals| ==> lo <= Read(t, vals[i]) <= hi
    ensures lo <= Read(t, AveragePixel(t, vals)) <= hi
  {
    BandTotalExact(t, vals);
    BandSumBounds(t, vals, lo, hi);
    JavaDivBounds(BandSum(t, vals), |vals|, lo, hi);
    StoreThenRead(t, JavaDiv(BandSum(t, vals), |vals|));
  }

  /** averageBand with every band holding the same value v gives v. */
  lemma {:induction false} AverageOfEqualBands(t: PixelType, vals: seq<int>)
    requires t.Narrow() && 0 < |vals| <= 0x8000
    requires forall i :: 0 <= i < |vals| ==> vals[i] == vals[0]
    requires InPrimitive(t.DataWidth(), vals[0])
    ensures Read(t, AveragePixel(t, vals)) == Read(t, vals[0])
  {
    var v := Read(t, vals[0]);
    AverageWithinBands(t, vals, v, v);
  }

  /** The inner loop of averageBand: the band total of one pixel. */
  method SumBands(t: PixelType, bands: seq<array<int>>, ghost c: seq<seq<int>>, index: int) returns (total: int)
    requires HoldsContents(bands, c)
    requires Addresses(c, index)
    ensures total == BandTotal(t, Column(c, index))
  {
    ghost var vals := Column(c, index);
    total := 0;
    var i := 0;
    while i < |bands|
      invariant 0 <= i <= |bands|
      invariant total == BandTotal(t, vals[..i])
    {
      assert vals[..i + 1][..i] == vals[..i];
      total := AddBand(t, total, bands[i][index]);
      i := i + 1;
    }
    assert vals[..|bands|] == vals;
  }

  /** The inner loop of averageBand over row y. */
  method AverageRow(t: PixelType, bands: seq<array<int>>, ghost c: seq<seq<int>>, li: Layout, dst: array<int>, lo: Layout, y: int)
    requires forall j :: 0 <= j < |bands| ==> bands[j] != dst
    requires HoldsContents(bands, c)
    requires |c| > 0 || li.width == 0
    requires forall x :: 0 <= x < li.width ==> Addresses(c, li.Index(x, y))
    requires lo.Fits(dst.Length) && li.SameShape(lo) && 0 <= y < li.height
    modifies dst
    ensures forall x :: 0 <= x < li.width ==> dst[lo.Index(x, y)] == AverageAt(t, c, li.Index(x, y))
    ensures forall i :: 0 <= i < dst.Length && !(lo.Index(0, y) <= i < lo.Index(0, y) + lo.width) ==>
              dst[i] == old(dst[i])
  {
    RowSpan(lo, dst.Length, y);
    var indexInput := li.startIndex + y * li.stride;
    var indexOutput := lo.startIndex + y * lo.stride;
    var indexEnd := indexInput + li.width;
    ghost var x := 0;
    while indexInput < indexEnd
      invariant 0 <= x <= li.width && indexInput == li.Index(x, y) && indexOutput == lo.Index(x, y)
      invariant HoldsContents(bands, c)
      invariant forall x' :: 0 <= x' < x ==> dst[lo.Index(x', y)] == AverageAt(t, c, li.Index(x', y))
      invariant forall i :: 0 <= i < dst.Length && !(lo.Index(0, y) <= i < indexOutput) ==> dst[i] == old(dst[i])
    {
      var total := SumBands(t, bands, c, indexInput);
      ghost var before := dst[..];
      dst[indexOutput] := CastFromSum(t, JavaDiv(total, |bands|));
      forall x' | 0 <= x' <= x
        ensures dst[lo.Index(x', y)] == AverageAt(t, c, li.Index(x', y))
      {
        if x' < x {
          assert dst[lo.Index(x', y)] == before[lo.Index(x', y)];
        }
      }
      indexInput, indexOutput, x := indexInput + 1, indexOutput + 1, x + 1;
    }
  }

  /** The outer loop of averageBand: every row of the output from the bands c. */
  method AverageRows(t: PixelType, bands: seq<array<int>>, ghost c: seq<seq<int>>, li: Layout, dst: array<int>, lo: Layout)
    requires forall j :: 0 <= j < |bands| ==> bands[j] != dst
    requires HoldsContents(bands, c)
    requires forall j :: 0 <= j < |c| ==> li.Fits(|c[j]|)
    requires |c| > 0 || li.width == 0 || li.height == 0
    requires lo.Fits(dst.Length) && li.SameShape(lo)
    modifies dst
    ensures forall x, y :: lo.InBounds(x, y) ==> dst[lo.Index(x, y)] == AverageAt(t, c, li.Index(x, y))
    ensures forall i :: 0 <= i < dst.Length && i !in lo.Pixels() ==> dst[i] == old(dst[i])
  {
    var y := 0;
    while y < li.height
      invariant 0 <= y <= li.height
      invariant HoldsContents(bands, c)
      invariant forall x', y' :: lo.InBounds(x', y') && y' < y ==>
                  dst[lo.Index(x', y')] == AverageAt(t, c, li.Index(x', y'))
      invariant forall i :: 0 <= i < dst.Length && i !in lo.Pixels() ==> dst[i] == old(dst[i])
    {
      RowSpan(lo, dst.Length, y);
      BandsFit(c, li, y);
      AverageRow(t, bands, c, li, dst, lo, y);
      forall x', y' | lo.InBounds(x', y') && y' < y + 1
        ensures dst[lo.Index(x', y')] == AverageAt(t, c, li.Index(x', y'))
      {
        if y' < y {
          assert lo.Index(x', y') < lo.Index(0, y);
        }
      }
      y := y + 1;
    }
  }

  /** averageBand: the output pixel is the int (long) band total, divided with truncation
      by the number of bands; with no bands and at least one pixel the division by zero
      raises. The output is addressed with its own layout, the bands with the input's. */
  method AverageBand(t: PixelType, input: MultiSpectral, output: Image) returns (r: Outcome)
    requires input.Valid() && output.Valid()
    requires input.Layout().SameShape(output.Layout())
    requires forall b :: b in input.bands ==> b != output.data
    modifies output.data
    ensures r == if |input.bands| == 0 && input.width > 0 && input.height > 0 then Fail(Arithmetic) else Pass
    ensures r.Fail? ==> output.data[..] == old(output.data[..])
    ensures r.Pass? ==> forall x, y :: output.InBounds(x, y) ==>
                          |input.bands| > 0 &&
                          output.data[output.Index(x, y)] ==
                            AverageAt(t, old(Contents(input.bands)), input.Layout().Index(x, y))
    ensures KeepsPadding(output.Layout(), old(output.data[..]), output.data[..])
  {
    var bands, li, dst, lo := input.bands, input.Layout(), output.data, output.Layout();
    if |bands| == 0 && li.width > 0 && li.height > 0 {
      return Fail(Arithmetic);
    }
    assert forall j :: 0 <= j < |bands| ==> bands[j] in input.bands;
    ghost var c := Contents(bands);
    assert forall j :: 0 <= j < |c| ==> li.Fits(|c[j]|);
    AverageRows(t, bands, c, li, dst, lo);
    r := Pass;
  }
}
