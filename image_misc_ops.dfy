/** The kernels GenerateImageMiscOps prints into ImageMiscOps, one routine per pixel type:
    here one routine per kernel, parameterised by the PixelType. The random source is a
    sequence of values the caller supplies, consumed one per pixel in row-by-row order. */
module ImageMiscOps {
  import opened Numeric
  import opened Outcomes
  import opened ImageBase
  import opened Images

  // ---------------------------------------------------------------------------------------
  // The in-place row-major loop shared by fill and the noise kernels

  /** The inner loop of an in-place kernel: each element of row y is replaced by
      f(x, y, element). Only the elements of that row change. */
  method UpdateRow(data: array<int>, l: Layout, y: int, f: (int, int, int) -> int)
    requires l.Fits(data.Length) && 0 <= y < l.height
    modifies data
    ensures forall x :: 0 <= x < l.width ==> data[l.Index(x, y)] == f(x, y, old(data[l.Index(x, y)]))
    ensures forall i :: 0 <= i < data.Length && !(l.Index(0, y) <= i < l.Index(0, y) + l.width) ==>
              data[i] == old(data[i])
  {
    RowSpan(l, data.Length, y);
    var index := l.startIndex + y * l.stride;
    var x := 0;
    while x < l.width
      invariant 0 <= x <= l.width && index == l.Index(x, y)
      invariant forall x' :: 0 <= x' < x ==> data[l.Index(x', y)] == f(x', y, old(data[l.Index(x', y)]))
      invariant forall i :: 0 <= i < data.Length && !(l.Index(0, y) <= i < index) ==> data[i] == old(data[i])
    {
      data[index] := f(x, y, data[index]);
      index, x := index + 1, x + 1;
    }
  }

  /** Every pixel (x, y) of img := f(x, y, its element); the padding is never written. */
  method Update(img: Image, f: (int, int, int) -> int)
    requires img.Valid()
    modifies img.data
    ensures forall x, y :: img.InBounds(x, y) ==> img.data[img.Index(x, y)] == f(x, y, old(img.data[img.Index(x, y)]))
    ensures KeepsPadding(img.Layout(), old(img.data[..]), img.data[..])
  {
    var data, l := img.data, img.Layout();
    ghost var s0 := data[..];
    var y := 0;
    while y < l.height
      invariant 0 <= y <= l.height
      invariant forall x', y' :: l.InBounds(x', y') && y' < y ==> data[l.Index(x', y')] == f(x', y', s0[l.Index(x', y')])
      invariant forall x', y' :: l.InBounds(x', y') && y' >= y ==> data[l.Index(x', y')] == s0[l.Index(x', y')]
      invariant forall i :: 0 <= i < data.Length && i !in l.Pixels() ==> data[i] == s0[i]
    {
      RowSpan(l, data.Length, y);
      UpdateRow(data, l, y, f);
      y := y + 1;
    }
  }

  /** The k-th value of the random source, or none past its end. */
  function Drawn<T>(draws: seq<T>, k: int, none: T): (d: T)
    ensures 0 <= k < |draws| ==> d == draws[k]
  {
    if 0 <= k < |draws| then draws[k] else none
  }

  // ---------------------------------------------------------------------------------------
  // fill

  /** fill: every pixel becomes the value cast to the element type, which reads back as
      the value when the type can hold it. */
  method Fill(t: PixelType, img: Image, value: int)
    requires img.Valid()
    modifies img.data
    ensures forall x, y :: img.InBounds(x, y) ==> img.data[img.Index(x, y)] == CastFromSum(t, value)
    ensures t.Min() <= value <= t.Max() ==>
              forall x, y :: img.InBounds(x, y) ==> Read(t, img.data[img.Index(x, y)]) == value
    ensures KeepsPadding(img.Layout(), old(img.data[..]), img.data[..])
  {
    Update(img, (x, y, raw) => CastFromSum(t, value));
    if t.Min() <= value <= t.Max() {
      StoreThenRead(t, value);
    }
  }

  // ---------------------------------------------------------------------------------------
  // fillRectangle

  /** The exclusive end x0 + width (or y0 + height) of the rectangle, computed in int. */
  function RectangleEnd(start: int, size: int): (end: int)
    ensures InPrimitive(W32, end)
    ensures InPrimitive(W32, start + size) ==> end == start + size
  {
    Wrap(W32, start + size)
  }

  /** (x, y) lies in the rectangle [x0, x0 + width) x [y0, y0 + height). */
  predicate InRectangle(x: int, y: int, x0: int, y0: int, width: int, height: int)
  {
    x0 <= x < RectangleEnd(x0, width) && y0 <= y < RectangleEnd(y0, height)
  }

  /** The inner loop of fillRectangle over row y: set writes v at every in-bounds x of
      [x0, x1); only the elements of row y can change. */
  method FillRectangleRow(img: Image, ghost l: Layout, v: int, x0: int, x1: int, y: int)
    requires img.Valid() && l == img.Layout()
    modifies img.data
    ensures img.Valid() && l == img.Layout()
    ensures 0 <= y < l.height ==>
              forall x' :: 0 <= x' < l.width ==>
                img.data[l.Index(x', y)] == if x0 <= x' < x1 then v else old(img.data[l.Index(x', y)])
    ensures forall i :: (0 <= i < img.data.Length && !(0 <= y < l.height && l.Index(0, y) <= i < l.Index(0, y) + l.width)) ==>
              img.data[i] == old(img.data[i])
  {
    var data := img.data;
    if 0 <= y < l.height {
      RowSpan(l, data.Length, y);
    }
    var x := x0;
    while x < x1
      invariant img.data == data && img.Layout() == l
      invariant 0 <= y < l.height ==>
                  forall x' :: 0 <= x' < l.width ==>
                    data[l.Index(x', y)] == if x0 <= x' < x && x' < x1 then v else old(data[l.Index(x', y)])
      invariant forall i :: (0 <= i < data.Length && !(0 <= y < l.height && l.Index(0, y) <= i < l.Index(0, y) + l.width)) ==>
                  data[i] == old(data[i])
      decreases x1 - x
    {
      if img.InBounds(x, y) {
        var _ := img.Set(x, y, v);
      }
      x := x + 1;
    }
  }

  /** fillRectangle: every pixel of the image inside the rectangle becomes the value cast to
      the element type, written with set; every other element keeps its value. */
  method FillRectangle(t: PixelType, img: Image, value: int, x0: int, y0: int, width: int, height: int)
    requires img.Valid()
    modifies img.data
    ensures forall x, y :: img.InBounds(x, y) ==>
              img.data[img.Index(x, y)] ==
                if InRectangle(x, y, x0, y0, width, height) then CastFromSum(t, value) else old(img.data[img.Index(x, y)])
    ensures KeepsPadding(img.Layout(), old(img.data[..]), img.data[..])
  {
    var data, l := img.data, img.Layout();
    ghost var s0 := data[..];
    var v := CastFromSum(t, value);
    var x1 := RectangleEnd(x0, width);
    var y1 := RectangleEnd(y0, height);
    var y := y0;
    while y < y1
      invariant img.data == data && img.Layout() == l && img.Valid()
      invariant forall x', y' :: l.InBounds(x', y') ==>
                  data[l.Index(x', y')] == if x0 <= x' < x1 && y0 <= y' < y && y' < y1 then v else s0[l.Index(x', y')]
      invariant forall i :: 0 <= i < data.Length && i !in l.Pixels() ==> data[i] == s0[i]
      decreases y1 - y
    {
      ghost var before := data[..];
      if 0 <= y < l.height {
        RowSpan(l, data.Length, y);
      }
      FillRectangleRow(img, l, v, x0, x1, y);
      forall x', y' | l.InBounds(x', y')
        ensures data[l.Index(x', y')] == if x0 <= x' < x1 && y0 <= y' < y + 1 && y' < y1 then v else s0[l.Index(x', y')]
      {
        if y' != y {
          assert data[l.Index(x', y')] == before[l.Index(x', y')];
        }
      }
      y := y + 1;
    }
  }

  // ---------------------------------------------------------------------------------------
  // fillUniform, addUniform

  /** The bound passed to Random.nextInt: max - min in the sum type, narrowed to int for the
      long type. */
  function UniformBound(t: PixelType, min: int, max: int): (bound: int)
    ensures InPrimitive(W32, bound)
  {
    Wrap(W32, WrapSum(t, max - min))
  }

  /** When max - min fits in an int, nextInt is given exactly max - min. */
  lemma UniformBoundExact(t: PixelType, min: int, max: int)
    requires InPrimitive(W32, max - min)
    ensures UniformBound(t, min, max) == max - min
  {
  }

  /** With min < max in the sum type, a bound nextInt accepts never exceeds max - min: the
      drawn values stay below max - min even when the range overflows. */
  lemma {:induction false} UniformBoundBelowRange(t: PixelType, min: int, max: int)
    requires InPrimitive(t.SumWidth(), min) && InPrimitive(t.SumWidth(), max) && min < max
    requires UniformBound(t, min, max) > 0
    ensures UniformBound(t, min, max) <= max - min
  {
    var w, d := t.SumWidth(), max - min;
    var range := WrapSum(t, d);
    var m := Modulus(w);
    assert range == d || range == d - m by {
      var k := (d - range) / m;
      assert d - range == m * k;
      if k >= 2 {
        MulAtLeast(m, k - 1);
      } else if k <= -1 {
        MulAtLeast(m, -k);
      }
    }
    if range != d {
      assert w == W64 && d >= Half(W64);
    }
  }

  /** One pixel of fillUniform: the draw plus min in the sum type, cast to the element type. */
  function UniformPixel(t: PixelType, draw: int, min: int): (r: int)
    ensures InPrimitive(t.DataWidth(), r)
  {
    CastFromSum(t, WrapSum(t, draw + min))
  }

  /** A pixel drawn by fillUniform for a range [min, max) of the type lies in [min, max). */
  lemma {:induction false} UniformInRange(t: PixelType, min: int, max: int, draw: int)
    requires InPrimitive(t.SumWidth(), min) && InPrimitive(t.SumWidth(), max)
    requires t.Min() <= min < max <= t.Max() + 1
    requires 0 <= draw < UniformBound(t, min, max)
    ensures min <= Read(t, UniformPixel(t, draw, min)) < max
  {
    UniformBoundBelowRange(t, min, max);
    t.RangeInSum(draw + min);
    StoreThenRead(t, draw + min);
  }

  /** The random source gave one value in [0, bound) for every pixel of img. */
  ghost predicate UniformDraws(img: Image, draws: seq<int>, bound: int)
    reads img
  {
    && |draws| >= img.width * img.height
    && forall k :: 0 <= k < |draws| ==> 0 <= draws[k] < bound
  }

  /** nextInt raises for a bound that is not positive, at the first pixel. */
  function UniformOutcome(img: Image, bound: int): (r: Outcome)
    reads img
    ensures r == Pass || r == Fail(IllegalArgument)
  {
    if bound <= 0 && img.width > 0 && img.height > 0 then Fail(IllegalArgument) else Pass
  }

  /** fillUniform: every pixel becomes a draw plus min, which lies in [min, max) for a
      range of the type; a bound nextInt refuses raises before any pixel is written. */
  method FillUniform(t: PixelType, img: Image, draws: seq<int>, min: int, max: int) returns (r: Outcome)
    requires img.Valid()
    requires UniformBound(t, min, max) > 0 ==> UniformDraws(img, draws, UniformBound(t, min, max))
    modifies img.data
    ensures r == UniformOutcome(img, UniformBound(t, min, max))
    ensures r.Fail? ==> img.data[..] == old(img.data[..])
    ensures r.Pass? ==> forall x, y :: img.InBounds(x, y) ==>
              img.data[img.Index(x, y)] == UniformPixel(t, Drawn(draws, img.Layout().Rank(x, y), 0), min)
    ensures r.Pass? && InPrimitive(t.SumWidth(), min) && InPrimitive(t.SumWidth(), max) &&
            t.Min() <= min < max <= t.Max() + 1 ==>
              forall x, y :: img.InBounds(x, y) ==> min <= Read(t, img.data[img.Index(x, y)]) < max
    ensures KeepsPadding(img.Layout(), old(img.data[..]), img.data[..])
  {
    var bound := UniformBound(t, min, max);
    r := UniformOutcome(img, bound);
    if r.Fail? {
      return;
    }
    var l := img.Layout();
    Update(img, (x, y, raw) => UniformPixel(t, Drawn(draws, l.Rank(x, y), 0), min));
    if InPrimitive(t.SumWidth(), min) && InPrimitive(t.SumWidth(), max) && t.Min() <= min < max <= t.Max() + 1 {
      forall x, y | l.InBounds(x, y)
        ensures min <= Read(t, UniformPixel(t, Drawn(draws, l.Rank(x, y), 0), min)) < max
      {
        RankBounds(l, x, y);
        UniformInRange(t, min, max, draws[l.Rank(x, y)]);
      }
    }
  }

  /** One pixel of addUniform: the element's value plus the draw plus min in the sum type,
      clipped to the type's range for the types narrower than int, cast back. */
  function AddUniformPixel(t: PixelType, raw: int, draw: int, min: int): (r: int)
    ensures InPrimitive(t.DataWidth(), r)
  {
    var value := WrapSum(t, Read(t, raw) + draw + min);
    if t.Narrow() then CastFromSum(t, Bound(value, t.Min(), t.Max())) else CastFromSum(t, value)
  }

  /** For the narrow types the noisy pixel always stays in the type's range; for every
      type, a sum the type can hold is stored exactly. */
  lemma {:induction false} AddUniformValue(t: PixelType, raw: int, draw: int, min: int)
    ensures t.Narrow() ==> t.Min() <= Read(t, AddUniformPixel(t, raw, draw, min)) <= t.Max()
    ensures t.Min() <= Read(t, raw) + draw + min <= t.Max() ==>
              Read(t, AddUniformPixel(t, raw, draw, min)) == Read(t, raw) + draw + min
    ensures t.Narrow() && InPrimitive(W32, Read(t, raw) + draw + min) ==>
              Read(t, AddUniformPixel(t, raw, draw, min)) == Bound(Read(t, raw) + draw + min, t.Min(), t.Max())
  {
    var sum := Read(t, raw) + draw + min;
    var value := WrapSum(t, sum);
    if t.Narrow() {
      ClampThenStore(t, value, t.Min(), t.Max());
    }
    if t.Min() <= sum <= t.Max() {
      t.RangeInSum(sum);
      StoreThenRead(t, sum);
    }
  }

  /** Noise drawn from [0, 1) leaves every stored element as it was. */
  lemma {:induction false} AddUniformZeroWidthKeeps(t: PixelType, raw: int, draw: int)
    requires InPrimitive(t.DataWidth(), raw)
    requires 0 <= draw < UniformBound(t, 0, 1)
    ensures AddUniformPixel(t, raw, draw, 0) == raw
  {
    assert draw == 0;
    AddUniformValue(t, raw, 0, 0);
    t.RangeInSum(Read(t, raw));
    ReadThenStore(t, raw);
  }

  /** addUniform: every pixel becomes its value plus a draw plus min, clipped for the narrow
      types; a bound nextInt refuses raises before any pixel is written. */
  method AddUniform(t: PixelType, img: Image, draws: seq<int>, min: int, max: int) returns (r: Outcome)
    requires img.Valid()
    requires UniformBound(t, min, max) > 0 ==> UniformDraws(img, draws, UniformBound(t, min, max))
    modifies img.data
    ensures r == UniformOutcome(img, UniformBound(t, min, max))
    ensures r.Fail? ==> img.data[..] == old(img.data[..])
    ensures r.Pass? ==> forall x, y :: img.InBounds(x, y) ==>
              img.data[img.Index(x, y)] ==
                AddUniformPixel(t, old(img.data[img.Index(x, y)]), Drawn(draws, img.Layout().Rank(x, y), 0), min)
    ensures KeepsPadding(img.Layout(), old(img.data[..]), img.data[..])
  {
    var bound := UniformBound(t, min, max);
    r := UniformOutcome(img, bound);
    if r.Fail? {
      return;
    }
    var l := img.Layout();
    Update(img, (x, y, raw) => AddUniformPixel(t, raw, Drawn(draws, l.Rank(x, y), 0), min));
  }

  // ---------------------------------------------------------------------------------------
  // fillGaussian, addGaussian

  /** One pixel of fillGaussian: the drawn double converted to the sum type, clipped to
      [lower, upper], cast to the element type. */
  function GaussianPixel(t: PixelType, drawn: real, lower: int, upper: int): (r: int)
    ensures InPrimitive(t.DataWidth(), r)
  {
    CastFromSum(t, Bound(DoubleToSum(t, drawn), lower, upper))
  }

  /** Whatever was drawn, a fillGaussian pixel lies in [lower, upper]; a draw inside the
      bounds that the sum type holds is stored as its truncation. */
  lemma {:induction false} GaussianInBounds(t: PixelType, drawn: real, lower: int, upper: int)
    requires t.Min() <= lower <= upper <= t.Max()
    ensures lower <= Read(t, GaussianPixel(t, drawn, lower, upper)) <= upper
    ensures lower <= Truncate(drawn) <= upper ==> Read(t, GaussianPixel(t, drawn, lower, upper)) == Truncate(drawn)
    ensures Read(t, GaussianPixel(t, drawn, lower, upper)) == Bound(Truncate(drawn), lower, upper)
  {
    ClampThenStore(t, DoubleToSum(t, drawn), lower, upper);
    t.RangeInSum(lower);
    t.RangeInSum(upper);
  }

  /** fillGaussian: every pixel becomes the clipped draw of its position. */
  method FillGaussian(t: PixelType, img: Image, draws: seq<real>, lower: int, upper: int)
    requires img.Valid() && |draws| >= img.width * img.height
    modifies img.data
    ensures forall x, y :: img.InBounds(x, y) ==>
              img.data[img.Index(x, y)] == GaussianPixel(t, Drawn(draws, img.Layout().Rank(x, y), 0.0), lower, upper)
    ensures t.Min() <= lower <= upper <= t.Max() ==>
              forall x, y :: img.InBounds(x, y) ==> lower <= Read(t, img.data[img.Index(x, y)]) <= upper
    ensures KeepsPadding(img.Layout(), old(img.data[..]), img.data[..])
  {
    var l := img.Layout();
    Update(img, (x, y, raw) => GaussianPixel(t, Drawn(draws, l.Rank(x, y), 0.0), lower, upper));
    if t.Min() <= lower <= upper <= t.Max() {
      forall x, y | l.InBounds(x, y)
        ensures lower <= Read(t, GaussianPixel(t, Drawn(draws, l.Rank(x, y), 0.0), lower, upper)) <= upper
      {
        GaussianInBounds(t, Drawn(draws, l.Rank(x, y), 0.0), lower, upper);
      }
    }
  }

  /** One pixel of addGaussian: the element's value plus the drawn noise converted to the
      sum type, clipped to [lower, upper], cast back. */
  function AddGaussianPixel(t: PixelType, raw: int, noise: real, lower: int, upper: int): (r: int)
    ensures InPrimitive(t.DataWidth(), r)
  {
    CastFromSum(t, Bound(WrapSum(t, Read(t, raw) + DoubleToSum(t, noise)), lower, upper))
  }

  /** Whatever the noise, an addGaussian pixel lies in [lower, upper]; noise that keeps the
      value inside the bounds is added exactly. */
  lemma {:induction false} AddGaussianInBounds(t: PixelType, raw: int, noise: real, lower: int, upper: int)
    requires t.Min() <= lower <= upper <= t.Max()
    ensures lower <= Read(t, AddGaussianPixel(t, raw, noise, lower, upper)) <= upper
    ensures InPrimitive(t.SumWidth(), Truncate(noise)) && lower <= Read(t, raw) + Truncate(noise) <= upper ==>
              Read(t, AddGaussianPixel(t, raw, noise, lower, upper)) == Read(t, raw) + Truncate(noise)
    ensures InPrimitive(t.SumWidth(), Truncate(noise)) && InPrimitive(t.SumWidth(), Read(t, raw) + Truncate(noise)) ==>
              Read(t, AddGaussianPixel(t, raw, noise, lower, upper)) == Bound(Read(t, raw) + Truncate(noise), lower, upper)
  {
    var value := WrapSum(t, Read(t, raw) + DoubleToSum(t, noise));
    ClampThenStore(t, value, lower, upper);
    var sum := Read(t, raw) + Truncate(noise);
    if InPrimitive(t.SumWidth(), Truncate(noise)) && lower <= sum <= upper {
      t.RangeInSum(sum);
    }
  }

  /** The int sum of addGaussian can wrap: an S32 pixel of 0x7FFFFFF0 plus noise 100.0, bounded
      to [0, 100], is stored as 0 although the closest bound to the true sum is 100. */
  lemma AddGaussianWrapsExample()
    ensures Read(S32, AddGaussianPixel(S32, 0x7FFF_FFF0, 100.0, 0, 100)) == 0
    ensures Bound(0x7FFF_FFF0 + 100, 0, 100) == 100
  {
    assert Truncate(100.0) == 100;
    assert WrapSum(S32, 0x7FFF_FFF0 + 100) == 0x7FFF_FFF0 + 100 - 0x1_0000_0000;
  }

  /** addGaussian: every pixel becomes its value plus the noise of its position, clipped. */
  method AddGaussian(t: PixelType, img: Image, draws: seq<real>, lower: int, upper: int)
    requires img.Valid() && |draws| >= img.width * img.height
    modifies img.data
    ensures forall x, y :: img.InBounds(x, y) ==>
              img.data[img.Index(x, y)] ==
                AddGaussianPixel(t, old(img.data[img.Index(x, y)]), Drawn(draws, img.Layout().Rank(x, y), 0.0), lower, upper)
    ensures t.Min() <= lower <= upper <= t.Max() ==>
              forall x, y :: img.InBounds(x, y) ==> lower <= Read(t, img.data[img.Index(x, y)]) <= upper
    ensures KeepsPadding(img.Layout(), old(img.data[..]), img.data[..])
  {
    var l := img.Layout();
    ghost var s0 := img.data[..];
    Update(img, (x, y, raw) => AddGaussianPixel(t, raw, Drawn(draws, l.Rank(x, y), 0.0), lower, upper));
    if t.Min() <= lower <= upper <= t.Max() {
      forall x, y | l.InBounds(x, y)
        ensures lower <= Read(t, AddGaussianPixel(t, s0[l.Index(x, y)], Drawn(draws, l.Rank(x, y), 0.0), lower, upper)) <= upper
      {
        AddGaussianInBounds(t, s0[l.Index(x, y)], Drawn(draws, l.Rank(x, y), 0.0), lower, upper);
      }
    }
  }

  // ---------------------------------------------------------------------------------------
  // flipVertical

  /** s' is s upside down in the image of layout l: row y of s' is row height-1-y of s,
      and the padding is as it was. */
  ghost predicate FlippedImage(l: Layout, s: seq<int>, s': seq<int>)
  {
    && l.Fits(|s|)
    && KeepsPadding(l, s, s')
    && forall x, y :: l.InBounds(x, y) ==> s'[l.Index(x, y)] == s[l.Index(x, l.height - 1 - y)]
  }

  /** Flipping twice restores the image. */
  lemma {:induction false} FlipInvolution(l: Layout, s: seq<int>, s1: seq<int>, s2: seq<int>)
    requires FlippedImage(l, s, s1) && FlippedImage(l, s1, s2)
    ensures s2 == s
  {
    forall i | 0 <= i < |s|
      ensures s2[i] == s[i]
    {
      if i in l.Pixels() {
        var x, y := PixelOf(l, i);
        assert l.InBounds(x, l.height - 1 - y);
      }
    }
  }

  /** The middle row of an image of odd height stays where it is. */
  lemma {:induction false} FlipKeepsMiddleRow(l: Layout, s: seq<int>, s': seq<int>, x: int)
    requires FlippedImage(l, s, s') && l.height % 2 == 1 && 0 <= x < l.width
    ensures s'[l.Index(x, l.height / 2)] == s[l.Index(x, l.height / 2)]
  {
    assert l.InBounds(x, l.height / 2);
    assert l.height - 1 - l.height / 2 == l.height / 2;
  }

  /** The inner loop of flipVertical: rows y1 and y2 exchange their elements through tmp;
      nothing else changes. The sum-type tmp holds the element exactly, so the cast back to
      the element type restores it. */
  method SwapRows(data: array<int>, l: Layout, y1: int, y2: int)
    requires l.Fits(data.Length) && 0 <= y1 < y2 < l.height
    modifies data
    ensures forall x :: 0 <= x < l.width ==>
              data[l.Index(x, y1)] == old(data[l.Index(x, y2)]) && data[l.Index(x, y2)] == old(data[l.Index(x, y1)])
    ensures forall i :: (0 <= i < data.Length && !(l.Index(0, y1) <= i < l.Index(0, y1) + l.width) &&
                         !(l.Index(0, y2) <= i < l.Index(0, y2) + l.width)) ==> data[i] == old(data[i])
  {
    RowSpan(l, data.Length, y1);
    RowSpan(l, data.Length, y2);
    var index1 := l.startIndex + y1 * l.stride;
    var index2 := l.startIndex + y2 * l.stride;
    var end := index1 + l.width;
    ghost var x := 0;
    while index1 < end
      invariant 0 <= x <= l.width && index1 == l.Index(x, y1) && index2 == l.Index(x, y2)
      invariant forall x' :: 0 <= x' < x ==>
                  data[l.Index(x', y1)] == old(data[l.Index(x', y2)]) && data[l.Index(x', y2)] == old(data[l.Index(x', y1)])
      invariant forall i :: (0 <= i < data.Length && !(l.Index(0, y1) <= i < index1) &&
                           !(l.Index(0, y2) <= i < index2)) ==> data[i] == old(data[i])
    {
      var tmp := data[index1];
      data[index1] := data[index2];
      data[index2] := tmp;
      index1, index2, x := index1 + 1, index2 + 1, x + 1;
    }
  }

  /** The element at (x, y) once the first k rows and the last k rows of s have been
      exchanged. */
  ghost function PartlyFlipped(l: Layout, s: seq<int>, k: int, x: int, y: int): int
    requires l.Fits(|s|) && l.InBounds(x, y)
  {
    assert l.InBounds(x, l.height - 1 - y);
    if y < k || y > l.height - 1 - k then s[l.Index(x, l.height - 1 - y)] else s[l.Index(x, y)]
  }

  /** The outer loop of flipVertical: row y is exchanged with row height-1-y for every
      y < height/2. */
  method FlipRows(data: array<int>, l: Layout, ghost s0: seq<int>)
    requires l.Fits(data.Length) && data[..] == s0
    modifies data
    ensures forall x', y' :: l.InBounds(x', y') ==> data[l.Index(x', y')] == PartlyFlipped(l, s0, l.height / 2, x', y')
    ensures forall i :: 0 <= i < data.Length && i !in l.Pixels() ==> data[i] == s0[i]
  {
    var h2 := l.height / 2;
    var y := 0;
    while y < h2
      invariant 0 <= y <= h2
      invariant forall x', y' :: l.InBounds(x', y') ==> data[l.Index(x', y')] == PartlyFlipped(l, s0, y, x', y')
      invariant forall i :: 0 <= i < data.Length && i !in l.Pixels() ==> data[i] == s0[i]
    {
      RowSpan(l, data.Length, y);
      RowSpan(l, data.Length, l.height - 1 - y);
      ghost var before := data[..];
      SwapRows(data, l, y, l.height - 1 - y);
      forall x', y' | l.InBounds(x', y')
        ensures data[l.Index(x', y')] == PartlyFlipped(l, s0, y + 1, x', y')
      {
        if y' != y && y' != l.height - 1 - y {
          assert data[l.Index(x', y')] == before[l.Index(x', y')];
        }
      }
      y := y + 1;
    }
  }

  /** flipVertical: the image upside down, its padding untouched. */
  method FlipVertical(img: Image)
    requires img.Valid()
    modifies img.data
    ensures FlippedImage(img.Layout(), old(img.data[..]), img.data[..])
  {
    var data, l := img.data, img.Layout();
    ghost var s0 := data[..];
    FlipRows(data, l, s0);
    forall x', y' | l.InBounds(x', y')
      ensures data[l.Index(x', y')] == s0[l.Index(x', l.height - 1 - y')]
    {
      if l.height / 2 <= y' <= l.height - 1 - l.height / 2 {
        assert y' == l.height - 1 - y';
      }
    }
  }
}
