# BoofCV per-pixel kernels, modelled in Dafny

BoofCV generates its low-level image routines. `GeneratePixelMath` and `GenerateImageMiscOps`
print one Java method per kernel and per pixel type into `PixelMath` and `ImageMiscOps`. This
project models the kernels those generators print for the integer image types. A kernel appears
once, parameterised by an integer pixel type (`Numeric.PixelType`: U8, S8, U16, S16, S32, S64).
The `PixelMath` kernels and `addUniform`/`addGaussian` are printed per type of this list, which
tells signed from unsigned 8- and 16-bit images. `fill`, `fillRectangle`, `fillUniform`,
`fillGaussian` and `flipVertical` are printed per generic type instead
(GenerateImageMiscOps.java:66), which does not. None of those five masks on reading, so the
stored elements they produce do not depend on that difference, and the model states them over
the same six types. All the Java numeric policy is written out:

- the unsigned mask applied on reading (`Read`);
- the int or long sum type and its overflow (`WrapSum`);
- the narrowing cast back to the element type (`CastFromSum`);
- the conversion of a double to int or long (`DoubleToSum`, `QuotientToSum`).

An image (`Images.Image`) is a class. Its fields are a data array of stored primitive values plus
`width`, `height`, `stride` and `startIndex`. Pixel (x, y) lives at
`startIndex + y*stride + x` (`ImageBase.Layout`). It carries the checked accessors of
`ImageFloat32`: `get`, `unsafe_get`, `set` and `_createNew`.

Every kernel is an imperative method with the loop nest of the generated code:

- an outer loop over rows;
- an inner loop that advances the source and destination indices together;
- writes into the output array in place.

Each method is proved against a per-pixel function of the type and the stored element. Lemmas
about those functions state what the kernel promises. Examples: clipping keeps a pixel in its
bounds, `boundImage` is idempotent, `diffAbs` is symmetric, a flip applied twice is the identity,
and an average lies between the band values.

Every kernel also states that the padding between `width` and `stride` is never written
(`KeepsPadding`). Input and output may be the same instance. The contracts are stated in terms of
the input as it was before the call, so the in-place result equals the out-of-place one.

Errors are values rather than exceptions:

- `checkSameShape`'s rejection is `Fail(ShapeMismatch)`;
- `get`/`set` out of bounds is `OutOfBounds`;
- `Random.nextInt` refusing a non-positive bound is `Fail(IllegalArgument)`;
- the division by zero of an `averageBand` with no bands is `Fail(Arithmetic)`.

In each error case the contract says the data is unchanged.

The random source is a sequence of draws the caller supplies. The pixel at row-major rank
`y*width + x` consumes draw number `y*width + x` (`Layout.Rank`, `ImageMiscOps.Drawn`).

Files:

- `outcomes.dfy`: the error, result and outcome datatypes.
- `numeric.dfy`: two's-complement wrap-around, Java's double-to-integer conversion, `Math.abs`, the clip of the bounded kernels, the pixel types and the add/subtract output tables.
- `image_base.dfy`: the strided layout and its index lemmas.
- `images.dfy`: the image classes, the accessors and the band snapshot used by `averageBand`.
- `pixel_math.dfy`: the `PixelMath` kernels.
- `image_misc_ops.dfy`: the `ImageMiscOps` kernels.

## Model

| member | source | states |
|---|---|---|
| Numeric.Wrap | main/ip/generate/boofcv/alg/misc/GeneratePixelMath.java:116 | Java's narrowing cast between integer primitives, and int/long overflow. The result is a value of the primitive. It is congruent to the input modulo 2^w. A value the primitive already holds is unchanged. |
| Numeric.Truncate | main/ip/generate/boofcv/alg/misc/GeneratePixelMath.java:206 | The first step of converting a double to an integer, truncation toward zero: the result is within 1 below a non-negative value and within 1 above a non-positive one. `Saturate` is the second step. |
| Numeric.Saturate | main/ip/generate/boofcv/alg/misc/GeneratePixelMath.java:206 | Converting a double to int or long saturates. A value the primitive holds is kept; anything beyond goes to the nearest bound. |
| Numeric.DoubleToSum | main/ip/generate/boofcv/alg/misc/GeneratePixelMath.java:238 | The `(int)` or `(long)` of a double lies in the sum type. It equals the truncation whenever the sum type holds that. |
| Numeric.QuotientToSum | main/ip/generate/boofcv/alg/misc/GeneratePixelMath.java:174 | A non-zero denominator gives the converted quotient. Division by zero gives a result with the sign of the dividend (the saturated infinity), and 0 for 0/0 (NaN). |
| Numeric.JavaAbs | main/ip/generate/boofcv/alg/misc/GeneratePixelMath.java:116 | `Math.abs` on int or long is the absolute value, except that the most negative value maps to itself. |
| Numeric.JavaAbsOfNegation | main/ip/generate/boofcv/alg/misc/GeneratePixelMath.java:364 | `Math.abs` of a wrapped value equals `Math.abs` of its wrapped negation. |
| Numeric.Bound | main/ip/generate/boofcv/alg/misc/GeneratePixelMath.java:175-176 | The two-test clip. The result never exceeds upper. It is at least lower when lower <= upper. A value in range is kept; values below go to lower and values above go to upper. |
| Numeric.Read | main/ip/generate/boofcv/alg/misc/GeneratePixelMath.java:143 | The masked read. An element of the storage primitive reads as a value of the type's range. Unsigned reads are non-negative. Signed reads are the element itself. |
| Numeric.CastFromSum | main/ip/generate/boofcv/alg/misc/GeneratePixelMath.java:177 | The cast back to the element type gives a value of the storage primitive. |
| Numeric.WrapSum | main/ip/generate/boofcv/alg/misc/GeneratePixelMath.java:265 | Arithmetic in the sum type gives a value of int (long for S64). |
| Numeric.StoreThenRead | main/ip/generate/boofcv/alg/misc/GeneratePixelMath.java:177 | A value of the type's range, cast to the element type and read back, is the value. |
| Numeric.ReadThenStore | main/ip/generate/boofcv/alg/misc/GenerateImageMiscOps.java:225-237 | A stored element, read with the mask and cast back, is the element. `addUniform` relies on this when its noise is zero. |
| Numeric.ClampThenStore | main/ip/generate/boofcv/alg/misc/GeneratePixelMath.java:174-177 | A value clipped to bounds inside the type's range survives the cast. It reads back as the clipped value, within the bounds. |
| Numeric.AddOutput | main/ip/generate/boofcv/alg/misc/GeneratePixelMath.java:80-84 | The output table of add: for the narrow input types, the output range holds twice the input range. |
| Numeric.SubtractOutput | main/ip/generate/boofcv/alg/misc/GeneratePixelMath.java:80-84 | Corrected output table of subtract: for the narrow input types, the output range holds every difference of two inputs. |
| Numeric.SubtractOutputAsWritten | main/ip/generate/boofcv/alg/misc/GeneratePixelMath.java:80-84 | Output table of subtract as the generator prints it, the table of add. U8 is the only input type it sends to an unsigned output. |
| ImageBase.LastPixelFits | core/src/gecv/struct/image/ImageFloat32.java:36-38 | A layout whose last pixel lies inside the array addresses the array at every in-bounds pixel. |
| ImageBase.IndexInjective | core/src/gecv/struct/image/ImageFloat32.java:72 | With stride >= width, two in-bounds pixels share an index exactly when they are the same pixel. |
| ImageBase.RowSpan | main/ip/generate/boofcv/alg/misc/GeneratePixelMath.java:137-145 | Row y occupies the consecutive indices from `startIndex + y*stride` for width elements. Earlier rows lie before it and later rows after it. |
| ImageBase.RankBounds | main/ip/generate/boofcv/alg/misc/GenerateImageMiscOps.java:156-160 | The row-by-row scan visits the pixels at ranks 0 to width*height-1. |
| ImageBase.Layout.InBounds | core/src/gecv/struct/image/ImageFloat32.java:51 | `isInBounds(x, y)`: 0 <= x < width and 0 <= y < height. |
| ImageBase.Layout.Index | core/src/gecv/struct/image/ImageFloat32.java:58 | `getIndex(x, y)`: startIndex + y*stride + x. |
| ImageBase.Layout.SameShape | main/ip/generate/boofcv/alg/misc/GeneratePixelMath.java:108 | The shape test of `checkSameShape`: equal width and equal height. |
| Images.Image.constructor | core/src/gecv/struct/image/ImageFloat32.java:36-38 | A new w-by-h image: stride w, start 0, w*h zeroed elements, and a layout that fits them. |
| Images.Image.Placeholder | core/src/gecv/struct/image/ImageFloat32.java:40-41 | The no-argument constructor gives an unshaped image with no storage. |
| Images.Image.Get | core/src/gecv/struct/image/ImageFloat32.java:50-59 | `get` fails with OutOfBounds exactly when (x, y) is outside the image. Otherwise it returns the element at `getIndex(x, y)`, which is what `unsafe_get` reads. |
| Images.Image.UnsafeGet | core/src/gecv/struct/image/ImageFloat32.java:57-59 | `unsafe_get`: the element at `getIndex(x, y)`, with no bounds check. Callers must pass an in-bounds pixel. |
| Images.Image.Set | core/src/gecv/struct/image/ImageFloat32.java:68-73 | `set` outside the image fails with OutOfBounds and changes nothing. Inside, `get` afterwards returns the value, and every other element, pixel or padding, keeps its value. |
| Images.Image.CreateNew | core/src/gecv/struct/image/ImageFloat32.java:86-90 | `_createNew` with either size -1 gives an unshaped placeholder. Otherwise it gives a new w-by-h image. |
| Images.BandsFit | main/ip/generate/boofcv/alg/misc/GeneratePixelMath.java:459-467 | Every pixel of a row, at the multi-band image's index, lies inside every band. |
| PixelMath.MapRow | main/ip/generate/boofcv/alg/misc/GeneratePixelMath.java:110-117 | One row of a single-input kernel. Each output pixel of row y is f of the input pixel at the same position as it was before the call. Nothing outside that output row changes. |
| PixelMath.Transform | main/ip/generate/boofcv/alg/misc/GeneratePixelMath.java:106-119 | Shape check first: on a mismatch, Fail and no change. Otherwise every output pixel is f of the original input pixel at the same position, with the same instance allowed, and the padding is kept. |
| PixelMath.CombineRow | main/ip/generate/boofcv/alg/misc/GeneratePixelMath.java:356-365 | One row of a two-input kernel. Each output pixel of row y is f of the two original input pixels. Nothing outside that row changes. |
| PixelMath.Combine | main/ip/generate/boofcv/alg/misc/GeneratePixelMath.java:350-367 | Three-way shape check, then every output pixel is f of the two original input pixels. Fail leaves the output unchanged, and the padding is always kept. |
| PixelMath.AbsPixelValue | main/ip/generate/boofcv/alg/misc/GeneratePixelMath.java:116 | A pixel of abs reads back as the absolute value of the input pixel. The one exception is the type's minimum, which maps to itself. |
| PixelMath.Abs | main/ip/generate/boofcv/alg/misc/GeneratePixelMath.java:106-119 | abs: shape mismatch rejected with no change. Otherwise every output pixel is the abs pixel of the original input pixel, and the padding is kept. |
| PixelMath.MultiplyValue | main/ip/generate/boofcv/alg/misc/GeneratePixelMath.java:206 | A product the type holds is stored as its truncation. For int and long the product saturates. |
| PixelMath.MultiplyWrapsExample | main/ip/generate/boofcv/alg/misc/GeneratePixelMath.java:206 | An 8-bit unsigned product the type cannot hold wraps: 200 * 2.0 reads back as 144. |
| PixelMath.MultiplyBoundedValue | main/ip/generate/boofcv/alg/misc/GeneratePixelMath.java:238-241 | With bounds inside the type, every pixel lies in [lower, upper]. It reads back as the truncated product clipped to [lower, upper], for every product: saturation to int or long followed by the clip equals the clip. |
| PixelMath.MultiplyBoundedExample | main/ip/generate/boofcv/alg/misc/GeneratePixelMath.java:238-241 | 40 * 3.0 bounded to [0, 100] gives 100. |
| PixelMath.DivideValue | main/ip/generate/boofcv/alg/misc/GeneratePixelMath.java:143 | A quotient the type holds is stored as its truncation. Dividing 0 by 0 gives 0. For int and long, a non-zero pixel divided by zero gives the type's bound of its sign. |
| PixelMath.DivideBoundedValue | main/ip/generate/boofcv/alg/misc/GeneratePixelMath.java:174-177 | With bounds inside the type, every pixel lies in [lower, upper]. For a non-zero denominator it reads back as the truncated quotient clipped to [lower, upper], for every quotient. |
| PixelMath.PlusValue | main/ip/generate/boofcv/alg/misc/GeneratePixelMath.java:265 | A sum the type holds is stored exactly. |
| PixelMath.PlusBoundedValue | main/ip/generate/boofcv/alg/misc/GeneratePixelMath.java:294-297 | With bounds inside the type, every pixel lies in [lower, upper]. It equals the clipped sum whenever the sum type holds the sum. |
| PixelMath.Multiply | main/ip/generate/boofcv/alg/misc/GeneratePixelMath.java:196-209 | multiply: shape check, then every output pixel is the multiply pixel of the original input pixel. The padding is kept. |
| PixelMath.MultiplyBounded | main/ip/generate/boofcv/alg/misc/GeneratePixelMath.java:227-244 | Bounded multiply: shape check, then every output pixel is the clipped product of the original input pixel. The padding is kept. |
| PixelMath.Divide | main/ip/generate/boofcv/alg/misc/GeneratePixelMath.java:133-146 | divide: shape check, then every output pixel is the divide pixel of the original input pixel. The padding is kept. |
| PixelMath.DivideBounded | main/ip/generate/boofcv/alg/misc/GeneratePixelMath.java:163-180 | Bounded divide: shape check, then every output pixel is the clipped quotient of the original input pixel. The padding is kept. |
| PixelMath.Plus | main/ip/generate/boofcv/alg/misc/GeneratePixelMath.java:255-268 | plus: shape check, then every output pixel is the original input pixel plus the value in the sum type, cast back. The padding is kept. |
| PixelMath.PlusBounded | main/ip/generate/boofcv/alg/misc/GeneratePixelMath.java:283-300 | Bounded plus: shape check, then every output pixel is the clipped sum of the original input pixel. The padding is kept. |
| PixelMath.BoundPixelValue | main/ip/generate/boofcv/alg/misc/GeneratePixelMath.java:326-330 | With [min, max] inside the type, a bounded pixel lies in [min, max]. A pixel already in range is not changed. Bounding twice is bounding once. |
| PixelMath.BoundImageIdempotent | main/ip/generate/boofcv/alg/misc/GeneratePixelMath.java:321-331 | Applying boundImage to its own result changes nothing. |
| PixelMath.BoundRow | main/ip/generate/boofcv/alg/misc/GeneratePixelMath.java:322-331 | One row of boundImage. Each pixel of row y becomes its bounded value, where an in-range element is not written. Nothing outside the row changes. |
| PixelMath.BoundImage | main/ip/generate/boofcv/alg/misc/GeneratePixelMath.java:315-333 | boundImage in place: every pixel becomes its bounded value, and the padding is kept. |
| PixelMath.DiffAbsValue | main/ip/generate/boofcv/alg/misc/GeneratePixelMath.java:364 | `diff = |imgA - imgB|` whenever the type holds that value. This is always the case for the unsigned types. |
| PixelMath.DiffAbsOverflowExample | main/ip/generate/boofcv/alg/misc/GeneratePixelMath.java:364 | For S8, |127 - (-128)| = 255 does not fit and is stored as -1. |
| PixelMath.DiffAbsSymmetric | main/ip/generate/boofcv/alg/misc/GeneratePixelMath.java:364 | A diffAbs pixel does not depend on the order of the inputs. |
| PixelMath.DiffAbs | main/ip/generate/boofcv/alg/misc/GeneratePixelMath.java:350-367 | diffAbs: three-way shape check, then every pixel of diff is the diffAbs pixel of the two original inputs. The padding is kept. |
| PixelMath.AddValue | main/ip/generate/boofcv/alg/misc/GeneratePixelMath.java:397-398 | `output = imgA + imgB`, read in the output type. This always holds for the narrow inputs, whose widened output never overflows. For int and long it holds when the sum fits. |
| PixelMath.Add | main/ip/generate/boofcv/alg/misc/GeneratePixelMath.java:384-401 | add: three-way shape check, then every output pixel is the sum pixel of the two original inputs. The padding is kept. |
| PixelMath.SubtractAsWrittenWraps | main/ip/generate/boofcv/alg/misc/GeneratePixelMath.java:80-84 | With the printed table, U8 subtract writes to U16. 0 - 1 then reads back as 65535. |
| PixelMath.SubtractValue | main/ip/generate/boofcv/alg/misc/GeneratePixelMath.java:432-433 | `output = imgA - imgB`, read in the corrected output type. This always holds for the narrow inputs. For int and long it holds when the difference fits. |
| PixelMath.Subtract | main/ip/generate/boofcv/alg/misc/GeneratePixelMath.java:418-436 | subtract: three-way shape check, then every output pixel is the difference pixel of the two original inputs. The padding is kept. |
| PixelMath.AbsPixel | main/ip/generate/boofcv/alg/misc/GeneratePixelMath.java:116 | One pixel of abs: `Math.abs` of the element in the sum type, cast back. The result is a value of the storage primitive; AbsPixelValue states what it reads as. |
| PixelMath.MultiplyPixel | main/ip/generate/boofcv/alg/misc/GeneratePixelMath.java:206 | One pixel of multiply: the product in double, converted and cast back. The result is a value of the storage primitive; MultiplyValue states what it reads as. |
| PixelMath.MultiplyBoundedPixel | main/ip/generate/boofcv/alg/misc/GeneratePixelMath.java:238-241 | One pixel of the bounded multiply: the converted product clipped, cast back. The result is a value of the storage primitive; MultiplyBoundedValue states its bounds. |
| PixelMath.DividePixel | main/ip/generate/boofcv/alg/misc/GeneratePixelMath.java:143 | One pixel of divide: the quotient in double, converted and cast back. The result is a value of the storage primitive; DivideValue states what it reads as. |
| PixelMath.DivideBoundedPixel | main/ip/generate/boofcv/alg/misc/GeneratePixelMath.java:174-177 | One pixel of the bounded divide: the converted quotient clipped, cast back. The result is a value of the storage primitive; DivideBoundedValue states its bounds. |
| PixelMath.PlusPixel | main/ip/generate/boofcv/alg/misc/GeneratePixelMath.java:265 | One pixel of plus: the sum in the sum type, cast back. The result is a value of the storage primitive; PlusValue states what it reads as. |
| PixelMath.PlusBoundedPixel | main/ip/generate/boofcv/alg/misc/GeneratePixelMath.java:294-297 | One pixel of the bounded plus: the sum clipped, cast back. The result is a value of the storage primitive; PlusBoundedValue states its bounds. |
| PixelMath.BoundPixel | main/ip/generate/boofcv/alg/misc/GeneratePixelMath.java:326-330 | One pixel of boundImage: min or max for an element outside [min, max], otherwise the element unwritten. A stored element stays a value of the storage primitive; BoundPixelValue states the rest. |
| PixelMath.DiffAbsPixel | main/ip/generate/boofcv/alg/misc/GeneratePixelMath.java:364 | One pixel of diffAbs: `Math.abs` of the masked difference, cast back. The result is a value of the storage primitive; DiffAbsValue and DiffAbsSymmetric state the rest. |
| PixelMath.AddPixel | main/ip/generate/boofcv/alg/misc/GeneratePixelMath.java:398 | One pixel of add: the masked sum cast to the output type's element. The result is a value of the output's storage primitive; AddValue states what it reads as. |
| PixelMath.SubtractPixel | main/ip/generate/boofcv/alg/misc/GeneratePixelMath.java:433 | One pixel of subtract: the masked difference cast to the output type's element. The result is a value of the output's storage primitive; SubtractValue states what it reads as. |
| PixelMath.BandTotal | main/ip/generate/boofcv/alg/misc/GeneratePixelMath.java:465-468 | The running total of the band loop, wrapping at every step. It is always a value of the sum type; BandTotalExact states when it is the exact sum. |
| PixelMath.AddBand | main/ip/generate/boofcv/alg/misc/GeneratePixelMath.java:467 | `total += element & mask` in the sum type. The result is a value of the sum type. |
| PixelMath.AveragePixel | main/ip/generate/boofcv/alg/misc/GeneratePixelMath.java:469 | One output pixel of averageBand: the total divided by the band count, cast back. The result is a value of the storage primitive; AverageWithinBands states its bounds. |
| PixelMath.AverageAt | main/ip/generate/boofcv/alg/misc/GeneratePixelMath.java:466-469 | The averageBand pixel for the bands' elements at one index. The result is a value of the storage primitive. |
| PixelMath.JavaDiv | main/ip/generate/boofcv/alg/misc/GeneratePixelMath.java:469 | Java's integer division truncates toward zero. The remainder has the sign of the dividend and is smaller than the divisor. |
| PixelMath.BandTotalExact | main/ip/generate/boofcv/alg/misc/GeneratePixelMath.java:465-468 | For the narrow types and up to 32768 bands, the int running total never overflows. It equals the mathematical sum. |
| PixelMath.BandSumBounds | main/ip/generate/boofcv/alg/misc/GeneratePixelMath.java:465-468 | The sum of n band values in [lo, hi] lies in [n*lo, n*hi]. |
| PixelMath.JavaDivBounds | main/ip/generate/boofcv/alg/misc/GeneratePixelMath.java:469 | A truncated quotient by n of a value in [n*lo, n*hi] lies in [lo, hi]. |
| PixelMath.AverageWithinBands | main/ip/generate/boofcv/alg/misc/GeneratePixelMath.java:465-469 | For a narrow type, an averageBand pixel lies between the smallest and the largest of its band values. |
| PixelMath.AverageOfEqualBands | main/ip/generate/boofcv/alg/misc/GeneratePixelMath.java:465-469 | When every band holds the same value, the average is that value. |
| PixelMath.SumBands | main/ip/generate/boofcv/alg/misc/GeneratePixelMath.java:465-468 | The inner band loop computes the running total, with overflow, of the pixel's band values. |
| PixelMath.AverageRow | main/ip/generate/boofcv/alg/misc/GeneratePixelMath.java:459-470 | One row of averageBand. Each output pixel of row y is the truncated average of the bands at the input's index, cast back. Nothing outside the row changes. |
| PixelMath.AverageRows | main/ip/generate/boofcv/alg/misc/GeneratePixelMath.java:458-471 | Every output pixel is the average of the bands at the pixel's input index. The padding is kept. |
| PixelMath.AverageBand | main/ip/generate/boofcv/alg/misc/GeneratePixelMath.java:452-472 | averageBand fails with Arithmetic, and changes nothing, exactly when there are no bands and at least one pixel. Otherwise every output pixel is the average of the original bands at the input's index, and the padding is kept. |
| ImageMiscOps.UpdateRow | main/ip/generate/boofcv/alg/misc/GenerateImageMiscOps.java:105-108 | One row of an in-place kernel: each pixel of row y becomes f of its old element. Nothing outside the row changes. |
| ImageMiscOps.Update | main/ip/generate/boofcv/alg/misc/GenerateImageMiscOps.java:104-109 | Every pixel becomes f of its position and old element. The padding is kept. |
| ImageMiscOps.Fill | main/ip/generate/boofcv/alg/misc/GenerateImageMiscOps.java:102-110 | Every pixel becomes the cast value, which reads back as the value when the type holds it. The padding is kept. |
| ImageMiscOps.RectangleEnd | main/ip/generate/boofcv/alg/misc/GenerateImageMiscOps.java:126-127 | `x0 + width` in int. It is the true sum when that fits. |
| ImageMiscOps.FillRectangleRow | main/ip/generate/boofcv/alg/misc/GenerateImageMiscOps.java:130-133 | One row of fillRectangle. Through `set`, the pixels of row y in [x0, x1) that lie inside the image become v. Other pixels of the row keep their value, and no other element changes. |
| ImageMiscOps.FillRectangle | main/ip/generate/boofcv/alg/misc/GenerateImageMiscOps.java:125-135 | A pixel becomes the cast value exactly when it lies in [x0, x0+width) x [y0, y0+height). Coordinates outside the image are skipped. Every other pixel and the padding keep their values. |
| ImageMiscOps.UniformBound | main/ip/generate/boofcv/alg/misc/GenerateImageMiscOps.java:152-162 | The bound given to `nextInt` is `max - min` in the sum type, narrowed to int. |
| ImageMiscOps.UniformBoundExact | main/ip/generate/boofcv/alg/misc/GenerateImageMiscOps.java:152 | When `max - min` fits an int, `nextInt` is given exactly `max - min`. |
| ImageMiscOps.UniformBoundBelowRange | main/ip/generate/boofcv/alg/misc/GenerateImageMiscOps.java:152-162 | A positive bound never exceeds `max - min`, even when the long range is narrowed. |
| ImageMiscOps.UniformInRange | main/ip/generate/boofcv/alg/misc/GenerateImageMiscOps.java:160 | A fillUniform pixel for a range of the type lies in [min, max). |
| ImageMiscOps.FillUniform | main/ip/generate/boofcv/alg/misc/GenerateImageMiscOps.java:151-169 | A non-positive bound is refused before any write. Otherwise every pixel becomes its draw plus min. For a range of the type, every pixel lies in [min, max). The padding is kept. |
| ImageMiscOps.AddUniformValue | main/ip/generate/boofcv/alg/misc/GenerateImageMiscOps.java:225-229 | The clip keeps a narrow-type pixel in the type's range. For every type, a sum the type holds is stored exactly. For a narrow type whose int sum does not wrap, the pixel reads back as that sum clamped to the type's [min, max], so a sum outside goes to the nearest end. |
| ImageMiscOps.AddUniformZeroWidthKeeps | main/ip/generate/boofcv/alg/misc/GenerateImageMiscOps.java:225-237 | Noise from [0, 1) leaves every stored element as it was. |
| ImageMiscOps.AddUniform | main/ip/generate/boofcv/alg/misc/GenerateImageMiscOps.java:216-240 | A non-positive bound is refused before any write. Otherwise every pixel becomes its old value plus its draw plus min, clipped for the narrow types, with the padding kept. |
| ImageMiscOps.GaussianInBounds | main/ip/generate/boofcv/alg/misc/GenerateImageMiscOps.java:197-200 | Whatever was drawn, a fillGaussian pixel lies in [lowerBound, upperBound]. It reads back as the truncated draw clipped to the bounds: a draw outside them becomes the closest bound (Javadoc at line 181). |
| ImageMiscOps.FillGaussian | main/ip/generate/boofcv/alg/misc/GenerateImageMiscOps.java:190-203 | Every pixel becomes the clipped draw of its position. With bounds inside the type, every pixel lies in [lowerBound, upperBound]. The padding is kept. |
| ImageMiscOps.AddGaussianInBounds | main/ip/generate/boofcv/alg/misc/GenerateImageMiscOps.java:263-266 | Whatever the noise, an addGaussian pixel lies in [lowerBound, upperBound]. Noise that keeps the value inside the bounds is added exactly. When neither the converted noise nor the int sum wraps, the pixel reads back as the sum clipped to the bounds: a value outside them becomes the closest bound (Javadoc at lines 249-250). |
| ImageMiscOps.AddGaussianWrapsExample | main/ip/generate/boofcv/alg/misc/GenerateImageMiscOps.java:263-266 | The int sum can wrap: an S32 pixel 0x7FFFFFF0 plus noise 100.0, bounded to [0, 100], is stored as 0, while the closest bound to the true sum is 100. |
| ImageMiscOps.AddGaussian | main/ip/generate/boofcv/alg/misc/GenerateImageMiscOps.java:257-269 | Every pixel becomes its old value plus its noise, clipped. With bounds inside the type, every pixel lies in [lowerBound, upperBound]. The padding is kept. |
| ImageMiscOps.UniformPixel | main/ip/generate/boofcv/alg/misc/GenerateImageMiscOps.java:160-162 | One pixel of fillUniform: draw + min in the sum type, cast back. The result is a value of the storage primitive; UniformInRange states its range. |
| ImageMiscOps.UniformOutcome | main/ip/generate/boofcv/alg/misc/GenerateImageMiscOps.java:160-162 | `nextInt` accepts only a positive bound and is called once per pixel. The outcome is Pass, or Fail(IllegalArgument) when the bound is refused and there is a pixel. |
| ImageMiscOps.AddUniformPixel | main/ip/generate/boofcv/alg/misc/GenerateImageMiscOps.java:225-237 | One pixel of addUniform: the masked element + draw + min, clipped to the type for the narrow types, cast back. The result is a value of the storage primitive; AddUniformValue states the rest. |
| ImageMiscOps.GaussianPixel | main/ip/generate/boofcv/alg/misc/GenerateImageMiscOps.java:197-200 | One pixel of fillGaussian: the converted draw clipped, cast back. The result is a value of the storage primitive; GaussianInBounds states its bounds. |
| ImageMiscOps.AddGaussianPixel | main/ip/generate/boofcv/alg/misc/GenerateImageMiscOps.java:263-266 | One pixel of addGaussian: the masked element + converted noise, clipped, cast back. The result is a value of the storage primitive; AddGaussianInBounds states its bounds. |
| ImageMiscOps.FlipInvolution | main/ip/generate/boofcv/alg/misc/GenerateImageMiscOps.java:279-291 | Flipping an image twice restores it. |
| ImageMiscOps.FlipKeepsMiddleRow | main/ip/generate/boofcv/alg/misc/GenerateImageMiscOps.java:279-281 | The middle row of an odd-height image stays where it is. |
| ImageMiscOps.SwapRows | main/ip/generate/boofcv/alg/misc/GenerateImageMiscOps.java:287-291 | Rows y1 and y2 exchange their elements through tmp. Nothing else changes. |
| ImageMiscOps.FlipRows | main/ip/generate/boofcv/alg/misc/GenerateImageMiscOps.java:279-292 | Row y and row height-1-y are exchanged for every y < height/2. Every other row, and the padding, stay as they were. |
| ImageMiscOps.FlipVertical | main/ip/generate/boofcv/alg/misc/GenerateImageMiscOps.java:278-293 | Pixel (x, y) becomes the original pixel (x, height-1-y), and the padding is kept. |

## Left out

- ImageMiscOps.AddGaussianInBounds: states "set to the closest bound" only when the int (long for S64) sum does not wrap. The generated code adds in the sum type first, so a wrapped sum is clipped from its wrapped value (AddGaussianWrapsExample). The model keeps that behaviour of the code, not the Javadoc's.
- Float and double images: the float and double variants of every kernel are not modelled. `ImageFloat32`'s accessors are modelled over an integer element, because `get`, `set` and `_createNew` only move values and never compute with them.
- Numeric.Truncate: the double product or quotient of `multiply` and `divide` is taken as an exact real. Rounding to 53 bits, NaN or infinite scalars, and negative zero are not modelled.
- `java.util.Random` is not modelled. Its draws are a caller-supplied sequence, one per pixel in row-major order. `nextGaussian()*sigma+mean` and `nextGaussian()*sigma` are arbitrary real draws.
- ImageMiscOps.Drawn: a draw past the end of the sequence is 0. The kernels require at least one draw per pixel, so this case never arises.
- The code-generator plumbing is left out, because it is file output around the kernels: `setOutputFile`, `out.print`, the preambles, `main`, and the loops over the pixel types.
- `ImageBase`, `InputSanityCheck`, `AutoTypeImage`, `CodeGeneratorBase`, `MultiSpectral` and the integer image classes are not part of this model. Their parts the kernels use are assumed, as follows:
  - `isInBounds`/`getIndex` are `ImageBase.Layout`;
  - `checkSameShape` is a width and height comparison failing with ShapeMismatch;
  - the mask and cast back of `AutoTypeImage` are `Read` and `CastFromSum`;
  - the integer `set` that `fillRectangle` calls stores the value cast to the element type.
- Aliasing: the two images of a call use different arrays or are the same instance (`Images.DisjointOrSame`). A sub-image that shares its parent's array under a different layout is not modelled.
- Overflow of the int index arithmetic (`startIndex + y*stride + x`) is not modelled. Valid images have layouts that address their array.
- Images.Image.constructor: requires non-negative sizes. The `ImageBase(width, height)` constructor it delegates to is not part of this model, so the outcome of a negative size (an exception, or an image with a negative width when both are negative) is not modelled.
- Images.Image.CreateNew: admits -1 for either size, and otherwise only non-negative sizes. Other negative sizes reach the same `ImageBase` constructor, which is not part of this model, so those calls are not modelled.
- PixelMath.AverageBand: requires the output to have the same shape as the input and the bands not to be the output's array. The source checks neither. A smaller output would raise `ArrayIndexOutOfBoundsException` partway through, and the model does not capture that.
- PixelMath.Abs: requires a signed type. The generator prints `abs` only for the signed types.
- In `flipVertical`, the cast of the sum-type `tmp` back to the element type is the identity, because `tmp` holds an unmasked element (`Numeric.ReadThenStore` covers the masked case). SwapRows stores `tmp` directly.
- The distortion and interpolation operations (`DistortImageOps.scale`/`rotate`) and their test are not part of this model; their implementation is a float computation outside these kernels.

## Findings

| source | as written | input that shows it | evidently intended | confidence | as-written member | corrected member |
|---|---|---|---|---|---|---|
| main/ip/generate/boofcv/alg/misc/GeneratePixelMath.java:80-84 | `subtract` reuses the output table of `add`, so two U8 images are subtracted into an unsigned 16-bit (U16) image | imgA(x, y) = 0, imgB(x, y) = 1: the difference -1 is stored as the short -1 and reads back as 65535 | a signed 16-bit (S16) output for U8 inputs, which holds every difference in [-255, 255] | not executed | Numeric.SubtractOutputAsWritten, PixelMath.SubtractAsWrittenWraps | Numeric.SubtractOutput, PixelMath.SubtractValue |
