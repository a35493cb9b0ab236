/** The memory layout every single-band image shares (ImageBase): pixel (x, y) of an image
    lives at `startIndex + y*stride + x` of its data array, and is in bounds when
    `0 <= x < width` and `0 <= y < height`. */
module ImageBase {
  import opened Numeric

  datatype Layout = Layout(width: int, height: int, stride: int, startIndex: int) {

    /** isInBounds(x, y). */
    predicate InBounds(x: int, y: int)
    {
      0 <= x < width && 0 <= y < height
    }

    /** getIndex(x, y). */
    function Index(x: int, y: int): int
    {
      startIndex + y * stride + x
    }

    /** The layout can address a data array of length len: rows are no longer than the
        stride, and every in-bounds pixel's index lies inside the array. */
    ghost predicate Fits(len: int)
    {
      && 0 <= width <= stride
      && 0 <= height
      && 0 <= startIndex
      && forall x, y :: InBounds(x, y) ==> 0 <= Index(x, y) < len
    }

    /** Position of pixel (x, y) in a row-by-row scan of the image: the number of pixels
        visited before it. */
    function Rank(x: int, y: int): int
    {
      y * width + x
    }

    /** The shape check of InputSanityCheck.checkSameShape. */
    predicate SameShape(other: Layout)
    {
      width == other.width && height == other.height
    }

    /** An in-bounds pixel of a layout that fits an array lies inside the array. */
    lemma IndexInArray(len: int, x: int, y: int)
      requires Fits(len) && InBounds(x, y)
      ensures 0 <= Index(x, y) < len
    {
    }

    /** The data indices that hold a pixel; every other index is row padding or lies
        outside the image. */
    ghost function Pixels(): set<int>
    {
      set x: int, y: int | 0 <= x < width && 0 <= y < height :: Index(x, y)
    }
  }

  /** A layout whose last pixel lies inside the array fits the array. */
  lemma {:induction false} LastPixelFits(l: Layout, len: int)
    requires 0 <= l.width <= l.stride && 0 <= l.height && 0 <= l.startIndex
    requires l.width == 0 || l.height == 0 || l.startIndex + (l.height - 1) * l.stride + l.width <= len
    ensures l.Fits(len)
  {
    forall x, y | l.InBounds(x, y)
      ensures 0 <= l.Index(x, y) < len
    {
      MulMonotone(0, y, l.stride);
      MulMonotone(y, l.height - 1, l.stride);
    }
  }

  /** Pixels are laid out in row-major order: a pixel before (x, y) in a row-by-row scan
      has a smaller index, a pixel after it a larger one. */
  lemma {:induction false} RowMajor(l: Layout, x: int, y: int)
    requires 0 <= l.width <= l.stride
    requires l.InBounds(x, y)
    ensures forall x', y' :: l.InBounds(x', y') && (y' < y || (y' == y && x' < x)) ==> l.Index(x', y') < l.Index(x, y)
    ensures forall x', y' :: l.InBounds(x', y') && (y' > y || (y' == y && x' > x)) ==> l.Index(x', y') > l.Index(x, y)
    ensures forall x', y' :: l.InBounds(x', y') ==> l.Index(x', y') in l.Pixels()
  {
    forall x', y' | l.InBounds(x', y') && y' < y
      ensures l.Index(x', y') < l.Index(x, y)
    {
      RowsApart(l, x', y', x, y);
    }
    forall x', y' | l.InBounds(x', y') && y' > y
      ensures l.Index(x', y') > l.Index(x, y)
    {
      RowsApart(l, x, y, x', y');
    }
  }

  /** Every in-bounds pixel's index is one of Pixels(). */
  lemma PixelsInclude(l: Layout)
    ensures forall x', y' :: l.InBounds(x', y') ==> l.Index(x', y') in l.Pixels()
  {
  }

  lemma RowsApart(l: Layout, x1: int, y1: int, x2: int, y2: int)
    requires 0 <= l.width <= l.stride
    requires l.InBounds(x1, y1) && l.InBounds(x2, y2) && y1 < y2
    ensures l.Index(x1, y1) < l.Index(x2, y2)
  {
    MulAtLeast(l.stride, y2 - y1);
    assert y2 * l.stride == y1 * l.stride + (y2 - y1) * l.stride;
  }

  /** With stride >= width, distinct in-bounds pixels have distinct indices. */
  lemma {:induction false} IndexInjective(l: Layout, x1: int, y1: int, x2: int, y2: int)
    requires 0 <= l.width <= l.stride
    requires l.InBounds(x1, y1) && l.InBounds(x2, y2)
    ensures l.Index(x1, y1) == l.Index(x2, y2) <==> x1 == x2 && y1 == y2
  {
    RowMajor(l, x1, y1);
  }

  /** Every element of Pixels() is the index of an in-bounds pixel. */
  lemma PixelOf(l: Layout, i: int) returns (x: int, y: int)
    requires i in l.Pixels()
    ensures l.InBounds(x, y) && l.Index(x, y) == i
  {
    x, y :| 0 <= x < l.width && 0 <= y < l.height && l.Index(x, y) == i;
  }

  /** Row y of l occupies the consecutive indices from Index(0, y) to Index(0, y) + width:
      the pixels of earlier rows lie before it, those of later rows after it. */
  lemma {:induction false} RowSpan(l: Layout, len: int, y: int)
    requires l.Fits(len) && 0 <= y < l.height
    ensures l.width > 0 ==> 0 <= l.Index(0, y) && l.Index(0, y) + l.width <= len
    ensures forall x' :: 0 <= x' < l.width ==> l.Index(x', y) == l.Index(0, y) + x'
    ensures forall x', y' :: l.InBounds(x', y') && y' < y ==> l.Index(x', y') < l.Index(0, y)
    ensures forall x', y' :: l.InBounds(x', y') && y' > y ==> l.Index(x', y') >= l.Index(0, y) + l.width
    ensures forall i :: l.Index(0, y) <= i < l.Index(0, y) + l.width ==> i in l.Pixels()
  {
    forall x', y' | l.InBounds(x', y') && y' < y
      ensures l.Index(x', y') < l.Index(0, y)
    {
      RowsApart(l, x', y', 0, y);
    }
    forall x', y' | l.InBounds(x', y') && y' > y
      ensures l.Index(x', y') >= l.Index(0, y) + l.width
    {
      RowsApart(l, l.width - 1, y, x', y');
    }
    if l.width > 0 {
      assert l.InBounds(0, y) && l.InBounds(l.width - 1, y);
    }
    forall i | l.Index(0, y) <= i < l.Index(0, y) + l.width
      ensures i in l.Pixels()
    {
      assert l.Index(i - l.Index(0, y), y) == i;
      PixelsInclude(l);
    }
  }

  /** A row-by-row scan visits the in-bounds pixels at ranks 0 .. width*height - 1. */
  lemma {:induction false} RankBounds(l: Layout, x: int, y: int)
    requires l.InBounds(x, y)
    ensures 0 <= l.Rank(x, y) < l.width * l.height
  {
    MulMonotone(0, y, l.width);
    MulMonotone(y + 1, l.height, l.width);
  }

  /** An in-place update s' of s leaves every index that is not a pixel of l as it was. */
  ghost predicate KeepsPadding(l: Layout, s: seq<int>, s': seq<int>)
  {
    |s'| == |s| && forall i :: 0 <= i < |s| && i !in l.Pixels() ==> s'[i] == s[i]
  }
}
