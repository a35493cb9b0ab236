/** Single-band images (ImageFloat32 and its integer siblings) and the multi-band image that
    averageBand reads. An image is a data array plus the ImageBase layout fields; sub-images
    share the data array of their parent. */
module Images {
  import opened Outcomes
  import opened ImageBase

  class Image {
    var data: array<int>
    var width: int
    var height: int
    var stride: int
    var startIndex: int

    function Layout(): Layout
      reads this
    {
      ImageBase.Layout(width, height, stride, startIndex)
    }

    /** The layout addresses the data array. */
    ghost predicate Valid()
      reads this
    {
      Layout().Fits(data.Length)
    }

    predicate InBounds(x: int, y: int)
      reads this
    {
      Layout().InBounds(x, y)
    }

    function Index(x: int, y: int): int
      reads this
    {
      Layout().Index(x, y)
    }

    /** The placeholder an image type is created as when its shape is not yet known: no
        pixels and no storage. */
    predicate Unshaped()
      reads this
    {
      width == 0 && height == 0 && stride == 0 && startIndex == 0 && data.Length == 0
    }

    /** A new w-by-h image with zeroed storage of exactly w*h elements, stride w. */
    constructor (w: int, h: int)
      requires 0 <= w && 0 <= h
      ensures Valid() && fresh(data)
      ensures width == w && height == h && stride == w && startIndex == 0
      ensures data.Length == w * h
      ensures forall i :: 0 <= i < data.Length ==> data[i] == 0
    {
      data := new int[w * h](_ => 0);
      width, height, stride, startIndex := w, h, w, 0;
      new;
      assert h == 0 || (h - 1) * w + w == w * h;
      LastPixelFits(Layout(), data.Length);
    }

    /** The no-argument constructor: an unshaped image. */
    constructor Placeholder()
      ensures Valid() && Unshaped() && fresh(data)
    {
      data := new int[0];
      width, height, stride, startIndex := 0, 0, 0, 0;
    }

    /** unsafe_get: the element of pixel (x, y), without a bounds check. */
    function UnsafeGet(x: int, y: int): int
      reads this, data
      requires Valid() && InBounds(x, y)
    {
      data[Index(x, y)]
    }

    /** get: OutOfBounds outside the image, the pixel's element inside it. */
    function Get(x: int, y: int): (r: Result<int>)
      reads this, data
      requires Valid()
      ensures r.Err? <==> !InBounds(x, y)
      ensures r.Err? ==> r.error == OutOfBounds
      ensures r.Ok? ==> r.value == data[Index(x, y)]
    {
      if !InBounds(x, y) then Err(OutOfBounds) else Ok(UnsafeGet(x, y))
    }

    /** set: OutOfBounds, and no change, outside the image; inside it, the pixel reads back
        as value and every other element of the data array, pixel or padding, keeps its value. */
    method Set(x: int, y: int, value: int) returns (r: Outcome)
      requires Valid()
      modifies data
      ensures r == if InBounds(x, y) then Pass else Fail(OutOfBounds)
      ensures r.Fail? ==> data[..] == old(data[..])
      ensures r.Pass? ==> Get(x, y) == Ok(value)
      ensures r.Pass? ==> forall i :: 0 <= i < data.Length && i != Index(x, y) ==> data[i] == old(data[i])
      ensures forall x', y' :: InBounds(x', y') && (x' != x || y' != y) ==> Get(x', y') == old(Get(x', y'))
    {
      if !InBounds(x, y) {
        return Fail(OutOfBounds);
      }
      RowMajor(Layout(), x, y);
      data[Index(x, y)] := value;
      r := Pass;
    }

    /** _createNew: an unshaped placeholder when either size is -1, otherwise a new
        w-by-h image. */
    method CreateNew(w: int, h: int) returns (img: Image)
      requires w == -1 || h == -1 || (0 <= w && 0 <= h)
      ensures fresh(img) && fresh(img.data) && img.Valid()
      ensures (w == -1 || h == -1) ==> img.Unshaped()
      ensures !(w == -1 || h == -1) ==>
                img.width == w && img.height == h && img.stride == w && img.startIndex == 0 &&
                img.data.Length == w * h
    {
      if w == -1 || h == -1 {
        img := new Image.Placeholder();
      } else {
        img := new Image(w, h);
      }
    }
  }

  /** A multi-band image as averageBand uses it: its own layout, and one data array per
      band, every band addressed with that layout. */
  class MultiSpectral {
    var width: int
    var height: int
    var stride: int
    var startIndex: int
    var bands: seq<array<int>>

    function Layout(): Layout
      reads this
    {
      ImageBase.Layout(width, height, stride, startIndex)
    }

    ghost predicate Valid()
      reads this
    {
      forall b :: b in bands ==> Layout().Fits(b.Length)
    }
  }

  /** The contents of every band. */
  ghost function Contents(bands: seq<array<int>>): (c: seq<seq<int>>)
    reads bands
    ensures |c| == |bands| && forall j :: 0 <= j < |bands| ==> c[j] == bands[j][..]
  {
    seq(|bands|, j requires 0 <= j < |bands| reads bands => bands[j][..])
  }

  /** c is what the bands hold, element by element. */
  ghost predicate HoldsContents(bands: seq<array<int>>, c: seq<seq<int>>)
    reads bands
  {
    && |c| == |bands|
    && (forall j :: 0 <= j < |bands| ==> |c[j]| == bands[j].Length)
    && forall j, i :: 0 <= j < |bands| && 0 <= i < bands[j].Length ==> bands[j][i] == c[j][i]
  }

  /** index addresses an element of every band. */
  ghost predicate Addresses(c: seq<seq<int>>, index: int)
  {
    (|c| > 0 ==> 0 <= index) && forall j :: 0 <= j < |c| ==> index < |c[j]|
  }

  /** A layout that fits every band addresses every band at each pixel of row y. */
  lemma BandsFit(c: seq<seq<int>>, l: Layout, y: int)
    requires forall j :: 0 <= j < |c| ==> l.Fits(|c[j]|)
    requires 0 <= y < l.height
    ensures forall x :: 0 <= x < l.width ==> Addresses(c, l.Index(x, y))
  {
    forall x | 0 <= x < l.width
      ensures Addresses(c, l.Index(x, y))
    {
      BandsFitAt(c, l, x, y);
    }
  }

  /** One pixel of BandsFit. */
  lemma BandsFitAt(c: seq<seq<int>>, l: Layout, x: int, y: int)
    requires forall j :: 0 <= j < |c| ==> l.Fits(|c[j]|)
    requires l.InBounds(x, y)
    ensures Addresses(c, l.Index(x, y))
  {
    if |c| > 0 {
      l.IndexInArray(|c[0]|, x, y);
    }
    forall j | 0 <= j < |c|
      ensures l.Index(x, y) < |c[j]|
    {
      l.IndexInArray(|c[j]|, x, y);
    }
  }

  /** The values of one pixel in every band (0 for a band too short to hold it). */
  function Column(c: seq<seq<int>>, index: int): (vals: seq<int>)
    ensures |vals| == |c|
    ensures forall j :: 0 <= j < |c| && 0 <= index < |c[j]| ==> vals[j] == c[j][index]
  {
    seq(|c|, j requires 0 <= j < |c| => if 0 <= index < |c[j]| then c[j][index] else 0)
  }

  /** An input and an output image a kernel may be given together: they use different data
      arrays, or they are the same image (the same array addressed the same way). */
  ghost predicate DisjointOrSame(a: array<int>, la: Layout, b: array<int>, lb: Layout)
  {
    a != b || la == lb
  }
}
