/** The per-type numeric policy the kernel generators print into every routine: the width of
    the Java array element, the unsigned mask applied on reading, the sum type the arithmetic
    is done in, the narrowing cast back to the element type, and the output-type table used by
    the widening add and subtract. */
module Numeric {

  /** Bit width of a Java integer primitive: byte, short, int, long. */
  datatype Width = W8 | W16 | W32 | W64

  function Modulus(w: Width): int
  {
    match w
    case W8 => 0x100
    case W16 => 0x1_0000
    case W32 => 0x1_0000_0000
    case W64 => 0x1_0000_0000_0000_0000
  }

  function Half(w: Width): int
  {
    match w
    case W8 => 0x80
    case W16 => 0x8000
    case W32 => 0x8000_0000
    case W64 => 0x8000_0000_0000_0000
  }

  /** v is a value of the signed Java primitive of width w. */
  predicate InPrimitive(w: Width, v: int)
  {
    -Half(w) <= v < Half(w)
  }

  /** Two's-complement wrap-around to w bits: Java's narrowing cast between integer
      primitives, and the overflow of its int and long arithmetic. */
  function Wrap(w: Width, v: int): (r: int)
    ensures InPrimitive(w, r)
    ensures (v - r) % Modulus(w) == 0
    ensures InPrimitive(w, v) ==> r == v
    ensures 0 <= v ==> r <= v
  {
    WrapFacts(Modulus(w), Half(w), v);
    match w
    case W8 => (v + 0x80) % 0x100 - 0x80
    case W16 => (v + 0x8000) % 0x1_0000 - 0x8000
    case W32 => (v + 0x8000_0000) % 0x1_0000_0000 - 0x8000_0000
    case W64 => (v + 0x8000_0000_0000_0000) % 0x1_0000_0000_0000_0000 - 0x8000_0000_0000_0000
  }

  /** The facts behind Wrap, for a modulus m = 2h. */
  lemma {:induction false} WrapFacts(m: int, h: int, v: int)
    requires m == 2 * h && h > 0
    ensures -h <= (v + h) % m - h < h
    ensures (v - ((v + h) % m - h)) % m == 0
    ensures -h <= v < h ==> (v + h) % m - h == v
    ensures 0 <= v ==> (v + h) % m - h <= v
  {
    var a := v + h;
    var q, rem := a / m, a % m;
    assert a == m * q + rem;
    DivUnique(v - (rem - h), q, 0, m);
    if -h <= v < h {
      DivUnique(a, 0, a, m);
    }
    if 0 <= v && q < 0 {
      MulAtLeast(m, -q);
    }
  }

  /** Two values congruent modulo 2^w wrap to the same primitive value. */
  lemma WrapCongruent(w: Width, u: int, v: int)
    requires (u - v) % Modulus(w) == 0
    ensures Wrap(w, u) == Wrap(w, v)
  {
    var m, h := Modulus(w), Half(w);
    var k := (u - v) / m;
    assert u + h == (v + h) + m * k;
    ModShift(v + h, k, m);
  }

  lemma ModShift(a: int, k: int, m: int)
    requires m > 0
    ensures (a + m * k) % m == a % m
  {
    var q, r := a / m, a % m;
    assert a + m * k == m * (q + k) + r;
    DivUnique(a + m * k, q + k, r, m);
  }

  lemma DivUnique(a: int, q: int, r: int, m: int)
    requires m > 0 && 0 <= r < m && a == m * q + r
    ensures a % m == r
  {
    var q', r' := a / m, a % m;
    assert a == m * q' + r';
    if q > q' {
      MulAtLeast(m, q - q');
    } else if q < q' {
      MulAtLeast(m, q' - q);
    }
  }

  lemma {:induction false} MulAtLeast(m: int, d: int)
    requires m > 0 && d >= 1
    ensures m * d >= m
    decreases d
  {
    if d > 1 {
      MulAtLeast(m, d - 1);
      assert m * d == m * (d - 1) + m;
    }
  }

  /** Multiplication by a non-negative factor is monotone. */
  lemma MulMonotone(a: int, b: int, c: int)
    requires a <= b && 0 <= c
    ensures a * c <= b * c
  {
    if a < b && c > 0 {
      MulAtLeast(c, b - a);
      assert b * c == a * c + c * (b - a);
    }
  }

  /** The truncation toward zero of an exactly computed double, the first step of Java's
      conversion to int or long; `Saturate` is the second. */
  function Truncate(d: real): (r: int)
    ensures 0.0 <= d ==> r as real <= d < r as real + 1.0
    ensures d <= 0.0 ==> r as real - 1.0 < d <= r as real
  {
    if d >= 0.0 then d.Floor else -((-d).Floor)
  }

  /** Java's conversion of a double to the sum type of t ((int) or (long)). */
  function DoubleToSum(t: PixelType, d: real): (r: int)
    ensures InPrimitive(t.SumWidth(), r)
    ensures InPrimitive(t.SumWidth(), Truncate(d)) ==> r == Truncate(d)
  {
    Saturate(t.SumWidth(), Truncate(d))
  }

  /** The sum-type value of `(v) / denominator` computed in double: a division by zero gives
      an infinity, which saturates, or NaN (for 0 / 0), which converts to 0. */
  function QuotientToSum(t: PixelType, v: int, denominator: real): (r: int)
    ensures InPrimitive(t.SumWidth(), r)
    ensures denominator != 0.0 ==> r == DoubleToSum(t, v as real / denominator)
    ensures denominator == 0.0 ==> (r > 0 <==> v > 0) && (r < 0 <==> v < 0)
    ensures denominator == 0.0 && v > 0 ==> r == Half(t.SumWidth()) - 1
    ensures denominator == 0.0 && v < 0 ==> r == -Half(t.SumWidth())
  {
    if denominator != 0.0 then DoubleToSum(t, v as real / denominator)
    else if v > 0 then Half(t.SumWidth()) - 1
    else if v < 0 then -Half(t.SumWidth())
    else 0
  }

  function Saturate(w: Width, v: int): (r: int)
    ensures InPrimitive(w, r)
    ensures InPrimitive(w, v) ==> r == v
    ensures v < -Half(w) ==> r == -Half(w)
    ensures v >= Half(w) ==> r == Half(w) - 1
  {
    if v < -Half(w) then -Half(w) else if v >= Half(w) then Half(w) - 1 else v
  }

  /** Math.abs on an int or a long: the absolute value, except that the most negative value
      maps to itself. */
  function JavaAbs(w: Width, v: int): (r: int)
    requires InPrimitive(w, v)
    ensures InPrimitive(w, r)
    ensures v != -Half(w) ==> r == (if v < 0 then -v else v)
    ensures v == -Half(w) ==> r == v
  {
    Wrap(w, if v < 0 then -v else v)
  }

  /** Math.abs cannot tell a wrapped difference from its wrapped negation. */
  lemma {:induction false} JavaAbsOfNegation(w: Width, d: int)
    ensures JavaAbs(w, Wrap(w, -d)) == JavaAbs(w, Wrap(w, d))
  {
    var a, b := Wrap(w, d), Wrap(w, -d);
    assert b == Wrap(w, -a) by {
      NegationCongruent(w, d, a);
      WrapCongruent(w, -d, -a);
    }
    if a == -Half(w) {
      assert b == -Half(w) by {
        assert (-a - a) % Modulus(w) == 0;
        WrapCongruent(w, -a, a);
      }
    } else {
      assert b == -a;
    }
  }

  lemma NegationCongruent(w: Width, d: int, a: int)
    requires (d - a) % Modulus(w) == 0
    ensures (-d - -a) % Modulus(w) == 0
  {
    var m := Modulus(w);
    var k := (d - a) / m;
    assert d - a == m * k;
    DivUnique(-d - -a, -k, 0, m);
  }

  /** The clip of the bounded kernels: `if( val < lower ) val = lower; if( val > upper ) val = upper;`.
      When lower > upper the second test wins and every value becomes upper. */
  function Bound(v: int, lower: int, upper: int): (r: int)
    ensures r <= upper
    ensures lower <= upper ==> lower <= r
    ensures lower <= v <= upper ==> r == v
    ensures lower <= upper && v < lower ==> r == lower
    ensures v > upper ==> r == upper
  {
    var clipped := if v < lower then lower else v;
    if clipped > upper then upper else clipped
  }

  /** The pixel types a kernel is printed for (the integer members of AutoTypeImage). */
  datatype PixelType = U8 | S8 | U16 | S16 | S32 | S64 {

    /** Width of the Java array element: byte for U8 and S8, short for U16 and S16. */
    function DataWidth(): Width
    {
      match this
      case U8 => W8
      case S8 => W8
      case U16 => W16
      case S16 => W16
      case S32 => W32
      case S64 => W64
    }

    /** Unsigned types are stored in a signed element and masked when read. */
    predicate Unsigned()
    {
      this == U8 || this == U16
    }

    /** Fewer than 32 bits per element. */
    predicate Narrow()
    {
      this != S32 && this != S64
    }

    /** Width of the sum type the arithmetic is done in: long for S64, int otherwise. */
    function SumWidth(): Width
    {
      if this == S64 then W64 else W32
    }

    /** Smallest value of the type, its getMin(). */
    function Min(): int
    {
      if Unsigned() then 0 else -Half(DataWidth())
    }

    /** Largest value of the type, its getMax(). */
    function Max(): int
    {
      if Unsigned() then Modulus(DataWidth()) - 1 else Half(DataWidth()) - 1
    }

    /** The type's range is a range of the sum type. */
    lemma RangeInSum(v: int)
      requires Min() <= v <= Max()
      ensures InPrimitive(SumWidth(), v)
    {
    }
  }

  /** A stored element as the kernels read it into the sum type: masked with 0xFF or
      0xFFFF for the unsigned types, unchanged otherwise. */
  function Read(t: PixelType, raw: int): (v: int)
    ensures InPrimitive(t.DataWidth(), raw) ==> t.Min() <= v <= t.Max()
    ensures t.Unsigned() ==> 0 <= v <= t.Max()
    ensures !t.Unsigned() ==> v == raw
  {
    match t
    case U8 => raw % 0x100
    case U16 => raw % 0x1_0000
    case _ => raw
  }

  /** The cast from the sum type back to the element type (getTypeCastFromSum). */
  function CastFromSum(t: PixelType, v: int): (raw: int)
    ensures InPrimitive(t.DataWidth(), raw)
  {
    Wrap(t.DataWidth(), v)
  }

  /** Arithmetic in the sum type: int or long overflow. */
  function WrapSum(t: PixelType, v: int): (r: int)
    ensures InPrimitive(t.SumWidth(), r)
  {
    Wrap(t.SumWidth(), v)
  }

  /** Storing a value of the type's range and reading it back gives the value. */
  lemma {:induction false} StoreThenRead(t: PixelType, v: int)
    requires t.Min() <= v <= t.Max()
    ensures Read(t, CastFromSum(t, v)) == v
  {
    var raw := CastFromSum(t, v);
    if t.Unsigned() {
      var m := Modulus(t.DataWidth());
      assert (v - raw) % m == 0;
      assert raw == v || raw == v - m;
    }
  }

  /** Reading an element and casting it back gives the element. */
  lemma {:induction false} ReadThenStore(t: PixelType, raw: int)
    requires InPrimitive(t.DataWidth(), raw)
    ensures CastFromSum(t, Read(t, raw)) == raw
  {
    if t.Unsigned() {
      var m := Modulus(t.DataWidth());
      WrapCongruent(t.DataWidth(), Read(t, raw), raw);
    }
  }

  /** A value clipped to a sub-range of the type survives the cast back: this is what every
      bounded kernel relies on. */
  lemma {:induction false} ClampThenStore(t: PixelType, v: int, lower: int, upper: int)
    requires t.Min() <= lower <= upper <= t.Max()
    ensures Read(t, CastFromSum(t, Bound(v, lower, upper))) == Bound(v, lower, upper)
    ensures lower <= Read(t, CastFromSum(t, Bound(v, lower, upper))) <= upper
  {
    StoreThenRead(t, Bound(v, lower, upper));
  }

  /** Output type of `add`: the table {U16, S16, S32, S32, S32, S64} over {U8, S8, U16, S16, S32, S64}. */
  function AddOutput(t: PixelType): (o: PixelType)
    ensures t.Narrow() ==> o.Min() <= 2 * t.Min() && 2 * t.Max() <= o.Max()
  {
    match t
    case U8 => U16
    case S8 => S16
    case U16 => S32
    case S16 => S32
    case S32 => S32
    case S64 => S64
  }

  /** Output type of `subtract` as the generator prints it: the same table as `add`. */
  function SubtractOutputAsWritten(t: PixelType): (o: PixelType)
    ensures o.Unsigned() <==> t == U8
  {
    AddOutput(t)
  }

  /** Output type of `subtract` that holds every difference: U8 - U8 lies in [-255, 255] and
      needs a signed 16-bit output. */
  function SubtractOutput(t: PixelType): (o: PixelType)
    ensures t.Narrow() ==> o.Min() <= t.Min() - t.Max() && t.Max() - t.Min() <= o.Max()
  {
    if t == U8 then S16 else AddOutput(t)
  }
}
