/**
 * Packed RGB colours and the Euclidean distance between them (`colourDist`).
 *
 * A colour is a Java `int` holding 0xAARRGGBB. Only the three low bytes take
 * part in the distance. The source extracts a channel as
 * `(c & 0xff0000) >> 16`; with a positive power-of-two divisor Dafny's `/`
 * floors and `%` is never negative, so `(c / 0x10000) % 0x100` selects the
 * same eight bits of the two's-complement pattern, negative `c` included.
 *
 * The source only ever asks whether `colourDist(c1, c2) <= r` for an integer
 * radius `r >= 1`. Since both sides are non-negative this is the integer test
 * `dr*dr + dg*dg + db*db <= r*r`, which is what `Near` states; the lemma
 * `NearIffDistWithin` relates it to any real square root of the squared
 * distance.
 */
module Colours {

  /** Largest squared distance two colours can have: three channels 255 apart. */
  const MAX_SQUARED_DIST := 3 * 255 * 255

  /** Smallest radius that reaches every colour from every other one. */
  const MAX_RADIUS := 442

  /** `(c & 0xff0000) >> 16` */
  function Red(c: int): (v: int)
    ensures 0 <= v < 0x100
  {
    (c / 0x10000) % 0x100
  }

  /** `(c & 0x00ff00) >> 8` */
  function Green(c: int): (v: int)
    ensures 0 <= v < 0x100
  {
    (c / 0x100) % 0x100
  }

  /** `c & 0x0000ff` */
  function Blue(c: int): (v: int)
    ensures 0 <= v < 0x100
  {
    c % 0x100
  }

  /** The low 24 bits of a colour, the part that carries red, green and blue. */
  function Rgb(c: int): int
  {
    c % 0x100_0000
  }

  function Square(x: int): nat
  {
    x * x
  }

  /** The radicand of `colourDist`: the squared Euclidean distance in RGB space. */
  function SquaredDist(c1: int, c2: int): (d: nat)
    ensures d <= MAX_SQUARED_DIST
  {
    ChannelSquareBound(Red(c1) - Red(c2));
    ChannelSquareBound(Green(c1) - Green(c2));
    ChannelSquareBound(Blue(c1) - Blue(c2));
    Square(Red(c1) - Red(c2)) + Square(Green(c1) - Green(c2)) + Square(Blue(c1) - Blue(c2))
  }

  /** `colourDist(c1, c2) <= r`, the merge test of the palette reducer. */
  predicate Near(c1: int, c2: int, r: nat)
  {
    SquaredDist(c1, c2) <= r * r
  }

  lemma ChannelSquareBound(x: int)
    requires -255 <= x <= 255
    ensures Square(x) <= 255 * 255
  {
    var a := if x < 0 then -x else x;
    assert Square(x) == a * a;
    MulLe(a, 255, a);
    MulLe(a, 255, 255);
  }

  lemma MulLe(x: int, y: int, z: int)
    requires 0 <= x <= y && 0 <= z
    ensures x * z <= y * z && z * x <= z * y
  {
  }

  /** A colour splits into its three channels: they determine its low 24 bits. */
  lemma Decompose(c: int)
    ensures Rgb(c) == Red(c) * 0x10000 + Green(c) * 0x100 + Blue(c)
  {
    var q1 := c / 0x100;
    var q2 := q1 / 0x100;
    var q3 := q2 / 0x100;
    var below := (q1 % 0x100) * 0x100 + c % 0x100;
    assert c == q2 * 0x10000 + below;
    DivModUnique(c, q2, below, 0x10000);
    var low := (q2 % 0x100) * 0x10000 + below;
    assert c == q3 * 0x100_0000 + low;
    DivModUnique(c, q3, low, 0x100_0000);
  }

  /** Euclidean division is determined by quotient and remainder. */
  lemma DivModUnique(x: int, q: int, r: int, d: int)
    requires d > 0 && 0 <= r < d && x == q * d + r
    ensures x / d == q && x % d == r
  {
    var q', r' := x / d, x % d;
    assert (q - q') * d == r' - r;
    if q' < q {
      MulLe(1, q - q', d);
    } else if q < q' {
      MulLe(1, q' - q, d);
    }
  }

  /** Each channel depends only on the low 24 bits. */
  lemma ChannelsOfRgb(c: int)
    ensures Red(Rgb(c)) == Red(c) && Green(Rgb(c)) == Green(c) && Blue(Rgb(c)) == Blue(c)
  {
    Decompose(c);
    var v := Red(c) * 0x10000 + Green(c) * 0x100 + Blue(c);
    assert v / 0x100 == Red(c) * 0x100 + Green(c);
    assert v / 0x10000 == Red(c);
  }

  /** `colourDist` is symmetric. */
  lemma DistSymmetric(c1: int, c2: int)
    ensures SquaredDist(c1, c2) == SquaredDist(c2, c1)
    ensures forall r: nat :: Near(c1, c2, r) <==> Near(c2, c1, r)
  {
    assert Square(Red(c1) - Red(c2)) == Square(Red(c2) - Red(c1));
    assert Square(Green(c1) - Green(c2)) == Square(Green(c2) - Green(c1));
    assert Square(Blue(c1) - Blue(c2)) == Square(Blue(c2) - Blue(c1));
  }

  /** `colourDist` ignores the alpha byte: only the low 24 bits count. */
  lemma DistOfRgb(c1: int, c2: int)
    ensures SquaredDist(Rgb(c1), Rgb(c2)) == SquaredDist(c1, c2)
  {
    ChannelsOfRgb(c1);
    ChannelsOfRgb(c2);
  }

  /** The distance is zero exactly when the two colours agree on red, green and blue. */
  lemma DistZeroIffSameRgb(c1: int, c2: int)
    ensures SquaredDist(c1, c2) == 0 <==> Rgb(c1) == Rgb(c2)
  {
    Decompose(c1);
    Decompose(c2);
    ChannelsOfRgb(c1);
    ChannelsOfRgb(c2);
    SquarePositive(Red(c1) - Red(c2));
    SquarePositive(Green(c1) - Green(c2));
    SquarePositive(Blue(c1) - Blue(c2));
  }

  lemma SquarePositive(x: int)
    ensures x != 0 <==> Square(x) > 0
  {
    var a := if x < 0 then -x else x;
    assert Square(x) == a * a;
    assert a > 0 ==> a * a >= a;
  }

  /**
   * The source compares the real distance `d = sqrt(SquaredDist)` with the
   * integer radius; this is the same test as `Near`.
   */
  lemma NearIffDistWithin(d: real, c1: int, c2: int, r: nat)
    requires d >= 0.0 && d * d == SquaredDist(c1, c2) as real
    ensures Near(c1, c2, r) <==> d <= r as real
  {
    SqrtLeIff(d, SquaredDist(c1, c2), r);
  }

  lemma SqrtLeIff(d: real, x: nat, r: nat)
    requires d >= 0.0 && d * d == x as real
    ensures x <= r * r <==> d <= r as real
  {
    var rr := r as real;
    assert (r * r) as real == rr * rr;
    if d <= rr {
      SquareLe(d, rr);
    } else {
      SquareLess(rr, d);
    }
  }

  lemma SquareLe(a: real, b: real)
    requires 0.0 <= a <= b
    ensures a * a <= b * b
  {
    var p, q := b - a, b + a;
    assert p * q >= 0.0;
    assert p * q == b * b - a * a;
  }

  lemma SquareLess(a: real, b: real)
    requires 0.0 <= a < b
    ensures a * a < b * b
  {
    var p, q := b - a, b + a;
    assert p * q > 0.0;
    assert p * q == b * b - a * a;
  }

  /** From radius `MAX_RADIUS` on, every two colours are near each other. */
  lemma NearAtMaxRadius(c1: int, c2: int, r: nat)
    requires r >= MAX_RADIUS
    ensures Near(c1, c2, r)
  {
    assert r * r >= MAX_RADIUS * r >= MAX_RADIUS * MAX_RADIUS;
  }
}
