/** Conversion between display and pixel aspect ratio, in 32-bit and 16-bit arithmetic. */
module AspectRatio {
  import opened Bytes

  // ---------------------------------------------------------------- the greatest common divisor

  function Gcd(a: nat, b: nat): nat
    decreases b
  {
    if b == 0 then a else Gcd(b, a % b)
  }

  ghost predicate Divides(d: nat, n: nat) { exists k: nat :: n == d * k }

  lemma DividesSum(d: nat, m: nat, n: nat, q: nat)
    requires Divides(d, m) && Divides(d, n)
    ensures Divides(d, m * q + n)
  {
    var i: nat :| m == d * i;
    var j: nat :| n == d * j;
    calc {
      m * q + n;
      d * i * q + d * j;
      d * (i * q + j);
    }
  }

  lemma DividesWhole(d: nat, a: nat, b: nat)
    requires b > 0 && Divides(d, b) && Divides(d, a % b)
    ensures Divides(d, a)
  {
    hide *;
    DividesSum(d, b, a % b, a / b);
    assert b * (a / b) + a % b == a;
  }

  lemma DividesRest(d: nat, a: nat, b: nat)
    requires b > 0 && Divides(d, a) && Divides(d, b)
    ensures Divides(d, a % b)
  {
    var i: nat :| a == d * i;
    var j: nat :| b == d * j;
    ScaledRemainder(d, i, j);
  }

  lemma ScaledRemainder(k: nat, a: nat, b: nat)
    requires k > 0 && b > 0
    ensures k * b > 0 && (k * a) % (k * b) == k * (a % b)
  {
    var q, r := a / b, a % b;
    assert a == b * q + r;
    Distributed(k, b, q, r);
    ProductsOrdered(k, r, b);
    DivModIs(k * a, k * b, q, k * r);
  }

  lemma Distributed(k: int, b: int, q: int, r: int)
    ensures k * (b * q + r) == k * b * q + k * r
  {
  }

  lemma ProductsOrdered(k: int, r: int, b: int)
    requires k > 0 && 0 <= r < b
    ensures 0 <= k * r < k * b
  {
    assert k * (b - r) > 0;
  }

  /** It divides both numbers, and every common divisor divides it. */
  lemma {:induction false} GcdIsGreatest(a: nat, b: nat, d: nat)
    ensures Divides(Gcd(a, b), a) && Divides(Gcd(a, b), b)
    ensures Divides(d, a) && Divides(d, b) ==> Divides(d, Gcd(a, b))
    decreases b
  {
    if b == 0 {
      assert a == a * 1 && b == a * 0;
    } else {
      hide *;
      GcdStep(a, b);
      GcdIsGreatest(b, a % b, d);
      DividesWhole(Gcd(a, b), a, b);
      if Divides(d, a) && Divides(d, b) {
        DividesRest(d, a, b);
      }
    }
  }

  lemma {:induction false} GcdScales(k: nat, a: nat, b: nat)
    requires k > 0
    ensures Gcd(k * a, k * b) == k * Gcd(a, b)
    decreases b
  {
    if b != 0 {
      ScaledRemainder(k, a, b);
      GcdScales(k, b, a % b);
    }
  }

  lemma GcdStep(a: nat, b: nat)
    requires b > 0
    ensures Gcd(a, b) == Gcd(b, a % b)
  {
  }

  lemma GcdOfSmaller(a: nat, b: nat)
    requires a < b
    ensures Gcd(a, b) == Gcd(b, a)
  {
    GcdStep(a, b);
    hide Gcd;
    DivModIs(a, b, 0, a);
  }

  lemma GcdSymmetric(a: nat, b: nat)
    ensures Gcd(a, b) == Gcd(b, a)
  {
    hide Gcd;
    if a < b {
      GcdOfSmaller(a, b);
    } else if b < a {
      GcdOfSmaller(b, a);
    }
  }

  lemma {:induction false} GcdPositive(a: nat, b: nat)
    ensures Gcd(a, b) == 0 <==> a == 0 && b == 0
    decreases b
  {
    if b != 0 {
      GcdPositive(b, a % b);
    }
  }

  /** Euclid's loop, started with the larger number first. */
  method GCD(a: nat, b: nat) returns (g: nat)
    ensures g == Gcd(a, b)
  {
    GcdSymmetric(a, b);
    if a == 0 {
      return b;
    } else if b == 0 {
      return a;
    }
    hide Gcd;
    var a1: nat, b1: nat := if a >= b then a else b, if a >= b then b else a;
    var r: nat := a1 % b1;
    GcdStep(a1, b1);
    while r != 0
      invariant b1 > 0 && r == a1 % b1 && Gcd(b1, r) == Gcd(a, b)
      decreases r
    {
      a1 := b1;
      b1 := r;
      r := a1 % b1;
      GcdStep(a1, b1);
    }
    GcdOfNothing(b1);
    g := b1;
  }

  lemma GcdOfNothing(a: nat)
    ensures Gcd(a, 0) == a
  {
  }

  // ---------------------------------------------------------------- lowest terms

  /** An exact multiple of the divisor. */
  lemma Whole(n: nat, d: nat, k: nat)
    requires d > 0 && n == d * k
    ensures n / d == k && n % d == 0
  {
    DivModIs(n, d, k, 0);
  }

  /** A pair divided by its greatest common divisor. */
  lemma Reduction(a: nat, b: nat) returns (x: nat, y: nat)
    requires a > 0 && b > 0
    ensures var g := Gcd(a, b); g > 0 && x == a / g && y == b / g && a == g * x && b == g * y && x > 0 && y > 0 && Gcd(x, y) == 1
  {
    var g := Gcd(a, b);
    GcdPositive(a, b);
    GcdIsGreatest(a, b, 0);
    x :| a == g * x;
    y :| b == g * y;
    Whole(a, g, x);
    Whole(b, g, y);
    GcdScales(g, x, y);
    hide Gcd;
    assert g * Gcd(x, y) == g * 1;
    Cancel(g, Gcd(x, y), 1);
  }

  lemma Cancel(g: nat, a: int, b: int)
    requires g > 0 && g * a == g * b
    ensures a == b
  {
    assert g * (a - b) == 0;
  }

  lemma LowerIsMultiple(a: nat, b: nat, p: nat, q: nat)
    requires b > 0 && q > 0 && a * q == b * p && Gcd(p, q) == 1
    ensures b == q * Gcd(a, b)
  {
    GcdScales(q, a, b);
    GcdScales(b, p, q);
    hide Gcd;
    assert q * a == b * p && q * b == b * q;
  }

  /** Two pairs in the same ratio, one of them in lowest terms: the other is a multiple of it, and reduces to it. */
  lemma SameRatio(a: nat, b: nat, p: nat, q: nat)
    requires a > 0 && b > 0 && p > 0 && q > 0 && a * q == b * p && Gcd(p, q) == 1
    ensures var g := Gcd(a, b); g > 0 && a == p * g && b == q * g && a / g == p && b / g == q
  {
    hide Gcd;
    GcdPositive(a, b);
    GcdSymmetric(a, b);
    GcdSymmetric(p, q);
    LowerIsMultiple(a, b, p, q);
    LowerIsMultiple(b, a, q, p);
    WholeTimes(a, p, Gcd(a, b));
    WholeTimes(b, q, Gcd(a, b));
  }

  lemma WholeTimes(n: nat, k: nat, d: nat)
    requires d > 0 && n == k * d
    ensures n / d == k
  {
    Whole(n, d, k);
  }

  // ---------------------------------------------------------------- the conversions

  type uint16 = x: int | 0 <= x < 0x1_0000
  type uint32 = x: int | 0 <= x < 0x1_0000_0000

  /** The reference parameters on success, or a rejected zero. */
  datatype Answer = Ratio(w: nat, h: nat) | Rejected

  function Lowest(a: nat, b: nat): (r: Answer)
    requires a > 0 || b > 0
    ensures r.Ratio? && r.w <= a && r.h <= b
  {
    GcdPositive(a, b);
    var g := Gcd(a, b);
    AtMost(a, g);
    AtMost(b, g);
    Ratio(Quotient(a, g), Quotient(b, g))
  }

  /** What it gives has no common divisor and is in the same ratio; a zero stays zero. */
  lemma LowestIsReduced(a: nat, b: nat)
    requires a > 0 || b > 0
    ensures var r := Lowest(a, b); Gcd(r.w, r.h) == 1 && r.w * b == r.h * a && (r.w == 0 <==> a == 0) && (r.h == 0 <==> b == 0)
  {
    if a > 0 && b > 0 {
      var x, y := Reduction(a, b);
      hide Gcd;
      Crosswise(Gcd(a, b), x, y);
    } else {
      GcdSymmetric(a, b);
      GcdOfNothing(a + b);
      GcdSymmetric(1, 0);
      GcdOfNothing(1);
      hide Gcd;
      Whole(a + b, a + b, 1);
      Whole(0, a + b, 0);
    }
  }

  lemma Crosswise(g: nat, x: nat, y: nat)
    ensures x * (g * y) == y * (g * x)
  {
  }

  function Quotient(a: nat, b: nat): nat
    requires b > 0
  {
    a / b
  }

  lemma AtMost(a: nat, b: nat)
    requires b > 0
    ensures Quotient(a, b) <= a
  {
    MulMono(1, b, a / b);
  }

  lemma MulMono(a: nat, b: nat, k: nat)
    requires a <= b
    ensures a * k <= b * k
  {
    assert (b - a) * k >= 0;
  }

  // ---------------------------------------------------------------- no argument divides by zero

  /** A size in lowest terms has an odd part. */
  lemma SomeOdd(w: nat, h: nat) returns (x: nat, y: nat)
    requires w > 0 && h > 0
    ensures Gcd(w, h) > 0 && x == w / Gcd(w, h) && y == h / Gcd(w, h) && (x % 2 == 1 || y % 2 == 1)
  {
    x, y := Reduction(w, h);
    GcdIsGreatest(x, y, 2);
    hide Gcd;
    if x % 2 == 0 && y % 2 == 0 {
      assert x == 2 * (x / 2) && y == 2 * (y / 2);
      OneHasNoFactor(2);
      assert false;
    }
  }

  lemma OneHasNoFactor(d: nat)
    requires d > 1
    ensures !Divides(d, 1)
  {
    if k: nat :| 1 == d * k {
      if k > 0 {
        MulMono(1, k, d);
      }
    }
  }

  /** An odd number times a number below 2^k is no multiple of 2^k, except for zero. */
  lemma {:induction false} OddProduct(x: nat, p: nat, k: nat)
    requires x % 2 == 1 && 0 < p < Pow2(k)
    ensures x * p > 0 && x * p % Pow2(k) != 0
  {
    MulMono(1, x, p);
    var half := Pow2(k - 1);
    if p % 2 == 0 {
      OddProduct(x, p / 2, k - 1);
      hide Pow2;
      DoubledProduct(x, p, p / 2, half);
    } else {
      OddTimesOdd(x, p);
      hide Pow2;
      EvenModulus(x * p, half);
    }
  }

  lemma DoubledProduct(x: nat, p: nat, q: nat, half: nat)
    requires p == 2 * q && half > 0 && x * q % half != 0
    ensures x * p % (2 * half) != 0
  {
    ScaledRemainder(2, x * q, half);
    Doubled(x, q);
  }

  lemma Doubled(x: int, q: int)
    ensures x * (2 * q) == 2 * (x * q)
  {
  }

  lemma OddTimesOdd(x: nat, p: nat)
    requires x % 2 == 1 && p % 2 == 1
    ensures x * p % 2 == 1
  {
    var a, b := x / 2, p / 2;
    assert x * p == 2 * (a * p) + p;
  }

  lemma EvenModulus(n: nat, half: nat)
    requires n % 2 == 1 && half > 0
    ensures n % (2 * half) != 0
  {
    var m := 2 * half;
    if n % m == 0 {
      EvenMultiple(n, half, n / m);
    }
  }

  lemma EvenMultiple(n: nat, half: nat, q: int)
    requires n == 2 * half * q
    ensures n % 2 == 0
  {
    assert n == 2 * (half * q);
  }

  lemma DarNotZero(parw: uint32, parh: uint32, w: uint32, h: uint32)
    requires parw > 0 && parh > 0 && w > 0 && h > 0
    ensures Gcd(w, h) > 0
    ensures w / Gcd(w, h) * parw % 0x1_0000_0000 > 0 || h / Gcd(w, h) * parh % 0x1_0000_0000 > 0
  {
    hide Gcd, Pow2;
    var x, y := SomeOdd(w, h);
    PowersOfTwo();
    if x % 2 == 1 {
      OddProduct(x, parw, 32);
    } else {
      OddProduct(y, parh, 32);
    }
  }

  lemma ParityKept(x: nat)
    ensures x % 0x1_0000 % 2 == x % 2
  {
    var q, r := x / 0x1_0000, x % 0x1_0000;
    DivModIs(x, 2, 0x8000 * q + r / 2, r % 2);
  }

  lemma RawNotZero(darw: uint32, darh: uint32, rw: uint16, rh: uint16, approx: uint16)
    requires rw % 2 == 1 || rh % 2 == 1
    ensures var raw := RawPar(darw, darh, rw, rh, approx); raw.0 > 0 || raw.1 > 0
  {
    if rw % 2 == 1 {
      OddMultiples(rw);
    } else {
      OddMultiples(rh);
    }
  }

  /** None of the constants times an odd number is cut to zero. */
  lemma OddMultiples(x: uint16)
    requires x % 2 == 1
    ensures 3 * x % 0x1_0000 > 0 && 9 * x % 0x1_0000 > 0 && 100 * x % 0x1_0000 > 0
    ensures 4 * x % 0x1_0000 > 0 && 16 * x % 0x1_0000 > 0 && 221 * x % 0x1_0000 > 0
  {
    PowersOfTwo();
    hide Pow2;
    OddProduct(x, 3, 16);
    OddProduct(x, 9, 16);
    OddProduct(x, 100, 16);
    OddProduct(x, 4, 16);
    OddProduct(x, 16, 16);
    OddProduct(x, 221, 16);
  }

  lemma ParNotZero(darw: uint32, darh: uint32, w: uint32, h: uint32, approx: uint16)
    requires w > 0 && h > 0
    ensures Gcd(w, h) > 0
    ensures var raw := RawPar(darw, darh, w / Gcd(w, h) % 0x1_0000, h / Gcd(w, h) % 0x1_0000, approx); raw.0 > 0 || raw.1 > 0
  {
    hide Gcd, RawPar;
    var x, y := SomeOdd(w, h);
    ParityKept(x);
    ParityKept(y);
    RawNotZero(darw, darh, x % 0x1_0000, y % 0x1_0000, approx);
  }

  /**
   * PARtoDAR: the frame size in lowest terms times the pixel ratio, in 32 bits. Zeros are rejected, and no other
   * arguments make the last divisor zero.
   */
  function ToDar(parw: uint32, parh: uint32, w: uint32, h: uint32): (r: Answer)
    ensures r == Rejected <==> parw == 0 || parh == 0 || w == 0 || h == 0
  {
    if parw == 0 || parh == 0 || w == 0 || h == 0 then Rejected
    else
      DarNotZero(parw, parh, w, h);
      var g := Gcd(w, h);
      Lowest(w / g * parw % 0x1_0000_0000, h / g * parh % 0x1_0000_0000)
  }

  /** The products in 16 bits, before reduction; approx is what the floating-point quotient gives for other ratios. */
  function RawPar(darw: uint32, darh: uint32, rw: uint16, rh: uint16, approx: uint16): (uint16, uint16) {
    if darw * 3 % 0x1_0000_0000 == darh * 4 % 0x1_0000_0000 then (4 * rh % 0x1_0000, 3 * rw % 0x1_0000)
    else if darw * 9 % 0x1_0000_0000 == darh * 16 % 0x1_0000_0000 then (16 * rh % 0x1_0000, 9 * rw % 0x1_0000)
    else if darw * 100 % 0x1_0000_0000 == darh * 221 % 0x1_0000_0000 then (221 * rh % 0x1_0000, 100 * rw % 0x1_0000)
    else if darw == darh then (rh, rw)
    else (approx, 1000)
  }

  /** DARtoPAR: the display ratio divided by the frame size in lowest terms, in 16 bits, with the same rejections. */
  function ToPar(darw: uint32, darh: uint32, w: uint32, h: uint32, approx: uint16): (r: Answer)
    ensures r == Rejected <==> darw == 0 || darh == 0 || w == 0 || h == 0
    ensures r.Ratio? ==> r.w < 0x1_0000 && r.h < 0x1_0000
  {
    if darw == 0 || darh == 0 || w == 0 || h == 0 then Rejected
    else
      ParNotZero(darw, darh, w, h, approx);
      var g := Gcd(w, h);
      var raw := RawPar(darw, darh, w / g % 0x1_0000, h / g % 0x1_0000, approx);
      Lowest(raw.0, raw.1)
  }

  /** No division by zero: the divisors are positive wherever the program divides. */
  method PARtoDAR(parw: uint32, parh: uint32, w: uint32, h: uint32) returns (a: Answer)
    ensures a == ToDar(parw, parh, w, h)
  {
    hide Gcd;
    if parw == 0 || parh == 0 || w == 0 || h == 0 {
      return Rejected;
    }
    DarNotZero(parw, parh, w, h);
    var gcd := GCD(w, h);
    var darw, darh := w / gcd * parw % 0x1_0000_0000, h / gcd * parh % 0x1_0000_0000;
    gcd := GCD(darw, darh);
    GcdPositive(darw, darh);
    a := Ratio(darw / gcd, darh / gcd);
  }

  /** Both conversions answer in lowest terms. */
  lemma AnswersAreReduced(a: uint32, b: uint32, w: uint32, h: uint32, approx: uint16)
    requires a > 0 && b > 0 && w > 0 && h > 0
    ensures var r := ToDar(a, b, w, h); Gcd(r.w, r.h) == 1
    ensures var r := ToPar(a, b, w, h, approx); Gcd(r.w, r.h) == 1
  {
    DarNotZero(a, b, w, h);
    ParNotZero(a, b, w, h, approx);
    hide Gcd, Lowest, RawPar;
    var x, y := w / Gcd(w, h), h / Gcd(w, h);
    var raw := RawPar(a, b, x % 0x1_0000, y % 0x1_0000, approx);
    LowestIsReduced(x * a % 0x1_0000_0000, y * b % 0x1_0000_0000);
    LowestIsReduced(raw.0, raw.1);
  }

  lemma DarOfFitting(parw: uint32, parh: uint32, w: uint32, h: uint32, x: nat, y: nat)
    requires parw > 0 && parh > 0 && w > 0 && h > 0 && Gcd(w, h) > 0 && x == w / Gcd(w, h) && y == h / Gcd(w, h)
    requires x * parw < 0x1_0000_0000 && y * parh < 0x1_0000_0000
    ensures x * parw > 0 || y * parh > 0
    ensures ToDar(parw, parh, w, h) == Lowest(x * parw, y * parh)
  {
    DarNotZero(parw, parh, w, h);
    hide Gcd, Lowest;
    Small(x * parw);
    Small(y * parh);
  }

  /** The display ratio is that of the frame size times the pixel ratio when the two products fit 32 bits. */
  lemma DarIsExact(parw: uint32, parh: uint32, w: uint32, h: uint32)
    requires parw > 0 && parh > 0 && w > 0 && h > 0
    ensures var g, r := Gcd(w, h), ToDar(parw, parh, w, h);
            g > 0 && (w / g * parw < 0x1_0000_0000 && h / g * parh < 0x1_0000_0000 ==> r.w * (h * parh) == r.h * (w * parw))
  {
    var x, y := Reduction(w, h);
    var g := Gcd(w, h);
    hide *;
    if x * parw < 0x1_0000_0000 && y * parh < 0x1_0000_0000 {
      var r := ToDar(parw, parh, w, h);
      DarOfFitting(parw, parh, w, h, x, y);
      LowestIsReduced(x * parw, y * parh);
      ScaledRatio(r.w, r.h, x, y, parw, parh, g);
    }
  }

  lemma ScaledRatio(i: int, j: int, x: int, y: int, p: int, q: int, g: int)
    requires i * (y * q) == j * (x * p)
    ensures i * (g * y * q) == j * (g * x * p)
  {
    calc { i * (g * y * q); g * (i * (y * q)); g * (j * (x * p)); j * (g * x * p); }
  }

  /** None of the four tests of the conversion, in 32 bits, recognises the ratio. */
  predicate OtherRatio(darw: uint32, darh: uint32) {
    && 3 * darw % 0x1_0000_0000 != 4 * darh % 0x1_0000_0000 && 9 * darw % 0x1_0000_0000 != 16 * darh % 0x1_0000_0000
    && 100 * darw % 0x1_0000_0000 != 221 * darh % 0x1_0000_0000 && darw != darh
  }

  lemma RawPerMille(darw: uint32, darh: uint32, rw: uint16, rh: uint16, approx: uint16)
    requires OtherRatio(darw, darh)
    ensures RawPar(darw, darh, rw, rh, approx) == (approx, 1000)
  {
  }

  lemma PerMille(darw: uint32, darh: uint32, w: uint32, h: uint32, approx: uint16)
    requires darw > 0 && darh > 0 && w > 0 && h > 0 && OtherRatio(darw, darh)
    ensures ToPar(darw, darh, w, h, approx) == Lowest(approx, 1000)
  {
    ParNotZero(darw, darh, w, h, approx);
    hide Gcd, Lowest, RawPar, OtherRatio;
    RawPerMille(darw, darh, w / Gcd(w, h) % 0x1_0000, h / Gcd(w, h) % 0x1_0000, approx);
  }

  /**
   For other ratios the pixel ratio is taken per mille: where approx is exactly a thousand times the display ratio divided
   by the frame size, pixel ratio times frame size is the display ratio.
   */
  lemma OtherRatiosPerMille(darw: uint32, darh: uint32, w: uint32, h: uint32, approx: uint16)
    requires darw > 0 && darh > 0 && w > 0 && h > 0 && OtherRatio(darw, darh) && approx * (darh * w) == 1000 * (darw * h)
    ensures var r := ToPar(darw, darh, w, h, approx); r.Ratio? && r.w * (darh * w) == r.h * (darw * h)
  {
    hide *;
    var r := Lowest(approx, 1000);
    PerMille(darw, darh, w, h, approx);
    LowestIsReduced(approx, 1000);
    CancelThousand(r.w, r.h, approx, darh * w, darw * h);
  }

  lemma CancelThousand(i: nat, j: nat, a: nat, s: nat, t: nat)
    requires i * 1000 == j * a && a * s == 1000 * t
    ensures i * s == j * t
  {
    calc { 1000 * (i * s); i * 1000 * s; j * a * s; j * (a * s); j * (1000 * t); 1000 * (j * t); }
  }

  method DARtoPAR(darw: uint32, darh: uint32, w: uint32, h: uint32, approx: uint16) returns (a: Answer)
    ensures a == ToPar(darw, darh, w, h, approx)
  {
    hide Gcd, RawPar;
    if darw == 0 || darh == 0 || w == 0 || h == 0 {
      return Rejected;
    }
    ParNotZero(darw, darh, w, h, approx);
    var gcd := GCD(w, h);
    var reducedW, reducedH := w / gcd % 0x1_0000, h / gcd % 0x1_0000;
    var parw, parh := CrossProducts(darw, darh, reducedW, reducedH, approx);
    gcd := GCD(parw, parh);
    GcdPositive(parw, parh);
    a := Ratio(parw / gcd, parh / gcd);
  }

  /** The cases for the standard ratios. */
  method CrossProducts(darw: uint32, darh: uint32, reducedW: uint16, reducedH: uint16, approx: uint16)
    returns (parw: uint16, parh: uint16)
    ensures (parw, parh) == RawPar(darw, darh, reducedW, reducedH, approx)
  {
    if darw * 3 % 0x1_0000_0000 == darh * 4 % 0x1_0000_0000 {
      parw := 4 * reducedH % 0x1_0000;
      parh := 3 * reducedW % 0x1_0000;
    } else if darw * 9 % 0x1_0000_0000 == darh * 16 % 0x1_0000_0000 {
      parw := 16 * reducedH % 0x1_0000;
      parh := 9 * reducedW % 0x1_0000;
    } else if darw * 100 % 0x1_0000_0000 == darh * 221 % 0x1_0000_0000 {
      parw := 221 * reducedH % 0x1_0000;
      parh := 100 * reducedW % 0x1_0000;
    } else if darw == darh {
      parw := reducedH;
      parh := reducedW;
    } else {
      parw := approx;
      parh := 1000;
    }
  }

  // ---------------------------------------------------------------- the round trip

  /** The four ratios that the conversion treats exactly. */
  predicate Standard(p: nat, q: nat) { (p, q) == (4, 3) || (p, q) == (16, 9) || (p, q) == (221, 100) || (p, q) == (1, 1) }

  /** A display ratio that is a standard one, small enough that the comparisons do not wrap. */
  predicate Exact(darw: nat, darh: nat, p: nat, q: nat) {
    Standard(p, q) && darw > 0 && darh > 0 && 221 * darw < 0x1_0000_0000 && 221 * darh < 0x1_0000_0000 && darw * q == darh * p
  }

  lemma StandardIsLowest(p: nat, q: nat)
    requires Standard(p, q)
    ensures Gcd(p, q) == 1
  {
    hide Gcd;
    match p
    case 4 => GcdSteps(4, 3, 1, 0);
    case 16 => GcdSteps(16, 9, 7, 2); GcdSteps(9, 7, 2, 1); GcdSteps(7, 2, 1, 0);
    case 221 => GcdSteps(221, 100, 21, 16); GcdSteps(100, 21, 16, 5); GcdSteps(21, 16, 5, 1); GcdSteps(16, 5, 1, 0);
    case _ => GcdStep(1, 1); GcdOfNothing(1);
  }

  lemma GcdSteps(a: nat, b: nat, c: nat, d: nat)
    requires 0 < b && 0 < c && c == a % b && d == b % c
    ensures Gcd(a, b) == Gcd(b, c) == Gcd(c, d) && Gcd(c, 0) == c
  {
  }

  /** The standard ratio is the display ratio in lowest terms. */
  lemma DisplayInLowestTerms(darw: nat, darh: nat, p: nat, q: nat)
    requires Exact(darw, darh, p, q)
    ensures Lowest(darw, darh) == Ratio(p, q)
  {
    StandardIsLowest(p, q);
    SameRatio(darw, darh, p, q);
  }

  /** The comparisons pick out the ratio. */
  lemma RatioIsRecognised(darw: uint32, darh: uint32, rw: uint16, rh: uint16, approx: uint16, p: nat, q: nat)
    requires Exact(darw, darh, p, q) && rw < 0x1_0000 && rh < 0x1_0000
    ensures RawPar(darw, darh, rw, rh, approx) == (p * rh % 0x1_0000, q * rw % 0x1_0000)
  {
    Small(darw * 3);
    Small(darh * 4);
    Small(darw * 9);
    Small(darh * 16);
    Small(darw * 100);
    Small(darh * 221);
    Small16(rw);
    Small16(rh);
  }

  lemma Small(x: nat)
    requires x < 0x1_0000_0000
    ensures x % 0x1_0000_0000 == x
  {
  }

  lemma Small16(x: nat)
    requires x < 0x1_0000
    ensures x % 0x1_0000 == x
  {
  }

  lemma Regroup(d: int, x: int, i: int, q: int)
    ensures d * (x * i * q) == (d * i) * (x * q)
  {
    calc {
      d * (x * i * q);
      d * (i * x * q);
      d * (i * (x * q));
      (d * i) * (x * q);
    }
  }

  lemma Crossed(p: int, y: int, q: int, x: int)
    ensures (p * y) * (x * q) == (q * x) * (y * p)
  {
  }

  /** A factor of a 16-bit number is a 16-bit number. */
  lemma FactorFits(n: nat, d: nat, k: nat)
    requires d > 0 && n == d * k && n < 0x1_0000
    ensures k < 0x1_0000
  {
    MulMono(1, d, k);
  }

  lemma ProductFits(x: nat, i: nat)
    requires x < 0x1_0000 && i < 0x1_0000
    ensures x * i < 0x1_0000_0000 && x * i % 0x1_0000_0000 == x * i
  {
    ProductBound(x, i);
    Small(x * i);
  }

  lemma ProductBound(x: nat, i: nat)
    requires x < 0x1_0000 && i < 0x1_0000
    ensures x * i < 0x1_0000_0000
  {
    MulMono(x, 0xFFFF, i);
  }

  lemma Commute(a: int, b: int)
    ensures a * b == b * a
  {
  }

  /** With a 16-bit frame size, the conversion computes the cross products in 16 bits and reduces them. */
  lemma ParOfExact(darw: uint32, darh: uint32, w: uint32, h: uint32, approx: uint16, p: nat, q: nat) returns (x: nat, y: nat)
    requires Exact(darw, darh, p, q) && 0 < w < 0x1_0000 && 0 < h < 0x1_0000
    ensures Gcd(w, h) > 0 && x == w / Gcd(w, h) && y == h / Gcd(w, h)
    ensures 0 < x < 0x1_0000 && 0 < y < 0x1_0000 && Gcd(x, y) == 1
    ensures p * y % 0x1_0000 > 0 || q * x % 0x1_0000 > 0
    ensures ToPar(darw, darh, w, h, approx) == Lowest(p * y % 0x1_0000, q * x % 0x1_0000)
  {
    hide Gcd, RawPar, Lowest;
    ParNotZero(darw, darh, w, h, approx);
    x, y := Reduction(w, h);
    FactorFits(w, Gcd(w, h), x);
    FactorFits(h, Gcd(w, h), y);
    Small16(x);
    Small16(y);
    RatioIsRecognised(darw, darh, x, y, approx, p, q);
  }

  /** With 16-bit arguments, converting back multiplies without wrapping. */
  lemma DarOfSmall(i: nat, j: nat, w: uint32, h: uint32, x: nat, y: nat)
    requires 0 < i < 0x1_0000 && 0 < j < 0x1_0000 && w > 0 && h > 0 && Gcd(w, h) > 0
    requires 0 < x == w / Gcd(w, h) < 0x1_0000 && 0 < y == h / Gcd(w, h) < 0x1_0000
    ensures x * i > 0 && y * j > 0
    ensures ToDar(i, j, w, h) == Lowest(x * i, y * j)
  {
    hide Gcd, Lowest;
    ProductFits(x, i);
    ProductFits(y, j);
    MulMono(1, x, i);
    MulMono(1, y, j);
  }

  /** The cross products of two reduced pairs, after dividing out the common divisor of their products. */
  lemma BackToDisplay(x: nat, y: nat, a: nat, b: nat, p: nat, q: nat, d: nat, i: nat, j: nat)
    requires d > 0 && a == d * i && b == d * j && a == p * y && b == q * x
    ensures x * i * q == y * j * p
  {
    Regroup(d, x, i, q);
    Regroup(d, y, j, p);
    Crossed(p, y, q, x);
    Cancel(d, x * i * q, y * j * p);
  }

  /** The products in lowest terms, multiplied back, reduce to the standard ratio. */
  lemma ProductsReduce(x: nat, y: nat, a: nat, b: nat, p: nat, q: nat) returns (i: nat, j: nat)
    requires x > 0 && y > 0 && a > 0 && b > 0 && a == p * y && b == q * x && Standard(p, q)
    ensures 0 < i <= a && 0 < j <= b && Lowest(a, b) == Ratio(i, j) && Lowest(x * i, y * j) == Ratio(p, q)
  {
    i, j := Reduction(a, b);
    hide Gcd;
    MulMono(1, Gcd(a, b), i);
    MulMono(1, Gcd(a, b), j);
    BackToDisplay(x, y, a, b, p, q, Gcd(a, b), i, j);
    StandardIsLowest(p, q);
    MulMono(1, x, i);
    MulMono(1, y, j);
    SameRatio(x * i, y * j, p, q);
  }

  lemma PositiveProduct(p: nat, y: nat)
    requires p > 0 && y > 0
    ensures p * y > 0
  {
    MulMono(1, p, y);
  }

  /** When nothing is cut off at 16 bits, converting back gives the standard ratio again. */
  lemma ExactRoundTrip(darw: uint32, darh: uint32, w: uint32, h: uint32, approx: uint16, p: nat, q: nat)
    requires Exact(darw, darh, p, q) && 0 < w < 0x1_0000 && 0 < h < 0x1_0000 && Gcd(w, h) > 0
    requires p * (h / Gcd(w, h)) < 0x1_0000 && q * (w / Gcd(w, h)) < 0x1_0000
    ensures var par := ToPar(darw, darh, w, h, approx); par.Ratio? && ToDar(par.w, par.h, w, h) == Ratio(p, q)
  {
    hide Gcd, RawPar, ToPar, ToDar, Exact, Lowest;
    StandardOf(darw, darh, p, q);
    var x, y := ParOfExact(darw, darh, w, h, approx, p, q);
    PositiveProduct(p, y);
    PositiveProduct(q, x);
    Small16(p * y);
    Small16(q * x);
    var i, j := ProductsReduce(x, y, p * y, q * x, p, q);
    DarOfSmall(i, j, w, h, x, y);
  }

  lemma StandardOf(darw: nat, darh: nat, p: nat, q: nat)
    requires Exact(darw, darh, p, q)
    ensures Standard(p, q)
  {
  }

  // ---------------------------------------------------------------- where 16 bits are not enough

  /** Two numbers cut off at 16 bits keep their ratio only if they have a common divisor beyond 16 bits, or were not cut. */
  lemma CutKeepsRatio(a: nat, b: nat, i: nat, j: nat)
    requires a > 0 && b > 0 && i == a / 0x1_0000 && j == b / 0x1_0000 && i * b == j * a && Gcd(a, b) < 0x1_0000
    ensures a < 0x1_0000 && b < 0x1_0000
  {
    hide Gcd;
    if i > 0 {
      GcdScales(i, a, b);
      GcdScales(a, i, j);
      GcdPositive(i, j);
      Commute(i, a);
      Commute(j, a);
      NotSoMuch(a, i, Gcd(i, j), Gcd(a, b));
    } else {
      NoFactor(j, a);
    }
  }

  lemma NoFactor(j: nat, a: nat)
    requires j * a == 0 && a > 0
    ensures j == 0
  {
    if j > 0 {
      MulMono(1, j, a);
    }
  }

  lemma NotSoMuch(a: nat, i: nat, k: nat, g: nat)
    requires i == a / 0x1_0000 && i > 0 && k > 0 && a * k == i * g
    ensures g >= 0x1_0000
  {
    MulMono(1, k, a);
    if g < 0x1_0000 {
      MulMono(g, 0xFFFF, i);
    }
  }

  lemma FactorAtMost(d: nat, k: nat)
    requires d * k > 0
    ensures d <= d * k
  {
    MulMono(1, k, d);
  }

  lemma DivisorFits(d: nat, n: nat)
    requires Divides(d, n) && n > 0
    ensures d <= n
  {
    var k: nat :| n == d * k;
    FactorAtMost(d, k);
  }

  /** The cross products share no more than the ratio itself: the frame size is in lowest terms. */
  lemma CommonDivisorIsSmall(x: nat, y: nat, p: nat, q: nat)
    requires x > 0 && y > 0 && p > 0 && q > 0 && Gcd(y, x) == 1
    ensures Gcd(p * y, q * x) <= p * q
  {
    hide Gcd, Divides;
    var d := Gcd(p * y, q * x);
    var k := p * q;
    GcdIsGreatest(p * y, q * x, d);
    DividesMultiple(d, p * y, q);
    DividesMultiple(d, q * x, p);
    Rotate(p, y, q);
    Rotate(q, x, p);
    GcdIsGreatest(k * y, k * x, d);
    MulMono(1, p, q);
    GcdScales(k, y, x);
    DivisorFits(d, k);
  }

  lemma Rotate(p: nat, y: nat, q: nat)
    ensures p * y * q == p * q * y && p * q == q * p
  {
  }

  lemma DividesMultiple(d: nat, n: nat, k: nat)
    requires Divides(d, n)
    ensures Divides(d, n * k)
  {
    assert 0 == d * 0;
    DividesSum(d, n, 0, k);
  }

  /** If the remainders keep the ratio, so do the parts cut off. */
  lemma CutParts(a: nat, b: nat)
    requires (a % 0x1_0000) * b == (b % 0x1_0000) * a
    ensures (a / 0x1_0000) * b == (b / 0x1_0000) * a
  {
    var i, r, j, t := a / 0x1_0000, a % 0x1_0000, b / 0x1_0000, b % 0x1_0000;
    Spread(0x1_0000 * i, r, b);
    Spread(0x1_0000 * j, t, a);
    Commute(a, b);
    Pull(i, b);
    Pull(j, a);
    Cancel(0x1_0000, i * b, j * a);
  }

  lemma Spread(m: int, r: int, b: int)
    ensures (m + r) * b == m * b + r * b
  {
  }

  lemma Pull(i: int, b: int)
    ensures 0x1_0000 * i * b == 0x1_0000 * (i * b)
  {
  }

  /** The step back from equal display ratios to the 16-bit remainders. */
  lemma CrossBack(x: nat, y: nat, a: nat, b: nat, p: nat, q: nat, g: nat, i: nat, j: nat, e: nat)
    requires a == p * y && b == q * x && x * i == e * p && y * j == e * q
    ensures (g * i) * b == (g * j) * a
  {
    Regroup(g, x, i, q);
    Regroup(g, y, j, p);
    Commute(x, q);
    Commute(y, p);
    Swap(e, p, q);
  }

  lemma Swap(e: int, p: int, q: int)
    ensures e * p * q == e * q * p
  {
  }

  /** If the 16-bit products r and t convert back to p:q, they are in the ratio of the full products. */
  lemma RemaindersKeepRatio(x: nat, y: nat, r: nat, t: nat, p: nat, q: nat, w: uint32, h: uint32, par: Answer)
    requires w > 0 && h > 0 && Gcd(w, h) > 0 && p > 0 && q > 0 && r < 0x1_0000 && t < 0x1_0000 && (r > 0 || t > 0)
    requires 0 < x == w / Gcd(w, h) < 0x1_0000 && 0 < y == h / Gcd(w, h) < 0x1_0000
    requires par.Ratio? && Lowest(r, t) == par && ToDar(par.w, par.h, w, h) == Ratio(p, q)
    ensures r > 0 && t > 0 && r * (q * x) == t * (p * y)
  {
    hide Gcd, Lowest, Quotient;
    assert par.w > 0 && par.h > 0;
    hide ToDar;
    var i, j, g := LowestParts(r, t, par);
    DarOfSmall(i, j, w, h, x, y);
    var i', j', e := LowestParts(x * i, y * j, Ratio(p, q));
    CrossBack(x, y, p * y, q * x, p, q, g, i, j, e);
  }

  /** Full products that share no 16-bit divisor, and whose remainders keep their ratio, were not cut. */
  lemma RoomFollows(a: nat, b: nat, x: nat, y: nat, p: nat, q: nat)
    requires x > 0 && y > 0 && Gcd(x, y) == 1 && Standard(p, q) && a == p * y && b == q * x
    requires (a % 0x1_0000) * b == (b % 0x1_0000) * a
    ensures a < 0x1_0000 && b < 0x1_0000
  {
    hide Gcd;
    CutParts(a, b);
    GcdSymmetric(x, y);
    CommonDivisorIsSmall(x, y, p, q);
    CutKeepsRatio(a, b, a / 0x1_0000, b / 0x1_0000);
  }

  /** A conversion that comes back to the standard ratio cannot have cut anything off. */
  lemma RoundTripNeedsRoom(darw: uint32, darh: uint32, w: uint32, h: uint32, approx: uint16, p: nat, q: nat)
    requires Exact(darw, darh, p, q) && 0 < w < 0x1_0000 && 0 < h < 0x1_0000 && Gcd(w, h) > 0
    requires var par := ToPar(darw, darh, w, h, approx); par.Ratio? && ToDar(par.w, par.h, w, h) == Ratio(p, q)
    ensures p * (h / Gcd(w, h)) < 0x1_0000 && q * (w / Gcd(w, h)) < 0x1_0000
  {
    hide Gcd, RawPar, ToPar, ToDar, Exact, Lowest;
    StandardOf(darw, darh, p, q);
    var x, y := ParOfExact(darw, darh, w, h, approx, p, q);
    RemaindersKeepRatio(x, y, p * y % 0x1_0000, q * x % 0x1_0000, p, q, w, h, ToPar(darw, darh, w, h, approx));
    RoomFollows(p * y, q * x, x, y, p, q);
  }

  /** A reduced pair with positive parts, and what it was reduced by. */
  lemma LowestParts(a: nat, b: nat, r: Answer) returns (i: nat, j: nat, g: nat)
    requires a > 0 || b > 0
    requires r.Ratio? && Lowest(a, b) == r && r.w > 0 && r.h > 0
    ensures i == r.w && j == r.h && g > 0 && a == g * i && b == g * j
    ensures a < 0x1_0000 && b < 0x1_0000 ==> i < 0x1_0000 && j < 0x1_0000
  {
    hide Gcd;
    g := Gcd(a, b);
    if a == 0 || b == 0 {
      ZeroQuotient(a, b, g);
      assert false;
    }
    i, j := Reduction(a, b);
    if a < 0x1_0000 && b < 0x1_0000 {
      FactorFits(a, g, i);
      FactorFits(b, g, j);
    }
  }

  lemma ZeroQuotient(a: nat, b: nat, g: nat)
    requires g > 0
    ensures a == 0 ==> Quotient(a, g) == 0
    ensures b == 0 ==> Quotient(b, g) == 0
  {
    DivModIs(0, g, 0, 0);
  }

  /**
   * For a standard display ratio and a frame size within 16 bits, converting to a pixel ratio and back gives the
   * display ratio in lowest terms exactly when the two cross products with the reduced frame size fit in 16 bits.
   */
  lemma RoundTrip(darw: uint32, darh: uint32, w: uint32, h: uint32, approx: uint16, p: nat, q: nat)
    requires Exact(darw, darh, p, q) && 0 < w < 0x1_0000 && 0 < h < 0x1_0000
    ensures Gcd(w, h) > 0
    ensures var par := ToPar(darw, darh, w, h, approx);
            (par.Ratio? && ToDar(par.w, par.h, w, h) == Lowest(darw, darh)) <==>
            p * (h / Gcd(w, h)) < 0x1_0000 && q * (w / Gcd(w, h)) < 0x1_0000
  {
    GcdPositive(w, h);
    DisplayInLowestTerms(darw, darh, p, q);
    hide Gcd, ToPar, ToDar, Exact, Lowest;
    var par := ToPar(darw, darh, w, h, approx);
    if p * (h / Gcd(w, h)) < 0x1_0000 && q * (w / Gcd(w, h)) < 0x1_0000 {
      ExactRoundTrip(darw, darh, w, h, approx, p, q);
    } else if par.Ratio? && ToDar(par.w, par.h, w, h) == Ratio(p, q) {
      RoundTripNeedsRoom(darw, darh, w, h, approx, p, q);
      assert false;
    }
  }

  /** 4:3 at 1 x 16384: the first product is cut to zero, and converting back is rejected. */
  lemma RatioIsLost(approx: uint16)
    ensures Lowest(4, 3) == Ratio(4, 3)
    ensures ToPar(4, 3, 1, 0x4000, approx) == Ratio(0, 1) && ToDar(0, 1, 1, 0x4000) == Rejected
  {
    hide Gcd;
    GcdSteps(4, 3, 1, 0);
    GcdOfSmaller(1, 0x4000);
    GcdStep(0x4000, 1);
    GcdOfNothing(1);
    GcdOfSmaller(0, 3);
    GcdOfNothing(3);
    assert RawPar(4, 3, 1, 0x4000, approx) == (0, 3);
  }
}
