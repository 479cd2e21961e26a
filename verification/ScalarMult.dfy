/** Modular inverse and scalar multiplication of `packages/tls/src/key-share.ts`, on unbounded integers as `bigint` has them. */
module ScalarMult {
  import opened Bytes

  // ----- remainders

  /** `%` of JavaScript: it takes the sign of its left operand. */
  function Remainder(a: int, m: int): int
    requires m > 0
  {
    if a >= 0 then a % m else -(-a % m)
  }

  /** `mod`. */
  function Mod(a: int, m: int): (r: int)
    requires m > 0
    ensures 0 <= r < m && r == a % m
  {
    RemainderIs(a, m);
    Remainder(Remainder(a, m) + m, m)
  }

  lemma RemainderIs(a: int, m: int)
    requires m > 0
    ensures -m < Remainder(a, m) < m && (Remainder(a, m) + m) % m == a % m
  {
    if a >= 0 {
      ModUnique(a % m + m, m, a % m, 1);
    } else {
      NegativeRemainder(-a, m);
    }
  }

  lemma NegativeRemainder(n: nat, m: int)
    requires m > 0
    ensures (-(n % m) + m) % m == (0 - n) % m
  {
    var q, r := n / m, n % m;
    assert n == q * m + r;
    if r == 0 {
      ModUnique(m, m, 0, 1);
      ModUnique(0 - n, m, 0, -q);
    } else {
      ModUnique(m - r, m, m - r, 0);
      assert (-q - 1) * m == 0 - q * m - m;
      ModUnique(0 - n, m, m - r, -q - 1);
    }
  }

  lemma ModUnique(a: int, m: int, r: int, q: int)
    requires m > 0 && 0 <= r < m && a == q * m + r
    ensures a % m == r
  {
    var q' := a / m;
    assert a == q' * m + a % m;
    assert (q - q') * m == a % m - r;
    assert (q' - q) * m == -((q - q') * m);
    MulAtLeast(q - q', m);
    MulAtLeast(q' - q, m);
  }

  lemma MulAtLeast(n: int, m: int)
    ensures n >= 1 && m >= 0 ==> n * m >= m
  {
  }

  // ----- common divisors

  function Gcd(a: nat, b: nat): nat
    decreases b
  {
    if b == 0 then a else Gcd(b, a % b)
  }

  ghost predicate Divides(d: nat, n: nat) {
    exists q: nat :: n == d * q
  }

  lemma DividesSum(d: nat, a: nat, b: nat, q: nat)
    requires Divides(d, a) && Divides(d, b)
    ensures Divides(d, a * q + b)
  {
    var x: nat :| a == d * x;
    var y: nat :| b == d * y;
    assert a * q + b == d * (x * q + y);
  }

  lemma DividesDifference(d: nat, a: nat, b: nat, q: nat)
    requires Divides(d, a) && Divides(d, a * q + b)
    ensures Divides(d, b)
  {
    var x: nat :| a == d * x;
    var z: nat :| a * q + b == d * z;
    assert b == d * (z - x * q);
    MulAtLeast(x * q - z, d);
    assert (x * q - z) * d + b == 0;
    if d == 0 {
      assert b == d * 0;
    }
  }

  /** It divides both, and whatever divides both divides it. */
  lemma {:induction false} GcdGreatest(a: nat, b: nat, d: nat)
    ensures Divides(Gcd(a, b), a) && Divides(Gcd(a, b), b)
    ensures Divides(d, a) && Divides(d, b) ==> Divides(d, Gcd(a, b))
    decreases b
  {
    if b == 0 {
      assert a == a * 1 && b == a * 0;
    } else {
      GcdGreatest(b, a % b, d);
      assert a == b * (a / b) + a % b;
      DividesSum(Gcd(a, b), b, a % b, a / b);
      if Divides(d, a) && Divides(d, b) {
        DividesDifference(d, b, a % b, a / b);
      }
    }
  }

  // ----- the inverse

  function Abs(x: int): nat {
    if x < 0 then -x else x
  }

  ghost predicate Congruent(a: int, b: int, m: int) {
    exists q :: a == b + q * m
  }

  lemma CongruentStep(x0: int, x1: int, k: int, a: int, b: int, q: int, m: int)
    requires Congruent(x1 * k, a, m) && Congruent(x0 * k, b, m)
    ensures Congruent((x1 - q * x0) * k, a - q * b, m)
  {
    var s :| x1 * k == a + s * m;
    var t :| x0 * k == b + t * m;
    assert (x1 - q * x0) * k == x1 * k - q * (x0 * k);
    assert q * (b + t * m) == q * b + q * t * m;
    assert (s - q * t) * m == s * m - q * t * m;
    assert (x1 - q * x0) * k == a - q * b + (s - q * t) * m;
  }

  /** One of the two is not positive, the other not negative. */
  predicate Opposite(x: int, y: int) {
    (x <= 0 <= y) || (y <= 0 <= x)
  }

  lemma SizeStep(x0: int, x1: int, a: nat, b: nat, q: nat, m: nat)
    requires Opposite(x0, x1) && Abs(x0) * a + Abs(x1) * b == m
    requires q * b <= a
    ensures Opposite(x1 - q * x0, x0)
    ensures Abs(x1 - q * x0) == Abs(x1) + q * Abs(x0)
    ensures Abs(x1 - q * x0) * b + Abs(x0) * (a - q * b) == m
  {
    assert x0 <= 0 ==> q * x0 <= 0;
    assert x0 >= 0 ==> q * x0 >= 0;
    assert Abs(q * x0) == q * Abs(x0);
    assert (Abs(x1) + q * Abs(x0)) * b == Abs(x1) * b + q * Abs(x0) * b;
    assert Abs(x0) * (a - q * b) == Abs(x0) * a - q * Abs(x0) * b;
  }

  lemma HalfAtMost(x: nat, a: nat, m: nat)
    requires a > 1 && x * a <= m && m > 0
    ensures x < m
  {
    if x > 0 {
      assert x * a >= 2 * x;
    }
  }

  /** What the loop keeps: `x1` and `x0` times `k` are `a` and `b`, and neither grows past `m`. */
  ghost predicate Kept(a: nat, b: nat, x0: int, x1: int, k: nat, m: nat) {
    && Gcd(a, b) == Gcd(k, m)
    && Congruent(x1 * k, a, m) && Congruent(x0 * k, b, m)
    && Opposite(x0, x1) && Abs(x0) * a + Abs(x1) * b == m
    && Abs(x1) < m
    && (a == 0 <==> k == 0) && (a == 0 ==> x1 == 1)
  }

  predicate IsInverse(k: int, x: int, m: nat)
    requires m > 0
  {
    (k * x) % m == 1 % m
  }

  lemma KeptFirst(k: nat, m: nat)
    requires m > 1
    ensures Kept(k, m, 0, 1, k, m)
  {
    assert 1 * k == k + 0 * m && 0 * k == m + -1 * m;
  }

  lemma KeptNext(a: nat, b: nat, x0: int, x1: int, k: nat, m: nat)
    requires Kept(a, b, x0, x1, k, m) && a > 1 && b > 0 && m > 0
    ensures Kept(b, a % b, x1 - a / b * x0, x0, k, m)
  {
    var q: nat := a / b;
    assert a == q * b + a % b;
    CongruentStep(x0, x1, k, a, b, q, m);
    SizeStep(x0, x1, a, b, q, m);
    HalfAtMost(Abs(x0), a, m);
  }

  lemma KeptLast(b: nat, x0: int, x1: int, k: nat, m: nat)
    requires Kept(1, b, x0, x1, k, m) && m > 1
    ensures Gcd(k, m) == 1
    ensures IsInverse(k, if x1 < 0 then x1 + m else x1, m)
  {
    hide Gcd, IsInverse;
    GcdOfOne(b);
    CongruentInverse(x1, k, m);
  }

  lemma CongruentInverse(x: int, k: nat, m: nat)
    requires m > 1 && Congruent(x * k, 1, m)
    ensures IsInverse(k, x, m) && IsInverse(k, x + m, m)
  {
    var s :| x * k == 1 + s * m;
    assert 1 % m == 1;
    ModUnique(k * x, m, 1, s) by {
      assert k * x == x * k;
    }
    ModUnique(k * (x + m), m, 1, s + k) by {
      assert k * (x + m) == k * x + k * m;
      assert (s + k) * m == s * m + k * m;
    }
  }

  /**
   Extended Euclid as the source has it. None is its division by zero, which strikes exactly when
   the numbers share a divisor; zero alone has the answer 1.
   */
  method ModInverse(k: nat, m: nat) returns (r: Option<int>)
    requires m > 0
    ensures Gcd(k, m) == 1 ==> r.Some? && 0 <= r.value < m && IsInverse(k, r.value, m)
    ensures Gcd(k, m) != 1 ==> r == if k == 0 then Some(1) else None
  {
    hide Kept, Gcd, IsInverse;
    var a: nat, b: nat := k, m;
    var x0: int, x1: int := 0, 1;
    SmallGcds(k, m);
    if m == 1 {
      return Some(0);
    }
    KeptFirst(k, m);
    while a > 1
      invariant Kept(a, b, x0, x1, k, m)
      decreases b
    {
      KeptBounds(a, b, x0, x1, k, m);
      if b == 0 {
        return None;
      }
      KeptNext(a, b, x0, x1, k, m);
      a, b, x0, x1 := b, a % b, x1 - a / b * x0, x0;
    }
    KeptBounds(a, b, x0, x1, k, m);
    if a == 1 {
      KeptLast(b, x0, x1, k, m);
    }
    if x1 < 0 {
      x1 := x1 + m;
    }
    return Some(x1);
  }

  lemma KeptBounds(a: nat, b: nat, x0: int, x1: int, k: nat, m: nat)
    requires Kept(a, b, x0, x1, k, m)
    ensures Abs(x1) < m && (a == 0 <==> k == 0) && (a == 0 ==> x1 == 1) && (b == 0 ==> Gcd(k, m) == a)
  {
  }

  lemma SmallGcds(k: nat, m: nat)
    ensures Gcd(k, 1) == 1 && Gcd(0, m) == m && IsInverse(k, 0, 1)
  {
  }

  lemma GcdOfOne(b: nat)
    ensures Gcd(1, b) == 1
  {
    if b > 1 {
      assert 1 % b == 1;
    }
  }

  // ----- points

  type Jacobian = (int, int, int)

  /** None is the point at infinity. */
  type Point = Option<Jacobian>

  function JacobianDouble(point: Point, p: nat): Point
    requires p > 0
  {
    match point
    case None => None
    case Some((x1, y1, z1)) =>
      var a := Mod(x1 * x1, p);
      var b := Mod(y1 * y1, p);
      var c := Mod(b * b, p);
      var d := Mod(2 * (Mod((x1 + b) * (x1 + b), p) - a - c), p);
      var z1z1 := Mod(z1 * z1, p);
      var e := Mod(3 * (x1 - z1z1) * (x1 + z1z1), p);
      var f := Mod(e * e - 2 * d, p);
      Some((f, Mod(e * (d - f) - 8 * c, p), Mod(2 * y1 * z1, p)))
  }

  function JacobianAdd(p1: Point, p2: Point, p: nat): Point
    requires p > 0
  {
    match (p1, p2)
    case (None, _) => p2
    case (_, None) => p1
    case (Some((x1, y1, z1)), Some((x2, y2, z2))) =>
      var z1z1 := Mod(z1 * z1, p);
      var z2z2 := Mod(z2 * z2, p);
      var u1 := Mod(x1 * z2z2, p);
      var u2 := Mod(x2 * z1z1, p);
      var s1 := Mod(y1 * z2 * z2z2, p);
      var s2 := Mod(y2 * z1 * z1z1, p);
      if u1 == u2 then if s1 == s2 then JacobianDouble(p1, p) else None
      else
        var h := Mod(u2 - u1, p);
        var i := Mod(4 * h * h, p);
        var j := Mod(h * i, p);
        var r := Mod(2 * (s2 - s1), p);
        var v := Mod(u1 * i, p);
        var x3 := Mod(r * r - j - 2 * v, p);
        Some((x3, Mod(r * (v - x3) - 2 * s1 * j, p), Mod(Mod((z1 + z2) * (z1 + z2) - z1z1 - z2z2, p) * h, p)))
  }

  /** A group, and which of its elements a point stands for; `on` says which points it covers. */
  datatype Reading<!T> = Reading(on: Point -> bool, value: Point -> T, zero: T, add: (T, T) -> T)

  /** The Jacobian operations realise a commutative group. */
  ghost predicate Realises<T(!new)>(g: Reading<T>, p: nat)
    requires p > 0
  {
    && g.on(None) && g.value(None) == g.zero
    && (forall a: Point | g.on(a) ::
          g.on(JacobianDouble(a, p)) && g.value(JacobianDouble(a, p)) == g.add(g.value(a), g.value(a)))
    && (forall a: Point, b: Point | g.on(a) && g.on(b) ::
          g.on(JacobianAdd(a, b, p)) && g.value(JacobianAdd(a, b, p)) == g.add(g.value(a), g.value(b)))
    && (forall a: T :: g.add(a, g.zero) == a && g.add(g.zero, a) == a)
    && (forall a: T, b: T :: g.add(a, b) == g.add(b, a))
    && (forall a: T, b: T, c: T :: g.add(g.add(a, b), c) == g.add(a, g.add(b, c)))
  }

  /** The sum of `n` copies. */
  ghost function Times<T>(g: Reading<T>, n: nat, a: T): T {
    if n == 0 then g.zero else g.add(a, Times(g, n - 1, a))
  }

  lemma {:induction false} TimesDouble<T(!new)>(g: Reading<T>, p: nat, n: nat, a: T)
    requires p > 0 && Realises(g, p)
    ensures Times(g, n, g.add(a, a)) == Times(g, 2 * n, a)
  {
    hide Realises, Times;
    if n == 0 {
      TimesZero(g, a);
      TimesZero(g, g.add(a, a));
    } else {
      TimesDouble(g, p, n - 1, a);
      TimesNext(g, n, g.add(a, a));
      TimesNext(g, 2 * n, a);
      TimesNext(g, 2 * n - 1, a);
      assert 2 * n - 1 - 1 == 2 * (n - 1);
      Associates(g, p, a, a, Times(g, 2 * (n - 1), a));
    }
  }

  /** One bit of the scalar: what is summed and what is to come keep their sum. */
  lemma OneBit<T(!new)>(g: Reading<T>, p: nat, sum: Point, curr: Point, scalar: nat)
    requires p > 0 && Realises(g, p) && g.on(sum) && g.on(curr) && scalar > 0
    ensures var sum' := if scalar % 2 == 1 then JacobianAdd(sum, curr, p) else sum;
            var curr' := JacobianDouble(curr, p);
            && g.on(sum') && g.on(curr')
            && g.add(g.value(sum'), Times(g, scalar / 2, g.value(curr')))
               == g.add(g.value(sum), Times(g, scalar, g.value(curr)))
  {
    hide JacobianAdd, JacobianDouble, Realises, Times;
    var c, t := g.value(curr), Times(g, 2 * (scalar / 2), g.value(curr));
    DoubleAt(g, p, curr);
    AddAt(g, p, sum, curr);
    TimesDouble(g, p, scalar / 2, c);
    TimesNext(g, scalar, c);
    Associates(g, p, g.value(sum), c, t);
    assert scalar % 2 == 1 ==> scalar - 1 == 2 * (scalar / 2);
    assert scalar % 2 == 0 ==> scalar == 2 * (scalar / 2);
  }

  lemma DoubleAt<T(!new)>(g: Reading<T>, p: nat, a: Point)
    requires p > 0 && Realises(g, p) && g.on(a)
    ensures g.on(JacobianDouble(a, p)) && g.value(JacobianDouble(a, p)) == g.add(g.value(a), g.value(a))
  {
    hide JacobianAdd, JacobianDouble;
  }

  lemma AddAt<T(!new)>(g: Reading<T>, p: nat, a: Point, b: Point)
    requires p > 0 && Realises(g, p) && g.on(a) && g.on(b)
    ensures g.on(JacobianAdd(a, b, p)) && g.value(JacobianAdd(a, b, p)) == g.add(g.value(a), g.value(b))
  {
    hide JacobianAdd, JacobianDouble;
  }

  lemma Associates<T(!new)>(g: Reading<T>, p: nat, a: T, b: T, c: T)
    requires p > 0 && Realises(g, p)
    ensures g.add(g.add(a, b), c) == g.add(a, g.add(b, c))
  {
    hide JacobianAdd, JacobianDouble;
  }

  lemma TimesNext<T>(g: Reading<T>, n: nat, a: T)
    requires n > 0
    ensures Times(g, n, a) == g.add(a, Times(g, n - 1, a))
  {
  }

  /** `x` and `y` are the affine coordinates of a Jacobian point: x = X / Z^2, y = Y / Z^3. */
  ghost predicate IsAffineOf(x: int, y: int, point: Jacobian, p: nat)
    requires p > 0
  {
    && 0 <= x < p && 0 <= y < p
    && (x * (point.2 * point.2)) % p == point.0 % p
    && (y * (point.2 * point.2 * point.2)) % p == point.1 % p
  }

  lemma CongruentMul(a: int, b: int, c: int, d: int, m: int)
    requires Congruent(a, b, m) && Congruent(c, d, m)
    ensures Congruent(a * c, b * d, m)
  {
    var q :| a == b + q * m;
    var r :| c == d + r * m;
    assert a * c == b * d + b * (r * m) + q * m * d + q * m * (r * m);
    assert (b * r + q * d + q * m * r) * m == b * (r * m) + q * m * d + q * m * (r * m);
    assert a * c == b * d + (b * r + q * d + q * m * r) * m;
  }

  lemma CongruentMod(a: int, m: int)
    requires m > 0
    ensures Congruent(Mod(a, m), a, m)
  {
    assert a == a / m * m + a % m;
    assert -(a / m) * m == -(a / m * m);
    assert Mod(a, m) == a + -(a / m) * m;
  }

  lemma CongruentSame(a: int, b: int, m: int)
    requires m > 0
    ensures Congruent(a, b, m) <==> a % m == b % m
  {
    if Congruent(a, b, m) {
      var q :| a == b + q * m;
      assert b == b / m * m + b % m;
      assert (b / m + q) * m == b / m * m + q * m;
      ModUnique(a, m, b % m, b / m + q);
    }
    if a % m == b % m {
      assert a == a / m * m + a % m && b == b / m * m + b % m;
      assert (a / m - b / m) * m == a / m * m - b / m * m;
      assert a == b + (a / m - b / m) * m;
    }
  }

  /** Dividing by a power of `z` and multiplying by it again. */
  lemma DividesOut(c: int, power: int, inverse: int, p: nat)
    requires p > 0 && Congruent(power * inverse, 1, p)
    ensures (Mod(c * inverse, p) * power) % p == c % p
  {
    CongruentMod(c * inverse, p);
    assert Congruent(power, power, p) by { CongruentSame(power, power, p); }
    assert Congruent(c, c, p) by { CongruentSame(c, c, p); }
    CongruentMul(Mod(c * inverse, p), c * inverse, power, power, p);
    CongruentMul(c, c, power * inverse, 1, p);
    assert c * inverse * power == c * (power * inverse);
    CongruentSame(Mod(c * inverse, p) * power, c * inverse * power, p);
    CongruentSame(c * (power * inverse), c * 1, p);
  }

  lemma PowersInvert(z: int, zInv: int, p: nat)
    requires p > 0 && Congruent(z * zInv, 1, p)
    ensures var zInv2 := Mod(zInv * zInv, p);
            var zInv3 := Mod(zInv2 * zInv, p);
            && Congruent(z * z * zInv2, 1, p) && Congruent(z * z * z * zInv3, 1, p)
  {
    hide Mod, Congruent;
    var zInv2 := Mod(zInv * zInv, p);
    var zInv3 := Mod(zInv2 * zInv, p);
    CongruentMod(zInv * zInv, p);
    CongruentMod(zInv2 * zInv, p);
    CongruentMul(z * zInv, 1, z * zInv, 1, p);
    assert z * zInv * (z * zInv) == z * z * (zInv * zInv);
    Transfer(z * z, zInv2, zInv * zInv, p);
    CongruentMul(z * z * zInv2, 1, z * zInv, 1, p);
    assert z * z * zInv2 * (z * zInv) == z * z * z * (zInv2 * zInv);
    Transfer(z * z * z, zInv3, zInv2 * zInv, p);
  }

  lemma Transfer(power: int, a: int, b: int, p: nat)
    requires p > 0 && Congruent(a, b, p) && Congruent(power * b, 1, p)
    ensures Congruent(power * a, 1, p)
  {
    CongruentSame(power, power, p);
    CongruentMul(power, power, a, b, p);
    CongruentSame(power * a, power * b, p);
    CongruentSame(power * b, 1, p);
    CongruentSame(power * a, 1, p);
  }

  /**
   The k-fold sum of the generator, back in affine coordinates; beside it `sum`, the Jacobian point the
   loop ends with. None is the source's exception for the point at infinity, or a division by zero.
   */
  method EcScalarMult<T(!new)>(k: nat, gx: int, gy: int, p: nat, ghost g: Reading<T>)
    returns (r: Option<(int, int)>, sum: Point)
    requires p > 1 && Realises(g, p) && g.on(Some((gx, gy, 1)))
    ensures g.on(sum) && g.value(sum) == Times(g, k, g.value(Some((gx, gy, 1))))
    ensures sum == None ==> r == None
    ensures sum.Some? ==> sum.value.2 >= 0
    ensures sum.Some? && Gcd(sum.value.2, p) == 1 ==>
              r.Some? && IsAffineOf(r.value.0, r.value.1, sum.value, p)
  {
    hide JacobianAdd, JacobianDouble, Realises, Times, IsAffineOf, Gcd;
    var rJac: Point, curr: Point, scalar := None, Some((gx, gy, 1)), k;
    ghost var total := Times(g, k, g.value(curr));
    Unit(g, p, total);
    while scalar > 0
      invariant g.on(rJac) && g.on(curr) && IsReduced(rJac) && IsReduced(curr)
      invariant g.add(g.value(rJac), Times(g, scalar, g.value(curr))) == total
    {
      OneBit(g, p, rJac, curr, scalar);
      StaysReduced(rJac, curr, p);
      if scalar % 2 == 1 {
        rJac := JacobianAdd(rJac, curr, p);
      }
      curr := JacobianDouble(curr, p);
      scalar := scalar / 2;
    }
    Unit(g, p, g.value(rJac));
    TimesZero(g, g.value(curr));
    sum := rJac;
    r := None;
    if rJac.Some? {
      var zInv := ModInverse(rJac.value.2, p);
      if zInv.Some? {
        r := Some(ToAffine(rJac.value, zInv.value, p));
        ToAffineIs(rJac.value, zInv.value, p);
      }
    }
  }

  predicate IsReduced(point: Point) {
    point.Some? ==> point.value.2 >= 0
  }

  lemma StaysReduced(a: Point, b: Point, p: nat)
    requires p > 0 && IsReduced(a) && IsReduced(b)
    ensures IsReduced(JacobianAdd(a, b, p)) && IsReduced(JacobianDouble(b, p))
  {
    hide Mod;
  }

  function ToAffine(point: Jacobian, zInv: int, p: nat): (int, int)
    requires p > 0
  {
    var zInv2 := Mod(zInv * zInv, p);
    var zInv3 := Mod(zInv2 * zInv, p);
    (Mod(point.0 * zInv2, p), Mod(point.1 * zInv3, p))
  }

  lemma ToAffineIs(point: Jacobian, zInv: int, p: nat)
    requires p > 1
    ensures point.2 >= 0 && IsInverse(point.2, zInv, p) ==>
              IsAffineOf(ToAffine(point, zInv, p).0, ToAffine(point, zInv, p).1, point, p)
  {
    hide Congruent;
    if IsInverse(point.2, zInv, p) {
      CongruentSame(point.2 * zInv, 1, p);
      PowersInvert(point.2, zInv, p);
      var zInv2 := Mod(zInv * zInv, p);
      DividesOut(point.0, point.2 * point.2, zInv2, p);
      DividesOut(point.1, point.2 * point.2 * point.2, Mod(zInv2 * zInv, p), p);
    }
  }

  lemma Unit<T(!new)>(g: Reading<T>, p: nat, a: T)
    requires p > 0 && Realises(g, p)
    ensures g.on(None) && g.value(None) == g.zero && g.add(a, g.zero) == a && g.add(g.zero, a) == a
  {
  }

  lemma TimesZero<T>(g: Reading<T>, a: T)
    ensures Times(g, 0, a) == g.zero
  {
  }
}
