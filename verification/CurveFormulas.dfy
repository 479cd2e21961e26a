/**
 What the Jacobian formulas of `packages/tls/src/key-share.ts` compute: the tangent and the chord of
 the curve y^2 = x^3 - 3x + b modulo p, for points given by their affine coordinates.
 */
module CurveFormulas {
  import opened Bytes
  import opened ScalarMult

  ghost predicate IsInvertible(a: int, p: nat) {
    exists b :: Congruent(a * b, 1, p)
  }

  /** x = X / Z^2 and y = Y / Z^3 modulo p. */
  ghost predicate StandsFor(point: Point, x: int, y: int, p: nat) {
    && point.Some?
    && var (px, py, pz) := point.value;
       && IsInvertible(pz, p)
       && Congruent(px, x * (pz * pz), p) && Congruent(py, y * (pz * pz * pz), p)
  }

  // ----- congruences

  lemma Equal(a: int, p: nat)
    ensures Congruent(a, a, p)
  {
    assert a == a + 0 * p;
  }

  lemma Follows(a: int, b: int, c: int, p: nat)
    requires Congruent(a, b, p) && Congruent(b, c, p)
    ensures Congruent(a, c, p)
  {
    var q :| a == b + q * p;
    var r :| b == c + r * p;
    assert (q + r) * p == q * p + r * p;
    assert a == c + (q + r) * p;
  }

  lemma Turned(a: int, b: int, p: nat)
    requires Congruent(a, b, p)
    ensures Congruent(b, a, p)
  {
    var q :| a == b + q * p;
    assert -q * p == -(q * p);
    assert b == a + -q * p;
  }

  lemma Combined(a: int, b: int, c: int, d: int, p: nat)
    requires Congruent(a, b, p) && Congruent(c, d, p)
    ensures Congruent(a + c, b + d, p) && Congruent(a - c, b - d, p) && Congruent(a * c, b * d, p)
  {
    CongruentMul(a, b, c, d, p);
    var q :| a == b + q * p;
    var r :| c == d + r * p;
    assert (q + r) * p == q * p + r * p && (q - r) * p == q * p - r * p;
    assert a + c == b + d + (q + r) * p && a - c == b - d + (q - r) * p;
  }

  /** `n` times a number congruent to `b`, and its square. */
  lemma Scaled(n: int, a: int, b: int, p: nat)
    requires Congruent(a, b, p)
    ensures Congruent(n * a, n * b, p) && Congruent(a * a, b * b, p)
  {
    Equal(n, p);
    Combined(n, n, a, b, p);
    Combined(a, b, a, b, p);
  }

  /** A value reduced modulo p stands for whatever the value before did. */
  lemma Reduced(v: int, a: int, p: nat)
    requires p > 0 && Congruent(v, a, p)
    ensures Congruent(Mod(v, p), a, p)
  {
    CongruentMod(v, p);
    Follows(Mod(v, p), v, a, p);
  }

  // ----- the tangent

  lemma TangentD(x: int, b: int, a: int, m: int, c: int, px: int, pb: int, p: nat)
    requires Congruent(px, x, p) && Congruent(pb, b, p)
    requires Congruent(a, px * px, p) && Congruent(c, pb * pb, p) && Congruent(m, (px + pb) * (px + pb), p)
    ensures Congruent(2 * (m - a - c), 4 * x * b, p)
  {
    hide Congruent;
    Combined(m, (px + pb) * (px + pb), a, px * px, p);
    Combined(m - a, (px + pb) * (px + pb) - px * px, c, pb * pb, p);
    assert (px + pb) * (px + pb) - px * px - pb * pb == 2 * (px * pb);
    Scaled(2, m - a - c, 2 * (px * pb), p);
    Combined(px, x, pb, b, p);
    Scaled(4, px * pb, x * b, p);
    assert 4 * (x * b) == 4 * x * b;
    Follows(2 * (m - a - c), 4 * (px * pb), 4 * x * b, p);
  }

  lemma Products(a: int, a': int, b: int, b': int, c: int, c': int, p: nat)
    requires Congruent(a, a', p) && Congruent(b, b', p) && Congruent(c, c', p)
    ensures Congruent(a * b * c, a' * b' * c', p)
  {
    hide Congruent;
    Combined(a, a', b, b', p);
    Combined(a * b, a' * b', c, c', p);
  }

  /** The other point of a line of slope `l` through (x, y), with every coordinate scaled by powers of `t`. */
  lemma OtherPoint(l: int, x: int, x3: int, y: int, t: int, e: int, d: int, f: int, g: int, p: nat)
    requires Congruent(e, l * t, p) && Congruent(d, x * (t * t), p) && Congruent(f, x3 * (t * t), p)
    requires Congruent(g, y * (t * t * t), p)
    ensures Congruent(e * (d - f) - g, (l * (x - x3) - y) * (t * t * t), p)
  {
    hide Congruent;
    Combined(d, x * (t * t), f, x3 * (t * t), p);
    Combined(e, l * t, d - f, x * (t * t) - x3 * (t * t), p);
    Combined(e * (d - f), l * t * (x * (t * t) - x3 * (t * t)), g, y * (t * t * t), p);
    Factored(l, x, x3, y, t);
  }

  lemma Factored(l: int, x: int, x3: int, y: int, t: int)
    ensures l * t * (x * (t * t) - x3 * (t * t)) - y * (t * t * t) == (l * (x - x3) - y) * (t * t * t)
  {
    var square, cube := t * t, t * t * t;
    assert x * square - x3 * square == (x - x3) * square;
    assert l * t * ((x - x3) * square) == l * (x - x3) * (t * square);
    assert (l * (x - x3) - y) * cube == l * (x - x3) * cube - y * cube;
  }

  /** Scaled by `t` is scaled by whatever is congruent to it. */
  lemma Rescaled(v: int, x: int, w: int, y: int, t: int, z: int, p: nat)
    requires Congruent(z, t, p) && Congruent(v, x * (t * t), p) && Congruent(w, y * (t * t * t), p)
    ensures Congruent(v, x * (z * z), p) && Congruent(w, y * (z * z * z), p)
  {
    hide Congruent;
    Turned(z, t, p);
    Scaled(x, t, z, p);
    Scaled(x, t * t, z * z, p);
    Products(t, z, t, z, t, z, p);
    Scaled(y, t * t * t, z * z * z, p);
    Follows(v, x * (t * t), x * (z * z), p);
    Follows(w, y * (t * t * t), y * (z * z * z), p);
  }

  lemma InvertibleProduct(a: int, b: int, p: nat)
    requires IsInvertible(a, p) && IsInvertible(b, p)
    ensures IsInvertible(a * b, p)
  {
    var a' :| Congruent(a * a', 1, p);
    var b' :| Congruent(b * b', 1, p);
    Combined(a * a', 1, b * b', 1, p);
    assert a * a' * (b * b') == a * b * (a' * b');
  }

  lemma InvertibleLike(a: int, b: int, p: nat)
    requires IsInvertible(b, p) && Congruent(a, b, p)
    ensures IsInvertible(a, p)
  {
    var b' :| Congruent(b * b', 1, p);
    Scaled(b', a, b, p);
    assert b' * a == a * b' && b' * b == b * b';
    Follows(a * b', b * b', 1, p);
  }

  lemma TangentIdentities(x: int, y: int, z: int)
    ensures var b, t := y * (z * z * z) * (y * (z * z * z)), 2 * y * (z * z * z * z);
            && 2 * (y * (z * z * z)) * z == t
            && 4 * (x * (z * z)) * b == x * (t * t)
            && 8 * (b * b) == y * (t * t * t)
  {
    var py, q := y * (z * z * z), z * z;
    var b, t := py * py, 2 * (py * z);
    SquareOf(py, z);
    assert t * t == 4 * (b * q);
    assert x * (4 * (b * q)) == 4 * (x * q) * b;
    assert t == 2 * y * (z * z * z * z);
    CubeOf(py, z);
    CubeOf(2, py * z);
    assert y * (8 * (py * py * py * (z * z * z))) == 8 * (py * py * py * (y * (z * z * z)));
    assert py * py * py * py == b * b;
  }

  lemma SlopeIdentity(x: int, z: int)
    ensures 3 * (x * (z * z) - z * z) * (x * (z * z) + z * z) == (3 * x * x - 3) * (z * z * z * z)
  {
    var q := z * z;
    assert x * q - q == (x - 1) * q && x * q + q == (x + 1) * q;
    assert q * q == z * z * z * z;
    assert 3 * ((x - 1) * q) * ((x + 1) * q) == 3 * ((x - 1) * (x + 1)) * (q * q);
  }

  lemma SquareOf(a: int, b: int)
    ensures a * b * (a * b) == a * a * (b * b)
  {
  }

  lemma CubeOf(a: int, b: int)
    ensures a * b * (a * b) * (a * b) == a * a * a * (b * b * b)
  {
    SquareOf(a, b);
    assert a * a * (b * b) * (a * b) == a * a * a * (b * b * b);
  }

  lemma TangentSlope(px: int, x: int, y: int, z: int, zz: int, l: int, p: nat)
    requires Congruent(px, x * (z * z), p) && Congruent(zz, z * z, p)
    requires Congruent(l * (2 * y), 3 * x * x - 3, p)
    ensures Congruent(3 * (px - zz) * (px + zz), l * (2 * y * (z * z * z * z)), p)
  {
    hide Congruent;
    var q := z * z * z * z;
    Combined(px, x * (z * z), zz, z * z, p);
    Equal(3, p);
    Products(3, 3, px - zz, x * (z * z) - z * z, px + zz, x * (z * z) + z * z, p);
    SlopeIdentity(x, z);
    Turned(l * (2 * y), 3 * x * x - 3, p);
    Equal(q, p);
    Combined(3 * x * x - 3, l * (2 * y), q, q, p);
    assert l * (2 * y) * q == l * (2 * y * q);
    Follows(3 * (px - zz) * (px + zz), (3 * x * x - 3) * q, l * (2 * y * q), p);
  }

  lemma TangentX(e: int, d: int, x: int, l: int, t: int, p: nat)
    requires Congruent(e, l * t, p) && Congruent(d, x * (t * t), p)
    ensures Congruent(e * e - 2 * d, (l * l - 2 * x) * (t * t), p)
  {
    hide Congruent;
    Scaled(1, e, l * t, p);
    Scaled(2, d, x * (t * t), p);
    Combined(e * e, l * t * (l * t), 2 * d, 2 * (x * (t * t)), p);
    SquareOf(l, t);
    var square := t * t;
    assert l * l * square - 2 * (x * square) == (l * l - 2 * x) * square;
  }

  /** Four times a fourth power, twice. */
  lemma TangentY(b: int, b': int, c: int, p: nat)
    requires Congruent(b, b', p) && Congruent(c, b * b, p)
    ensures Congruent(8 * c, 8 * (b' * b'), p)
  {
    hide Congruent;
    Scaled(1, b, b', p);
    Follows(c, b * b, b' * b', p);
    Scaled(8, c, b' * b', p);
  }

  lemma TangentZ(y: int, z: int, t: int, pz3: int, p: nat)
    requires IsInvertible(2 * y, p) && IsInvertible(z, p)
    requires t == 2 * y * (z * z * z * z) && Congruent(pz3, t, p)
    ensures IsInvertible(pz3, p)
  {
    hide Congruent, IsInvertible;
    InvertibleProduct(z, z, p);
    InvertibleProduct(z * z, z, p);
    InvertibleProduct(z * z * z, z, p);
    InvertibleProduct(2 * y, z * z * z * z, p);
    InvertibleLike(pz3, t, p);
  }

  /** Doubling: Z grows by twice y, and the result is where the tangent at the point meets the curve again. */
  lemma DoubleIsTangent(point: Point, x: int, y: int, l: int, p: nat)
    requires p > 0 && StandsFor(point, x, y, p) && IsInvertible(2 * y, p)
    requires Congruent(l * (2 * y), 3 * x * x - 3, p)
    ensures var x3 := l * l - 2 * x;
            StandsFor(JacobianDouble(point, p), x3, l * (x - x3) - y, p)
  {
    hide Congruent, Mod, IsInvertible;
    var (px, py, z) := point.value;
    var x3 := l * l - 2 * x;
    var b', t := y * (z * z * z) * (y * (z * z * z)), 2 * y * (z * z * z * z);
    TangentIdentities(x, y, z);
    var a := Mod(px * px, p);
    var b := Mod(py * py, p);
    var c := Mod(b * b, p);
    var m := Mod((px + b) * (px + b), p);
    CongruentMod(px * px, p);
    CongruentMod(b * b, p);
    CongruentMod((px + b) * (px + b), p);
    Scaled(2, py, y * (z * z * z), p);
    Reduced(py * py, b', p);
    TangentD(x * (z * z), b', a, m, c, px, b, p);
    var d := Mod(2 * (m - a - c), p);
    Reduced(2 * (m - a - c), x * (t * t), p);
    var zz := Mod(z * z, p);
    CongruentMod(z * z, p);
    TangentSlope(px, x, y, z, zz, l, p);
    var e := Mod(3 * (px - zz) * (px + zz), p);
    Reduced(3 * (px - zz) * (px + zz), l * t, p);
    TangentX(e, d, x, l, t, p);
    var f := Mod(e * e - 2 * d, p);
    Reduced(e * e - 2 * d, x3 * (t * t), p);
    TangentY(b, b', c, p);
    OtherPoint(l, x, x3, y, t, e, d, f, 8 * c, p);
    var py3 := Mod(e * (d - f) - 8 * c, p);
    Reduced(e * (d - f) - 8 * c, (l * (x - x3) - y) * (t * t * t), p);
    var pz3 := Mod(2 * py * z, p);
    Equal(z, p);
    Combined(2 * py, 2 * (y * (z * z * z)), z, z, p);
    Reduced(2 * py * z, t, p);
    Rescaled(f, x3, py3, l * (x - x3) - y, t, pz3, p);
    TangentZ(y, z, t, pz3, p);
  }

  // ----- the chord

  /** What `u1`, `s1` and their like stand for: coordinates scaled by the Z of both points. */
  lemma Scales(px: int, py: int, x: int, y: int, z: int, z': int, zz': int, p: nat)
    requires p > 0 && Congruent(zz', z' * z', p)
    requires Congruent(px, x * (z * z), p) && Congruent(py, y * (z * z * z), p)
    ensures var w := z * z';
            Congruent(Mod(px * zz', p), x * (w * w), p) && Congruent(Mod(py * z' * zz', p), y * (w * w * w), p)
  {
    hide Congruent, Mod;
    var w := z * z';
    Combined(px, x * (z * z), zz', z' * z', p);
    ScaledTwice(x, z, z');
    Reduced(px * zz', x * (w * w), p);
    Equal(z', p);
    Products(py, y * (z * z * z), z', z', zz', z' * z', p);
    ScaledThrice(y, z, z');
    Reduced(py * z' * zz', y * (w * w * w), p);
  }

  lemma ScaledTwice(x: int, z: int, z': int)
    ensures x * (z * z) * (z' * z') == x * (z * z' * (z * z'))
  {
    assert z * z * (z' * z') == z * z' * (z * z');
  }

  lemma ScaledThrice(y: int, z: int, z': int)
    ensures y * (z * z * z) * z' * (z' * z') == y * (z * z' * (z * z') * (z * z'))
  {
    assert z * z * z * (z' * (z' * z')) == z * z' * (z * z') * (z * z');
    assert y * (z * z * z) * z' * (z' * z') == y * (z * z * z * (z' * (z' * z')));
  }

  lemma ChordIdentities(x1: int, dx: int, y1: int, w: int)
    ensures var h := dx * (w * w);
            var t := 2 * w * h;
            && x1 * (w * w) * (4 * h * h) == x1 * (t * t)
            && h * (4 * h * h) == dx * (t * t)
            && 2 * (y1 * (w * w * w)) * (h * (4 * h * h)) == y1 * (t * t * t)
            && t == dx * (2 * (w * w * w))
  {
    var h := dx * (w * w);
    var t := 2 * (w * h);
    SquareOf(w, h);
    assert t * t == 4 * (w * w * (h * h));
    assert x1 * (4 * (w * w * (h * h))) == x1 * (w * w) * (4 * (h * h));
    assert dx * (4 * (w * w * (h * h))) == dx * (w * w) * (4 * (h * h));
    CubeOf(w, h);
    CubeOf(2, w * h);
    assert y1 * (8 * (w * w * w * (h * h * h))) == 8 * (y1 * (w * w * w)) * (h * h * h);
    assert w * (dx * (w * w)) == dx * (w * w * w);
  }

  lemma ChordX(r: int, j: int, v: int, x1: int, x2: int, l: int, t: int, p: nat)
    requires Congruent(r, l * t, p) && Congruent(j, (x2 - x1) * (t * t), p) && Congruent(v, x1 * (t * t), p)
    ensures Congruent(r * r - j - 2 * v, (l * l - x1 - x2) * (t * t), p)
  {
    hide Congruent;
    Scaled(1, r, l * t, p);
    SquareOf(l, t);
    var square := t * t;
    Combined(r * r, l * t * (l * t), j, (x2 - x1) * square, p);
    Scaled(2, v, x1 * square, p);
    Combined(r * r - j, l * t * (l * t) - (x2 - x1) * square, 2 * v, 2 * (x1 * square), p);
    assert l * l * square - (x2 - x1) * square - 2 * (x1 * square) == (l * l - x1 - x2) * square;
  }

  lemma ChordSlope(s1: int, s2: int, y1: int, y2: int, dx: int, l: int, w: int, t: int, p: nat)
    requires Congruent(s1, y1 * (w * w * w), p) && Congruent(s2, y2 * (w * w * w), p)
    requires Congruent(l * dx, y2 - y1, p) && t == dx * (2 * (w * w * w))
    ensures Congruent(2 * (s2 - s1), l * t, p)
  {
    hide Congruent;
    var cube := w * w * w;
    Combined(s2, y2 * cube, s1, y1 * cube, p);
    Scaled(2, s2 - s1, y2 * cube - y1 * cube, p);
    Scaled(2 * cube, l * dx, y2 - y1, p);
    Turned(2 * cube * (l * dx), 2 * cube * (y2 - y1), p);
    assert 2 * (y2 * cube - y1 * cube) == 2 * cube * (y2 - y1);
    assert 2 * cube * (l * dx) == l * (dx * (2 * cube));
    Follows(2 * (s2 - s1), 2 * cube * (y2 - y1), l * t, p);
  }

  lemma ChordHeight(u1: int, u2: int, x1: int, x2: int, w: int, p: nat)
    requires p > 0 && Congruent(u1, x1 * (w * w), p) && Congruent(u2, x2 * (w * w), p)
    ensures Congruent(Mod(u2 - u1, p), (x2 - x1) * (w * w), p)
  {
    hide Congruent, Mod;
    Combined(u2, x2 * (w * w), u1, x1 * (w * w), p);
    assert x2 * (w * w) - x1 * (w * w) == (x2 - x1) * (w * w);
    Reduced(u2 - u1, (x2 - x1) * (w * w), p);
  }

  /** `i` and `j`. */
  lemma ChordPowers(h: int, h': int, p: nat)
    requires p > 0 && Congruent(h, h', p)
    ensures var i := Mod(4 * h * h, p);
            Congruent(i, 4 * h' * h', p) && Congruent(Mod(h * i, p), h' * (4 * h' * h'), p)
  {
    hide Congruent, Mod;
    Equal(4, p);
    Products(4, 4, h, h', h, h', p);
    Reduced(4 * h * h, 4 * h' * h', p);
    Combined(h, h', Mod(4 * h * h, p), 4 * h' * h', p);
    Reduced(h * Mod(4 * h * h, p), h' * (4 * h' * h'), p);
  }

  /** The Z of a sum. */
  lemma ChordZ(z1: int, z2: int, zz1: int, zz2: int, h: int, h': int, p: nat)
    requires p > 0 && Congruent(h, h', p) && Congruent(zz1, z1 * z1, p) && Congruent(zz2, z2 * z2, p)
    ensures Congruent(Mod(Mod((z1 + z2) * (z1 + z2) - zz1 - zz2, p) * h, p), 2 * (z1 * z2) * h', p)
  {
    hide Congruent, Mod;
    var sum := (z1 + z2) * (z1 + z2);
    Equal(sum, p);
    Combined(sum, sum, zz1, z1 * z1, p);
    Combined(sum - zz1, sum - z1 * z1, zz2, z2 * z2, p);
    assert sum - z1 * z1 - z2 * z2 == 2 * (z1 * z2);
    Reduced(sum - zz1 - zz2, 2 * (z1 * z2), p);
    var twice := Mod(sum - zz1 - zz2, p);
    Combined(twice, 2 * (z1 * z2), h, h', p);
    Reduced(twice * h, 2 * (z1 * z2) * h', p);
  }

  lemma Cancelled(a: int, b: int, w: int, p: nat)
    requires IsInvertible(w, p) && Congruent(a * w, b * w, p)
    ensures Congruent(a, b, p)
  {
    var w' :| Congruent(w * w', 1, p);
    hide Congruent;
    Scaled(w', a * w, b * w, p);
    Scaled(a, w * w', 1, p);
    Scaled(b, w * w', 1, p);
    assert w' * (a * w) == a * (w * w') && w' * (b * w) == b * (w * w');
    Turned(a * (w * w'), a, p);
    Follows(a, a * (w * w'), b * (w * w'), p);
    Follows(a, b * (w * w'), b, p);
  }

  /** Reduced and scaled alike, two values are the same exactly when they were congruent. */
  lemma SameScaled(a: int, b: int, w: int, v: int, v': int, p: nat)
    requires p > 0 && IsInvertible(w, p) && 0 <= v < p && 0 <= v' < p
    requires Congruent(v, a * w, p) && Congruent(v', b * w, p)
    ensures v == v' <==> Congruent(a, b, p)
  {
    hide Congruent;
    if v == v' {
      Turned(v, a * w, p);
      Follows(a * w, v, b * w, p);
      Cancelled(a, b, w, p);
    }
    if Congruent(a, b, p) {
      Scaled(w, a, b, p);
      assert w * a == a * w && w * b == b * w;
      Follows(v, a * w, b * w, p);
      Turned(v', b * w, p);
      Follows(v, b * w, v', p);
      CongruentSame(v, v', p);
      Small(v, p);
      Small(v', p);
    }
  }

  lemma Small(v: int, p: nat)
    requires 0 <= v < p
    ensures v % p == v
  {
  }

  /** Which branch the addition takes: by the affine coordinates. */
  lemma AddChooses(p1: Jacobian, x1: int, y1: int, p2: Jacobian, x2: int, y2: int, p: nat)
    requires p > 0 && StandsFor(Some(p1), x1, y1, p) && StandsFor(Some(p2), x2, y2, p)
    ensures var zz1, zz2 := Mod(p1.2 * p1.2, p), Mod(p2.2 * p2.2, p);
            var w := p1.2 * p2.2;
            && (Mod(p1.0 * zz2, p) == Mod(p2.0 * zz1, p) <==> Congruent(x1, x2, p))
            && (Mod(p1.1 * p2.2 * zz2, p) == Mod(p2.1 * p1.2 * zz1, p) <==> Congruent(y1, y2, p))
            && Congruent(zz1, p1.2 * p1.2, p) && Congruent(zz2, p2.2 * p2.2, p)
            && Congruent(Mod(p1.0 * zz2, p), x1 * (w * w), p) && Congruent(Mod(p2.0 * zz1, p), x2 * (w * w), p)
            && Congruent(Mod(p1.1 * p2.2 * zz2, p), y1 * (w * w * w), p)
            && Congruent(Mod(p2.1 * p1.2 * zz1, p), y2 * (w * w * w), p)
            && IsInvertible(w, p)
  {
    hide Congruent, Mod, IsInvertible;
    var (px1, py1, z1) := p1;
    var (px2, py2, z2) := p2;
    var zz1, zz2, w := Mod(z1 * z1, p), Mod(z2 * z2, p), z1 * z2;
    CongruentMod(z1 * z1, p);
    CongruentMod(z2 * z2, p);
    Scales(px1, py1, x1, y1, z1, z2, zz2, p);
    Scales(px2, py2, x2, y2, z2, z1, zz1, p);
    assert z2 * z1 == w;
    InvertibleProduct(z1, z2, p);
    InvertibleProduct(w, w, p);
    InvertibleProduct(w * w, w, p);
    SameScaled(x1, x2, w * w, Mod(px1 * zz2, p), Mod(px2 * zz1, p), p);
    SameScaled(y1, y2, w * w * w, Mod(py1 * z2 * zz2, p), Mod(py2 * z1 * zz1, p), p);
  }

  /** Points with the same x are doubled if they are one point, and cancel otherwise. */
  lemma AddIsDouble(p1: Point, x1: int, y1: int, p2: Point, x2: int, y2: int, p: nat)
    requires p > 0 && StandsFor(p1, x1, y1, p) && StandsFor(p2, x2, y2, p) && Congruent(x1, x2, p)
    ensures JacobianAdd(p1, p2, p) == if Congruent(y1, y2, p) then JacobianDouble(p1, p) else None
  {
    hide Congruent, Mod, IsInvertible, JacobianDouble;
    AddChooses(p1.value, x1, y1, p2.value, x2, y2, p);
  }

  lemma ApartInX(x1: int, x2: int, p: nat)
    requires p > 1 && IsInvertible(2 * (x2 - x1), p)
    ensures !Congruent(x1, x2, p)
  {
    var b :| Congruent(2 * (x2 - x1) * b, 1, p);
    if Congruent(x1, x2, p) {
      Equal(x2, p);
      Combined(x2, x2, x1, x2, p);
      Scaled(2 * b, x2 - x1, 0, p);
      assert 2 * b * (x2 - x1) == 2 * (x2 - x1) * b;
      Turned(2 * (x2 - x1) * b, 1, p);
      Follows(1, 2 * (x2 - x1) * b, 0, p);
      CongruentSame(1, 0, p);
      assert false;
    }
  }

  /** Adding two points apart: the result is where the chord through them meets the curve again. */
  lemma AddIsChord(p1: Point, x1: int, y1: int, p2: Point, x2: int, y2: int, l: int, p: nat)
    requires p > 1 && StandsFor(p1, x1, y1, p) && StandsFor(p2, x2, y2, p)
    requires IsInvertible(2 * (x2 - x1), p)
    requires Congruent(l * (x2 - x1), y2 - y1, p)
    ensures var x3 := l * l - x1 - x2;
            StandsFor(JacobianAdd(p1, p2, p), x3, l * (x1 - x3) - y1, p)
  {
    hide Congruent, Mod, IsInvertible, JacobianDouble;
    AddChooses(p1.value, x1, y1, p2.value, x2, y2, p);
    ApartInX(x1, x2, p);
    var (px1, py1, z1) := p1.value;
    var (px2, py2, z2) := p2.value;
    var zz1, zz2, w := Mod(z1 * z1, p), Mod(z2 * z2, p), z1 * z2;
    var u1, u2 := Mod(px1 * zz2, p), Mod(px2 * zz1, p);
    var s1, s2 := Mod(py1 * z2 * zz2, p), Mod(py2 * z1 * zz1, p);
    var h, h' := Mod(u2 - u1, p), (x2 - x1) * (w * w);
    var i := Mod(4 * h * h, p);
    var j := Mod(h * i, p);
    var r := Mod(2 * (s2 - s1), p);
    var v := Mod(u1 * i, p);
    var t := 2 * w * h';
    ChordIdentities(x1, x2 - x1, y1, w);
    ChordHeight(u1, u2, x1, x2, w, p);
    ChordPowers(h, h', p);
    ChordSlope(s1, s2, y1, y2, x2 - x1, l, w, t, p);
    Reduced(2 * (s2 - s1), l * t, p);
    Combined(u1, x1 * (w * w), i, 4 * h' * h', p);
    Reduced(u1 * i, x1 * (t * t), p);
    var x3 := l * l - x1 - x2;
    ChordX(r, j, v, x1, x2, l, t, p);
    var px3 := Mod(r * r - j - 2 * v, p);
    Reduced(r * r - j - 2 * v, x3 * (t * t), p);
    Scaled(2, s1, y1 * (w * w * w), p);
    Combined(2 * s1, 2 * (y1 * (w * w * w)), j, h' * (4 * h' * h'), p);
    OtherPoint(l, x1, x3, y1, t, r, v, px3, 2 * s1 * j, p);
    var py3 := Mod(r * (v - px3) - 2 * s1 * j, p);
    Reduced(r * (v - px3) - 2 * s1 * j, (l * (x1 - x3) - y1) * (t * t * t), p);
    var pz3 := Mod(Mod((z1 + z2) * (z1 + z2) - zz1 - zz2, p) * h, p);
    ChordZ(z1, z2, zz1, zz2, h, h', p);
    assert 2 * (z1 * z2) * h' == t;
    Rescaled(px3, x3, py3, l * (x1 - x3) - y1, t, pz3, p);
    ChordInvertible(x2 - x1, w, t, pz3, p);
  }

  lemma ChordInvertible(dx: int, w: int, t: int, pz3: int, p: nat)
    requires IsInvertible(2 * dx, p) && IsInvertible(w, p) && t == dx * (2 * (w * w * w)) && Congruent(pz3, t, p)
    ensures IsInvertible(pz3, p)
  {
    hide Congruent, IsInvertible;
    InvertibleProduct(w, w, p);
    InvertibleProduct(w * w, w, p);
    InvertibleProduct(2 * dx, w * w * w, p);
    assert 2 * dx * (w * w * w) == t;
    InvertibleLike(pz3, t, p);
  }
}
