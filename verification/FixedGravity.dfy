/**
 Gravity computed from the 16-bit quaternion of a DMP packet, exactly as the C++ code does: 32-bit products and sums,
 divisions that truncate towards zero, and results stored in 16 bits.
 */
module FixedGravity {
  import opened Bytes
  import R = Quaternion

  type int16 = x: int | -0x8000 <= x < 0x8000

  datatype Fixed = Fixed(w: int16, x: int16, y: int16, z: int16)

  /** `((int16_t)hi << 8) | lo` */
  function Int16(hi: byte, lo: byte): (v: int16)
    ensures (v - (hi * 256 + lo)) % 0x1_0000 == 0
  {
    var u: int := hi as int * 256 + lo;
    if u < 0x8000 then u else u - 0x1_0000
  }

  /** `dmpGetQuaternion(int16_t*, ...)`: of each 32-bit component the upper two bytes. */
  function FromPacket(packet: seq<byte>): Fixed
    requires |packet| >= 14
  {
    Fixed(Int16(packet[0], packet[1]), Int16(packet[4], packet[5]), Int16(packet[8], packet[9]),
          Int16(packet[12], packet[13]))
  }

  /** The value of four bytes, most significant first, in two's complement. */
  function Int32(b0: byte, b1: byte, b2: byte, b3: byte): int {
    var u: int := ((b0 as int * 256 + b1) * 256 + b2) * 256 + b3;
    if b0 < 128 then u else u - 0x1_0000_0000
  }

  /** The upper two bytes are the 32-bit component divided by 2^16 and rounded down, for negative ones too. */
  lemma UpperHalf(b0: byte, b1: byte, b2: byte, b3: byte)
    ensures Int16(b0, b1) == Int32(b0, b1, b2, b3) / 0x1_0000
  {
    var low: int := b2 as int * 256 + b3;
    assert 0 <= low < 0x1_0000;
    assert Int32(b0, b1, b2, b3) == Int16(b0, b1) * 0x1_0000 + low;
  }

  /** The components are those of the packet at its bytes 0, 4, 8 and 12, without their lower halves. */
  lemma PacketComponents(packet: seq<byte>)
    requires |packet| >= 16
    ensures var q := FromPacket(packet);
      && q.w == Int32(packet[0], packet[1], packet[2], packet[3]) / 0x1_0000
      && q.x == Int32(packet[4], packet[5], packet[6], packet[7]) / 0x1_0000
      && q.y == Int32(packet[8], packet[9], packet[10], packet[11]) / 0x1_0000
      && q.z == Int32(packet[12], packet[13], packet[14], packet[15]) / 0x1_0000
  {
    UpperHalf(packet[0], packet[1], packet[2], packet[3]);
    UpperHalf(packet[4], packet[5], packet[6], packet[7]);
    UpperHalf(packet[8], packet[9], packet[10], packet[11]);
    UpperHalf(packet[12], packet[13], packet[14], packet[15]);
    hide Int32;
  }

  predicate Fits32(v: int) {
    -0x8000_0000 <= v < 0x8000_0000
  }

  lemma DivTimes(a: nat, b: nat)
    requires b > 0
    ensures 0 <= a / b * b <= a && a - a / b * b < b && -(a / b) * b == -(a / b * b)
  {
    assert a == a / b * b + a % b;
  }

  /** C's division by a positive number. */
  function TruncDiv(a: int, b: int): (q: int)
    requires b > 0
    ensures -b < a - q * b < b && (if a >= 0 then 0 <= q * b <= a else a <= q * b <= 0)
  {
    if a >= 0 then
      DivTimes(a, b);
      a / b
    else
      DivTimes(-a, b);
      -(-a / b)
  }

  function Across(q: Fixed): int {
    q.x * q.z - q.w * q.y
  }

  function Along(q: Fixed): int {
    q.w * q.x + q.y * q.z
  }

  function Upward(q: Fixed): int {
    q.w * q.w - q.x * q.x - q.y * q.y + q.z * q.z
  }

  function Norm2(q: Fixed): int {
    q.w * q.w + q.x * q.x + q.y * q.y + q.z * q.z
  }

  /** Every product and every partial sum, in the order of the source, is a 32-bit number. */
  predicate NoOverflow(q: Fixed) {
    && Fits32(q.x * q.z) && Fits32(q.w * q.y) && Fits32(Across(q))
    && Fits32(q.w * q.x) && Fits32(q.y * q.z) && Fits32(Along(q))
    && Fits32(q.w * q.w) && Fits32(q.x * q.x) && Fits32(q.w * q.w - q.x * q.x)
    && Fits32(q.y * q.y) && Fits32(q.w * q.w - q.x * q.x - q.y * q.y)
    && Fits32(q.z * q.z) && Fits32(Upward(q))
  }

  lemma ProductBound(a: int, b: int)
    requires -0x8000 <= a < 0x8000 && -0x8000 <= b < 0x8000
    ensures -0x8000 * 0x7fff <= a * b <= 0x4000_0000
    ensures a * b == 0x4000_0000 <==> a == b == -0x8000
  {
    hide *;
    if a >= 0 {
      if b >= 0 {
        MulBound(a, b, 0x7fff, 0x7fff);
      } else {
        MulBound(a, -b, 0x7fff, 0x8000);
        assert a * b == -(a * -b);
      }
    } else if b >= 0 {
      MulBound(-a, b, 0x8000, 0x7fff);
      assert a * b == -(-a * b);
    } else {
      MulBound(-a, -b, 0x8000, 0x8000);
      assert a * b == -a * -b;
      if a != -0x8000 {
        MulBound(-a, -b, 0x7fff, 0x8000);
      } else if b != -0x8000 {
        MulBound(-a, -b, 0x8000, 0x7fff);
      }
    }
  }

  lemma MulBound(a: nat, b: nat, c: nat, d: nat)
    requires a <= c && b <= d
    ensures 0 <= a * b <= c * d
  {
    assert a * b <= c * b <= c * d;
  }

  lemma SquareBound(a: int)
    requires -0x8000 <= a < 0x8000
    ensures 0 <= a * a <= 0x4000_0000 && (a * a == 0 <==> a == 0)
    ensures a * a == 0x4000_0000 <==> a == -0x8000
    ensures a != -0x8000 ==> a * a <= 0x7fff * 0x7fff
  {
    ProductBound(a, a);
    if a != -0x8000 {
      var m := if a >= 0 then a else -a;
      MulBound(m, m, 0x7fff, 0x7fff);
      assert a * a == m * m;
    }
  }

  /** The sums leave 32 bits only when their products are the extreme ones. */
  lemma SumsFit(wx: int, yz: int, xz: int, wy: int, ww: int, xx: int, yy: int, zz: int)
    requires -0x8000 * 0x7fff <= wx <= 0x4000_0000 && -0x8000 * 0x7fff <= yz <= 0x4000_0000
    requires -0x8000 * 0x7fff <= xz <= 0x4000_0000 && -0x8000 * 0x7fff <= wy <= 0x4000_0000
    requires 0 <= ww <= 0x4000_0000 && 0 <= xx <= 0x4000_0000 && 0 <= yy <= 0x4000_0000 && 0 <= zz <= 0x4000_0000
    ensures Fits32(xz - wy) && Fits32(ww - xx) && Fits32(ww - xx - yy)
    ensures !Fits32(wx + yz) <==> wx == yz == 0x4000_0000
    ensures !Fits32(ww - xx - yy + zz) <==> ww == zz == 0x4000_0000 && xx == yy == 0
  {
  }

  /** Main result on overflow, for all quaternions: the computation overflows in these two cases and in no other. */
  lemma {:induction false} NoOverflowExact(q: Fixed)
    ensures NoOverflow(q) <==>
      q != Fixed(-0x8000, -0x8000, -0x8000, -0x8000) && q != Fixed(-0x8000, 0, 0, -0x8000)
  {
    ProductBound(q.x, q.z);
    ProductBound(q.w, q.y);
    ProductBound(q.w, q.x);
    ProductBound(q.y, q.z);
    SquareBound(q.w);
    SquareBound(q.x);
    SquareBound(q.y);
    SquareBound(q.z);
    hide Norm2, Fits32;
    SumsFit(q.w * q.x, q.y * q.z, q.x * q.z, q.w * q.y, q.w * q.w, q.x * q.x, q.y * q.y, q.z * q.z);
    assert forall v :: -0x4000_0000 <= v <= 0x4000_0000 ==> Fits32(v) by {
      ProductsFit();
    }
  }

  lemma ProductsFit()
    ensures forall v :: -0x4000_0000 <= v <= 0x4000_0000 ==> Fits32(v)
  {
  }

  /** The three combinations are the sides of a box whose diagonal is the squared norm. */
  lemma {:induction false} Diagonal(q: Fixed)
    ensures 4 * (Across(q) * Across(q)) + 4 * (Along(q) * Along(q)) + Upward(q) * Upward(q) == Norm2(q) * Norm2(q)
  {
    var p, r := q.w * q.w + q.z * q.z, q.x * q.x + q.y * q.y;
    TwoSquares(q.w, q.x, q.y, q.z);
    assert Upward(q) == p - r && Norm2(q) == p + r;
    hide *;
    SumAndDifference(p, r);
  }

  lemma TwoSquares(w: int, x: int, y: int, z: int)
    ensures (x * z - w * y) * (x * z - w * y) + (w * x + y * z) * (w * x + y * z) == (w * w + z * z) * (x * x + y * y)
  {
  }

  lemma SumAndDifference(p: int, r: int)
    ensures (p + r) * (p + r) == 4 * (p * r) + (p - r) * (p - r)
  {
  }

  /** The stored result: `int16_t` keeps the low 16 bits. */
  function Store(v: int): int16 {
    (v + 0x8000) % 0x1_0000 - 0x8000
  }

  datatype Vector = Vector(x: int, y: int, z: int)

  /** The three quotients before they are stored. */
  function Quotients(q: Fixed): Vector {
    Vector(TruncDiv(Across(q), 16384), TruncDiv(Along(q), 16384), TruncDiv(Upward(q), 2 * 16384))
  }

  lemma SquareMono(a: int, b: int)
    requires -b <= a <= b || b <= a <= -b
    ensures a * a <= b * b
  {
    var m, n := if a >= 0 then a else -a, if b >= 0 then b else -b;
    MulBound(m, m, n, n);
    assert a * a == m * m && b * b == n * n;
  }

  lemma QuotientSquare(a: int, unit: int)
    requires unit > 0
    ensures unit * unit * (TruncDiv(a, unit) * TruncDiv(a, unit)) <= a * a
  {
    var q := TruncDiv(a, unit);
    SquareMono(q * unit, a);
    assert q * unit * (q * unit) == unit * unit * (q * q);
  }

  lemma Within(a: int, bound: int)
    requires bound >= 0 && a * a <= bound * bound
    ensures -bound <= a <= bound
  {
    var m := if a >= 0 then a else -a;
    assert m * m == a * a && (bound + 1) * (bound + 1) == bound * bound + 2 * bound + 1;
    if m > bound {
      MulBound(bound + 1, bound + 1, m, m);
    }
  }

  /**
   Main result on the length: a quaternion of squared norm at most 2^28 (16384 stands for one) is computed without
   overflow, the results fit the 16 bits they are stored in, and the vector is at most 8192, one g, long.
   */
  lemma {:induction false} LengthBound(q: Fixed)
    requires Norm2(q) <= 0x1000_0000
    ensures NoOverflow(q)
    ensures var g := Quotients(q);
      && g.x * g.x + g.y * g.y + g.z * g.z <= 8192 * 8192
      && -8192 <= g.x <= 8192 && -8192 <= g.y <= 8192 && -8192 <= g.z <= 8192
      && Store(g.x) == g.x && Store(g.y) == g.y && Store(g.z) == g.z
  {
    NormExcludes(q);
    NoOverflowExact(q);
    Diagonal(q);
    QuotientSquare(Across(q), 16384);
    QuotientSquare(Along(q), 16384);
    QuotientSquare(Upward(q), 2 * 16384);
    var g, a, b, c, n := Quotients(q), Across(q), Along(q), Upward(q), Norm2(q);
    assert g == Vector(TruncDiv(a, 16384), TruncDiv(b, 16384), TruncDiv(c, 2 * 16384));
    hide *;
    SquareMono(n, 0x1000_0000);
    assert g.x * g.x >= 0 && g.y * g.y >= 0 && g.z * g.z >= 0;
    SumOfQuotients(g.x * g.x, g.y * g.y, g.z * g.z, a * a, b * b, c * c, n * n);
    Within(g.x, 8192);
    Within(g.y, 8192);
    Within(g.z, 8192);
    StoredAsIs(g.x);
    StoredAsIs(g.y);
    StoredAsIs(g.z);
  }

  lemma StoredAsIs(v: int)
    requires -8192 <= v <= 8192
    ensures Store(v) == v
  {
  }

  lemma SumOfQuotients(x2: nat, y2: nat, z2: nat, a2: int, b2: int, c2: int, n2: int)
    requires 16384 * 16384 * x2 <= a2 && 16384 * 16384 * y2 <= b2 && 2 * 16384 * (2 * 16384) * z2 <= c2
    requires 4 * a2 + 4 * b2 + c2 == n2 <= 0x1000_0000 * 0x1000_0000
    ensures x2 + y2 + z2 <= 8192 * 8192
  {
  }

  lemma NormExcludes(q: Fixed)
    requires Norm2(q) <= 0x1000_0000
    ensures q != Fixed(-0x8000, -0x8000, -0x8000, -0x8000) && q != Fixed(-0x8000, 0, 0, -0x8000) && 0 <= Norm2(q)
  {
    SquareBound(q.w);
    SquareBound(q.x);
    SquareBound(q.y);
    SquareBound(q.z);
  }

  function Real(q: Fixed): R.Quaternion {
    R.Quaternion(q.w as real / 16384.0, q.x as real / 16384.0, q.y as real / 16384.0, q.z as real / 16384.0)
  }

  /** Closer than one unit. */
  predicate Near(a: int, b: real) {
    -1.0 < a as real - b < 1.0
  }

  lemma RealTimes(a: int, b: int)
    ensures (a * b) as real == a as real * b as real
  {
  }

  lemma DividedBack(a: real, u: real)
    requires u > 0.0
    ensures a / u * u == a
  {
  }

  lemma TimesNonNegative(d: real, u: real)
    requires d >= 0.0 && u >= 0.0
    ensures d * u >= 0.0
  {
  }

  lemma OneMore(x: real, y: real, u: real, xu: real, yu: real)
    requires u > 0.0 && x + 1.0 <= y && xu == x * u && yu == y * u
    ensures xu + u <= yu
  {
    TimesNonNegative(y - x - 1.0, u);
    assert (y - x - 1.0) * u == y * u - x * u - u;
  }

  lemma LessThanOne(x: real, y: real, u: real, xu: real, yu: real)
    requires u > 0.0 && xu == x * u && yu == y * u && -u < xu - yu < u
    ensures -1.0 < x - y < 1.0
  {
    if x >= y + 1.0 {
      OneMore(y, x, u, yu, xu);
    } else if y >= x + 1.0 {
      OneMore(x, y, u, xu, yu);
    }
  }

  lemma QuotientNear(a: int, unit: int)
    requires unit > 0
    ensures Near(TruncDiv(a, unit), a as real / unit as real)
  {
    hide TruncDiv;
    var q := TruncDiv(a, unit);
    RealTimes(q, unit);
    DividedBack(a as real, unit as real);
    assert -unit < a - q * unit < unit;
    LessThanOne(q as real, a as real / unit as real, unit as real, (q * unit) as real, a as real);
  }

  /** The integer result is the real one in units of 1/8192, each component less than one unit off. */
  lemma {:induction false} NearReal(q: Fixed)
    ensures var (g, r) := (Quotients(q), R.Gravity(Real(q)));
      Near(g.x, 8192.0 * r.x) && Near(g.y, 8192.0 * r.y) && Near(g.z, 8192.0 * r.z)
  {
    QuotientNear(Across(q), 16384);
    QuotientNear(Along(q), 16384);
    QuotientNear(Upward(q), 2 * 16384);
    GravityScaled(q);
    hide TruncDiv, Across, Along, Upward, Real, R.Gravity, Near;
  }

  lemma GravityScaled(q: Fixed)
    ensures var r := R.Gravity(Real(q));
      && 8192.0 * r.x == Across(q) as real / 16384.0
      && 8192.0 * r.y == Along(q) as real / 16384.0
      && 8192.0 * r.z == Upward(q) as real / 32768.0
  {
    RealProduct(q.x, q.z);
    RealProduct(q.w, q.y);
    RealProduct(q.w, q.x);
    RealProduct(q.y, q.z);
    RealProduct(q.w, q.w);
    RealProduct(q.x, q.x);
    RealProduct(q.y, q.y);
    RealProduct(q.z, q.z);
  }

  lemma RealProduct(a: int, b: int)
    ensures (a as real / 16384.0) * (b as real / 16384.0) == (a * b) as real / 268435456.0
  {
    var x, y := a as real, b as real;
    assert x * y == (a * b) as real;
  }

  /** `dmpGetGravity(int16_t *data, const uint8_t* packet)` */
  method DmpGetGravity(packet: seq<byte>, data: array<int16>)
    requires |packet| >= 14 && data.Length >= 3
    requires NoOverflow(FromPacket(packet))
    modifies data
    ensures var g := Quotients(FromPacket(packet));
      data[..] == [Store(g.x), Store(g.y), Store(g.z)] + old(data[3..])
  {
    var q := FromPacket(packet);
    data[0] := Store(TruncDiv(q.x * q.z - q.w * q.y, 16384));
    data[1] := Store(TruncDiv(q.w * q.x + q.y * q.z, 16384));
    data[2] := Store(TruncDiv(q.w * q.w - q.x * q.x - q.y * q.y + q.z * q.z, 2 * 16384));
  }
}
