/** Go's fixed-width integers, and byte strings read as little-endian numbers. */
module Ints {

  newtype int8 = x: int | -0x80 <= x < 0x80
  newtype int32 = x: int | -0x8000_0000 <= x < 0x8000_0000
  newtype int64 = x: int | -0x8000_0000_0000_0000 <= x < 0x8000_0000_0000_0000

  newtype uint64 = x: int | 0 <= x < 0x1_0000_0000_0000_0000

  type byte = x: int | 0 <= x < 256
  type bytes = seq<byte>

  function I32(t: seq<int32>): (r: seq<int>)
    ensures |r| == |t| && forall i :: 0 <= i < |t| ==> r[i] == t[i] as int
  {
    seq(|t|, i requires 0 <= i < |t| => t[i] as int)
  }

  function I64(t: seq<int64>): (r: seq<int>)
    ensures |r| == |t| && forall i :: 0 <= i < |t| ==> r[i] == t[i] as int
  {
    seq(|t|, i requires 0 <= i < |t| => t[i] as int)
  }

  // ---------- division

  lemma AtLeast(m: int, d: int)
    requires m > 0 && d >= 1
    ensures m * d >= m
  {
  }

  lemma DivUnique(x: int, m: int, q: int, r: int)
    requires m > 0 && x == m * q + r && 0 <= r < m
    ensures x / m == q && x % m == r
  {
    var d := x / m - q;
    assert x == m * (x / m) + x % m;
    assert m * d == r - x % m;
    if d >= 1 { AtLeast(m, d); }
    if d <= -1 { AtLeast(m, -d); }
  }

  /** Dividing twice is dividing by the product, also for negative x. */
  lemma DivDiv(x: int, m: int, n: int)
    requires m > 0 && n > 0
    ensures m * n > 0 && x / (m * n) == (x / m) / n
  {
    var y := x / m;
    var r := (y % n) * m + x % m;
    assert x == m * (n * (y / n) + y % n) + x % m;
    assert m * (n * (y / n)) == (m * n) * (y / n);
    assert (y % n) * m <= (n - 1) * m;
    DivUnique(x, m * n, y / n, r);
  }

  lemma DivAddMultiple(x: int, m: int, k: int)
    requires m > 0
    ensures (x + m * k) / m == x / m + k && (x + m * k) % m == x % m
  {
    assert x + m * k == m * (x / m + k) + x % m;
    DivUnique(x + m * k, m, x / m + k, x % m);
  }

  // ---------- bytes

  /** The bytes of b from index i on, least significant first. */
  function LEFrom(b: bytes, i: nat): (n: nat)
    requires i <= |b|
    decreases |b| - i
  {
    if i == |b| then 0 else b[i] + 256 * LEFrom(b, i + 1)
  }

  function LE(b: bytes): (n: nat)
  {
    LEFrom(b, 0)
  }

  /** Bitwise or. */
  function Or(x: nat, y: nat): (z: nat)
  {
    if x == 0 && y == 0 then 0
    else (if x % 2 == 1 || y % 2 == 1 then 1 else 0) + 2 * Or(x / 2, y / 2)
  }

  function Pow2(n: nat): (p: nat)
    ensures p > 0
  {
    if n == 0 then 1 else 2 * Pow2(n - 1)
  }

  lemma {:induction false} OrZero(y: nat)
    ensures Or(0, y) == y
  {
    if y != 0 { OrZero(y / 2); }
  }

  /** Or-ing a number below 2^k with a multiple of 2^k adds them. */
  lemma {:induction false} OrDisjoint(x: nat, y: nat, k: nat)
    requires x < Pow2(k)
    ensures Or(x, Pow2(k) * y) == x + Pow2(k) * y
  {
    if k == 0 {
      OrZero(y);
    } else {
      var p := Pow2(k - 1);
      assert Pow2(k) * y == 2 * (p * y);
      OrDisjoint(x / 2, y, k - 1);
    }
  }

  lemma OrShift(x: nat, y: nat, k: nat, m: nat)
    requires m == Pow2(k) && x < m
    ensures Or(x, m * y) == x + m * y
  {
    OrDisjoint(x, y, k);
  }

  lemma SmallPowers()
    ensures Pow2(1) == 2 && Pow2(2) == 4 && Pow2(3) == 8 && Pow2(4) == 16 && Pow2(5) == 32 && Pow2(6) == 64 && Pow2(7) == 128
    ensures Pow2(8) == 0x100 && Pow2(16) == 0x1_0000 && Pow2(24) == 0x100_0000
  {
  }

  function Load3(b: bytes, o: nat): (r: nat)
    requires o + 3 <= |b|
    ensures r < 0x100_0000
  {
    b[o] as int + 0x100 * b[o + 1] as int + 0x1_0000 * b[o + 2] as int
  }

  function Load4(b: bytes, o: nat): (r: nat)
    requires o + 4 <= |b|
    ensures r < 0x1_0000_0000
  {
    Load3(b, o) + 0x100_0000 * b[o + 3] as int
  }

  /** load3 and load4 or their shifted bytes together, which adds them. */
  method LoadThree(b: bytes, o: nat) returns (r: int64)
    requires o + 3 <= |b|
    ensures r as int == Load3(b, o)
  {
    SmallPowers();
    OrShift(b[o], b[o + 1], 8, 0x100);
    OrShift(b[o] as int + 0x100 * b[o + 1] as int, b[o + 2], 16, 0x1_0000);
    r := Or(Or(b[o], 0x100 * b[o + 1] as int), 0x1_0000 * b[o + 2] as int) as int64;
  }

  method LoadFour(b: bytes, o: nat) returns (r: int64)
    requires o + 4 <= |b|
    ensures r as int == Load4(b, o)
  {
    var low := LoadThree(b, o);
    SmallPowers();
    OrShift(low as int, b[o + 3], 24, 0x100_0000);
    r := Or(low as int, 0x100_0000 * b[o + 3] as int) as int64;
  }

  lemma LoadLE3(b: bytes, o: nat)
    requires o + 3 <= |b|
    ensures LEFrom(b, o) == Load3(b, o) + 0x100_0000 * LEFrom(b, o + 3)
  {
    assert LEFrom(b, o + 1) == b[o + 1] + 0x100 * (b[o + 2] + 0x100 * LEFrom(b, o + 3));
  }

  lemma LoadLE4(b: bytes, o: nat)
    requires o + 4 <= |b|
    ensures LEFrom(b, o) == Load4(b, o) + 0x1_0000_0000 * LEFrom(b, o + 4)
  {
    LoadLE3(b, o);
  }

  // ---------- writing limbs as bytes, from the most significant byte down

  /** A byte cut whole out of x: it precedes x / (256 a) and what follows x, y. */
  lemma MiddleByte(b: bytes, o: nat, x: int, a: int, y: int)
    requires o < |b| && a > 0
    requires b[o] as int == x / a % 256
    requires LEFrom(b, o + 1) == x / (256 * a) + y
    ensures LEFrom(b, o) == x / a + 256 * y
  {
    DivDiv(x, a, 256);
  }

  /** A byte made of what is left of one limb and the low bits of the next one, x. */
  lemma JoinByte(b: bytes, o: nat, top: int, c: int, x: int, a: int, y: int)
    requires o < |b| && a > 0 && a * c == 256
    requires b[o] as int == top + c * (x % a)
    requires LEFrom(b, o + 1) == x / a + y
    ensures LEFrom(b, o) == top + c * (x + a * y)
  {
    var q := x / a + y;
    assert x + a * y == a * q + x % a;
    assert c * (a * q + x % a) == (a * c) * q + c * (x % a);
  }

  // ---------- bytes cut out of two limbs

  /** byte(x) */
  function ToByte(x: int): (b: byte)
  {
    x % 256
  }

  /** The low byte of an or is the or of the low bytes. */
  function OrByte(top: byte, low: byte): (b: byte)
  {
    Or(top, low) % 256
  }

  lemma ShiftedByte(x: int, m: int, a: int)
    requires m > 0 && a > 0 && a * m == 256
    ensures ToByte(x * m) == m * (x % a) < 256
  {
    assert x * m == (a * (x / a) + x % a) * m == (a * m) * (x / a) + m * (x % a);
    assert m * (x % a) <= m * (a - 1);
    DivUnique(x * m, 256, x / a, m * (x % a));
  }

  lemma JoinRange(top: int, m: int, a: int, r: int)
    requires a * m == 256 && 0 <= top < m && 0 <= r < a
    ensures 0 <= m * r && top + m * r < 256 && m <= 256
  {
    AtLeast(m, a);
    assert m * r <= m * (a - 1);
    assert m * (a - 1) == a * m - m;
  }

  lemma OrSum(top: byte, low: byte, m: nat, n: nat, r: nat)
    requires m == Pow2(n) && top as int < m && low as int == m * r && top as int + low as int < 256
    ensures OrByte(top, low) as int == top as int + low as int
  {
    OrShift(top, r, n, m);
  }

  /** The two parts of byte(top | x << n) do not overlap; low is x << n, or as much of it as a word holds. */
  lemma OrByteIsSum(top: int, low: int, x: int, m: int, n: nat, a: int)
    requires m == Pow2(n) && a * m == 256 && 0 <= top < m && a > 0 && ToByte(low) == ToByte(x * m)
    ensures OrByte(ToByte(top), ToByte(low)) as int == top + m * (x % a)
  {
    JoinRange(top, m, a, x % a);
    ShiftedByte(x, m, a);
    OrSum(ToByte(top), ToByte(low), m, n, x % a);
  }

  function Pow256(n: nat): (p: nat)
    ensures p > 0
  {
    if n == 0 then 1 else 256 * Pow256(n - 1)
  }

  lemma TopStep(x: byte, v: int, t: int, p: int)
    requires v < t * p
    ensures x as int + 256 * v < t * (256 * p)
  {
    assert t * (256 * p) == 256 * (t * p);
  }

  /** A number is below its top byte plus one, shifted into place. */
  lemma {:induction false} LETop(b: bytes, i: nat)
    requires i < |b|
    ensures LEFrom(b, i) < (b[|b| - 1] as int + 1) * Pow256(|b| - 1 - i)
    decreases |b| - i
  {
    if i + 1 < |b| {
      LETop(b, i + 1);
      TopStep(b[i], LEFrom(b, i + 1), b[|b| - 1] as int + 1, Pow256(|b| - 2 - i));
    }
  }

  lemma Regroup(d: int, p: int)
    ensures 256 * (d * p) == d * (256 * p)
  {
  }

  /** Changing the last byte by d changes the number by d, shifted into place. */
  lemma {:induction false} LELast(b: bytes, c: bytes, d: int, i: nat)
    requires i < |b| == |c|
    requires forall j :: 0 <= j < |b| - 1 ==> b[j] == c[j]
    requires b[|b| - 1] as int == c[|c| - 1] as int + d
    ensures LEFrom(b, i) == LEFrom(c, i) + d * Pow256(|b| - 1 - i)
    decreases |b| - i
  {
    if i + 1 < |b| {
      LELast(b, c, d, i + 1);
      Regroup(d, Pow256(|b| - 2 - i));
    }
  }

  lemma Pow256Top()
    ensures Pow256(31) == 0x100_0000_0000_0000_0000_0000_0000_0000_0000_0000_0000_0000_0000_0000_0000_0000
  {
    assert Pow256(8) == 0x1_0000_0000_0000_0000;
    assert Pow256(16) == 0x1_0000_0000_0000_0000_0000_0000_0000_0000;
    assert Pow256(24) == 0x1_0000_0000_0000_0000_0000_0000_0000_0000_0000_0000_0000_0000;
  }
}
