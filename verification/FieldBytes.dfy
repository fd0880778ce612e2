/** Field elements read from and written to 32 little-endian bytes. */
module FieldBytes {
  import opened Ints
  import opened FieldSpec
  import opened FieldCombine

  // ---------- FeFromBytes

  const TWO255: int := 0x8000_0000_0000_0000_0000_0000_0000_0000_0000_0000_0000_0000_0000_0000_0000_0000

  /** The ten loads of FeFromBytes, shifted to the weights of their limbs; the mask drops bit 255. */
  function Loads(b: bytes): (t: seq<int>)
    requires |b| == 32
  {
    [Load4(b, 0), Load3(b, 4) * 64, Load3(b, 7) * 32, Load3(b, 10) * 8, Load3(b, 13) * 4,
     Load4(b, 16), Load3(b, 20) * 128, Load3(b, 23) * 32, Load3(b, 26) * 16, Load3(b, 29) % 0x80_0000 * 4]
  }

  lemma LoadsHigh(b: bytes)
    requires |b| == 32 && b[31] < 128
    ensures ValueFrom(Loads(b), 5) == LEFrom(b, 16)
  {
    var t := Loads(b);
    LoadLE3(b, 29);
    assert Load3(b, 29) < 0x80_0000;
    assert t[9] == 4 * Load3(b, 29) && ValueFrom(t, 10) == 0 == LEFrom(b, 32);
    assert ValueFrom(t, 9) == 4 * LEFrom(b, 29);
    LoadLE3(b, 26);
    assert ValueFrom(t, 8) == 16 * LEFrom(b, 26);
    LoadLE3(b, 23);
    assert ValueFrom(t, 7) == 32 * LEFrom(b, 23);
    LoadLE3(b, 20);
    assert ValueFrom(t, 6) == 128 * LEFrom(b, 20);
    LoadLE4(b, 16);
  }

  lemma LoadsValue(b: bytes)
    requires |b| == 32 && b[31] < 128
    ensures Value(Loads(b)) == LE(b)
  {
    var t := Loads(b);
    LoadsHigh(b);
    LoadLE3(b, 13);
    assert ValueFrom(t, 4) == 4 * LEFrom(b, 13);
    LoadLE3(b, 10);
    assert ValueFrom(t, 3) == 8 * LEFrom(b, 10);
    LoadLE3(b, 7);
    assert ValueFrom(t, 2) == 32 * LEFrom(b, 7);
    LoadLE3(b, 4);
    assert ValueFrom(t, 1) == 64 * LEFrom(b, 4);
    LoadLE4(b, 0);
  }

  lemma ClearTopBit(b: bytes)
    requires |b| == 32
    ensures LE(b[31 := b[31] % 128]) == LE(b) % TWO255
  {
    var c := b[31 := b[31] % 128];
    LELast(b, c, b[31] as int / 128 * 128, 0);
    LETop(c, 0);
    Pow256Top();
    DivUnique(LE(b), TWO255, b[31] as int / 128, LE(c));
  }

  lemma LoadsAnyValue(b: bytes)
    requires |b| == 32
    ensures Value(Loads(b)) == LE(b) % TWO255
  {
    var c := b[31 := b[31] % 128];
    ClearTopBit(b);
    LoadsValue(c);
    assert Loads(c) == Loads(b);
  }

  method FeFromBytes(dst: array<int32>, src: bytes)
    requires dst.Length == 10 && |src| == 32
    modifies dst
    ensures Bounded(dst[..], 101, 0x200_0000)
    ensures Residue(Fe(dst[..])) == Residue(LE(src) % TWO255)
  {
    var t := LoadAll(src);
    LoadsAnyValue(src);
    FeCombine(dst, t);
  }

  method LoadAll(b: bytes) returns (t: seq<int64>)
    requires |b| == 32
    ensures I64(t) == Loads(b)
  {
    var h0 := LoadFour(b, 0);
    var h1 := LoadThree(b, 4);
    var h2 := LoadThree(b, 7);
    var h3 := LoadThree(b, 10);
    var h4 := LoadThree(b, 13);
    var h5 := LoadFour(b, 16);
    var h6 := LoadThree(b, 20);
    var h7 := LoadThree(b, 23);
    var h8 := LoadThree(b, 26);
    var h9 := LoadThree(b, 29);
    t := [h0, h1 * 64, h2 * 32, h3 * 8, h4 * 4, h5, h6 * 128, h7 * 32, h8 * 16, h9 % 0x80_0000 * 4];
  }

  // ---------- FeToBytes

  /** Radix(i) * Radix(i + 1) * ... * Radix(9) */
  function Scale(i: nat): (s: int)
    requires i <= 10
    ensures s > 0
    decreases 10 - i
  {
    if i == 10 then 1 else Radix(i) * Scale(i + 1)
  }

  lemma ScaleAll()
    ensures Scale(0) == TWO255
  {
    assert Scale(6) == 0x40_0000_0000_0000_0000_0000_0000;
    assert Scale(3) == 0x4_0000_0000_0000_0000_0000_0000_0000_0000_0000_0000_0000;
  }

  /** The lines q = (h[i] + q) >> n, from limb i on. */
  function QuotientFrom(t: seq<int>, i: nat, q: int): (r: int)
    requires |t| == 10 && i <= 10
    decreases |t| - i
  {
    if i == 10 then q else QuotientFrom(t, i + 1, (t[i] + q) / Radix(i))
  }

  /** Shifting limb by limb is one shift of the whole number. */
  lemma {:induction false} NestedFloor(t: seq<int>, i: nat, q: int)
    requires |t| == 10 && i <= 10
    ensures QuotientFrom(t, i, q) == (ValueFrom(t, i) + q) / Scale(i)
    decreases 10 - i
  {
    if i < 10 {
      var v := ValueFrom(t, i + 1);
      NestedFloor(t, i + 1, (t[i] + q) / Radix(i));
      DivAddMultiple(t[i] + q, Radix(i), v);
      DivDiv(t[i] + q + Radix(i) * v, Radix(i), Scale(i + 1));
    }
  }

  /** The bounds FeToBytes asks for: 1.1 * 2^25 on the even limbs, 1.1 * 2^24 on the odd ones. */
  predicate Limbs(t: seq<int>)
  {
    && |t| == 10
    && forall i :: 0 <= i < 10 ==> -11 * Radix(i) <= 20 * t[i] <= 11 * Radix(i)
  }

  /** Everything below limb 9 is smaller than one unit of limb 9. */
  lemma LowLimbs(t: seq<int>)
    requires Limbs(t)
    ensures -0x40_0000_0000_0000_0000_0000_0000_0000_0000_0000_0000_0000_0000_0000_0000 * (1 - t[9]) < Value(t)
              < 0x40_0000_0000_0000_0000_0000_0000_0000_0000_0000_0000_0000_0000_0000_0000 * (1 + t[9])
  {
    ValueUnfold(t);
    assert forall i :: 0 <= i < 10 ==> -0x240_0000 <= t[i] <= 0x240_0000;
  }

  /** Both floor(v / p) and floor((v + q) / 2^255) are decided by the sign of v. */
  lemma SignDecides(v: int, t9: int, q: int, s: int)
    requires -0x40_0000_0000_0000_0000_0000_0000_0000_0000_0000_0000_0000_0000_0000_0000 * (1 - t9) < v
               < 0x40_0000_0000_0000_0000_0000_0000_0000_0000_0000_0000_0000_0000_0000_0000 * (1 + t9)
    requires -0x120_0000 <= t9 <= 0x120_0000 && q == (19 * t9 + 0x100_0000) / 0x200_0000 && s == TWO255
    ensures Quotient(v) == (v + q) / s == (if v >= 0 then 0 else -1)
  {
    if v >= 0 {
      assert t9 >= 0;
      assert v + q < TWO255;
      DivUnique(v + q, s, 0, v + q);
    } else {
      assert t9 <= 0;
      assert -TWO255 <= v + q < 0;
      DivUnique(v + q, s, -1, v + q + TWO255);
    }
  }

  /** The estimate q is exactly floor(h / p). */
  lemma QuotientIsFloor(t: seq<int>)
    requires Limbs(t)
    ensures QuotientFrom(t, 0, (19 * t[9] + 0x100_0000) / 0x200_0000) == Quotient(Value(t))
    ensures -1 <= Quotient(Value(t)) <= 0
  {
    var q := (19 * t[9] + 0x100_0000) / 0x200_0000;
    LowLimbs(t);
    assert -0x120_0000 <= t[9] <= 0x120_0000;
    ScaleAll();
    SignDecides(Value(t), t[9], q, Scale(0));
    NestedFloor(t, 0, q);
  }

  lemma BoundedLimbs(t: seq<int32>)
    requires Bounded(t, 110, 0x200_0000)
    ensures Limbs(I32(t))
  {
    forall i | 0 <= i < 10
      ensures -11 * Radix(i) <= 20 * t[i] as int <= 11 * Radix(i)
    {
      BoundedAt(t, 110, 0x200_0000, i);
    }
  }

  /** q = (19*h[9] + (1 << 24)) >> 25, then q = (h[i] + q) >> n for i = 0, ..., 9. */
  method EstimateQuotient(h: array<int32>) returns (q: int32)
    requires h.Length == 10 && Limbs(I32(h[..]))
    ensures q as int == Quotient(Fe(h[..])) && -1 <= q <= 0
  {
    ghost var t := I32(h[..]);
    assert forall i :: 0 <= i < 10 ==> h[i] as int == t[i];
    q := (19 * h[9] + 0x100_0000) / 0x200_0000;
    QuotientIsFloor(t);
    ghost var floor := Quotient(Value(t));
    for i := 0 to 10
      invariant QuotientFrom(t, i, q as int) == floor
      invariant -16 <= q <= 16
    {
      q := (h[i] + q) / Radix(i) as int32;
    }
  }

  /** Every limb holds exactly its 26 or 25 bits. */
  predicate Canonical(t: seq<int>)
  {
    |t| == 10 && forall i :: 0 <= i < 10 ==> 0 <= t[i] < Radix(i)
  }

  lemma {:induction false} CanonicalRange(t: seq<int>, i: nat)
    requires Canonical(t) && i <= 10
    ensures 0 <= ValueFrom(t, i) < Scale(i)
    decreases 10 - i
  {
    if i < 10 {
      CanonicalRange(t, i + 1);
      var r, s, v := Radix(i), Scale(i + 1), ValueFrom(t, i + 1);
      assert r * v <= r * (s - 1);
    }
  }

  /** carry[i] = h[i] >> n; h[i+1] += carry[i]; h[i] -= carry[i] << n. */
  method FloorCarry(h: array<int32>, i: nat)
    requires h.Length == 10 && i < 9
    requires -0x4000_0000 <= h[i] <= 0x4000_0000 && -0x4000_0000 <= h[i + 1] <= 0x4000_0000
    modifies h
    ensures Fe(h[..]) == old(Fe(h[..]))
    ensures 0 <= h[i] as int < Radix(i)
    ensures -0x20 <= h[i + 1] as int - old(h[i + 1]) as int <= 0x20
    ensures forall j :: 0 <= j < 10 && j != i && j != i + 1 ==> h[j] == old(h[j])
  {
    ghost var t := I32(h[..]);
    var radix := Radix(i) as int32;
    var c := h[i] / radix;
    h[i + 1] := h[i + 1] + c;
    h[i] := h[i] - c * radix;
    ValueCarry(t, I32(h[..]), i, 0, c as int);
  }

  lemma TopLimb(t: seq<int>, u: seq<int>, c: int)
    requires |t| == 10 && u == t[9 := t[9] - 0x200_0000 * c]
    ensures Value(u) == Value(t) - TWO255 * c
  {
    ValueUnfold(t);
    ValueUnfold(u);
  }

  /** The carry c is the quotient: otherwise u would not be in range. */
  lemma CarryIsQuotient(u: int, v: int, q: int, r: int, c: int)
    requires v == P * q + r && 0 <= r < P && u == v + 19 * q - TWO255 * c && 0 <= u < TWO255
    ensures u == r
  {
    assert u == TWO255 * (q - c) + r;
  }

  /** The carry out of limb 9 is q, so dropping it leaves h - p * q. */
  lemma DropTopCarry(t: seq<int>, u: seq<int>, c: int, v: int)
    requires |t| == 10 && u == t[9 := t[9] - 0x200_0000 * c]
    requires Value(t) == v + 19 * Quotient(v)
    requires Canonical(u)
    ensures Value(u) == Residue(v)
  {
    TopLimb(t, u, c);
    CanonicalRange(u, 0);
    ScaleAll();
    CarryIsQuotient(Value(u), v, Quotient(v), Residue(v), c);
  }

  method ReduceLimbs(h: array<int32>, q: int32)
    requires h.Length == 10 && Limbs(I32(h[..]))
    requires q as int == Quotient(Fe(h[..])) && -1 <= q <= 0
    modifies h
    ensures Canonical(I32(h[..]))
    ensures Fe(h[..]) == Residue(old(Fe(h[..])))
  {
    ghost var v := Fe(h[..]);
    assert forall i :: 0 <= i < 10 ==> h[i] as int == I32(h[..])[i];
    ghost var t := I32(h[..]);
    h[0] := h[0] + 19 * q;
    AddLow(t, I32(h[..]), 19 * q as int);
    for i := 0 to 9
      invariant Fe(h[..]) == v + 19 * Quotient(v)
      invariant forall j :: 0 <= j < i ==> 0 <= h[j] as int < Radix(j)
      invariant forall j :: i <= j < 10 ==> -0x3000_0000 <= h[j] <= 0x3000_0000
      invariant forall j :: i < j < 10 ==> -0x2800_0000 <= h[j] <= 0x2800_0000
    {
      FloorCarry(h, i);
    }
    ghost var u := I32(h[..]);
    var c := h[9] / 0x200_0000;
    h[9] := h[9] - c * 0x200_0000;
    assert I32(h[..]) == u[9 := u[9] - 0x200_0000 * c as int];
    DropTopCarry(u, I32(h[..]), c as int, v);
  }

  lemma AddLow(t: seq<int>, u: seq<int>, d: int)
    requires |t| == |u| == 10 && u[0] == t[0] + d
    requires forall j :: 1 <= j < 10 ==> u[j] == t[j]
    ensures Value(u) == Value(t) + d
  {
    ValueTail(t, u, 1);
  }

  // ---------- the 32 bytes

  /** x << n in 32-bit arithmetic, which may wrap around; m = 2^n. */
  function Shl32(x: int, m: int): (r: int)
    ensures -0x8000_0000 <= r < 0x8000_0000
  {
    (x * m + 0x8000_0000) % 0x1_0000_0000 - 0x8000_0000
  }

  /** FeToBytes shifts limbs left past bit 31; wrapping around does not reach the byte it keeps. */
  lemma Shl32Byte(x: int, m: int)
    ensures ToByte(Shl32(x, m)) == ToByte(x * m)
  {
    var y := x * m;
    var k := (y + 0x8000_0000) / 0x1_0000_0000;
    assert Shl32(x, m) == y - 0x1_0000_0000 * k;
    DivAddMultiple(y, 256, -0x100_0000 * k);
  }

  /** Limb x at byte o: a byte shared with the limb below, two whole bytes, and the rest above. */
  lemma LimbBytes(b: bytes, o: nat, top: int, c: int, x: int, a: int, y: int)
    requires o + 3 <= |b| && a > 0 && a * c == 256
    requires b[o] as int == top + c * (x % a)
    requires b[o + 1] as int == x / a % 256 && b[o + 2] as int == x / (256 * a) % 256
    requires LEFrom(b, o + 3) == x / (0x1_0000 * a) + y
    ensures LEFrom(b, o) == top + c * (x + a * (0x1_0000 * y))
  {
    assert 256 * (256 * a) == 0x1_0000 * a;
    MiddleByte(b, o + 2, x, 256 * a, y);
    MiddleByte(b, o + 1, x, a, 256 * y);
    JoinByte(b, o, top, c, x, a, 0x1_0000 * y);
  }

  /** Bytes 16 to 31 hold the canonical limbs 5 to 9, bit by bit. */
  predicate PackedHigh(b: bytes, t: seq<int>)
  {
    && |b| == 32 && |t| == 10
    && b[16] as int == t[5] % 0x100
    && b[17] as int == t[5] / 0x100 % 0x100
    && b[18] as int == t[5] / 0x1_0000 % 0x100
    && b[19] as int == t[5] / 0x100_0000 + 2 * (t[6] % 128)
    && b[20] as int == t[6] / 0x80 % 0x100
    && b[21] as int == t[6] / 0x8000 % 0x100
    && b[22] as int == t[6] / 0x80_0000 + 8 * (t[7] % 32)
    && b[23] as int == t[7] / 0x20 % 0x100
    && b[24] as int == t[7] / 0x2000 % 0x100
    && b[25] as int == t[7] / 0x20_0000 + 16 * (t[8] % 16)
    && b[26] as int == t[8] / 0x10 % 0x100
    && b[27] as int == t[8] / 0x1000 % 0x100
    && b[28] as int == t[8] / 0x10_0000 + 64 * (t[9] % 4)
    && b[29] as int == t[9] / 0x4 % 0x100
    && b[30] as int == t[9] / 0x400 % 0x100
    && b[31] as int == t[9] / 0x4_0000 % 0x100
  }

  /** Bytes 0 to 15 hold the canonical limbs 0 to 4. */
  predicate PackedLow(b: bytes, t: seq<int>)
  {
    && |b| == 32 && |t| == 10
    && b[0] as int == t[0] % 0x100
    && b[1] as int == t[0] / 0x100 % 0x100
    && b[2] as int == t[0] / 0x1_0000 % 0x100
    && b[3] as int == t[0] / 0x100_0000 + 4 * (t[1] % 64)
    && b[4] as int == t[1] / 0x40 % 0x100
    && b[5] as int == t[1] / 0x4000 % 0x100
    && b[6] as int == t[1] / 0x40_0000 + 8 * (t[2] % 32)
    && b[7] as int == t[2] / 0x20 % 0x100
    && b[8] as int == t[2] / 0x2000 % 0x100
    && b[9] as int == t[2] / 0x20_0000 + 32 * (t[3] % 8)
    && b[10] as int == t[3] / 0x8 % 0x100
    && b[11] as int == t[3] / 0x800 % 0x100
    && b[12] as int == t[3] / 0x8_0000 + 64 * (t[4] % 4)
    && b[13] as int == t[4] / 0x4 % 0x100
    && b[14] as int == t[4] / 0x400 % 0x100
    && b[15] as int == t[4] / 0x4_0000 % 0x100
  }

  lemma PackedHighValue(b: bytes, t: seq<int>)
    requires Canonical(t) && PackedHigh(b, t)
    ensures LEFrom(b, 16) == ValueFrom(t, 5)
  {
    assert LEFrom(b, 32) == 0 == ValueFrom(t, 10) && LEFrom(b, 31) == t[9] / 0x4_0000;
    LimbBytes(b, 28, t[8] / 0x10_0000, 64, t[9], 4, 0x80 * ValueFrom(t, 10));
    assert LEFrom(b, 28) == t[8] / 0x10_0000 + 64 * ValueFrom(t, 9);
    LimbBytes(b, 25, t[7] / 0x20_0000, 16, t[8], 16, 0x40 * ValueFrom(t, 9));
    assert LEFrom(b, 25) == t[7] / 0x20_0000 + 16 * ValueFrom(t, 8);
    LimbBytes(b, 22, t[6] / 0x80_0000, 8, t[7], 32, 0x10 * ValueFrom(t, 8));
    assert LEFrom(b, 22) == t[6] / 0x80_0000 + 8 * ValueFrom(t, 7);
    LimbBytes(b, 19, t[5] / 0x100_0000, 2, t[6], 128, 0x8 * ValueFrom(t, 7));
    assert LEFrom(b, 19) == t[5] / 0x100_0000 + 2 * ValueFrom(t, 6);
    LimbBytes(b, 16, 0, 1, t[5], 256, 0x2 * ValueFrom(t, 6));
    assert LEFrom(b, 16) == ValueFrom(t, 5);
  }

  lemma PackedByte15(b: bytes, t: seq<int>)
    requires Canonical(t) && PackedLow(b, t) && LEFrom(b, 16) == ValueFrom(t, 5)
    ensures LEFrom(b, 15) == t[4] / 0x4_0000 + 0x100 * ValueFrom(t, 5)
  {
  }

  lemma PackedLimbs34(b: bytes, t: seq<int>)
    requires PackedLow(b, t) && LEFrom(b, 15) == t[4] / 0x4_0000 + 0x100 * ValueFrom(t, 5)
    ensures LEFrom(b, 9) == t[2] / 0x20_0000 + 32 * ValueFrom(t, 3)
  {
    LimbBytes(b, 12, t[3] / 0x8_0000, 64, t[4], 4, 0x100 * ValueFrom(t, 5));
    assert LEFrom(b, 12) == t[3] / 0x8_0000 + 64 * ValueFrom(t, 4);
    LimbBytes(b, 9, t[2] / 0x20_0000, 32, t[3], 8, 0x40 * ValueFrom(t, 4));
  }

  lemma PackedLimbs012(b: bytes, t: seq<int>)
    requires PackedLow(b, t) && LEFrom(b, 9) == t[2] / 0x20_0000 + 32 * ValueFrom(t, 3)
    ensures LE(b) == Value(t)
  {
    LimbBytes(b, 6, t[1] / 0x40_0000, 8, t[2], 32, 0x20 * ValueFrom(t, 3));
    assert LEFrom(b, 6) == t[1] / 0x40_0000 + 8 * ValueFrom(t, 2);
    LimbBytes(b, 3, t[0] / 0x100_0000, 4, t[1], 64, 0x8 * ValueFrom(t, 2));
    assert LEFrom(b, 3) == t[0] / 0x100_0000 + 4 * ValueFrom(t, 1);
    LimbBytes(b, 0, 0, 1, t[0], 256, 0x4 * ValueFrom(t, 1));
  }

  lemma PackedValue(b: bytes, t: seq<int>)
    requires Canonical(t) && PackedLow(b, t) && LEFrom(b, 16) == ValueFrom(t, 5)
    ensures LE(b) == Value(t)
  {
    PackedByte15(b, t);
    PackedLimbs34(b, t);
    PackedLimbs012(b, t);
  }

  /**
   * Three of the lines s[o] = byte(top | x << n), s[o+1] = byte(x >> (8-n)), s[o+2] = byte(x >> (16-n)),
   * where top is what is left of the limb below; m = 2^n and a = 2^(8-n).
   */
  method StoreLimb(s: array<byte>, o: nat, top: int, x: int, n: nat, m: int, a: int)
    requires s.Length == 32 && o + 3 <= 32
    requires m == Pow2(n) && a * m == 256 && 0 <= top < m && a > 0
    modifies s
    ensures s[o] as int == top + m * (x % a)
    ensures s[o + 1] as int == x / a % 256 && s[o + 2] as int == x / (256 * a) % 256
    ensures forall j :: 0 <= j < 32 && (j < o || o + 3 <= j) ==> s[j] == old(s[j])
  {
    Shl32Byte(x, m);
    OrByteIsSum(top, Shl32(x, m), x, m, n, a);
    s[o] := OrByte(ToByte(top), ToByte(Shl32(x, m)));
    s[o + 1] := ToByte(x / a);
    s[o + 2] := ToByte(x / (256 * a));
  }

  method StoreLow(s: array<byte>, t: seq<int>)
    requires s.Length == 32 && Canonical(t)
    modifies s
    ensures PackedLow(s[..], t)
    ensures forall j :: 0 <= j < 32 && (j < 0 || 16 <= j) ==> s[j] == old(s[j])
  {
    SmallPowers();
    StoreLimb(s, 0, 0, t[0], 0, 1, 256);
    StoreLimb(s, 3, t[0] / 0x100_0000, t[1], 2, 4, 64);
    StoreLimb(s, 6, t[1] / 0x40_0000, t[2], 3, 8, 32);
    StoreLimb(s, 9, t[2] / 0x20_0000, t[3], 5, 32, 8);
    StoreLimb(s, 12, t[3] / 0x8_0000, t[4], 6, 64, 4);
    s[15] := ToByte(t[4] / 0x4_0000);
  }

  method StoreHigh(s: array<byte>, t: seq<int>)
    requires s.Length == 32 && Canonical(t)
    modifies s
    ensures PackedHigh(s[..], t)
    ensures forall j :: 0 <= j < 32 && (j < 16 || 32 <= j) ==> s[j] == old(s[j])
  {
    SmallPowers();
    StoreLimb(s, 16, 0, t[5], 0, 1, 256);
    StoreLimb(s, 19, t[5] / 0x100_0000, t[6], 1, 2, 128);
    StoreLimb(s, 22, t[6] / 0x80_0000, t[7], 3, 8, 32);
    StoreLimb(s, 25, t[7] / 0x20_0000, t[8], 4, 16, 16);
    StoreLimb(s, 28, t[8] / 0x10_0000, t[9], 6, 64, 4);
    s[31] := ToByte(t[9] / 0x4_0000);
  }

  /** s = h mod p, little-endian; h is carried in place. */
  method FeToBytes(s: array<byte>, h: array<int32>)
    requires s.Length == 32 && h.Length == 10
    requires Bounded(h[..], 110, 0x200_0000)
    modifies s, h
    ensures LE(s[..]) == Residue(old(Fe(h[..])))
  {
    BoundedLimbs(h[..]);
    var q := EstimateQuotient(h);
    ReduceLimbs(h, q);
    var t := I32(h[..]);
    StoreLow(s, t);
    ghost var low := s[..];
    StoreHigh(s, t);
    PackedLowSame(low, s[..], t);
    PackedHighValue(s[..], t);
    PackedValue(s[..], t);
  }

  lemma PackedLowSame(b: bytes, c: bytes, t: seq<int>)
    requires PackedLow(b, t) && |c| == 32
    requires forall j :: 0 <= j < 16 ==> c[j] == b[j]
    ensures PackedLow(c, t)
  {
  }

  /** FeToBytes after FeFromBytes gives back the input without its top bit, reduced mod p. */
  method ReadThenWrite(src: bytes) returns (s: array<byte>)
    requires |src| == 32
    ensures fresh(s) && s.Length == 32 && LE(s[..]) == Residue(LE(src) % TWO255)
  {
    var h := new int32[10];
    FeFromBytes(h, src);
    s := new byte[32];
    FeToBytes(s, h);
  }
}
