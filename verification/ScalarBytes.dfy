/**
 * Scalars between bytes and 21-bit limbs, the first and the last lines of ScMulAdd and ScReduce
 * in tendermint/ed25519/edwards25519/edwards25519.go.  Eight limbs are 21 bytes, so the source's
 * lines repeat every eight limbs; here they are written for one block of eight.
 */
module ScalarBytes {
  import opened Ints
  import opened ScalarSpec

  /** Limb i starts in byte Offset(i) at bit Shift(i), of which Radix(i) is the power of two. */
  function Offset(i: nat): (o: nat)
  {
    21 * (i / 8) + match i % 8 case 0 => 0 case 1 => 2 case 2 => 5 case 3 => 7 case 4 => 10 case 5 => 13 case 6 => 15 case _ => 18
  }

  function Radix(i: nat): (m: nat)
    ensures m > 0
  {
    match i % 8 case 0 => 1 case 1 => 32 case 2 => 4 case 3 => 128 case 4 => 16 case 5 => 2 case 6 => 64 case _ => 8
  }

  /** load3 or load4 at the limb's offset, shifted right by its bits: 0, 5, 2, 7, 4, 1, 6, 3. */
  function Shifted(b: bytes, i: nat): (x: nat)
    requires Offset(i) + 4 <= |b|
    ensures x < 0x1000_0000
  {
    var o := 21 * (i / 8);
    match i % 8
    case 0 => Load3(b, o)
    case 1 => Load4(b, o + 2) / 32
    case 2 => Load3(b, o + 5) / 4
    case 3 => Load4(b, o + 7) / 128
    case 4 => Load4(b, o + 10) / 16
    case 5 => Load3(b, o + 13) / 2
    case 6 => Load4(b, o + 15) / 64
    case _ => Load3(b, o + 18) / 8
  }

  /** The limbs of b, masked with 2^21 - 1 but for the last, which takes the four bytes that are left. */
  function Limbs(b: bytes, n: nat): (t: seq<int64>)
    requires 1 <= n && Offset(n - 1) + 4 <= |b|
    ensures |t| == n
  {
    seq(n, i requires 0 <= i < n =>
      OffsetMonotone(i, n - 1);
      (if i == n - 1 then Load4(b, Offset(i)) / Radix(i) else Shifted(b, i) % 0x20_0000) as int64)
  }

  lemma OffsetMonotone(i: nat, j: nat)
    requires i <= j
    ensures Offset(i) <= Offset(j)
  {
    assert i / 8 < j / 8 || (i / 8 == j / 8 && i % 8 <= j % 8);
  }

  /** Bytes o, o + 1, ... as a number, cut after m. */
  lemma CutLoad(x: nat, load: nat, rest: nat, big: nat, m: nat)
    requires x == load + (m * big) * rest && m > 0 && big % 0x20_0000 == 0
    ensures (x / m) % 0x20_0000 == (load / m) % 0x20_0000
  {
    assert (m * big) * rest == m * (big * rest);
    DivAddMultiple(load, m, big * rest);
    var k := big / 0x20_0000;
    assert big * rest == 0x20_0000 * (k * rest);
    DivAddMultiple(load / m, 0x20_0000, k * rest);
  }

  /** A masked limb is 21 bits of the number that starts at its offset. */
  lemma LimbIsCut(b: bytes, i: nat)
    requires Offset(i) + 4 <= |b|
    ensures (LEFrom(b, Offset(i)) / Radix(i)) % 0x20_0000 == Shifted(b, i) % 0x20_0000
  {
    var o := Offset(i);
    var x := LEFrom(b, o);
    LoadLE3(b, o);
    LoadLE4(b, o);
    var r := i % 8;
    if r == 0 { CutLoad(x, Load3(b, o), LEFrom(b, o + 3), 0x100_0000, 1); }
    else if r == 1 { CutLoad(x, Load4(b, o), LEFrom(b, o + 4), 0x800_0000, 32); }
    else if r == 2 { CutLoad(x, Load3(b, o), LEFrom(b, o + 3), 0x40_0000, 4); }
    else if r == 3 { CutLoad(x, Load4(b, o), LEFrom(b, o + 4), 0x200_0000, 128); }
    else if r == 4 { CutLoad(x, Load4(b, o), LEFrom(b, o + 4), 0x1000_0000, 16); }
    else if r == 5 { CutLoad(x, Load3(b, o), LEFrom(b, o + 3), 0x80_0000, 2); }
    else if r == 6 { CutLoad(x, Load4(b, o), LEFrom(b, o + 4), 0x400_0000, 64); }
    else { CutLoad(x, Load3(b, o), LEFrom(b, o + 3), 0x20_0000, 8); }
  }

  lemma DropBytes(b: bytes, o: nat)
    requires o + 3 <= |b|
    ensures LEFrom(b, o + 2) == LEFrom(b, o) / 0x1_0000
    ensures LEFrom(b, o + 3) == LEFrom(b, o) / 0x100_0000
  {
    LoadLE3(b, o);
    assert LEFrom(b, o + 1) == b[o + 1] + 256 * LEFrom(b, o + 2);
  }

  /** The next limb starts 21 bits on. */
  lemma NextLimb(b: bytes, i: nat)
    requires Offset(i) + 3 <= |b|
    ensures Offset(i + 1) <= |b|
    ensures LEFrom(b, Offset(i + 1)) / Radix(i + 1) == (LEFrom(b, Offset(i)) / Radix(i)) / 0x20_0000
  {
    var o := Offset(i);
    var x := LEFrom(b, o);
    DropBytes(b, o);
    DivDiv(x, Radix(i), 0x20_0000);
    assert (i + 1) / 8 == if i % 8 == 7 then i / 8 + 1 else i / 8;
    assert (i + 1) % 8 == if i % 8 == 7 then 0 else i % 8 + 1;
    DivDiv(x, 0x1_0000, Radix(i + 1));
    DivDiv(x, 0x100_0000, Radix(i + 1));
    assert Offset(i + 1) == o + 2 ==> Radix(i) * 0x20_0000 == 0x1_0000 * Radix(i + 1);
    assert Offset(i + 1) == o + 3 ==> Radix(i) * 0x20_0000 == 0x100_0000 * Radix(i + 1);
    assert Offset(i + 1) == o + 2 || Offset(i + 1) == o + 3;
  }

  lemma LimbAt(b: bytes, n: nat, i: nat)
    requires i < n - 1 && Offset(n - 1) + 4 <= |b|
    ensures Offset(i) + 4 <= |b| && I64(Limbs(b, n))[i] == Shifted(b, i) % 0x20_0000
  {
    OffsetMonotone(i, n - 1);
  }

  lemma PrependLimb(t: seq<int>, i: nat, y: nat)
    requires i < |t| && t[i] == y % 0x20_0000 && ValFrom(t, i + 1) == y / 0x20_0000
    ensures ValFrom(t, i) == y
  {
  }

  /** The limbs from i on are the number from the limb's first bit on. */
  lemma {:induction false} LimbsFrom(b: bytes, n: nat, i: nat)
    requires 1 <= n && i < n && Offset(n - 1) + 4 == |b|
    ensures ValFrom(I64(Limbs(b, n)), i) == LEFrom(b, Offset(i)) / Radix(i)
    decreases n - i
  {
    var t := I64(Limbs(b, n));
    if i == n - 1 {
      LoadLE4(b, Offset(i));
      assert ValFrom(t, n) == 0;
    } else {
      LimbAt(b, n, i);
      LimbsFrom(b, n, i + 1);
      NextLimb(b, i);
      LimbIsCut(b, i);
      PrependLimb(t, i, LEFrom(b, Offset(i)) / Radix(i));
    }
  }

  /** Reading a scalar's bytes as limbs keeps its value. */
  lemma LimbsValue(b: bytes, n: nat)
    requires (|b| == 32 && n == 12) || (|b| == 64 && n == 24)
    ensures Val(I64(Limbs(b, n))) == LE(b)
  {
    LimbsFrom(b, n, 0);
  }

  // ---------- writing

  /** Bytes o, ..., o + 9 hold the limbs j, ..., j + 3 but for the top four bits of the last. */
  predicate PackedFour(b: bytes, o: nat, t: seq<int>, j: nat)
  {
    && o + 10 <= |b| && j + 4 <= |t|
    && b[o] as int == 0 + 1 * (t[j] % 256)
    && b[o + 1] as int == t[j] / 0x100 % 256
    && b[o + 2] as int == t[j] / 0x1_0000 + 32 * (t[j + 1] % 8)
    && b[o + 3] as int == t[j + 1] / 0x8 % 256
    && b[o + 4] as int == t[j + 1] / 0x800 % 256
    && b[o + 5] as int == t[j + 1] / 0x8_0000 + 4 * (t[j + 2] % 64)
    && b[o + 6] as int == t[j + 2] / 0x40 % 256
    && b[o + 7] as int == t[j + 2] / 0x4000 + 128 * (t[j + 3] % 2)
    && b[o + 8] as int == t[j + 3] / 0x2 % 256
    && b[o + 9] as int == t[j + 3] / 0x200 % 256
  }

  /** Bytes 10, ..., 20 hold the rest of limb 3 and the limbs 4, ..., 7. */
  predicate PackedMiddle(b: bytes, t: seq<int>)
  {
    && 21 <= |b| && 8 <= |t|
    && b[10] as int == t[3] / 0x2_0000 + 16 * (t[4] % 16)
    && b[11] as int == t[4] / 0x10 % 256
    && b[12] as int == t[4] / 0x1000 % 256
    && b[13] as int == t[4] / 0x10_0000 + 2 * (t[5] % 128)
    && b[14] as int == t[5] / 0x80 % 256
    && b[15] as int == t[5] / 0x8000 + 64 * (t[6] % 4)
    && b[16] as int == t[6] / 0x4 % 256
    && b[17] as int == t[6] / 0x400 % 256
    && b[18] as int == t[6] / 0x4_0000 + 8 * (t[7] % 32)
    && b[19] as int == t[7] / 0x20 % 256
    && b[20] as int == t[7] / 0x2000 % 256
  }

  lemma TwoBytes(b: bytes, o: nat, top: int, c: int, x: int, a: int, y: int)
    requires o + 2 <= |b| && a > 0 && a * c == 256
    requires b[o] as int == top + c * (x % a) && b[o + 1] as int == x / a % 256
    requires LEFrom(b, o + 2) == x / (256 * a) + y
    ensures LEFrom(b, o) == top + c * (x + a * (256 * y))
  {
    MiddleByte(b, o + 1, x, a, y);
    JoinByte(b, o, top, c, x, a, 256 * y);
  }

  lemma ThreeBytes(b: bytes, o: nat, top: int, c: int, x: int, a: int, y: int)
    requires o + 3 <= |b| && a > 0 && a * c == 256
    requires b[o] as int == top + c * (x % a)
    requires b[o + 1] as int == x / a % 256 && b[o + 2] as int == x / (256 * a) % 256
    requires LEFrom(b, o + 3) == x / (0x1_0000 * a) + y
    ensures LEFrom(b, o) == top + c * (x + a * (0x1_0000 * y))
  {
    assert 256 * (256 * a) == 0x1_0000 * a;
    MiddleByte(b, o + 2, x, 256 * a, y);
    TwoBytes(b, o, top, c, x, a, 256 * y);
  }

  lemma FourValue(b: bytes, o: nat, t: seq<int>, j: nat)
    requires PackedFour(b, o, t, j)
    requires LEFrom(b, o + 10) == t[j + 3] / 0x2_0000 + 16 * ValFrom(t, j + 4)
    ensures LEFrom(b, o) == ValFrom(t, j)
  {
    ThreeBytes(b, o + 7, t[j + 2] / 0x4000, 128, t[j + 3], 2, 16 * ValFrom(t, j + 4));
    assert LEFrom(b, o + 7) == t[j + 2] / 0x4000 + 128 * ValFrom(t, j + 3);
    TwoBytes(b, o + 5, t[j + 1] / 0x8_0000, 4, t[j + 2], 64, 128 * ValFrom(t, j + 3));
    assert LEFrom(b, o + 5) == t[j + 1] / 0x8_0000 + 4 * ValFrom(t, j + 2);
    ThreeBytes(b, o + 2, t[j] / 0x1_0000, 32, t[j + 1], 8, 4 * ValFrom(t, j + 2));
    assert LEFrom(b, o + 2) == t[j] / 0x1_0000 + 32 * ValFrom(t, j + 1);
    TwoBytes(b, o, 0, 1, t[j], 256, 32 * ValFrom(t, j + 1));
  }

  lemma MiddleValue(b: bytes, t: seq<int>)
    requires PackedMiddle(b, t) && LEFrom(b, 21) == ValFrom(t, 8)
    requires 0 <= t[7] < 0x20_0000
    ensures LEFrom(b, 10) == t[3] / 0x2_0000 + 16 * ValFrom(t, 4)
  {
    ThreeBytes(b, 18, t[6] / 0x4_0000, 8, t[7], 32, ValFrom(t, 8));
    assert LEFrom(b, 18) == t[6] / 0x4_0000 + 8 * ValFrom(t, 7);
    ThreeBytes(b, 15, t[5] / 0x8000, 64, t[6], 4, 8 * ValFrom(t, 7));
    assert LEFrom(b, 15) == t[5] / 0x8000 + 64 * ValFrom(t, 6);
    TwoBytes(b, 13, t[4] / 0x10_0000, 2, t[5], 128, 64 * ValFrom(t, 6));
    assert LEFrom(b, 13) == t[4] / 0x10_0000 + 2 * ValFrom(t, 5);
    ThreeBytes(b, 10, t[3] / 0x2_0000, 16, t[4], 16, 2 * ValFrom(t, 5));
  }

  /** Limbs that 32 bytes can hold: the last may be one more than 21 bits. */
  predicate Packable(t: seq<int>)
  {
    && |t| == 24
    && (forall j :: 0 <= j < 11 ==> 0 <= t[j] < 0x20_0000)
    && 0 <= t[11] <= 0x20_0000
    && (forall j :: 12 <= j < 24 ==> t[j] == 0)
  }

  lemma PackedValue(b: bytes, t: seq<int>)
    requires |b| == 32 && Packable(t)
    requires PackedFour(b, 0, t, 0) && PackedMiddle(b, t) && PackedFour(b, 21, t, 8) && b[31] as int == t[11] / 0x2_0000 % 256
    ensures LE(b) == Val(t)
  {
    ValRange(t, 12, 12);
    TopByte(b, t[11]);
    FourValue(b, 21, t, 8);
    MiddleValue(b, t);
    FourValue(b, 0, t, 0);
  }

  lemma TopByte(b: bytes, x: int)
    requires |b| == 32 && 0 <= x <= 0x20_0000 && b[31] as int == x / 0x2_0000 % 256
    ensures LEFrom(b, 31) == x / 0x2_0000
  {
    assert LEFrom(b, 32) == 0;
  }

  /** s[o] = byte(top | x << n), s[o+1] = byte(x >> (8-n)), with m = 2^n and a = 2^(8-n). */
  method StoreTwo(s: array<byte>, o: nat, top: int, x: int, n: nat, m: int, a: int)
    requires s.Length == 32 && o + 2 <= 32
    requires m == Pow2(n) && a * m == 256 && 0 <= top < m && a > 0
    modifies s
    ensures s[o] as int == top + m * (x % a) && s[o + 1] as int == x / a % 256
    ensures forall j :: 0 <= j < 32 && (j < o || o + 2 <= j) ==> s[j] == old(s[j])
  {
    OrByteIsSum(top, x * m, x, m, n, a);
    s[o] := OrByte(ToByte(top), ToByte(x * m));
    s[o + 1] := ToByte(x / a);
  }

  /** The same and s[o+2] = byte(x >> (16-n)). */
  method StoreThree(s: array<byte>, o: nat, top: int, x: int, n: nat, m: int, a: int)
    requires s.Length == 32 && o + 3 <= 32
    requires m == Pow2(n) && a * m == 256 && 0 <= top < m && a > 0
    modifies s
    ensures s[o] as int == top + m * (x % a) && s[o + 1] as int == x / a % 256 && s[o + 2] as int == x / (256 * a) % 256
    ensures forall j :: 0 <= j < 32 && (j < o || o + 3 <= j) ==> s[j] == old(s[j])
  {
    StoreTwo(s, o, top, x, n, m, a);
    s[o + 2] := ToByte(x / (256 * a));
  }

  method StoreFour(s: array<byte>, o: nat, t: seq<int>, j: nat)
    requires s.Length == 32 && Packable(t) && o + 10 <= 32 && j + 4 <= 12
    modifies s
    ensures PackedFour(s[..], o, t, j)
    ensures forall i :: 0 <= i < 32 && (i < o || o + 10 <= i) ==> s[i] == old(s[i])
  {
    SmallPowers();
    StoreTwo(s, o, 0, t[j], 0, 1, 256);
    StoreThree(s, o + 2, t[j] / 0x1_0000, t[j + 1], 5, 32, 8);
    StoreTwo(s, o + 5, t[j + 1] / 0x8_0000, t[j + 2], 2, 4, 64);
    StoreThree(s, o + 7, t[j + 2] / 0x4000, t[j + 3], 7, 128, 2);
  }

  method StoreMiddle(s: array<byte>, t: seq<int>)
    requires s.Length == 32 && Packable(t)
    modifies s
    ensures PackedMiddle(s[..], t)
    ensures forall i :: 0 <= i < 32 && (i < 10 || 21 <= i) ==> s[i] == old(s[i])
  {
    SmallPowers();
    StoreThree(s, 10, t[3] / 0x2_0000, t[4], 4, 16, 16);
    StoreTwo(s, 13, t[4] / 0x10_0000, t[5], 1, 2, 128);
    StoreThree(s, 15, t[5] / 0x8000, t[6], 6, 64, 4);
    StoreThree(s, 18, t[6] / 0x4_0000, t[7], 3, 8, 32);
  }

  /** Writes reduced limbs as 32 bytes. */
  method StoreLimbs(s: array<byte>, t: seq<int>)
    requires s.Length == 32 && Packable(t)
    modifies s
    ensures LE(s[..]) == Val(t)
  {
    StoreFour(s, 0, t, 0);
    ghost var b0 := s[..];
    StoreMiddle(s, t);
    ghost var b1 := s[..];
    StoreFour(s, 21, t, 8);
    s[31] := ToByte(t[11] / 0x2_0000);
    PackedSame(b0, b1, s[..], t);
    PackedValue(s[..], t);
  }

  lemma PackedSame(b0: bytes, b1: bytes, b: bytes, t: seq<int>)
    requires |b0| == |b1| == |b| == 32
    requires PackedFour(b0, 0, t, 0) && PackedMiddle(b1, t)
    requires b0[..10] == b1[..10] && b1[..21] == b[..21]
    ensures PackedFour(b, 0, t, 0) && PackedMiddle(b, t)
  {
    assert forall i :: 0 <= i < 10 ==> b[i] == b[..21][i] == b1[i] == b1[..10][i] == b0[i];
    assert forall i :: 10 <= i < 21 ==> b[i] == b[..21][i] == b1[..21][i] == b1[i];
  }
}
