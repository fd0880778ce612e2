/**
 * The two scalar recodings of tendermint/ed25519/edwards25519/edwards25519.go: slide, 256 signed
 * digits of which any five neighbours hold at most one that is not 0, and the 64 digits between
 * -8 and 8 at the start of GeScalarMultBase.
 */
module Recode {
  import opened Ints

  // ---------- digits and their value

  function I8(t: seq<int8>): (r: seq<int>)
    ensures |r| == |t| && forall i :: 0 <= i < |t| ==> r[i] == t[i] as int
  {
    seq(|t|, i requires 0 <= i < |t| => t[i] as int)
  }

  /** r[i] + 2 r[i+1] + 4 r[i+2] + ... */
  function SumFrom(r: seq<int>, i: nat): (v: int)
    requires i <= |r|
    decreases |r| - i
  {
    if i == |r| then 0 else r[i] + 2 * SumFrom(r, i + 1)
  }

  /** x << k */
  function Shift(x: int, k: nat): (y: int)
    decreases k, x
  {
    if k == 0 then x else 2 * Shift(x, k - 1)
  }

  lemma {:induction false} SumTail(r: seq<int>, s: seq<int>, i: nat)
    requires i <= |r| == |s| && forall j :: i <= j < |r| ==> r[j] == s[j]
    ensures SumFrom(r, i) == SumFrom(s, i)
    decreases |r| - i
  {
    if i < |r| { SumTail(r, s, i + 1); }
  }

  /** Changing digit k by d changes the value by d << (k - i). */
  lemma {:induction false} SumChange(r: seq<int>, s: seq<int>, i: nat, k: nat, d: int)
    requires i <= k < |r| == |s| && s[k] == r[k] + d
    requires forall j :: i <= j < |r| && j != k ==> r[j] == s[j]
    ensures SumFrom(s, i) == SumFrom(r, i) + Shift(d, k - i)
    decreases k - i
  {
    if i == k { SumTail(r, s, k + 1); } else { SumChange(r, s, i + 1, k, d); }
  }

  lemma {:induction false} ZeroSum(r: seq<int>, i: nat)
    requires i <= |r| && forall j :: i <= j < |r| ==> r[j] == 0
    ensures SumFrom(r, i) == 0
    decreases |r| - i
  {
    if i < |r| { ZeroSum(r, i + 1); }
  }

  // ---------- what slide computes

  /** The digit of a number: 0 if it is even, else its representative mod 32 in (-16, 16). */
  function Digit(m: nat): (d: int)
    ensures (m - d) % 2 == 0 && m - d >= 0 && -15 <= d <= 15
  {
    if m % 2 == 0 then 0 else if m % 32 < 16 then m % 32 else m % 32 - 32
  }

  /** What is left of n after its first i digits. */
  function Rest(n: nat, i: nat): (m: nat)
    decreases i, n
  {
    if i == 0 then n else var m := Rest(n, i - 1); (m - Digit(m)) / 2
  }

  /** An odd number's digit leaves a multiple of 32. */
  lemma OddDigit(m: nat)
    requires Digit(m) != 0
    ensures m % 2 == 1 && Digit(m) % 2 == 1 && (m - Digit(m)) % 32 == 0
  {
  }

  lemma NextRest(n: nat, i: nat)
    ensures Rest(n, i) == Digit(Rest(n, i)) + 2 * Rest(n, i + 1)
  {
  }

  lemma {:induction false} ZerosFollow(n: nat, i: nat, c: nat, q: nat)
    requires Rest(n, i) == Shift(q, c)
    ensures forall j :: i <= j < i + c ==> Digit(Rest(n, j)) == 0
    decreases c
  {
    if c > 0 {
      EvenRest(n, i, Shift(q, c - 1));
      ZerosFollow(n, i + 1, c - 1, q);
    }
  }

  lemma AfterOdd(m: nat, rest: nat)
    requires m == Digit(m) + 2 * rest && Digit(m) != 0
    ensures Digit(m) % 2 == 1 && rest == Shift(rest / 16, 4)
  {
    OddDigit(m);
    var q := rest / 16;
    assert Shift(q, 4) == 2 * Shift(q, 3) == 4 * Shift(q, 2) == 8 * Shift(q, 1) == 16 * q;
  }

  /** A digit that is not 0 is odd and is followed by four zeros. */
  lemma Spacing(n: nat, i: nat)
    requires Digit(Rest(n, i)) != 0
    ensures Digit(Rest(n, i)) % 2 == 1
    ensures forall j :: i < j <= i + 4 ==> Digit(Rest(n, j)) == 0
  {
    NextRest(n, i);
    AfterOdd(Rest(n, i), Rest(n, i + 1));
    ZerosFollow(n, i + 1, 4, Rest(n, i + 1) / 16);
  }

  /** At most 2^k stays at most 2^k: a digit rounds the number by less than 16 to a multiple of 32. */
  lemma HalfRest(m: nat, k: nat)
    requires m <= Pow2(k) && k >= 1
    ensures (m - Digit(m)) / 2 <= Pow2(k - 1)
  {
    if k <= 4 {
      SmallPowers();
      assert k == 1 || k == 2 || k == 3 || k == 4;
    } else if m % 2 == 1 {
      var p := Pow2(k - 5);
      assert Pow2(k) == 2 * Pow2(k - 1) == 4 * Pow2(k - 2) == 8 * Pow2(k - 3) == 16 * Pow2(k - 4) == 32 * p;
      OddDigit(m);
    }
  }

  lemma {:induction false} RestBound(n: nat, k: nat, i: nat)
    requires n <= Pow2(k) && i <= k
    ensures Rest(n, i) <= Pow2(k - i)
  {
    if i > 0 {
      RestBound(n, k, i - 1);
      HalfRest(Rest(n, i - 1), k - i + 1);
    }
  }

  /** Numbers below 2^255 leave nothing after 256 digits; others leave at most 1. */
  lemma NothingLeft(n: nat)
    requires n < Pow2(256)
    ensures Rest(n, 256) <= 1
    ensures n < Pow2(255) ==> Rest(n, 256) == 0
  {
    RestBound(n, 256, 256);
    if n < Pow2(255) {
      RestBound(n, 255, 255);
      assert Rest(n, 255) <= Pow2(0) == 1;
      assert Rest(n, 256) == (Rest(n, 255) - Digit(Rest(n, 255))) / 2;
    }
  }

  /** Digits that halve m[0] to m[1], to m[2], and so on spell m[0] but for what is left. */
  lemma {:induction false} HalvesValue(m: seq<int>, r: seq<int>, i: nat)
    requires |m| == |r| + 1 && i <= |r| && forall j :: 0 <= j < |r| ==> m[j] == r[j] + 2 * m[j + 1]
    ensures SumFrom(r, i) + Shift(m[|r|], |r| - i) == m[i]
    decreases |r| - i
  {
    if i < |r| { HalvesValue(m, r, i + 1); }
  }

  /** The digits of n are n, but for what is left after them. */
  lemma DigitsValue(n: nat, r: seq<int>)
    requires forall j :: 0 <= j < |r| ==> r[j] == Digit(Rest(n, j))
    ensures SumFrom(r, 0) + Shift(Rest(n, |r|), |r|) == n
  {
    var m := seq(|r| + 1, j requires 0 <= j => Rest(n, j));
    forall j | 0 <= j < |r| ensures m[j] == r[j] + 2 * m[j + 1] { NextRest(n, j); }
    HalvesValue(m, r, 0);
  }

  // ---------- slide

  lemma HalfOf(x: nat, y: nat, z: nat, p: nat)
    requires p > 0 && x / p == y + 2 * z
    ensures (x / p) % 2 == y % 2 && (x / p) / 2 == x / (2 * p)
  {
    DivDiv(x, p, 2);
  }

  /** The bits of a byte after the first k. */
  lemma ByteBit(x: nat, b: byte, rest: nat, k: nat)
    requires x == b as int + 256 * rest && k < 8
    ensures (x / Pow2(k)) % 2 == (b as int / Pow2(k)) % 2
    ensures (x / Pow2(k)) / 2 == if k == 7 then rest else x / Pow2(k + 1)
  {
    SmallPowers();
    if k == 0 { HalfOf(x, b, 128 * rest, 1); }
    else if k == 1 { HalfOf(x, b as int / 2, 64 * rest, 2); }
    else if k == 2 { HalfOf(x, b as int / 4, 32 * rest, 4); }
    else if k == 3 { HalfOf(x, b as int / 8, 16 * rest, 8); }
    else if k == 4 { HalfOf(x, b as int / 16, 8 * rest, 16); }
    else if k == 5 { HalfOf(x, b as int / 32, 4 * rest, 32); }
    else if k == 6 { HalfOf(x, b as int / 64, 2 * rest, 64); }
    else { HalfOf(x, b as int / 128, rest, 128); }
  }

  function BitOf(a: bytes, i: nat): (b: int)
    requires i < 8 * |a|
    ensures b == 0 || b == 1
  {
    (a[i / 8] as int / Pow2(i % 8)) % 2
  }

  lemma {:induction false} BitsValue(a: bytes, r: seq<int>, i: nat)
    requires |r| == 8 * |a| && i <= |r| && forall j :: 0 <= j < |r| ==> r[j] == BitOf(a, j)
    ensures SumFrom(r, i) == LEFrom(a, i / 8) / Pow2(i % 8)
    decreases |r| - i
  {
    if i < |r| {
      BitsValue(a, r, i + 1);
      ByteBit(LEFrom(a, i / 8), a[i / 8], LEFrom(a, i / 8 + 1), i % 8);
      assert (i + 1) / 8 == if i % 8 == 7 then i / 8 + 1 else i / 8;
    }
  }

  predicate Bits(r: seq<int8>, i: nat)
  {
    forall j :: i <= j < |r| ==> r[j] == 0 || r[j] == 1
  }

  lemma {:induction false} ShiftNeg(x: int, k: nat)
    ensures Shift(-x, k) == -Shift(x, k)
    decreases k
  {
    if k > 0 { ShiftNeg(x, k - 1); }
  }

  /** Adds 1 at bit k0 and carries it up; the carry out of the last bit is lost. */
  method AddBit(r: array<int8>, k0: nat) returns (ghost lost: bool)
    requires r.Length == 256 && k0 < 256 && Bits(r[..], k0)
    modifies r
    ensures Bits(r[..], k0) && forall j :: 0 <= j < k0 ==> r[j] == old(r[j])
    ensures SumFrom(I8(r[..]), k0) + (if lost then Shift(1, 256 - k0) else 0) == old(SumFrom(I8(r[..]), k0)) + 1
    ensures lost ==> forall j :: k0 <= j < 256 ==> r[j] == 0
    ensures old(r[k0]) == 1 ==> r[k0] == 0
  {
    assert forall j :: 0 <= j < 256 ==> r[j] == r[..][j];
    var k := k0;
    while k < 256
      invariant k0 <= k <= 256
      invariant forall j :: 0 <= j < 256 && (j < k0 || k <= j) ==> r[j] == old(r[j])
      invariant forall j :: k0 <= j < k ==> r[j] == 0
      invariant SumFrom(I8(r[..]), k0) + Shift(1, k - k0) == old(SumFrom(I8(r[..]), k0)) + 1
    {
      ghost var t := I8(r[..]);
      if r[k] == 0 {
        r[k] := 1;
        SumChange(t, I8(r[..]), k0, k, 1);
        return false;
      }
      r[k] := 0;
      SumChange(t, I8(r[..]), k0, k, -1);
      ShiftNeg(1, k - k0);
      k := k + 1;
    }
    lost := true;
  }

  /** The digit at i before bit i + b is looked at. */
  predicate Partial(d: int8, b: nat)
  {
    d as int % 2 == 1 && if b <= 4 then 1 <= d as int < Pow2(b) else -15 <= d <= 15
  }

  lemma {:induction false} SumLift(r: seq<int>, s: seq<int>, i: nat, k: nat, d: int)
    requires i <= k <= |r| == |s| && SumFrom(s, k) == SumFrom(r, k) + d
    requires forall j :: i <= j < k ==> r[j] == s[j]
    ensures SumFrom(s, i) == SumFrom(r, i) + Shift(d, k - i)
    decreases k - i
  {
    if i < k { SumLift(r, s, i + 1, k, d); }
  }

  lemma {:induction false} ShiftSub(x: int, y: int, k: nat)
    ensures Shift(x - y, k) == Shift(x, k) - Shift(y, k)
    decreases k
  {
    if k > 0 { ShiftSub(x, y, k - 1); }
  }

  lemma {:induction false} ShiftShift(x: int, a: nat, b: nat)
    ensures Shift(Shift(x, a), b) == Shift(x, a + b)
    decreases b
  {
    if b > 0 { ShiftShift(x, a, b - 1); }
  }

  lemma {:induction false} ShiftOne(k: nat)
    ensures Shift(1, k) == Pow2(k)
  {
    if k > 0 { ShiftOne(k - 1); }
  }

  /** Adding 1 at bit i + b, seen from digit i. */
  lemma AddedBit(r: seq<int>, s: seq<int>, i: nat, b: nat, lost: bool)
    requires |r| == |s| == 256 && i + b < 256 && forall j :: i <= j < i + b ==> r[j] == s[j]
    requires SumFrom(s, i + b) + (if lost then Shift(1, 256 - i - b) else 0) == SumFrom(r, i + b) + 1
    ensures SumFrom(s, i) + (if lost then Shift(1, 256 - i) else 0) == SumFrom(r, i) + Pow2(b)
  {
    var over := if lost then Shift(1, 256 - i - b) else 0;
    SumLift(r, s, i, i + b, 1 - over);
    ShiftSub(1, over, b);
    ShiftOne(b);
    if lost { ShiftShift(1, 256 - i - b, b); } else { ShiftSub(0, 0, b); }
  }

  /** r[i] += r[i+b] << b; r[i+b] = 0 */
  method TakeBit(r: array<int8>, i: nat, b: nat)
    requires r.Length == 256 && 1 <= b <= 6 && i + b < 256 && r[i + b] == 1 && Partial(r[i], b)
    requires r[i] as int + Pow2(b) <= 15
    modifies r
    ensures b <= 3 && Partial(r[i], b + 1) && r[i + b] == 0
    ensures SumFrom(I8(r[..]), i) == old(SumFrom(I8(r[..]), i))
    ensures forall j :: 0 <= j < 256 && j != i && j != i + b ==> r[j] == old(r[j])
  {
    SmallPowers();
    ghost var t := I8(r[..]);
    r[i] := r[i] + Pow2(b) as int8;
    ghost var u := I8(r[..]);
    SumChange(t, u, i, i, Pow2(b));
    r[i + b] := 0;
    SumChange(u, I8(r[..]), i, i + b, -1);
    ShiftNeg(1, b);
    ShiftOne(b);
  }

  /** Only the fifth bit is ever borrowed for. */
  lemma BorrowAtFour(d: int8, b: nat)
    requires 1 <= b <= 6 && Partial(d, b) && d as int + Pow2(b) > 15 && d as int - Pow2(b) >= -15
    ensures b == 4 && Pow2(b) == 16 && Partial(d - 16, 5)
  {
    SmallPowers();
  }

  /** r[i] -= r[i+b] << b, and 1 is added at bit i + b. */
  method BorrowBit(r: array<int8>, i: nat, b: nat) returns (ghost lost: bool)
    requires r.Length == 256 && 1 <= b <= 6 && i + b < 256 && r[i + b] == 1 && Partial(r[i], b) && Bits(r[..], i + 1)
    requires r[i] as int + Pow2(b) > 15 && r[i] as int - Pow2(b) >= -15
    modifies r
    ensures b == 4 && Partial(r[i], b + 1) && r[i + b] == 0 && Bits(r[..], i + 1)
    ensures SumFrom(I8(r[..]), i) + (if lost then Shift(1, 256 - i) else 0) == old(SumFrom(I8(r[..]), i))
    ensures lost ==> forall j :: i + b <= j < 256 ==> r[j] == 0
    ensures forall j :: 0 <= j < i + b && j != i ==> r[j] == old(r[j])
  {
    BorrowAtFour(r[i], b);
    ghost var t := I8(r[..]);
    r[i] := r[i] - Pow2(b) as int8;
    ghost var u := I8(r[..]);
    SumChange(t, u, i, i, -16);
    assert forall j :: 0 <= j < 256 ==> r[j] == r[..][j];
    lost := AddBit(r, i + b);
    AddedBit(u, I8(r[..]), i, b, lost);
    assert forall j :: 0 <= j < 256 ==> r[j] == r[..][j];
  }

  /** The body of slide's inner loop: bit i + b is taken, borrowed for, or too far up. */
  method SlideBit(r: array<int8>, i: nat, b: nat) returns (stop: bool, ghost lost: bool)
    requires r.Length == 256 && 1 <= b <= 6 && i + b < 256 && Partial(r[i], b) && Bits(r[..], i + 1)
    modifies r
    ensures (stop ==> b >= 5) && Partial(r[i], if stop then b else b + 1) && Bits(r[..], i + 1) && (b <= 4 ==> r[i + b] == 0)
    ensures SumFrom(I8(r[..]), i) + (if lost then Shift(1, 256 - i) else 0) == old(SumFrom(I8(r[..]), i))
    ensures lost ==> b == 4 && forall j :: i + b <= j < 256 ==> r[j] == 0
    ensures b >= 5 ==> r[..] == old(r[..])
    ensures forall j :: 0 <= j < i + b && j != i ==> r[j] == old(r[j])
  {
    SmallPowers();
    assert forall j :: 0 <= j < 256 ==> r[j] == r[..][j];
    stop, lost := false, false;
    if r[i + b] != 0 {
      if r[i] as int + Pow2(b) <= 15 {
        TakeBit(r, i, b);
      } else if r[i] as int - Pow2(b) >= -15 {
        lost := BorrowBit(r, i, b);
      } else {
        stop := true;
      }
    }
  }

  /** The body of slide's outer loop for a digit that is 1. */
  method SlideDigit(r: array<int8>, i: nat) returns (ghost lost: bool)
    requires r.Length == 256 && i < 256 && r[i] == 1 && Bits(r[..], i + 1)
    modifies r
    ensures r[i] as int % 2 == 1 && -15 <= r[i] <= 15 && Bits(r[..], i + 1)
    ensures SumFrom(I8(r[..]), i) + (if lost then Shift(1, 256 - i) else 0) == old(SumFrom(I8(r[..]), i))
    ensures lost ==> i + 4 < 256 && forall j :: i < j < 256 ==> r[j] == 0
    ensures forall j :: i < j <= i + 4 && j < 256 ==> r[j] == 0
    ensures forall j :: 0 <= j < i ==> r[j] == old(r[j])
  {
    SmallPowers();
    lost := false;
    var b := 1;
    while b <= 6 && i + b < 256
      invariant 1 <= b <= 7 && Partial(r[i], b) && Bits(r[..], i + 1)
      invariant SumFrom(I8(r[..]), i) + (if lost then Shift(1, 256 - i) else 0) == old(SumFrom(I8(r[..]), i))
      invariant lost ==> b >= 5 && i + 4 < 256 && forall j :: i < j < 256 ==> r[j] == 0
      invariant forall j :: i < j < i + b && j <= i + 4 && j < 256 ==> r[j] == 0
      invariant forall j :: 0 <= j < i ==> r[j] == old(r[j])
    {
      assert forall j :: 0 <= j < 256 ==> r[j] == r[..][j];
      var stop;
      ghost var over;
      stop, over := SlideBit(r, i, b);
      lost := lost || over;
      if stop { break; }
      b := b + 1;
    }
  }

  lemma DigitUnique(m: nat, d: int, q: int)
    requires m == d + 32 * q && d % 2 == 1 && -15 <= d <= 15
    ensures Digit(m) == d
  {
    if d > 0 { DivUnique(m, 32, q, d); } else { DivUnique(m, 32, q - 1, d + 32); }
  }

  /** r[i] = bit i of a */
  method ToBits(r: array<int8>, a: array<byte>)
    requires r.Length == 256 && a.Length == 32
    modifies r
    ensures Bits(r[..], 0) && SumFrom(I8(r[..]), 0) == LE(a[..])
  {
    var i := 0;
    while i < 256
      invariant 0 <= i <= 256
      invariant forall j :: 0 <= j < i ==> r[j] as int == BitOf(a[..], j)
    {
      r[i] := BitOf(a[..], i) as int8;
      i := i + 1;
    }
    BitsValue(a[..], I8(r[..]), 0);
  }

  /** The numbers that are left before each digit, and the digits. */
  ghost predicate Halving(rest: seq<nat>, digit: seq<int>)
  {
    && |rest| == 257 && |digit| == 256
    && (forall j :: 0 <= j < 256 ==> digit[j] == Digit(rest[j]))
    && (forall j :: 0 <= j < 256 ==> rest[j] == digit[j] + 2 * rest[j + 1])
  }

  ghost function Rests(n: nat): (rest: seq<nat>)
  {
    seq(257, j requires 0 <= j => Rest(n, j))
  }

  ghost function DigitsOf(n: nat): (digit: seq<int>)
  {
    seq(256, j requires 0 <= j => Digit(Rest(n, j)))
  }

  lemma HalvingOf(n: nat)
    ensures Halving(Rests(n), DigitsOf(n))
  {
    forall j | 0 <= j < 256 ensures Rests(n)[j] == DigitsOf(n)[j] + 2 * Rests(n)[j + 1] { NextRest(n, j); }
  }

  /** From the bits of a number to its digits. */
  method ToDigits(r: array<int8>, ghost rest: seq<nat>, ghost digit: seq<int>)
    requires r.Length == 256 && Bits(r[..], 0) && Halving(rest, digit) && SumFrom(I8(r[..]), 0) == rest[0]
    modifies r
    ensures I8(r[..]) == digit
  {
    ghost var lost := false;
    var i := 0;
    while i < 256
      invariant 0 <= i <= 256 && Bits(r[..], i)
      invariant forall j :: 0 <= j < i ==> r[j] as int == digit[j]
      invariant SumFrom(I8(r[..]), i) + (if lost then Shift(1, 256 - i) else 0) == rest[i]
      invariant lost ==> forall j :: i <= j < 256 ==> r[j] == 0
    {
      assert forall j :: 0 <= j < 256 ==> r[j] == r[..][j];
      if r[i] != 0 {
        lost := SlideDigit(r, i);
        FinalDigit(I8(r[..]), i, lost, rest[i]);
      } else {
        EvenDigit(I8(r[..]), i, lost, rest[i]);
      }
      i := i + 1;
    }
  }

  lemma EvenDigit(r: seq<int>, i: nat, lost: bool, m: nat)
    requires |r| == 256 && i < 256 && r[i] == 0 && SumFrom(r, i) + (if lost then Shift(1, 256 - i) else 0) == m
    ensures Digit(m) == 0
  {
    var h := SumFrom(r, i + 1) + if lost then Shift(1, 255 - i) else 0;
    assert m == 2 * h;
  }

  /** r = the digits of a: odd or 0, between -15 and 15, any five neighbours with at most one that is not 0. */
  method Slide(r: array<int8>, a: array<byte>)
    requires r.Length == 256 && a.Length == 32
    modifies r
    ensures forall i :: 0 <= i < 256 ==> r[i] as int == Digit(Rest(LE(a[..]), i))
  {
    ToBits(r, a);
    ghost var n := LE(a[..]);
    HalvingOf(n);
    ToDigits(r, Rests(n), DigitsOf(n));
    forall i | 0 <= i < 256 ensures r[i] as int == Digit(Rest(n, i)) {
      assert I8(r[..])[i] == DigitsOf(n)[i];
    }
  }

  /** Four zeros after an odd digit between -15 and 15 make it the digit of the number. */
  lemma FinalDigit(r: seq<int>, i: nat, lost: bool, m: nat)
    requires |r| == 256 && i < 256 && r[i] % 2 == 1 && -15 <= r[i] <= 15
    requires SumFrom(r, i) + (if lost then Shift(1, 256 - i) else 0) == m
    requires lost ==> i + 4 < 256
    requires forall j :: i < j <= i + 4 && j < 256 ==> r[j] == 0
    ensures Digit(m) == r[i]
  {
    if i + 4 < 256 {
      assert SumFrom(r, i + 1) == 2 * SumFrom(r, i + 2) == 4 * SumFrom(r, i + 3) == 8 * SumFrom(r, i + 4)
        == 16 * SumFrom(r, i + 5);
      ShiftShift(1, 251 - i, 5);
      var x := Shift(1, 251 - i);
      assert Shift(x, 5) == 2 * Shift(x, 4) == 4 * Shift(x, 3) == 8 * Shift(x, 2) == 16 * Shift(x, 1) == 32 * x;
      DigitUnique(m, r[i], SumFrom(r, i + 5) + if lost then x else 0);
    } else {
      ZeroSum(r, i + 1);
      DigitUnique(m, r[i], 0);
    }
  }

  // ---------- when slide spells its argument

  lemma LeftDecides(s: int, left: nat, k: nat, n: int)
    requires s + Shift(left, k) == n && left <= 1
    ensures s == n <==> left == 0
  {
    if left == 1 { ShiftOne(k); } else { ShiftSub(left, left, k); }
  }

  /** The digits slide computes spell n less 2^256 times the carry it loses. */
  lemma SlideValue(n: nat, r: seq<int>)
    requires n < Pow2(256) && |r| == 256 && forall i :: 0 <= i < 256 ==> r[i] == Digit(Rest(n, i))
    ensures SumFrom(r, 0) == n <==> Rest(n, |r|) == 0
    ensures n < Pow2(255) ==> SumFrom(r, 0) == n
  {
    DigitsValue(n, r);
    NothingLeft(n);
    LeftDecides(SumFrom(r, 0), Rest(n, |r|), |r|, n);
  }

  lemma {:induction false} RestRest(n: nat, i: nat, j: nat)
    ensures Rest(Rest(n, i), j) == Rest(n, i + j)
  {
    if j > 0 { RestRest(n, i, j - 1); }
  }

  lemma RestOfEven(n: nat, h: nat)
    requires n == 2 * h
    ensures Rest(n, 1) == h
  {
    assert Rest(n, 0) == n;
    EvenRest(n, 0, h);
  }

  lemma {:induction false} RestShift(q: nat, k: nat)
    requires Shift(q, k) >= 0
    ensures Rest(Shift(q, k), k) == q
    decreases k
  {
    if k > 0 {
      RestOfEven(Shift(q, k), Shift(q, k - 1));
      RestShift(q, k - 1);
      RestRest(Shift(q, k), 1, k - 1);
    }
  }

  lemma {:induction false} SmallRest(m: nat, k: nat)
    requires m < 16 && m < Pow2(k)
    ensures Rest(m, k) == 0
    decreases k
  {
    if k > 0 {
      assert Rest(m, 0) == m;
      NextRest(m, 0);
      assert m % 2 == 1 ==> Digit(m) == m;
      SmallRest(Rest(m, 1), k - 1);
      RestRest(m, 1, k - 1);
    }
  }

  lemma EvenRest(n: nat, i: nat, h: nat)
    requires Rest(n, i) == 2 * h
    ensures Rest(n, i + 1) == h && Digit(Rest(n, i)) == 0
  {
    NextRest(n, i);
  }

  lemma SixteenLeaves(n: nat, i: nat)
    requires Rest(n, i) == 16
    ensures Rest(n, i + 4) == 1
  {
    EvenRest(n, i, 8);
    EvenRest(n, i + 1, 4);
    EvenRest(n, i + 2, 2);
    EvenRest(n, i + 3, 1);
  }

  /** One digit of a number up to 32 leaves 16, or less than 16. */
  lemma TopDigit(m: nat, h: nat)
    requires m <= 32 && m == Digit(m) + 2 * h
    ensures h <= 16 && (h == 16 <==> m == 32 || (m > 16 && m % 2 == 1))
  {
  }

  /** The carry is lost exactly when the top five bits, after the digits below, are 32 or odd and above 16. */
  lemma LostCarry(n: nat)
    requires n < Pow2(256)
    ensures var m := Rest(n, 251); Rest(n, 256) == 1 <==> m == 32 || (m > 16 && m % 2 == 1)
  {
    var m := Rest(n, 251);
    RestBound(n, 256, 251);
    SmallPowers();
    var h := Rest(n, 252);
    NextRest(n, 251);
    TopDigit(m, h);
    if h == 16 {
      SixteenLeaves(n, 252);
    } else {
      RestRest(n, 252, 4);
      SmallRest(h, 4);
    }
  }

  /** 17 * 2^251 does lose it. */
  lemma CarryCanBeLost()
    ensures 17 * Pow2(251) < Pow2(256) && Rest(17 * Pow2(251), 256) == 1
  {
    ShiftOne(251);
    ShiftTimes(17, 251);
    assert Pow2(256) == 32 * Pow2(251);
    RestShift(17, 251);
    LostCarry(17 * Pow2(251));
  }

  lemma {:induction false} ShiftTimes(x: int, k: nat)
    ensures Shift(x, k) == x * Shift(1, k)
    decreases k
  {
    if k > 0 { ShiftTimes(x, k - 1); }
  }
}
