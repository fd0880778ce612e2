/**
 * GF(2^255 - 19) on ten signed limbs of alternately 26 and 25 bits, as
 * tendermint/ed25519/edwards25519/edwards25519.go lays them out.
 */
module FieldSpec {
  import opened Ints

  // 2^255 - 19
  const P: int := 0x7fff_ffff_ffff_ffff_ffff_ffff_ffff_ffff_ffff_ffff_ffff_ffff_ffff_ffff_ffff_ffed

  /** The representative of x in [0, p). */
  function Residue(x: int): (r: nat)
    ensures r < P
  {
    x % 0x7fff_ffff_ffff_ffff_ffff_ffff_ffff_ffff_ffff_ffff_ffff_ffff_ffff_ffff_ffff_ffed
  }

  /** floor(x / p) */
  function Quotient(x: int): (q: int)
  {
    x / 0x7fff_ffff_ffff_ffff_ffff_ffff_ffff_ffff_ffff_ffff_ffff_ffff_ffff_ffff_ffff_ffed
  }

  /** 2^26 for the even limbs, 2^25 for the odd ones. */
  function Radix(i: nat): (r: int)
    ensures r > 0
  {
    if i % 2 == 0 then 0x400_0000 else 0x200_0000
  }

  /** The limbs t read from limb i on: t[i] + Radix(i) * (t[i+1] + Radix(i+1) * ...). */
  function ValueFrom(t: seq<int>, i: nat): (v: int)
    requires i <= |t|
    decreases |t| - i
  {
    if i == |t| then 0 else t[i] + Radix(i) * ValueFrom(t, i + 1)
  }

  /** t[0] + 2^26 t[1] + 2^51 t[2] + 2^77 t[3] + ... + 2^230 t[9]. */
  function Value(t: seq<int>): (v: int)
  {
    ValueFrom(t, 0)
  }

  lemma {:induction false} ValueAddScaled(a: seq<int>, b: seq<int>, c: int, r: seq<int>, i: nat)
    requires i <= |a| == |b| == |r|
    requires forall k :: 0 <= k < |a| ==> r[k] == a[k] + c * b[k]
    ensures ValueFrom(r, i) == ValueFrom(a, i) + c * ValueFrom(b, i)
    decreases |a| - i
  {
    if i < |a| {
      ValueAddScaled(a, b, c, r, i + 1);
      calc {
        ValueFrom(r, i);
        r[i] + Radix(i) * (ValueFrom(a, i + 1) + c * ValueFrom(b, i + 1));
        { Distribute(Radix(i), ValueFrom(a, i + 1), c, ValueFrom(b, i + 1)); }
        a[i] + c * b[i] + Radix(i) * ValueFrom(a, i + 1) + c * (Radix(i) * ValueFrom(b, i + 1));
        { Distribute(c, b[i], 1, Radix(i) * ValueFrom(b, i + 1)); }
        ValueFrom(a, i) + c * ValueFrom(b, i);
      }
    }
  }

  lemma Distribute(r: int, x: int, c: int, y: int)
    ensures r * (x + c * y) == r * x + c * (r * y)
  {
  }

  lemma ValueUnfold(t: seq<int>)
    requires |t| == 10
    ensures Value(t) == t[0] + 0x400_0000 * t[1] + 0x8_0000_0000_0000 * t[2] + 0x2000_0000_0000_0000_0000 * t[3]
                      + 0x40_0000_0000_0000_0000_0000_0000 * t[4] + 0x1_0000_0000_0000_0000_0000_0000_0000_0000 * t[5]
                      + 0x200_0000_0000_0000_0000_0000_0000_0000_0000_0000 * t[6]
                      + 0x8_0000_0000_0000_0000_0000_0000_0000_0000_0000_0000_0000 * t[7]
                      + 0x1000_0000_0000_0000_0000_0000_0000_0000_0000_0000_0000_0000_0000 * t[8]
                      + 0x40_0000_0000_0000_0000_0000_0000_0000_0000_0000_0000_0000_0000_0000_0000 * t[9]
  {
    assert ValueFrom(t, 9) == t[9] + Radix(9) * ValueFrom(t, 10);
    assert ValueFrom(t, 7) == t[7] + 0x200_0000 * (t[8] + 0x400_0000 * ValueFrom(t, 9));
    assert ValueFrom(t, 5) == t[5] + 0x200_0000 * (t[6] + 0x400_0000 * ValueFrom(t, 7));
    assert ValueFrom(t, 3) == t[3] + 0x200_0000 * (t[4] + 0x400_0000 * ValueFrom(t, 5));
    assert ValueFrom(t, 1) == t[1] + 0x200_0000 * (t[2] + 0x400_0000 * ValueFrom(t, 3));
  }

  /** The integer a field element stands for. */
  function Fe(t: seq<int32>): (v: int)
  {
    Value(I32(t))
  }

  lemma ResidueShift(x: int, q: int)
    ensures Residue(x - P * q) == Residue(x)
  {
  }

  predicate Within(x: int32, b: int)
  {
    -b <= 100 * x as int <= b
  }

  /** The even limbs are bounded by c/100 * m and the odd ones by half of that. */
  predicate Bounded(t: seq<int32>, c: int, m: int)
  {
    && |t| == 10
    && Within(t[0], c * m) && Within(t[1], c * m / 2) && Within(t[2], c * m) && Within(t[3], c * m / 2)
    && Within(t[4], c * m) && Within(t[5], c * m / 2) && Within(t[6], c * m) && Within(t[7], c * m / 2)
    && Within(t[8], c * m) && Within(t[9], c * m / 2)
  }

  /** Ten sums of products that FeCombine can carry without overflow. */
  predicate Combinable(t: seq<int64>)
  {
    |t| == 10 && forall i :: 0 <= i < 10 ==> -0x7fff_ff00_0000_0000 <= t[i] <= 0x7fff_ff00_0000_0000
  }

  lemma BoundedAt(t: seq<int32>, c: int, m: int, i: nat)
    requires Bounded(t, c, m) && c > 0 && m > 0 && i < 10
    ensures Within(t[i], if i % 2 == 0 then c * m else c * m / 2)
  {
    assert i == 0 || i == 1 || i == 2 || i == 3 || i == 4 || i == 5 || i == 6 || i == 7 || i == 8 || i == 9;
  }
}
