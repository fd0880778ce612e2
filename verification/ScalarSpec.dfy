/**
 * Scalars mod l = 2^252 + 27742317777372353535851937790883648493 as signed limbs of 21 bits,
 * the layout of ScMulAdd and ScReduce in tendermint/ed25519/edwards25519/edwards25519.go.
 */
module ScalarSpec {
  import opened Ints

  // the order of the base point
  const L: int := 0x1000_0000_0000_0000_0000_0000_0000_0000_14de_f9de_a2f7_9cd6_5812_631a_5cf5_d3ed

  const TWO252: int := 0x1000_0000_0000_0000_0000_0000_0000_0000_0000_0000_0000_0000_0000_0000_0000_0000

  /** The representative of x in [0, l). */
  function ModL(x: int): (r: nat)
    ensures r < L
  {
    x % 0x1000_0000_0000_0000_0000_0000_0000_0000_14de_f9de_a2f7_9cd6_5812_631a_5cf5_d3ed
  }

  lemma ModLShift(x: int, q: int)
    ensures ModL(x - L * q) == ModL(x)
  {
  }

  /** The limbs of t from limb i on. */
  function ValFrom(t: seq<int>, i: nat): (v: int)
    requires i <= |t|
    decreases |t| - i
  {
    if i == |t| then 0 else t[i] + 0x20_0000 * ValFrom(t, i + 1)
  }

  /** t[0] + 2^21 t[1] + 2^42 t[2] + ... */
  function Val(t: seq<int>): (v: int)
  {
    ValFrom(t, 0)
  }

  lemma {:induction false} ValTail(t: seq<int>, u: seq<int>, i: nat)
    requires i <= |t| == |u|
    requires forall j :: i <= j < |t| ==> t[j] == u[j]
    ensures ValFrom(t, i) == ValFrom(u, i)
    decreases |t| - i
  {
    if i < |t| { ValTail(t, u, i + 1); }
  }

  /** A carry from limb i to limb i + 1 leaves the value alone. */
  lemma {:induction false} ValCarry(t: seq<int>, u: seq<int>, i: nat, k: nat, c: int)
    requires k <= i && i + 1 < |t| == |u|
    requires u[i] == t[i] - 0x20_0000 * c && u[i + 1] == t[i + 1] + c
    requires forall j :: 0 <= j < |t| && j != i && j != i + 1 ==> t[j] == u[j]
    ensures ValFrom(u, k) == ValFrom(t, k)
    decreases i - k
  {
    if k < i { ValCarry(t, u, i, k + 1, c); } else { ValTail(t, u, i + 2); }
  }

  /** u is t with limb k replaced by its multiple of 2^252 mod l, twelve limbs down. */
  predicate Folded(t: seq<int>, u: seq<int>, k: nat)
  {
    && 12 <= k < |t| == |u|
    && u[k] == 0
    && u[k - 12] == t[k - 12] + 666643 * t[k]
    && u[k - 11] == t[k - 11] + 470296 * t[k]
    && u[k - 10] == t[k - 10] + 654183 * t[k]
    && u[k - 9] == t[k - 9] - 997805 * t[k]
    && u[k - 8] == t[k - 8] + 136657 * t[k]
    && u[k - 7] == t[k - 7] - 683901 * t[k]
    && (forall j :: 0 <= j < |t| && (j < k - 12 || k - 6 <= j) && j != k ==> t[j] == u[j])
  }

  lemma {:induction false} DroppedLimb(t: seq<int>, u: seq<int>, k: nat, i: nat)
    requires i <= k < |t| == |u| && u[k] == 0
    requires forall j :: i <= j < |t| && j != k ==> t[j] == u[j]
    ensures ValFrom(u, i) == ValFrom(t, i) - Pow21(k - i) * t[k]
    decreases k - i
  {
    if i == k { ValTail(t, u, k + 1); } else { DroppedLimb(t, u, k, i + 1); }
  }

  lemma FoldedHere(t: seq<int>, u: seq<int>, k: nat)
    requires Folded(t, u, k)
    ensures ValFrom(u, k - 12) == ValFrom(t, k - 12) - L * t[k]
  {
    assert ValFrom(u, k - 6) == ValFrom(t, k - 6) - 0x4000_0000_0000_0000_0000_0000_0000_0000 * t[k] by {
      DroppedLimb(t, u, k, k - 6);
      assert Pow21(6) == 0x4000_0000_0000_0000_0000_0000_0000_0000;
    }
    assert ValFrom(u, k - 7) == ValFrom(t, k - 7) - 0x8_0000_0000_0000_0000_0000_0000_0000_000a_6f7d * t[k];
    assert ValFrom(u, k - 8) == ValFrom(t, k - 8) - 0x100_0000_0000_0000_0000_0000_0000_0000_014d_ef9d_ea2f * t[k];
    assert ValFrom(u, k - 9) == ValFrom(t, k - 9) - 0x2000_0000_0000_0000_0000_0000_0000_0000_29bd_f3bd_45ef_39ad * t[k];
    assert ValFrom(u, k - 10) == ValFrom(t, k - 10) - 0x4_0000_0000_0000_0000_0000_0000_0000_0005_37be_77a8_bde7_3596_0499 * t[k];
    assert ValFrom(u, k - 11)
        == ValFrom(t, k - 11) - 0x80_0000_0000_0000_0000_0000_0000_0000_00a6_f7ce_f517_bce6_b2c0_9318_d2e8 * t[k];
  }

  /** Folding limb k takes a multiple of l off the value. */
  lemma {:induction false} FoldedValue(t: seq<int>, u: seq<int>, k: nat, i: nat) returns (q: int)
    requires Folded(t, u, k) && i <= k - 12
    ensures ValFrom(u, i) == ValFrom(t, i) - L * q
    ensures i == k - 12 ==> q == t[k]
    decreases k - i
  {
    if i == k - 12 {
      FoldedHere(t, u, k);
      q := t[k];
    } else {
      q := FoldedValue(t, u, k, i + 1);
      q := 0x20_0000 * q;
    }
  }

  /** The value of limbs that are all within their 21 bits. */
  lemma {:induction false} ValRange(t: seq<int>, i: nat, n: nat)
    requires i <= n <= |t| && forall j :: i <= j < n ==> 0 <= t[j] < 0x20_0000
    requires forall j :: n <= j < |t| ==> t[j] == 0
    ensures 0 <= ValFrom(t, i) < Pow21(n - i)
    decreases |t| - i
  {
    if i < n {
      ValRange(t, i + 1, n);
    } else if i < |t| {
      ValRange(t, i + 1, n + 1);
    }
  }

  function Pow21(n: nat): (p: nat)
    ensures p > 0
  {
    if n == 0 then 1 else 0x20_0000 * Pow21(n - 1)
  }
}
