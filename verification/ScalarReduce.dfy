/**
 * The reduction mod l that ScMulAdd and ScReduce share, from 24 limbs down to 12.  The source
 * writes every carry and every fold out; here each run of equal steps is a loop over the
 * limbs in the same order.  A method that verifies here has no int64 overflow.
 */
module ScalarReduce {
  import opened Ints
  import opened ScalarSpec

  /** The limbs lo <= j < hi are within b. */
  predicate Within(s: seq<int64>, lo: int, hi: int, b: int)
  {
    0 <= lo && hi <= |s| && forall j :: lo <= j < hi ==> -b <= s[j] as int <= b
  }

  /** carry = (s[i] + half) >> 21; s[i+1] += carry; s[i] -= carry << 21.  The ghost c bounds the carry. */
  method Carry(s: array<int64>, i: nat, half: int64, ghost c: int)
    requires s.Length == 24 && i < 23 && (half == 0 || half == 0x10_0000)
    requires 0 <= c && -0x20_0000 * c <= s[i] as int <= 0x20_0000 * c <= 0x3fff_ffff_ffff_ffff
    requires -0x3fff_ffff_ffff_ffff <= s[i + 1] <= 0x3fff_ffff_ffff_ffff
    modifies s
    ensures Val(I64(s[..])) == old(Val(I64(s[..])))
    ensures -half <= s[i] < 0x20_0000 - half
    ensures old(s[i + 1]) as int - c <= s[i + 1] as int <= old(s[i + 1]) as int + c
    ensures forall j :: 0 <= j < 24 && j != i && j != i + 1 ==> s[j] == old(s[j])
  {
    ghost var t := I64(s[..]);
    var carry := (s[i] + half) / 0x20_0000;
    s[i + 1] := s[i + 1] + carry;
    s[i] := s[i] - carry * 0x20_0000;
    ValCarry(t, I64(s[..]), i, 0, carry as int);
  }

  /** Rounding carries out of limbs lo, lo + 2, ..., hi. */
  method CarryEveryOther(s: array<int64>, lo: nat, hi: nat, ghost c: int)
    requires s.Length == 24 && lo <= hi < 23 && (hi - lo) % 2 == 0
    requires 0 <= c && 0x20_0000 * c <= 0x1fff_ffff_ffff_ffff && Within(s[..], lo, hi + 2, 0x20_0000 * c)
    modifies s
    ensures Val(I64(s[..])) == old(Val(I64(s[..])))
    ensures forall j :: lo <= j <= hi && (j - lo) % 2 == 0 ==> -0x10_0000 <= s[j] < 0x10_0000
    ensures forall j :: lo <= j <= hi + 1 && (j - lo) % 2 == 1 ==> old(s[j]) as int - c <= s[j] as int <= old(s[j]) as int + c
    ensures forall j :: 0 <= j < 24 && (j < lo || hi + 1 < j) ==> s[j] == old(s[j])
  {
    assert forall j :: 0 <= j < 24 ==> s[j] == s[..][j];
    var i := lo;
    while i <= hi
      invariant lo <= i <= hi + 2 && (i - lo) % 2 == 0
      invariant Val(I64(s[..])) == old(Val(I64(s[..])))
      invariant forall j :: lo <= j < i && (j - lo) % 2 == 0 ==> -0x10_0000 <= s[j] < 0x10_0000
      invariant forall j :: lo <= j < i && (j - lo) % 2 == 1 ==> old(s[j]) as int - c <= s[j] as int <= old(s[j]) as int + c
      invariant forall j :: 0 <= j < 24 && (j < lo || i <= j) ==> s[j] == old(s[j])
    {
      Carry(s, i, 0x10_0000, c);
      i := i + 2;
    }
  }

  /** s[k-12] += s[k] * 666643; ...; s[k-7] -= s[k] * 683901; s[k] = 0. */
  method FoldLines(s: array<int64>, k: nat)
    requires s.Length == 24 && 12 <= k < 24
    requires -0x400_0000_0000 <= s[k] <= 0x400_0000_0000
    requires Within(s[..], k - 12, k - 6, 0x3fff_ffff_ffff_ffff)
    modifies s
    ensures Folded(old(I64(s[..])), I64(s[..]), k)
  {
    assert forall j :: 0 <= j < 24 ==> s[j] == s[..][j];
    s[k - 12] := s[k - 12] + s[k] * 666643;
    s[k - 11] := s[k - 11] + s[k] * 470296;
    s[k - 10] := s[k - 10] + s[k] * 654183;
    s[k - 9] := s[k - 9] - s[k] * 997805;
    s[k - 8] := s[k - 8] + s[k] * 136657;
    s[k - 7] := s[k - 7] - s[k] * 683901;
    s[k] := 0;
  }

  /** How far a fold moves a limb. */
  lemma FoldedBounds(t: seq<int>, u: seq<int>, k: nat, b: int)
    requires Folded(t, u, k) && -b <= t[k] <= b
    ensures forall j :: k - 12 <= j < k - 6 ==> t[j] - 0x10_0000 * b <= u[j] <= t[j] + 0x10_0000 * b
  {
    forall j | k - 12 <= j < k - 6
      ensures t[j] - 0x10_0000 * b <= u[j] <= t[j] + 0x10_0000 * b
    {
      assert j == k - 12 || j == k - 11 || j == k - 10 || j == k - 9 || j == k - 8 || j == k - 7;
    }
  }

  /** Folds limb k, one of the six limbs hi - 5, ..., hi. */
  method FoldOne(s: array<int64>, hi: nat, k: nat, ghost a: int, ghost b: int)
    requires s.Length == 24 && (hi == 23 || hi == 17) && hi - 6 < k <= hi
    requires 0 <= b <= 0x400_0000_0000 && Within(s[..], hi - 5, k + 1, b)
    requires 0 <= a <= 0x3fff_ffff_ffff_ffff && Within(s[..], hi - 17, hi - 6, a)
    modifies s
    ensures Folded(old(I64(s[..])), I64(s[..]), k)
    ensures Within(s[..], hi - 5, k, b) && Within(s[..], hi - 17, hi - 6, a + 0x10_0000 * b)
  {
    ghost var t := I64(s[..]);
    FoldLines(s, k);
    FoldedBounds(t, I64(s[..]), k, b);
    assert forall j :: 0 <= j < 24 ==> s[..][j] as int == I64(s[..])[j] && old(s[..])[j] as int == t[j];
  }

  /** Six folds in a row. */
  predicate SixFolds(t0: seq<int>, t1: seq<int>, t2: seq<int>, t3: seq<int>, t4: seq<int>, t5: seq<int>, t6: seq<int>, hi: nat)
  {
    && hi >= 17
    && Folded(t0, t1, hi) && Folded(t1, t2, hi - 1) && Folded(t2, t3, hi - 2)
    && Folded(t3, t4, hi - 3) && Folded(t4, t5, hi - 4) && Folded(t5, t6, hi - 5)
  }

  lemma FoldedMod(t: seq<int>, u: seq<int>, k: nat)
    requires Folded(t, u, k)
    ensures ModL(Val(u)) == ModL(Val(t))
  {
    var q := FoldedValue(t, u, k, 0);
    ModLShift(Val(t), q);
  }

  lemma SixFoldsMod(t0: seq<int>, t1: seq<int>, t2: seq<int>, t3: seq<int>, t4: seq<int>, t5: seq<int>, t6: seq<int>, hi: nat)
    requires SixFolds(t0, t1, t2, t3, t4, t5, t6, hi)
    ensures ModL(Val(t6)) == ModL(Val(t0))
  {
    FoldedMod(t0, t1, hi);
    FoldedMod(t1, t2, hi - 1);
    FoldedMod(t2, t3, hi - 2);
    FoldedMod(t3, t4, hi - 3);
    FoldedMod(t4, t5, hi - 4);
    FoldedMod(t5, t6, hi - 5);
  }

  /** What six folds do not touch. */
  lemma SixFoldsFrame(t0: seq<int64>, t1: seq<int64>, t2: seq<int64>, t3: seq<int64>, t4: seq<int64>, t5: seq<int64>,
                      t6: seq<int64>, hi: nat)
    requires SixFolds(I64(t0), I64(t1), I64(t2), I64(t3), I64(t4), I64(t5), I64(t6), hi)
    requires |t0| == |t1| == |t2| == |t3| == |t4| == |t5| == |t6| == 24
    ensures forall j :: hi - 5 <= j <= hi ==> t6[j] == 0
    ensures forall j :: 0 <= j < 24 && (j < hi - 17 || j == hi - 6 || hi < j) ==> t6[j] == t0[j]
  {
    assert forall j :: 0 <= j < 24 && (j < hi - 17 || j == hi - 6 || hi < j) ==>
      I64(t6)[j] == I64(t5)[j] == I64(t4)[j] == I64(t3)[j] == I64(t2)[j] == I64(t1)[j] == I64(t0)[j];
    assert I64(t6)[hi - 5] == 0;
    assert I64(t6)[hi - 4] == I64(t5)[hi - 4] == 0;
    assert I64(t6)[hi - 3] == I64(t5)[hi - 3] == I64(t4)[hi - 3] == 0;
    assert I64(t6)[hi - 2] == I64(t5)[hi - 2] == I64(t4)[hi - 2] == I64(t3)[hi - 2] == 0;
    assert I64(t6)[hi - 1] == I64(t5)[hi - 1] == I64(t4)[hi - 1] == I64(t3)[hi - 1] == I64(t2)[hi - 1] == 0;
    assert I64(t6)[hi] == I64(t5)[hi] == I64(t4)[hi] == I64(t3)[hi] == I64(t2)[hi] == I64(t1)[hi] == 0;
    forall j | hi - 5 <= j <= hi ensures t6[j] == 0 {
      assert j == hi - 5 || j == hi - 4 || j == hi - 3 || j == hi - 2 || j == hi - 1 || j == hi;
    }
  }

  /** Folds s23, ..., s18 into s6, ..., s16. */
  method FoldTop(s: array<int64>)
    requires s.Length == 24
    requires Within(s[..], 6, 17, 0x8000_0000) && Within(s[..], 18, 24, 0x8000_0000)
    modifies s
    ensures ModL(Val(I64(s[..]))) == old(ModL(Val(I64(s[..]))))
    ensures Within(s[..], 6, 17, 0x30_0000_8000_0000)
    ensures forall j :: 18 <= j <= 23 ==> s[j] == 0
    ensures forall j :: 0 <= j < 24 && (j < 6 || j == 17 || 23 < j) ==> s[j] == old(s[j])
  {
    ghost var t0 := s[..];
    FoldOne(s, 23, 23, 0x8000_0000, 0x8000_0000);
    ghost var t1 := s[..];
    FoldOne(s, 23, 22, 0x8_0000_8000_0000, 0x8000_0000);
    ghost var t2 := s[..];
    FoldOne(s, 23, 21, 0x10_0000_8000_0000, 0x8000_0000);
    ghost var t3 := s[..];
    FoldOne(s, 23, 20, 0x18_0000_8000_0000, 0x8000_0000);
    ghost var t4 := s[..];
    FoldOne(s, 23, 19, 0x20_0000_8000_0000, 0x8000_0000);
    ghost var t5 := s[..];
    FoldOne(s, 23, 18, 0x28_0000_8000_0000, 0x8000_0000);
    ghost var t6 := s[..];
    SixFoldsMod(I64(t0), I64(t1), I64(t2), I64(t3), I64(t4), I64(t5), I64(t6), 23);
    SixFoldsFrame(t0, t1, t2, t3, t4, t5, t6, 23);
  }

  /** Folds s17, ..., s12 into s0, ..., s10. */
  method FoldMiddle(s: array<int64>)
    requires s.Length == 24
    requires Within(s[..], 0, 11, 0x4_0000_0000) && Within(s[..], 12, 18, 0x4_0000_0000)
    modifies s
    ensures ModL(Val(I64(s[..]))) == old(ModL(Val(I64(s[..]))))
    ensures Within(s[..], 0, 11, 0x180_0004_0000_0000)
    ensures forall j :: 12 <= j <= 17 ==> s[j] == 0
    ensures forall j :: 0 <= j < 24 && (j < 0 || j == 11 || 17 < j) ==> s[j] == old(s[j])
  {
    ghost var t0 := s[..];
    FoldOne(s, 17, 17, 0x4_0000_0000, 0x4_0000_0000);
    ghost var t1 := s[..];
    FoldOne(s, 17, 16, 0x40_0004_0000_0000, 0x4_0000_0000);
    ghost var t2 := s[..];
    FoldOne(s, 17, 15, 0x80_0004_0000_0000, 0x4_0000_0000);
    ghost var t3 := s[..];
    FoldOne(s, 17, 14, 0xc0_0004_0000_0000, 0x4_0000_0000);
    ghost var t4 := s[..];
    FoldOne(s, 17, 13, 0x100_0004_0000_0000, 0x4_0000_0000);
    ghost var t5 := s[..];
    FoldOne(s, 17, 12, 0x140_0004_0000_0000, 0x4_0000_0000);
    ghost var t6 := s[..];
    SixFoldsMod(I64(t0), I64(t1), I64(t2), I64(t3), I64(t4), I64(t5), I64(t6), 17);
    SixFoldsFrame(t0, t1, t2, t3, t4, t5, t6, 17);
  }

  /** Floor carries out of limbs 0, ..., n - 1, each into the next limb. */
  method FloorCarries(s: array<int64>, n: nat)
    requires s.Length == 24 && n < 24
    requires Within(s[..], 0, n + 1, 0x400_0000_0000_0000)
    modifies s
    ensures Val(I64(s[..])) == old(Val(I64(s[..])))
    ensures forall j :: 0 <= j < n ==> 0 <= s[j] < 0x20_0000
    ensures forall j :: n < j < 24 ==> s[j] == old(s[j])
  {
    assert forall j :: 0 <= j < 24 ==> s[j] == s[..][j];
    var i := 0;
    while i < n
      invariant 0 <= i <= n
      invariant Val(I64(s[..])) == old(Val(I64(s[..])))
      invariant forall j :: 0 <= j < i ==> 0 <= s[j] < 0x20_0000
      invariant old(s[i]) as int - 0x40_0000_0000 <= s[i] as int <= old(s[i]) as int + 0x40_0000_0000
      invariant forall j :: i < j < 24 ==> s[j] == old(s[j])
    {
      Carry(s, i, 0, 0x40_0000_0000);
      i := i + 1;
    }
  }

  /** Limbs balanced about 0 up to limb 11 keep the value well within 2^252. */
  lemma {:induction false} BalancedValue(t: seq<int>, i: nat)
    requires |t| == 24 && i <= 11
    requires forall j :: 0 <= j < 11 ==> -0x40_0000_0000 <= t[j] <= 0x40_0000_0000
    requires -0x10_0000 <= t[11] < 0x10_0000
    requires forall j :: 12 <= j < 24 ==> t[j] == 0
    ensures -(Pow21(11 - i) * 0x18_0000 - 0x4_0000) <= ValFrom(t, i) <= Pow21(11 - i) * 0x18_0000 - 0x4_0000
    decreases 11 - i
  {
    if i == 11 {
      ValRange(t, 12, 12);
    } else {
      BalancedValue(t, i + 1);
    }
  }

  lemma Pow21Top()
    ensures Pow21(11) == 0x80_0000_0000_0000_0000_0000_0000_0000_0000_0000_0000_0000_0000_0000_0000
    ensures Pow21(12) == TWO252
  {
    assert Pow21(4) == 0x10_0000_0000_0000_0000_0000;
    assert Pow21(8) == 0x100_0000_0000_0000_0000_0000_0000_0000_0000_0000_0000;
  }

  const THREE250: int := 0xC00_0000_0000_0000_0000_0000_0000_0000_0000_0000_0000_0000_0000_0000_0000_0000

  lemma BalancedTotal(t: seq<int>)
    requires |t| == 24
    requires forall j :: 0 <= j < 11 ==> -0x40_0000_0000 <= t[j] <= 0x40_0000_0000
    requires -0x10_0000 <= t[11] < 0x10_0000
    requires forall j :: 12 <= j < 24 ==> t[j] == 0
    ensures -THREE250 <= Val(t) <= THREE250
  {
    BalancedValue(t, 0);
    Pow21Top();
  }

  lemma BalancedRange(u: int, v: int, c: int)
    requires u == v + TWO252 * c - L * c && -0x40_0000_0000 <= c <= 0x40_0000_0000
    requires -THREE250 <= v <= THREE250
    ensures -TWO252 <= u < TWO252
  {
    assert u == v - (L - TWO252) * c;
  }

  lemma DroppedTop(t: seq<int>, v: seq<int>)
    requires |t| == 24 && v == t[12 := 0]
    ensures Val(v) == Val(t) - TWO252 * t[12]
  {
    DroppedLimb(t, v, 12, 0);
    Pow21Top();
  }

  /** With balanced limbs, folding limb 12 leaves a value between -2^252 and 2^252. */
  lemma FoldedBalanced(t: seq<int>, u: seq<int>)
    requires |t| == 24 && Folded(t, u, 12)
    requires forall j :: 0 <= j < 11 ==> -0x40_0000_0000 <= t[j] <= 0x40_0000_0000
    requires -0x10_0000 <= t[11] < 0x10_0000 && -0x40_0000_0000 <= t[12] <= 0x40_0000_0000
    requires forall j :: 13 <= j < 24 ==> t[j] == 0
    ensures -TWO252 <= Val(u) < TWO252
  {
    var v := t[12 := 0];
    DroppedTop(t, v);
    BalancedTotal(v);
    FoldedHere(t, u, 12);
    BalancedRange(Val(u), Val(v), t[12]);
  }

  /** Limbs 0, ..., 11 in their 21 bits leave floor(value / 2^252) in limb 12. */
  lemma TopLimb(t: seq<int>)
    requires |t| == 24 && -TWO252 <= Val(t) < TWO252
    requires forall j :: 0 <= j < 12 ==> 0 <= t[j] < 0x20_0000
    requires forall j :: 13 <= j < 24 ==> t[j] == 0
    ensures t[12] == if Val(t) < 0 then -1 else 0
  {
    var v := t[12 := 0];
    DroppedLimb(t, v, 12, 0);
    ValRange(v, 0, 12);
    Pow21Top();
  }

  /** The second fold of limb 12 lands in [0, l). */
  lemma FoldedReduced(t: seq<int>, u: seq<int>)
    requires |t| == 24 && Folded(t, u, 12) && -TWO252 <= Val(t) < TWO252
    requires t[12] == if Val(t) < 0 then -1 else 0
    ensures 0 <= Val(u) < L && ModL(Val(u)) == ModL(Val(t))
  {
    var q := FoldedValue(t, u, 12, 0);
    FoldedMod(t, u, 12);
  }

  /** After the last carries limb 11 holds what is above 2^231. */
  lemma LastLimb(t: seq<int>)
    requires |t| == 24 && 0 <= Val(t) < L
    requires forall j :: 0 <= j < 11 ==> 0 <= t[j] < 0x20_0000
    requires forall j :: 12 <= j < 24 ==> t[j] == 0
    ensures 0 <= t[11] <= 0x20_0000
  {
    var v := t[11 := 0];
    DroppedLimb(t, v, 11, 0);
    ValRange(v, 0, 11);
    Pow21Top();
  }

  /** The folds and carries down to limbs 0, ..., 17, each within 2^34. */
  method ReduceTop(s: array<int64>)
    requires s.Length == 24 && Within(s[..], 0, 24, 0x8000_0000)
    modifies s
    ensures ModL(Val(I64(s[..]))) == old(ModL(Val(I64(s[..]))))
    ensures Within(s[..], 0, 18, 0x4_0000_0000)
    ensures forall j :: 18 <= j < 24 ==> s[j] == 0
  {
    assert forall j :: 0 <= j < 24 ==> s[j] == s[..][j];
    FoldTop(s);
    assert forall j :: 0 <= j < 24 ==> s[j] == s[..][j];
    CarryEveryOther(s, 6, 16, 0x2_0000_0000);
    assert Within(s[..], 7, 17, 0x40_0000_0000_0000);
    CarryEveryOther(s, 7, 15, 0x2_0000_0000);
  }

  /** The next six folds and the carries after them: limbs balanced about 0. */
  method ReduceMiddle(s: array<int64>)
    requires s.Length == 24 && Within(s[..], 0, 18, 0x4_0000_0000)
    requires forall j :: 18 <= j < 24 ==> s[j] == 0
    modifies s
    ensures ModL(Val(I64(s[..]))) == old(ModL(Val(I64(s[..]))))
    ensures Within(s[..], 0, 13, 0x20_0000_0000) && -0x10_0000 <= s[11] < 0x10_0000
    ensures forall j :: 13 <= j < 24 ==> s[j] == 0
  {
    assert forall j :: 0 <= j < 24 ==> s[j] == s[..][j];
    FoldMiddle(s);
    assert forall j :: 0 <= j < 24 ==> s[j] == s[..][j];
    CarryEveryOther(s, 0, 10, 0x10_0000_0000);
    assert Within(s[..], 1, 13, 0x200_0000_0000_0000);
    CarryEveryOther(s, 1, 11, 0x10_0000_0000);
  }

  /** Folds limb 12 and carries up again: the value is in [-2^252, 2^252). */
  method ReduceBalanced(s: array<int64>)
    requires s.Length == 24 && Within(s[..], 0, 13, 0x20_0000_0000) && -0x10_0000 <= s[11] < 0x10_0000
    requires forall j :: 13 <= j < 24 ==> s[j] == 0
    modifies s
    ensures ModL(Val(I64(s[..]))) == old(ModL(Val(I64(s[..]))))
    ensures -TWO252 <= Val(I64(s[..])) < TWO252
    ensures forall j :: 0 <= j < 12 ==> 0 <= s[j] < 0x20_0000
    ensures forall j :: 13 <= j < 24 ==> s[j] == 0
  {
    ghost var t := I64(s[..]);
    assert forall j :: 0 <= j < 24 ==> s[j] == s[..][j];
    FoldLines(s, 12);
    ghost var u := I64(s[..]);
    FoldedBalanced(t, u);
    FoldedMod(t, u, 12);
    FoldedBounds(t, u, 12, 0x20_0000_0000);
    assert forall j :: 0 <= j < 24 ==> s[..][j] as int == u[j];
    FloorCarries(s, 12);
  }

  /** The last fold and the last carries: the value is now the representative mod l itself. */
  method ReduceLast(s: array<int64>)
    requires s.Length == 24 && -TWO252 <= Val(I64(s[..])) < TWO252
    requires forall j :: 0 <= j < 12 ==> 0 <= s[j] < 0x20_0000
    requires forall j :: 13 <= j < 24 ==> s[j] == 0
    modifies s
    ensures Val(I64(s[..])) == old(ModL(Val(I64(s[..]))))
    ensures forall j :: 0 <= j < 11 ==> 0 <= s[j] < 0x20_0000
    ensures 0 <= s[11] <= 0x20_0000
    ensures forall j :: 12 <= j < 24 ==> s[j] == 0
  {
    ghost var t := I64(s[..]);
    TopLimb(t);
    FoldLines(s, 12);
    ghost var u := I64(s[..]);
    FoldedReduced(t, u);
    FoldedBounds(t, u, 12, 1);
    assert forall j :: 0 <= j < 24 ==> s[..][j] as int == u[j];
    FloorCarries(s, 11);
    LastLimb(I64(s[..]));
  }

  /** The reduction both operations end with. */
  method ReduceLimbs(s: array<int64>)
    requires s.Length == 24 && Within(s[..], 0, 24, 0x8000_0000)
    modifies s
    ensures Val(I64(s[..])) == old(ModL(Val(I64(s[..]))))
    ensures forall j :: 0 <= j < 11 ==> 0 <= s[j] < 0x20_0000
    ensures 0 <= s[11] <= 0x20_0000
    ensures forall j :: 12 <= j < 24 ==> s[j] == 0
  {
    ReduceTop(s);
    ReduceMiddle(s);
    ReduceBalanced(s);
    ReduceLast(s);
  }
}
