/**
 * ScMulAdd and ScReduce of tendermint/ed25519/edwards25519/edwards25519.go: (ab + c) mod l and
 * s mod l on byte arrays.  The source writes the 144 products of ScMulAdd out column by column;
 * here a column is a loop over its products in the same order.
 */
module Scalar {
  import opened Ints
  import opened ScalarSpec
  import opened ScalarReduce
  import opened ScalarBytes

  // ---------- the schoolbook product

  function At(b: seq<int>, j: int): (x: int)
  {
    if 0 <= j < |b| then b[j] else 0
  }

  /** a[i] b[k-i] + a[i+1] b[k-i-1] + ... */
  function ColumnFrom(a: seq<int>, b: seq<int>, k: int, i: nat): (x: int)
    requires i <= |a|
    decreases |a| - i
  {
    if i == |a| then 0 else a[i] * At(b, k - i) + ColumnFrom(a, b, k, i + 1)
  }

  function ColumnsFrom(a: seq<int>, b: seq<int>, n: nat, i: nat): (t: seq<int>)
    requires i <= |a|
    ensures |t| == n
  {
    seq(n, k => ColumnFrom(a, b, k, i))
  }

  function Row(x: int, b: seq<int>, n: nat, i: nat): (t: seq<int>)
    ensures |t| == n
  {
    seq(n, k => x * At(b, k - i))
  }

  lemma {:induction false} ValAdd(t: seq<int>, u: seq<int>, v: seq<int>, i: nat)
    requires i <= |t| == |u| == |v| && forall j :: 0 <= j < |t| ==> t[j] == u[j] + v[j]
    ensures ValFrom(t, i) == ValFrom(u, i) + ValFrom(v, i)
    decreases |t| - i
  {
    if i < |t| { ValAdd(t, u, v, i + 1); }
  }

  /** A row from its first limb on is x times the rest of b. */
  lemma {:induction false} RowRest(x: int, b: seq<int>, n: nat, i: nat, j: nat)
    requires i + |b| <= n && i + j <= n
    ensures ValFrom(Row(x, b, n, i), i + j) == x * if j <= |b| then ValFrom(b, j) else 0
    decreases n - j
  {
    if i + j < n {
      RowRest(x, b, n, i, j + 1);
      var y := if j < |b| then ValFrom(b, j + 1) else 0;
      assert Row(x, b, n, i)[i + j] == x * At(b, j);
      assert x * At(b, j) + 0x20_0000 * (x * y) == x * (At(b, j) + 0x20_0000 * y);
    }
  }

  lemma {:induction false} RowValue(x: int, b: seq<int>, n: nat, i: nat, k: nat)
    requires i + |b| <= n && k <= i
    ensures ValFrom(Row(x, b, n, i), k) == Pow21(i - k) * (x * Val(b))
    decreases i - k
  {
    if k == i {
      RowRest(x, b, n, i, 0);
    } else {
      RowValue(x, b, n, i, k + 1);
      assert Row(x, b, n, i)[k] == x * At(b, k - i) == x * 0;
      assert 0x20_0000 * (Pow21(i - k - 1) * (x * Val(b))) == Pow21(i - k) * (x * Val(b));
    }
  }

  /** The columns of the schoolbook product are the product. */
  lemma {:induction false} ColumnsValue(a: seq<int>, b: seq<int>, n: nat, i: nat)
    requires i <= |a| && |a| + |b| <= n + 1
    ensures Val(ColumnsFrom(a, b, n, i)) == Pow21(i) * (ValFrom(a, i) * Val(b))
    decreases |a| - i
  {
    var t := ColumnsFrom(a, b, n, i);
    if i == |a| {
      ZeroValue(t, 0);
      assert ValFrom(a, i) * Val(b) == 0;
    } else {
      var u, v := Row(a[i], b, n, i), ColumnsFrom(a, b, n, i + 1);
      ColumnsValue(a, b, n, i + 1);
      RowValue(a[i], b, n, i, 0);
      ValAdd(t, u, v, 0);
      Factor(Pow21(i), a[i], ValFrom(a, i + 1), Val(b));
    }
  }

  lemma Factor(p: int, x: int, y: int, z: int)
    ensures p * (x * z) + (0x20_0000 * p) * (y * z) == p * ((x + 0x20_0000 * y) * z)
  {
    assert (x + 0x20_0000 * y) * z == x * z + 0x20_0000 * (y * z);
    assert p * (x * z + 0x20_0000 * (y * z)) == p * (x * z) + p * (0x20_0000 * (y * z));
  }

  lemma {:induction false} ZeroValue(t: seq<int>, i: nat)
    requires i <= |t| && forall j :: 0 <= j < |t| ==> t[j] == 0
    ensures ValFrom(t, i) == 0
    decreases |t| - i
  {
    if i < |t| { ZeroValue(t, i + 1); }
  }

  /** A column has no products before limb k - |b| + 1 of a, and none after limb k. */
  lemma {:induction false} ColumnSkips(a: seq<int>, b: seq<int>, k: int, i: nat, j: nat)
    requires i <= j <= |a| && (i == j || k < i || j <= k - |b| + 1)
    ensures ColumnFrom(a, b, k, i) == ColumnFrom(a, b, k, j)
    decreases j - i
  {
    if i < j {
      assert At(b, k - i) == 0;
      ColumnSkips(a, b, k, i + 1, j);
    }
  }

  // ---------- ScMulAdd's columns

  /** Limbs as the loads leave them. */
  predicate Loaded(t: seq<int64>)
  {
    |t| == 12 && (forall j :: 0 <= j < 11 ==> 0 <= t[j] < 0x20_0000) && 0 <= t[11] < 0x200_0000
  }

  lemma LimbsLoaded(b: bytes)
    requires |b| == 32
    ensures Loaded(Limbs(b, 12))
  {
    forall j | 0 <= j < 11 ensures 0 <= Limbs(b, 12)[j] < 0x20_0000 {
      LimbAt(b, 12, j);
    }
  }

  lemma ProductBelow(x: int, y: int, m: int, n: int)
    requires 0 <= x <= m && 0 <= y <= n
    ensures 0 <= x * y <= m * n
  {
    assert x * y <= m * y;
  }

  /** Only a11 b11, in column 22, can pass 2^46. */
  lemma ProductOfLimbs(x: int, y: int, i: nat, j: nat)
    requires 0 <= x < (if i == 11 then 0x200_0000 else 0x20_0000)
    requires 0 <= y < (if j == 11 then 0x200_0000 else 0x20_0000)
    ensures 0 <= x * y <= if i == 11 && j == 11 then 0x4_0000_0000_0000 else 0x4000_0000_0000
  {
    ProductBelow(x, y, if i == 11 then 0x200_0000 else 0x20_0000, if j == 11 then 0x200_0000 else 0x20_0000);
  }

  /** s_k = c_k + a0 b_k + ... + a_k b0, or for k >= 12 the products that exist. */
  method Column(a: seq<int64>, b: seq<int64>, c: int64, k: nat) returns (s: int64)
    requires Loaded(a) && Loaded(b) && 0 <= c < 0x200_0000 && k < 23
    ensures s as int == c as int + ColumnFrom(I64(a), I64(b), k, 0)
    ensures 0 <= s <= 0x8_0000_0000_0000
  {
    var lo, hi := if k < 12 then 0 else k - 11, if k < 12 then k else 11;
    ColumnSkips(I64(a), I64(b), k, 0, lo);
    s := c;
    var i := lo;
    while i <= hi
      invariant lo <= i <= hi + 1
      invariant s as int + ColumnFrom(I64(a), I64(b), k, i) == c as int + ColumnFrom(I64(a), I64(b), k, 0)
      invariant 0 <= s as int <= 0x200_0000 + if k == 22 then 0x4_0000_0000_0000 * (i - lo) else 0x4000_0000_0000 * (i - lo)
    {
      ProductOfLimbs(a[i] as int, b[k - i] as int, i, k - i);
      s := s + a[i] * b[k - i];
      i := i + 1;
    }
    ColumnSkips(I64(a), I64(b), k, i, 12);
  }

  /** s0, ..., s22 and s23 = 0. */
  method Columns(a: seq<int64>, b: seq<int64>, c: seq<int64>, s: array<int64>)
    requires Loaded(a) && Loaded(b) && Loaded(c) && s.Length == 24
    modifies s
    ensures Within(s[..], 0, 24, 0x8_0000_0000_0000) && s[23] == 0
    ensures Val(I64(s[..])) == Val(I64(a)) * Val(I64(b)) + Val(I64(c))
  {
    var k := 0;
    while k < 23
      invariant 0 <= k <= 23
      invariant forall j :: 0 <= j < k ==> 0 <= s[j] <= 0x8_0000_0000_0000
      invariant forall j :: 0 <= j < k ==> s[j] as int == At(I64(c), j) + ColumnFrom(I64(a), I64(b), j, 0)
    {
      s[k] := Column(a, b, if k < 12 then c[k] else 0, k);
      k := k + 1;
    }
    s[23] := 0;
    ColumnSkips(I64(a), I64(b), 23, 0, 12);
    ColumnsAddUp(I64(a), I64(b), I64(c), I64(s[..]));
  }

  lemma ColumnsAddUp(a: seq<int>, b: seq<int>, c: seq<int>, s: seq<int>)
    requires |a| == |b| == |c| == 12 && |s| == 24
    requires forall j :: 0 <= j < 24 ==> s[j] == At(c, j) + ColumnFrom(a, b, j, 0)
    ensures Val(s) == Val(a) * Val(b) + Val(c)
  {
    var u, v := Row(1, c, 24, 0), ColumnsFrom(a, b, 24, 0);
    ValAdd(s, u, v, 0);
    RowValue(1, c, 24, 0, 0);
    ColumnsValue(a, b, 24, 0);
  }

  // ---------- the two operations

  /** s = (ab + c) mod l; s may be the same array as a, b or c. */
  method ScMulAdd(s: array<byte>, a: array<byte>, b: array<byte>, c: array<byte>)
    requires s.Length == a.Length == b.Length == c.Length == 32
    modifies s
    ensures LE(s[..]) == ModL(old(LE(a[..])) * old(LE(b[..])) + old(LE(c[..])))
  {
    LimbsLoaded(a[..]);
    LimbsLoaded(b[..]);
    LimbsLoaded(c[..]);
    LimbsValue(a[..], 12);
    LimbsValue(b[..], 12);
    LimbsValue(c[..], 12);
    var limbs := new int64[24];
    Columns(Limbs(a[..], 12), Limbs(b[..], 12), Limbs(c[..], 12), limbs);
    CarryColumns(limbs);
    ReduceLimbs(limbs);
    StoreLimbs(s, I64(limbs[..]));
  }

  /** The first two rounds of carries, which only ScMulAdd needs. */
  method CarryColumns(s: array<int64>)
    requires s.Length == 24 && Within(s[..], 0, 24, 0x8_0000_0000_0000) && s[23] == 0
    modifies s
    ensures Val(I64(s[..])) == old(Val(I64(s[..])))
    ensures Within(s[..], 0, 24, 0x8000_0000)
  {
    assert forall j :: 0 <= j < 24 ==> s[j] == s[..][j];
    CarryEveryOther(s, 0, 22, 0x4000_0000);
    CarryEveryOther(s, 1, 21, 0x4000_1000);
  }

  /** out = s mod l. */
  method ScReduce(out: array<byte>, s: array<byte>)
    requires out.Length == 32 && s.Length == 64
    modifies out
    ensures LE(out[..]) == ModL(LE(s[..]))
  {
    LimbsValue(s[..], 24);
    var t := Limbs(s[..], 24);
    var limbs := new int64[24](i requires 0 <= i < 24 => t[i]);
    assert limbs[..] == t;
    ReduceLimbs(limbs);
    StoreLimbs(out, I64(limbs[..]));
  }
}
