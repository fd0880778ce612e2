/** Inversion by the fixed addition chain for the exponent p - 2. */
module FieldInvert {
  import opened Ints
  import opened FieldSpec
  import opened FieldProduct

  function Pow(x: int, n: nat): (p: int)
    decreases n, x
  {
    if n == 0 then 1 else x * Pow(x, n - 1)
  }

  lemma {:induction false} PowAdd(x: int, m: nat, n: nat)
    ensures Pow(x, m + n) == Pow(x, m) * Pow(x, n)
    decreases m
  {
    if m != 0 {
      PowAdd(x, m - 1, n);
      assert x * (Pow(x, m - 1) * Pow(x, n)) == x * Pow(x, m - 1) * Pow(x, n);
    }
  }

  lemma ResidueProduct(a: int, b: int, c: int, d: int)
    requires Residue(a) == Residue(b) && Residue(c) == Residue(d)
    ensures Residue(a * c) == Residue(b * d)
  {
    var k, l := Quotient(b) - Quotient(a), Quotient(d) - Quotient(c);
    assert a == b - P * k && c == d - P * l;
    assert a * c == b * d - P * (k * d + l * b - P * (k * l)) by {
      assert a * c == (b - P * k) * (d - P * l);
      Expand(b, k, d, l);
    }
    ResidueShift(b * d, k * d + l * b - P * (k * l));
  }

  lemma Expand(b: int, k: int, d: int, l: int)
    ensures (b - P * k) * (d - P * l) == b * d - P * (k * d + l * b - P * (k * l))
  {
  }

  /** t holds x^e, with the bounds that every product leaves behind. */
  predicate HoldsPower(t: seq<int32>, x: int, e: nat)
  {
    Bounded(t, 101, 0x200_0000) && Residue(Fe(t)) == Residue(Pow(x, e))
  }

  method MulPowers(h: array<int32>, f: array<int32>, g: array<int32>, ghost x: int, ghost d: nat, ghost e: nat)
    requires h.Length == f.Length == g.Length == 10
    requires HoldsPower(f[..], x, d) && HoldsPower(g[..], x, e)
    modifies h
    ensures HoldsPower(h[..], x, d + e)
  {
    PowAdd(x, d, e);
    ResidueProduct(Fe(f[..]), Pow(x, d), Fe(g[..]), Pow(x, e));
    FeMul(h, f, g);
  }

  method SquarePower(h: array<int32>, f: array<int32>, ghost x: int, ghost e: nat)
    requires h.Length == f.Length == 10 && HoldsPower(f[..], x, e)
    modifies h
    ensures HoldsPower(h[..], x, 2 * e)
  {
    PowAdd(x, e, e);
    ResidueProduct(Fe(f[..]), Pow(x, e), Fe(f[..]), Pow(x, e));
    FeSquare(h, f);
  }

  /** for i = 1; i < n; i++ { FeSquare(&t, &t) } */
  method SquareLoop(t: array<int32>, n: nat, ghost x: int, ghost e: nat)
    requires t.Length == 10 && n > 0 && HoldsPower(t[..], x, e)
    modifies t
    ensures HoldsPower(t[..], x, Pow2(n - 1) * e)
  {
    ghost var d := e;
    for i := 1 to n
      invariant d == Pow2(i - 1) * e
      invariant HoldsPower(t[..], x, d)
    {
      SquarePower(t, t, x, d);
      Double(i, d, e);
      d := 2 * d;
    }
  }

  lemma Double(i: nat, d: nat, e: nat)
    requires i > 0 && d == Pow2(i - 1) * e
    ensures 2 * d == Pow2(i) * e
  {
    assert Pow2(i) * e == 2 * (Pow2(i - 1) * e);
  }

  lemma {:induction false} Pow2Add(m: nat, n: nat)
    ensures Pow2(m + n) == Pow2(m) * Pow2(n)
  {
    if m != 0 {
      Pow2Add(m - 1, n);
      assert Pow2(m + n) == 2 * Pow2(m - 1 + n);
    }
  }

  lemma Powers(n: nat)
    requires n == 5
    ensures Pow2(n) == 0x20 && Pow2(2 * n) == 0x400 && Pow2(4 * n) == 0x10_0000
    ensures Pow2(10 * n) == 0x4_0000_0000_0000 && Pow2(20 * n) == 0x10_0000_0000_0000_0000_0000_0000
  {
    assert Pow2(5) == 0x20;
    Pow2Add(n, n);
    Pow2Add(2 * n, 2 * n);
    Pow2Add(4 * n, 4 * n);
    Pow2Add(8 * n, 2 * n);
    Pow2Add(10 * n, 10 * n);
  }

  /** tmp = src^(2^n) by n squarings; dst = tmp * mul.  dst may be any of the others. */
  method ShiftMul(dst: array<int32>, tmp: array<int32>, src: array<int32>, mul: array<int32>, n: nat, ghost p: nat,
                  ghost x: int, ghost d: nat, ghost e: nat, ghost r: nat)
    requires dst.Length == tmp.Length == src.Length == mul.Length == 10 && tmp != mul
    requires n > 0 && p == Pow2(n) && r == p * d + e
    requires HoldsPower(src[..], x, d) && HoldsPower(mul[..], x, e)
    modifies dst, tmp
    ensures HoldsPower(dst[..], x, r)
  {
    ghost var m := mul[..];
    ShiftPower(tmp, src, n, p, x, d);
    assert mul[..] == m;
    MulPowers(dst, tmp, mul, x, p * d, e);
  }

  /** tmp = src^(2^n) */
  method ShiftPower(tmp: array<int32>, src: array<int32>, n: nat, ghost p: nat, ghost x: int, ghost d: nat)
    requires tmp.Length == src.Length == 10 && n > 0 && p == Pow2(n) && HoldsPower(src[..], x, d)
    modifies tmp
    ensures HoldsPower(tmp[..], x, p * d)
  {
    SquarePower(tmp, src, x, d);
    SquareLoop(tmp, n, x, 2 * d);
    HalfShift(n, d, p);
  }

  lemma HalfShift(n: nat, d: nat, p: nat)
    requires n > 0 && p == Pow2(n)
    ensures Pow2(n - 1) * (2 * d) == p * d >= 0
  {
    assert p * d == (2 * Pow2(n - 1)) * d;
  }

  /** The two steps that take z itself, with the wider bounds of an argument. */
  method SquareFirst(h: array<int32>, z: array<int32>, ghost x: int)
    requires h.Length == z.Length == 10 && Bounded(z[..], 110, 0x400_0000) && x == Fe(z[..])
    modifies h
    ensures HoldsPower(h[..], x, 2)
  {
    FirstPowers(x);
    FeSquare(h, z);
  }

  method MulFirst(h: array<int32>, z: array<int32>, g: array<int32>, ghost x: int, ghost e: nat)
    requires h.Length == z.Length == g.Length == 10 && Bounded(z[..], 110, 0x400_0000) && x == Fe(z[..])
    requires HoldsPower(g[..], x, e)
    modifies h
    ensures HoldsPower(h[..], x, 1 + e)
  {
    ResidueProduct(x, x, Fe(g[..]), Pow(x, e));
    FeMul(h, z, g);
  }

  lemma FirstPowers(x: int)
    ensures Pow(x, 1) == x && Pow(x, 2) == x * x
  {
    assert Pow(x, 1) == x * Pow(x, 0);
  }

  /** t0 = z^2, t1 = z^9 */
  method NinthPower(t0: array<int32>, t1: array<int32>, z: array<int32>, ghost x: int)
    requires t0.Length == t1.Length == z.Length == 10 && t0 != t1 && z != t0 && z != t1
    requires Bounded(z[..], 110, 0x400_0000) && x == Fe(z[..])
    modifies t0, t1
    ensures HoldsPower(t0[..], x, 2) && HoldsPower(t1[..], x, 9)
  {
    ghost var u := z[..];
    SquareFirst(t0, z, x);
    ghost var s := t0[..];
    SquarePower(t1, t0, x, 2);
    SquareLoop(t1, 2, x, 4);
    assert z[..] == u && t0[..] == s;
    MulFirst(t1, z, t1, x, 8);
    assert t0[..] == s;
  }

  /** t0 = z^11, t1 = z^31 */
  method InvertStart(t0: array<int32>, t1: array<int32>, t2: array<int32>, z: array<int32>, ghost x: int)
    requires t0.Length == t1.Length == t2.Length == z.Length == 10
    requires t0 != t1 && t1 != t2 && t0 != t2 && z != t0 && z != t1 && z != t2
    requires Bounded(z[..], 110, 0x400_0000) && x == Fe(z[..])
    modifies t0, t1, t2
    ensures HoldsPower(t0[..], x, 11) && HoldsPower(t1[..], x, 31)
  {
    NinthPower(t0, t1, z, x);
    MulPowers(t0, t0, t1, x, 2, 9);
    SquarePower(t2, t0, x, 11);
    MulPowers(t1, t1, t2, x, 9, 22);
  }

  /** out = z^(p - 2); out may be z. */
  method FeInvert(out: array<int32>, z: array<int32>)
    requires out.Length == z.Length == 10 && Bounded(z[..], 110, 0x400_0000)
    modifies out
    ensures Bounded(out[..], 101, 0x200_0000)
    ensures Residue(Fe(out[..])) == Residue(Pow(old(Fe(z[..])), P - 2))
  {
    var t0, t1, t2, t3 := new int32[10], new int32[10], new int32[10], new int32[10];
    ghost var x := Fe(z[..]);
    InvertStart(t0, t1, t2, z, x);
    Powers(5);
    ghost var e50, e250 := 0x3_ffff_ffff_ffff, 0x3ff_ffff_ffff_ffff_ffff_ffff_ffff_ffff_ffff_ffff_ffff_ffff_ffff_ffff_ffff_ffff;
    InvertTo50(t1, t2, t3, x, e50);
    InvertTo250(t1, t2, t3, x, e50, e250);
    ShiftMul(out, t1, t1, t0, 5, 0x20, x, e250, 11, P - 2);
  }

  /** t1 = z^31 becomes z^(2^50 - 1). */
  method InvertTo50(t1: array<int32>, t2: array<int32>, t3: array<int32>, ghost x: int, ghost e50: nat)
    requires t1.Length == t2.Length == t3.Length == 10 && t1 != t2 && t1 != t3 && t2 != t3
    requires HoldsPower(t1[..], x, 31) && e50 == 0x3_ffff_ffff_ffff
    modifies t1, t2, t3
    ensures HoldsPower(t1[..], x, e50)
  {
    Powers(5);
    ghost var e10, e20, e40 := 0x3ff, 0xf_ffff, 0xff_ffff_ffff;
    ShiftMul(t1, t2, t1, t1, 5, 0x20, x, 31, 31, e10);
    ShiftMul(t2, t2, t1, t1, 10, 0x400, x, e10, e10, e20);
    ShiftMul(t2, t3, t2, t2, 20, 0x10_0000, x, e20, e20, e40);
    ShiftMul(t1, t2, t2, t1, 10, 0x400, x, e40, e10, e50);
  }

  /** t1 = z^(2^50 - 1) becomes z^(2^250 - 1). */
  method InvertTo250(t1: array<int32>, t2: array<int32>, t3: array<int32>, ghost x: int, ghost e50: nat, ghost e250: nat)
    requires t1.Length == t2.Length == t3.Length == 10 && t1 != t2 && t1 != t3 && t2 != t3
    requires HoldsPower(t1[..], x, e50) && e50 == 0x3_ffff_ffff_ffff
    requires e250 == 0x3ff_ffff_ffff_ffff_ffff_ffff_ffff_ffff_ffff_ffff_ffff_ffff_ffff_ffff_ffff_ffff
    modifies t1, t2, t3
    ensures HoldsPower(t1[..], x, e250)
  {
    Powers(5);
    ghost var e100 := 0xf_ffff_ffff_ffff_ffff_ffff_ffff;
    ghost var e200 := 0xff_ffff_ffff_ffff_ffff_ffff_ffff_ffff_ffff_ffff_ffff_ffff_ffff;
    ShiftMul(t2, t2, t1, t1, 50, 0x4_0000_0000_0000, x, e50, e50, e100);
    ShiftMul(t2, t3, t2, t2, 100, 0x10_0000_0000_0000_0000_0000_0000, x, e100, e100, e200);
    ShiftMul(t1, t2, t2, t1, 50, 0x4_0000_0000_0000, x, e200, e50, e250);
  }
}
