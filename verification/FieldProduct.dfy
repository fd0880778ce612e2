/** Products and squares of field elements.  A method that verifies here has no overflow. */
module FieldProduct {
  import opened Ints
  import opened FieldSpec
  import opened FieldCombine

  lemma NonNegProduct(x: int, y: int)
    requires 0 <= x && 0 <= y
    ensures 0 <= x * y
  {
  }

  lemma ProductBound(x: int, y: int, a: int, b: int)
    requires -a <= x <= a && -b <= y <= b
    ensures -(a * b) <= x * y <= a * b
  {
    NonNegProduct(a - x, b + y);
    NonNegProduct(a + x, b - y);
    NonNegProduct(a - x, b - y);
    NonNegProduct(a + x, b + y);
  }

  lemma Scaled(x: int, y: int, a: int, f: int, b: int, g: int)
    requires x == a * f && y == b * g
    ensures x * y == (a * b) * (f * g)
  {
    assert x * y == (a * f) * (b * g);
  }

  type Index = i: nat | i < 10

  /** The product (a * f[i]) * (b * g[j]). */
  datatype Term = Term(a: int, i: Index, b: int, j: Index)

  /** The first n terms of a line. */
  function Terms(f: seq<int>, g: seq<int>, ts: seq<Term>, n: nat): (v: int)
    requires |f| == |g| == 10 && n <= |ts|
    decreases n
  {
    if n == 0 then 0
    else
      var t := ts[n - 1];
      Terms(f, g, ts, n - 1) + (t.a * t.b) * (f[t.i] * g[t.j])
  }

  /** x and y hold the scaled limbs that the first n terms multiply. */
  predicate Holds(x: seq<int64>, y: seq<int64>, f: seq<int>, g: seq<int>, ts: seq<Term>, n: nat)
    requires |f| == |g| == 10 && n <= |ts| == |x| == |y|
    decreases n
  {
    n == 0 || (&& Holds(x, y, f, g, ts, n - 1)
               && x[n - 1] as int == ts[n - 1].a * f[ts[n - 1].i]
               && y[n - 1] as int == ts[n - 1].b * g[ts[n - 1].j]
               && Abs(x[n - 1], 0x1000_0000) && Abs(y[n - 1], 0x8000_0000))
  }

  lemma {:induction false} HoldsPrefix(x: seq<int64>, y: seq<int64>, f: seq<int>, g: seq<int>, ts: seq<Term>, m: nat, n: nat)
    requires |f| == |g| == 10 && m <= n <= |ts| == |x| == |y|
    requires Holds(x, y, f, g, ts, n)
    ensures Holds(x, y, f, g, ts, m)
    decreases n
  {
    if m < n { HoldsPrefix(x, y, f, g, ts, m, n - 1); }
  }

  /** One line x0*y0 + x1*y1 + ... of a schoolbook product, added up from left to right. */
  method Dot(x: seq<int64>, y: seq<int64>, ghost f: seq<int>, ghost g: seq<int>, ghost ts: seq<Term>) returns (h: int64)
    requires |f| == |g| == 10 && |ts| == |x| == |y| <= 10
    requires Holds(x, y, f, g, ts, |ts|)
    ensures h as int == Terms(f, g, ts, |ts|)
    ensures Abs(h, |ts| * 0x800_0000_0000_0000)
  {
    h := 0;
    for i := 0 to |x|
      invariant h as int == Terms(f, g, ts, i)
      invariant Abs(h, i * 0x800_0000_0000_0000)
    {
      HoldsPrefix(x, y, f, g, ts, i + 1, |ts|);
      ProductBound(x[i] as int, y[i] as int, 0x1000_0000, 0x8000_0000);
      Scaled(x[i] as int, y[i] as int, ts[i].a, f[ts[i].i], ts[i].b, g[ts[i].j]);
      h := h + x[i] * y[i];
    }
  }

  /** The i-th product in limb k of f*g: f[i] times the g[j] with i + j congruent to k mod 10. */
  function TermAt(k: Index, i: Index): (t: Term)
  {
    Term(if i % 2 == 1 && k % 2 == 0 then 2 else 1, i,
         if i <= k then 1 else 19, if i <= k then k - i else k + 10 - i)
  }

  /** Limb k of f*g, summed over the first n limbs of f. */
  function Line(f: seq<int>, g: seq<int>, k: Index, n: nat): (v: int)
    requires |f| == |g| == 10 && n <= 10
    decreases n
  {
    if n == 0 then 0
    else
      var t := TermAt(k, n - 1);
      Line(f, g, k, n - 1) + (t.a * t.b) * (f[t.i] * g[t.j])
  }

  function LineTerms(k: Index): (ts: seq<Term>)
    ensures |ts| == 10
  {
    seq(10, i requires 0 <= i < 10 => TermAt(k, i))
  }

  lemma {:induction false} TermsAreLine(f: seq<int>, g: seq<int>, k: Index, n: nat)
    requires |f| == |g| == 10 && n <= 10
    ensures Terms(f, g, LineTerms(k), n) == Line(f, g, k, n)
  {
    if n != 0 { TermsAreLine(f, g, k, n - 1); }
  }

  /** The limbs of f, those of f with the odd ones doubled, the limbs of g, and 19 times those of g. */
  datatype Wide = Wide(f: seq<int64>, e: seq<int64>, g: seq<int64>, n: seq<int64>)

  predicate Widens(w: Wide, f: seq<int>, g: seq<int>)
  {
    && |f| == |g| == |w.f| == |w.e| == |w.g| == |w.n| == 10
    && (forall i :: 0 <= i < 10 ==> w.f[i] as int == f[i] && Abs(w.f[i], 0x1000_0000))
    && (forall i :: 0 <= i < 10 ==> w.e[i] as int == (if i % 2 == 1 then 2 * f[i] else f[i]) && Abs(w.e[i], 0x1000_0000))
    && (forall i :: 0 <= i < 10 ==> w.g[i] as int == g[i] && Abs(w.g[i], 0x8000_0000))
    && (forall i :: 0 <= i < 10 ==> w.n[i] as int == 19 * g[i] && Abs(w.n[i], 0x8000_0000))
  }

  method Lines01(w: Wide, ghost fi: seq<int>, ghost gi: seq<int>) returns (h0: int64, h1: int64)
    requires Widens(w, fi, gi)
    ensures h0 as int == Line(fi, gi, 0, |fi|) && Abs(h0, 0x5000_0000_0000_0000)
    ensures h1 as int == Line(fi, gi, 1, |fi|) && Abs(h1, 0x5000_0000_0000_0000)
  {
    var Wide(f, e, g, n) := w;
    h0 := Dot(e, [g[0], n[9], n[8], n[7], n[6], n[5], n[4], n[3], n[2], n[1]], fi, gi, LineTerms(0));
    TermsAreLine(fi, gi, 0, |fi|);
    h1 := Dot(f, [g[1], g[0], n[9], n[8], n[7], n[6], n[5], n[4], n[3], n[2]], fi, gi, LineTerms(1));
    TermsAreLine(fi, gi, 1, |fi|);
  }

  method Lines23(w: Wide, ghost fi: seq<int>, ghost gi: seq<int>) returns (h2: int64, h3: int64)
    requires Widens(w, fi, gi)
    ensures h2 as int == Line(fi, gi, 2, |fi|) && Abs(h2, 0x5000_0000_0000_0000)
    ensures h3 as int == Line(fi, gi, 3, |fi|) && Abs(h3, 0x5000_0000_0000_0000)
  {
    var Wide(f, e, g, n) := w;
    h2 := Dot(e, [g[2], g[1], g[0], n[9], n[8], n[7], n[6], n[5], n[4], n[3]], fi, gi, LineTerms(2));
    TermsAreLine(fi, gi, 2, |fi|);
    h3 := Dot(f, [g[3], g[2], g[1], g[0], n[9], n[8], n[7], n[6], n[5], n[4]], fi, gi, LineTerms(3));
    TermsAreLine(fi, gi, 3, |fi|);
  }

  method Lines45(w: Wide, ghost fi: seq<int>, ghost gi: seq<int>) returns (h4: int64, h5: int64)
    requires Widens(w, fi, gi)
    ensures h4 as int == Line(fi, gi, 4, |fi|) && Abs(h4, 0x5000_0000_0000_0000)
    ensures h5 as int == Line(fi, gi, 5, |fi|) && Abs(h5, 0x5000_0000_0000_0000)
  {
    var Wide(f, e, g, n) := w;
    h4 := Dot(e, [g[4], g[3], g[2], g[1], g[0], n[9], n[8], n[7], n[6], n[5]], fi, gi, LineTerms(4));
    TermsAreLine(fi, gi, 4, |fi|);
    h5 := Dot(f, [g[5], g[4], g[3], g[2], g[1], g[0], n[9], n[8], n[7], n[6]], fi, gi, LineTerms(5));
    TermsAreLine(fi, gi, 5, |fi|);
  }

  method Lines67(w: Wide, ghost fi: seq<int>, ghost gi: seq<int>) returns (h6: int64, h7: int64)
    requires Widens(w, fi, gi)
    ensures h6 as int == Line(fi, gi, 6, |fi|) && Abs(h6, 0x5000_0000_0000_0000)
    ensures h7 as int == Line(fi, gi, 7, |fi|) && Abs(h7, 0x5000_0000_0000_0000)
  {
    var Wide(f, e, g, n) := w;
    h6 := Dot(e, [g[6], g[5], g[4], g[3], g[2], g[1], g[0], n[9], n[8], n[7]], fi, gi, LineTerms(6));
    TermsAreLine(fi, gi, 6, |fi|);
    h7 := Dot(f, [g[7], g[6], g[5], g[4], g[3], g[2], g[1], g[0], n[9], n[8]], fi, gi, LineTerms(7));
    TermsAreLine(fi, gi, 7, |fi|);
  }

  method Lines89(w: Wide, ghost fi: seq<int>, ghost gi: seq<int>) returns (h8: int64, h9: int64)
    requires Widens(w, fi, gi)
    ensures h8 as int == Line(fi, gi, 8, |fi|) && Abs(h8, 0x5000_0000_0000_0000)
    ensures h9 as int == Line(fi, gi, 9, |fi|) && Abs(h9, 0x5000_0000_0000_0000)
  {
    var Wide(f, e, g, n) := w;
    h8 := Dot(e, [g[8], g[7], g[6], g[5], g[4], g[3], g[2], g[1], g[0], n[9]], fi, gi, LineTerms(8));
    TermsAreLine(fi, gi, 8, |fi|);
    h9 := Dot(f, [g[9], g[8], g[7], g[6], g[5], g[4], g[3], g[2], g[1], g[0]], fi, gi, LineTerms(9));
    TermsAreLine(fi, gi, 9, |fi|);
  }

  // ---------- what the ten lines of a product add up to

  /** Multiplication by 2^51, which moves every limb two places up. */
  function Rot2(g: seq<int>): (r: seq<int>)
    requires |g| == 10
  {
    seq(10, k requires 0 <= k < 10 => if k < 2 then 19 * g[k + 8] else g[k - 2])
  }

  /** Multiplication by 2^26, the weight of limb 1. */
  function Rot1(g: seq<int>): (r: seq<int>)
    requires |g| == 10
  {
    seq(10, k requires 0 <= k < 10 => if k == 0 then 38 * g[9] else if k % 2 == 0 then 2 * g[k - 1] else g[k - 1])
  }

  lemma Rot2Value(g: seq<int>)
    requires |g| == 10
    ensures Value(Rot2(g)) == 0x8_0000_0000_0000 * Value(g) - P * (g[8] + 0x400_0000 * g[9])
  {
    ValueUnfold(Rot2(g));
    ValueUnfold(g);
  }

  lemma Rot1Value(g: seq<int>)
    requires |g| == 10
    ensures Value(Rot1(g)) == 0x400_0000 * Value(g) - P * (2 * g[9])
  {
    ValueUnfold(Rot1(g));
    ValueUnfold(g);
  }

  /** g times the weight of limb i, as limbs. */
  function Rot(g: seq<int>, i: nat): (r: seq<int>)
    requires |g| == 10
    ensures |r| == 10
  {
    if i == 0 then g else if i == 1 then Rot1(g) else Rot2(Rot(g, i - 2))
  }

  /** 2^(25.5 i), rounded up. */
  function Weight(i: nat): (w: int)
  {
    if i == 0 then 1 else if i == 1 then 0x400_0000 else 0x8_0000_0000_0000 * Weight(i - 2)
  }

  lemma {:induction false} RotValue(g: seq<int>, i: nat) returns (q: int)
    requires |g| == 10
    ensures Value(Rot(g, i)) == Weight(i) * Value(g) - P * q
  {
    if i == 0 {
      q := 0;
    } else if i == 1 {
      Rot1Value(g);
      q := 2 * g[9];
    } else {
      var q' := RotValue(g, i - 2);
      var r := Rot(g, i - 2);
      Rot2Value(r);
      q := 0x8_0000_0000_0000 * q' + r[8] + 0x400_0000 * r[9];
      RotValueStep(Value(r), Weight(i - 2), Value(g), q', r[8] + 0x400_0000 * r[9]);
    }
  }

  lemma RotValueStep(v: int, w: int, g: int, q: int, t: int)
    requires v == w * g - P * q
    ensures 0x8_0000_0000_0000 * v - P * t == (0x8_0000_0000_0000 * w) * g - P * (0x8_0000_0000_0000 * q + t)
  {
  }

  lemma {:induction false} RotAt(g: seq<int>, i: nat, k: nat)
    requires |g| == 10 && i < 10 && k < 10
    ensures Rot(g, i)[k] == TermAt(k, i).a * TermAt(k, i).b * g[TermAt(k, i).j]
  {
    var t := TermAt(k, i);
    assert t.a == 1 || t.a == 2;
    if i >= 2 {
      var m := if k < 2 then k + 8 else k - 2;
      RotAt(g, i - 2, m);
      assert m % 2 == k % 2 && (i - 2) % 2 == i % 2;
      assert TermAt(m, i - 2) == Term(t.a, i - 2, if k < 2 then 1 else t.b, t.j);
    }
  }

  /** The ten limbs after the products with the first n limbs of f. */
  function Columns(f: seq<int>, g: seq<int>, n: nat): (c: seq<int>)
    requires |f| == |g| == 10 && n <= 10
    ensures |c| == 10
  {
    seq(10, k requires 0 <= k < 10 => Line(f, g, k, n))
  }

  function Prefix(f: seq<int>, n: nat): (v: int)
    requires n <= |f|
    decreases n
  {
    if n == 0 then 0 else Prefix(f, n - 1) + f[n - 1] * Weight(n - 1)
  }

  lemma ColumnAt(f: seq<int>, g: seq<int>, n: nat, k: nat)
    requires |f| == |g| == 10 && 0 < n <= 10 && k < 10
    ensures Columns(f, g, n)[k] == Columns(f, g, n - 1)[k] + f[n - 1] * Rot(g, n - 1)[k]
  {
    RotAt(g, n - 1, k);
    var t := TermAt(k, n - 1);
    Reassociate(t.a * t.b, f[t.i], g[t.j]);
  }

  lemma {:induction false} ValueZeros(t: seq<int>, i: nat)
    requires i <= |t| && forall k :: 0 <= k < |t| ==> t[k] == 0
    ensures ValueFrom(t, i) == 0
    decreases |t| - i
  {
    if i < |t| { ValueZeros(t, i + 1); }
  }

  lemma ColumnsRow(f: seq<int>, g: seq<int>, n: nat)
    requires |f| == |g| == 10 && 0 < n <= 10
    ensures Value(Columns(f, g, n)) == Value(Columns(f, g, n - 1)) + f[n - 1] * Value(Rot(g, n - 1))
  {
    forall k | 0 <= k < 10
      ensures Columns(f, g, n)[k] == Columns(f, g, n - 1)[k] + f[n - 1] * Rot(g, n - 1)[k]
    {
      ColumnAt(f, g, n, k);
    }
    ValueAddScaled(Columns(f, g, n - 1), Rot(g, n - 1), f[n - 1], Columns(f, g, n), 0);
  }

  lemma {:induction false} ColumnsValue(f: seq<int>, g: seq<int>, n: nat) returns (q: int)
    requires |f| == |g| == 10 && n <= 10
    ensures Value(Columns(f, g, n)) == Prefix(f, n) * Value(g) - P * q
  {
    if n == 0 {
      q := 0;
      ValueZeros(Columns(f, g, 0), 0);
    } else {
      var q1 := ColumnsValue(f, g, n - 1);
      var q2 := RotValue(g, n - 1);
      q := q1 + f[n - 1] * q2;
      ColumnsRow(f, g, n);
      ColumnsStep(Prefix(f, n - 1), f[n - 1], Weight(n - 1), Value(g), q1, q2,
                  Value(Columns(f, g, n - 1)), Value(Rot(g, n - 1)), Prefix(f, n), Value(Columns(f, g, n)));
    }
  }

  lemma Reassociate(c: int, f: int, g: int)
    ensures c * (f * g) == f * (c * g)
  {
  }

  lemma ColumnsStep(p: int, f: int, w: int, g: int, q1: int, q2: int, c: int, r: int, p': int, c': int)
    requires c == p * g - P * q1 && r == w * g - P * q2
    requires p' == p + f * w && c' == c + f * r
    ensures c' == p' * g - P * (q1 + f * q2)
  {
    assert f * r == f * (w * g - P * q2);
    assert p' * g == (p + f * w) * g;
  }

  lemma PrefixIsValue(f: seq<int>)
    requires |f| == 10
    ensures Prefix(f, 10) == Value(f)
  {
    ValueUnfold(f);
    assert Weight(0) == 0x1 && Weight(1) == 0x400_0000;
    assert Prefix(f, 2) == 0x1 * f[0] + 0x400_0000 * f[1];
    assert Weight(2) == 0x8_0000_0000_0000 && Weight(3) == 0x2000_0000_0000_0000_0000;
    assert Prefix(f, 4) == Prefix(f, 2) + 0x8_0000_0000_0000 * f[2] + 0x2000_0000_0000_0000_0000 * f[3];
    assert Weight(4) == 0x40_0000_0000_0000_0000_0000_0000 && Weight(5) == 0x1_0000_0000_0000_0000_0000_0000_0000_0000;
    assert Prefix(f, 6) == Prefix(f, 4) + 0x40_0000_0000_0000_0000_0000_0000 * f[4] +
      0x1_0000_0000_0000_0000_0000_0000_0000_0000 * f[5];
    assert Weight(6) == 0x200_0000_0000_0000_0000_0000_0000_0000_0000_0000 &&
      Weight(7) == 0x8_0000_0000_0000_0000_0000_0000_0000_0000_0000_0000_0000;
    assert Prefix(f, 8) == Prefix(f, 6) + 0x200_0000_0000_0000_0000_0000_0000_0000_0000_0000 * f[6] +
      0x8_0000_0000_0000_0000_0000_0000_0000_0000_0000_0000_0000 * f[7];
    assert Weight(8) == 0x1000_0000_0000_0000_0000_0000_0000_0000_0000_0000_0000_0000_0000 &&
      Weight(9) == 0x40_0000_0000_0000_0000_0000_0000_0000_0000_0000_0000_0000_0000_0000_0000;
    assert Prefix(f, 10) == Prefix(f, 8) + 0x1000_0000_0000_0000_0000_0000_0000_0000_0000_0000_0000_0000_0000 * f[8] +
      0x40_0000_0000_0000_0000_0000_0000_0000_0000_0000_0000_0000_0000_0000_0000 * f[9];
  }

  /** The ten lines of a product add up to f * g mod p. */
  lemma LinesAreProduct(f: seq<int>, g: seq<int>)
    requires |f| == |g| == 10
    ensures Residue(Value(Columns(f, g, |f|))) == Residue(Value(f) * Value(g))
  {
    var q := ColumnsValue(f, g, |f|);
    PrefixIsValue(f);
    ResidueShift(Value(f) * Value(g), q);
  }

  lemma SameTen(h: seq<int64>, c: seq<int>, b: int)
    requires |h| == |c| == 10
    requires h[0] as int == c[0] && Abs(h[0], b) && h[1] as int == c[1] && Abs(h[1], b) && h[2] as int == c[2] &&
             Abs(h[2], b) && h[3] as int == c[3] && Abs(h[3], b) && h[4] as int == c[4] && Abs(h[4], b)
    requires h[5] as int == c[5] && Abs(h[5], b) && h[6] as int == c[6] && Abs(h[6], b) && h[7] as int == c[7] &&
             Abs(h[7], b) && h[8] as int == c[8] && Abs(h[8], b) && h[9] as int == c[9] && Abs(h[9], b)
    ensures I64(h) == c && forall k :: 0 <= k < 10 ==> Abs(h[k], b)
  {
    forall k | 0 <= k < 10
      ensures h[k] as int == c[k] && Abs(h[k], b)
    {
      assert k == 0 || k == 1 || k == 2 || k == 3 || k == 4 || k == 5 || k == 6 || k == 7 || k == 8 || k == 9;
    }
  }

  method WidenFactors(f: seq<int32>, g: seq<int32>) returns (w: Wide)
    requires Bounded(f, 110, 0x400_0000) && Bounded(g, 110, 0x400_0000)
    ensures Widens(w, I32(f), I32(g))
  {
    forall i | 0 <= i < 10
      ensures -0x500_0000 <= f[i] <= 0x500_0000 && -0x500_0000 <= g[i] <= 0x500_0000
    {
      BoundedAt(f, 110, 0x400_0000, i);
      BoundedAt(g, 110, 0x400_0000, i);
    }
    w := Wide(seq(10, i requires 0 <= i < 10 => f[i] as int64),
              seq(10, i requires 0 <= i < 10 => (if i % 2 == 1 then 2 * f[i] else f[i]) as int64),
              seq(10, i requires 0 <= i < 10 => g[i] as int64),
              seq(10, i requires 0 <= i < 10 => (19 * g[i]) as int64));
  }

  method Products(w: Wide, ghost fi: seq<int>, ghost gi: seq<int>) returns (h: seq<int64>)
    requires Widens(w, fi, gi)
    ensures Combinable(h)
    ensures I64(h) == Columns(fi, gi, |fi|)
  {
    var h0, h1 := Lines01(w, fi, gi);
    var h2, h3 := Lines23(w, fi, gi);
    var h4, h5 := Lines45(w, fi, gi);
    var h6, h7 := Lines67(w, fi, gi);
    var h8, h9 := Lines89(w, fi, gi);
    h := [h0, h1, h2, h3, h4, h5, h6, h7, h8, h9];
    SameTen(h, Columns(fi, gi, |fi|), 0x5000_0000_0000_0000);
  }

  /** h = f * g; h may be f or g. */
  method FeMul(h: array<int32>, f: array<int32>, g: array<int32>)
    requires h.Length == f.Length == g.Length == 10
    requires Bounded(f[..], 110, 0x400_0000) && Bounded(g[..], 110, 0x400_0000)
    modifies h
    ensures Bounded(h[..], 101, 0x200_0000)
    ensures Residue(Fe(h[..])) == Residue(old(Fe(f[..]) * Fe(g[..])))
  {
    var w := WidenFactors(f[..], g[..]);
    var t := Products(w, I32(f[..]), I32(g[..]));
    LinesAreProduct(I32(f[..]), I32(g[..]));
    FeCombine(h, t);
  }

  // ---------- squares

  /** The limbs of f, twice those limbs, and 19 times the even limbs or 38 times the odd ones. */
  datatype WideSquare = WideSquare(f: seq<int64>, d: seq<int64>, n: seq<int64>)

  predicate WidensSquare(w: WideSquare, f: seq<int>)
  {
    && |f| == |w.f| == |w.d| == |w.n| == 10
    && (forall i :: 0 <= i < 10 ==> w.f[i] as int == f[i] && Abs(w.f[i], 0x1000_0000))
    && (forall i :: 0 <= i < 10 ==> w.d[i] as int == 2 * f[i] && Abs(w.d[i], 0x1000_0000))
    && (forall i :: 0 <= i < 10 ==> w.n[i] as int == (if i % 2 == 0 then 19 * f[i] else 38 * f[i]) && Abs(w.n[i], 0x8000_0000))
  }

  /** The products of line k of feSquare. */
  function SquareTerms(k: Index): (ts: seq<Term>)
  {
    if k == 0 then [Term(1, 0, 1, 0), Term(2, 1, 38, 9), Term(2, 2, 19, 8), Term(2, 3, 38, 7), Term(2, 4, 19, 6),
      Term(1, 5, 38, 5)]
    else if k == 1 then [Term(2, 0, 1, 1), Term(1, 2, 38, 9), Term(2, 3, 19, 8), Term(1, 4, 38, 7), Term(2, 5, 19, 6)]
    else if k == 2 then [Term(2, 0, 1, 2), Term(2, 1, 1, 1), Term(2, 3, 38, 9), Term(2, 4, 19, 8), Term(2, 5, 38, 7),
      Term(1, 6, 19, 6)]
    else if k == 3 then [Term(2, 0, 1, 3), Term(2, 1, 1, 2), Term(1, 4, 38, 9), Term(2, 5, 19, 8), Term(1, 6, 38, 7)]
    else if k == 4 then [Term(2, 0, 1, 4), Term(2, 1, 2, 3), Term(1, 2, 1, 2), Term(2, 5, 38, 9), Term(2, 6, 19, 8),
      Term(1, 7, 38, 7)]
    else if k == 5 then [Term(2, 0, 1, 5), Term(2, 1, 1, 4), Term(2, 2, 1, 3), Term(1, 6, 38, 9), Term(2, 7, 19, 8)]
    else if k == 6 then [Term(2, 0, 1, 6), Term(2, 1, 2, 5), Term(2, 2, 1, 4), Term(2, 3, 1, 3), Term(2, 7, 38, 9),
      Term(1, 8, 19, 8)]
    else if k == 7 then [Term(2, 0, 1, 7), Term(2, 1, 1, 6), Term(2, 2, 1, 5), Term(2, 3, 1, 4), Term(1, 8, 38, 9)]
    else if k == 8 then [Term(2, 0, 1, 8), Term(2, 1, 2, 7), Term(2, 2, 1, 6), Term(2, 3, 2, 5), Term(1, 4, 1, 4),
      Term(1, 9, 38, 9)]
    else [Term(2, 0, 1, 9), Term(2, 1, 1, 8), Term(2, 2, 1, 7), Term(2, 3, 1, 6), Term(2, 4, 1, 5)]
  }

  lemma SquareLine0(f: seq<int>)
    requires |f| == 10
    ensures Terms(f, f, SquareTerms(0), |SquareTerms(0)|) == Line(f, f, 0, |f|)
  {
    assert Terms(f, f, SquareTerms(0), 6) == Line(f, f, 0, 10);
  }

  lemma SquareLine1(f: seq<int>)
    requires |f| == 10
    ensures Terms(f, f, SquareTerms(1), |SquareTerms(1)|) == Line(f, f, 1, |f|)
  {
    assert Terms(f, f, SquareTerms(1), 5) == Line(f, f, 1, 10);
  }

  lemma SquareLine2(f: seq<int>)
    requires |f| == 10
    ensures Terms(f, f, SquareTerms(2), |SquareTerms(2)|) == Line(f, f, 2, |f|)
  {
    assert Terms(f, f, SquareTerms(2), 6) == Line(f, f, 2, 10);
  }

  lemma SquareLine3(f: seq<int>)
    requires |f| == 10
    ensures Terms(f, f, SquareTerms(3), |SquareTerms(3)|) == Line(f, f, 3, |f|)
  {
    assert Terms(f, f, SquareTerms(3), 5) == Line(f, f, 3, 10);
  }

  lemma SquareLine4(f: seq<int>)
    requires |f| == 10
    ensures Terms(f, f, SquareTerms(4), |SquareTerms(4)|) == Line(f, f, 4, |f|)
  {
    assert Terms(f, f, SquareTerms(4), 6) == Line(f, f, 4, 10);
  }

  lemma SquareLine5(f: seq<int>)
    requires |f| == 10
    ensures Terms(f, f, SquareTerms(5), |SquareTerms(5)|) == Line(f, f, 5, |f|)
  {
    assert Terms(f, f, SquareTerms(5), 5) == Line(f, f, 5, 10);
  }

  lemma SquareLine6(f: seq<int>)
    requires |f| == 10
    ensures Terms(f, f, SquareTerms(6), |SquareTerms(6)|) == Line(f, f, 6, |f|)
  {
    assert Terms(f, f, SquareTerms(6), 6) == Line(f, f, 6, 10);
  }

  lemma SquareLine7(f: seq<int>)
    requires |f| == 10
    ensures Terms(f, f, SquareTerms(7), |SquareTerms(7)|) == Line(f, f, 7, |f|)
  {
    assert Terms(f, f, SquareTerms(7), 5) == Line(f, f, 7, 10);
  }

  lemma SquareLine8(f: seq<int>)
    requires |f| == 10
    ensures Terms(f, f, SquareTerms(8), |SquareTerms(8)|) == Line(f, f, 8, |f|)
  {
    assert Terms(f, f, SquareTerms(8), 6) == Line(f, f, 8, 10);
  }

  lemma SquareLine9(f: seq<int>)
    requires |f| == 10
    ensures Terms(f, f, SquareTerms(9), |SquareTerms(9)|) == Line(f, f, 9, |f|)
  {
    assert Terms(f, f, SquareTerms(9), 5) == Line(f, f, 9, 10);
  }

  method Square0(w: WideSquare, ghost fi: seq<int>) returns (h: int64)
    requires WidensSquare(w, fi)
    ensures h as int == Line(fi, fi, 0, |fi|) && Abs(h, 0x3000_0000_0000_0000)
  {
    var WideSquare(f, d, n) := w;
    h := Dot([f[0], d[1], d[2], d[3], d[4], f[5]], [f[0], n[9], n[8], n[7], n[6], n[5]], fi, fi, SquareTerms(0));
    SquareLine0(fi);
  }

  method Square1(w: WideSquare, ghost fi: seq<int>) returns (h: int64)
    requires WidensSquare(w, fi)
    ensures h as int == Line(fi, fi, 1, |fi|) && Abs(h, 0x3000_0000_0000_0000)
  {
    var WideSquare(f, d, n) := w;
    h := Dot([d[0], f[2], d[3], f[4], d[5]], [f[1], n[9], n[8], n[7], n[6]], fi, fi, SquareTerms(1));
    SquareLine1(fi);
  }

  method Square2(w: WideSquare, ghost fi: seq<int>) returns (h: int64)
    requires WidensSquare(w, fi)
    ensures h as int == Line(fi, fi, 2, |fi|) && Abs(h, 0x3000_0000_0000_0000)
  {
    var WideSquare(f, d, n) := w;
    h := Dot([d[0], d[1], d[3], d[4], d[5], f[6]], [f[2], f[1], n[9], n[8], n[7], n[6]], fi, fi, SquareTerms(2));
    SquareLine2(fi);
  }

  method Square3(w: WideSquare, ghost fi: seq<int>) returns (h: int64)
    requires WidensSquare(w, fi)
    ensures h as int == Line(fi, fi, 3, |fi|) && Abs(h, 0x3000_0000_0000_0000)
  {
    var WideSquare(f, d, n) := w;
    h := Dot([d[0], d[1], f[4], d[5], f[6]], [f[3], f[2], n[9], n[8], n[7]], fi, fi, SquareTerms(3));
    SquareLine3(fi);
  }

  method Square4(w: WideSquare, ghost fi: seq<int>) returns (h: int64)
    requires WidensSquare(w, fi)
    ensures h as int == Line(fi, fi, 4, |fi|) && Abs(h, 0x3000_0000_0000_0000)
  {
    var WideSquare(f, d, n) := w;
    h := Dot([d[0], d[1], f[2], d[5], d[6], f[7]], [f[4], d[3], f[2], n[9], n[8], n[7]], fi, fi, SquareTerms(4));
    SquareLine4(fi);
  }

  method Square5(w: WideSquare, ghost fi: seq<int>) returns (h: int64)
    requires WidensSquare(w, fi)
    ensures h as int == Line(fi, fi, 5, |fi|) && Abs(h, 0x3000_0000_0000_0000)
  {
    var WideSquare(f, d, n) := w;
    h := Dot([d[0], d[1], d[2], f[6], d[7]], [f[5], f[4], f[3], n[9], n[8]], fi, fi, SquareTerms(5));
    SquareLine5(fi);
  }

  method Square6(w: WideSquare, ghost fi: seq<int>) returns (h: int64)
    requires WidensSquare(w, fi)
    ensures h as int == Line(fi, fi, 6, |fi|) && Abs(h, 0x3000_0000_0000_0000)
  {
    var WideSquare(f, d, n) := w;
    h := Dot([d[0], d[1], d[2], d[3], d[7], f[8]], [f[6], d[5], f[4], f[3], n[9], n[8]], fi, fi, SquareTerms(6));
    SquareLine6(fi);
  }

  method Square7(w: WideSquare, ghost fi: seq<int>) returns (h: int64)
    requires WidensSquare(w, fi)
    ensures h as int == Line(fi, fi, 7, |fi|) && Abs(h, 0x3000_0000_0000_0000)
  {
    var WideSquare(f, d, n) := w;
    h := Dot([d[0], d[1], d[2], d[3], f[8]], [f[7], f[6], f[5], f[4], n[9]], fi, fi, SquareTerms(7));
    SquareLine7(fi);
  }

  method Square8(w: WideSquare, ghost fi: seq<int>) returns (h: int64)
    requires WidensSquare(w, fi)
    ensures h as int == Line(fi, fi, 8, |fi|) && Abs(h, 0x3000_0000_0000_0000)
  {
    var WideSquare(f, d, n) := w;
    h := Dot([d[0], d[1], d[2], d[3], f[4], f[9]], [f[8], d[7], f[6], d[5], f[4], n[9]], fi, fi, SquareTerms(8));
    SquareLine8(fi);
  }

  method Square9(w: WideSquare, ghost fi: seq<int>) returns (h: int64)
    requires WidensSquare(w, fi)
    ensures h as int == Line(fi, fi, 9, |fi|) && Abs(h, 0x3000_0000_0000_0000)
  {
    var WideSquare(f, d, n) := w;
    h := Dot([d[0], d[1], d[2], d[3], d[4]], [f[9], f[8], f[7], f[6], f[5]], fi, fi, SquareTerms(9));
    SquareLine9(fi);
  }

  method WidenSquare(f: seq<int32>) returns (w: WideSquare)
    requires Bounded(f, 165, 0x400_0000)
    ensures WidensSquare(w, I32(f))
  {
    forall i | 0 <= i < 10
      ensures Abs(f[i] as int64, if i % 2 == 0 then 110_729_625 else 55_364_812)
    {
      BoundedAt(f, 165, 0x400_0000, i);
    }
    w := WideSquare(seq(10, i requires 0 <= i < 10 => f[i] as int64),
                    seq(10, i requires 0 <= i < 10 => (2 * f[i]) as int64),
                    seq(10, i requires 0 <= i < 10 => if i % 2 == 0 then 19 * f[i] as int64 else 38 * f[i] as int64));
  }

  /** feSquare: the ten sums of products of f * f, each product of two different limbs taken once and doubled. */
  method Squares(f: seq<int32>) returns (h: seq<int64>)
    requires Bounded(f, 165, 0x400_0000)
    ensures |h| == 10 && forall k :: 0 <= k < 10 ==> Abs(h[k], 0x3000_0000_0000_0000)
    ensures I64(h) == Columns(I32(f), I32(f), |f|)
  {
    var w := WidenSquare(f);
    ghost var fi := I32(f);
    var h0 := Square0(w, fi);
    var h1 := Square1(w, fi);
    var h2 := Square2(w, fi);
    var h3 := Square3(w, fi);
    var h4 := Square4(w, fi);
    var h5 := Square5(w, fi);
    var h6 := Square6(w, fi);
    var h7 := Square7(w, fi);
    var h8 := Square8(w, fi);
    var h9 := Square9(w, fi);
    h := [h0, h1, h2, h3, h4, h5, h6, h7, h8, h9];
    SameTen(h, Columns(fi, fi, |fi|), 0x3000_0000_0000_0000);
  }

  /** h = f * f; h may be f. */
  method FeSquare(h: array<int32>, f: array<int32>)
    requires h.Length == f.Length == 10
    requires Bounded(f[..], 110, 0x400_0000)
    modifies h
    ensures Bounded(h[..], 101, 0x200_0000)
    ensures Residue(Fe(h[..])) == Residue(old(Fe(f[..]) * Fe(f[..])))
  {
    var t := Squares(f[..]);
    LinesAreProduct(I32(f[..]), I32(f[..]));
    FeCombine(h, t);
  }

  /** h = 2 * f * f; h may be f. */
  method FeSquare2(h: array<int32>, f: array<int32>)
    requires h.Length == f.Length == 10
    requires Bounded(f[..], 165, 0x400_0000)
    modifies h
    ensures Bounded(h[..], 101, 0x200_0000)
    ensures Residue(Fe(h[..])) == Residue(old(2 * (Fe(f[..]) * Fe(f[..]))))
  {
    var t := DoubledSquares(f[..]);
    FeCombine(h, t);
  }

  method DoubledSquares(f: seq<int32>) returns (t2: seq<int64>)
    requires Bounded(f, 165, 0x400_0000)
    ensures Combinable(t2) && Residue(Value(I64(t2))) == Residue(2 * (Fe(f) * Fe(f)))
  {
    var t := Squares(f);
    t2 := seq(10, i requires 0 <= i < 10 => t[i] + t[i]);
    ghost var c := I64(t);
    ValueAddScaled(c, c, 1, I64(t2), 0);
    LinesAreProduct(I32(f), I32(f));
    ResidueDouble(Value(c), Fe(f) * Fe(f));
  }

  lemma ResidueDouble(x: int, y: int)
    requires Residue(x) == Residue(y)
    ensures Residue(x + x) == Residue(2 * y)
  {
  }
}
