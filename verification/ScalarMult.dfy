/**
 * The scalar multiplications of tendermint/ed25519/edwards25519/edwards25519.go over any abelian group
 * with a table of the multiples of its base point.
 */
module ScalarMult {
  import opened Ints
  import opened Recode
  import opened Radix16
  import opened Group

  // ---------- a A + b B

  lemma AddMultiples<P(!new)>(g: Group<P>, m: int, n: int, x: P)
    requires Abelian(g)
    ensures g.add(Mul(g, m, x), Mul(g, n, x)) == Mul(g, m + n, x)
  {
    MulAdd(g, m, n, x);
  }

  /** A, 3A, 5A, ..., 15A */
  method OddMultiples<P(!new)>(g: Group<P>, A: P) returns (ai: seq<P>)
    requires Abelian(g)
    ensures |ai| == 8 && forall j :: 0 <= j < 8 ==> ai[j] == Mul(g, 2 * j + 1, A)
  {
    MulOne(g, A);
    ai := [A];
    var a2 := g.add(A, A);
    AddMultiples(g, 1, 1, A);
    var i := 0;
    while i < 7
      invariant 0 <= i <= 7 && |ai| == i + 1
      invariant forall j :: 0 <= j <= i ==> ai[j] == Mul(g, 2 * j + 1, A)
    {
      AddMultiples(g, 2, 2 * i + 1, A);
      ai := ai + [g.add(a2, ai[i])];
      i := i + 1;
    }
  }

  /** t + d X, from a table of the odd multiples of X. */
  method AddDigit<P(!new)>(g: Group<P>, t: P, d: int8, table: seq<P>, ghost x: P) returns (u: P)
    requires Abelian(g) && (d == 0 || d as int % 2 == 1) && -15 <= d <= 15
    requires |table| == 8 && forall j :: 0 <= j < 8 ==> table[j] == Mul(g, 2 * j + 1, x)
    ensures u == g.add(t, Mul(g, d as int, x))
  {
    if d > 0 {
      u := g.add(t, table[d / 2]);
    } else if d < 0 {
      u := g.add(t, g.neg(table[(-d) / 2]));
      MulNeg(g, -d as int, x);
    } else {
      u := t;
      MulOne(g, x);
      Zero(g, t);
    }
  }

  predicate OddDigits(r: seq<int8>)
  {
    |r| == 256 && forall i :: 0 <= i < 256 ==> (r[i] == 0 || r[i] as int % 2 == 1) && -15 <= r[i] <= 15
  }

  lemma ZeroLin<P(!new)>(g: Group<P>, x: P, y: P)
    requires Abelian(g)
    ensures Lin(g, 0, x, 0, y) == g.zero
  {
    Zero(g, g.zero);
  }

  lemma DoubledAndAdded<P(!new)>(g: Group<P>, x: int, A: P, y: int, B: P, a: int, b: int)
    requires Abelian(g)
    ensures var r := Lin(g, x, A, y, B);
            g.add(g.add(g.add(r, r), Mul(g, a, A)), Mul(g, b, B)) == Lin(g, a + 2 * x, A, b + 2 * y, B)
  {
    LinTwice(g, x, A, y, B);
    LinMoreX(g, 2 * x, A, 2 * y, B, a);
    LinMoreY(g, a + 2 * x, A, 2 * y, B, b);
  }

  /** One turn of the main loop: from x A + y B to (2 x + a) A + (2 y + b) B. */
  method DoubleAndAdd<P(!new)>(g: Group<P>, r: P, a: int8, ai: seq<P>, ghost A: P, b: int8, bi: seq<P>, ghost B: P,
                               ghost x: int, ghost y: int)
    returns (s: P)
    requires Abelian(g) && r == Lin(g, x, A, y, B)
    requires (a == 0 || a as int % 2 == 1) && -15 <= a <= 15 && (b == 0 || b as int % 2 == 1) && -15 <= b <= 15
    requires |ai| == 8 && forall j :: 0 <= j < 8 ==> ai[j] == Mul(g, 2 * j + 1, A)
    requires |bi| == 8 && forall j :: 0 <= j < 8 ==> bi[j] == Mul(g, 2 * j + 1, B)
    ensures s == Lin(g, a as int + 2 * x, A, b as int + 2 * y, B)
  {
    DoubledAndAdded(g, x, A, y, B, a as int, b as int);
    var t := g.add(r, r);
    t := AddDigit(g, t, a, ai, A);
    s := AddDigit(g, t, b, bi, B);
  }

  /** r = 2 r + a A + b B for each pair of digits from the top, leading zeros skipped. */
  method Combine<P(!new)>(g: Group<P>, a: seq<int8>, A: P, b: seq<int8>, bi: seq<P>, ghost B: P) returns (r: P)
    requires Abelian(g) && OddDigits(a) && OddDigits(b)
    requires |bi| == 8 && forall j :: 0 <= j < 8 ==> bi[j] == Mul(g, 2 * j + 1, B)
    ensures r == Lin(g, SumFrom(I8(a), 0), A, SumFrom(I8(b), 0), B)
  {
    var ai := OddMultiples(g, A);
    r := g.zero;
    ZeroLin(g, A, B);
    ghost var da, db := I8(a), I8(b);
    var i := 255;
    while i >= 0 && a[i] == 0 && b[i] == 0
      invariant -1 <= i <= 255
      invariant SumFrom(da, i + 1) == 0 && SumFrom(db, i + 1) == 0
    {
      i := i - 1;
    }
    while i >= 0
      invariant -1 <= i <= 255
      invariant r == Lin(g, SumFrom(da, i + 1), A, SumFrom(db, i + 1), B)
    {
      r := DoubleAndAdd(g, r, a[i], ai, A, b[i], bi, B, SumFrom(da, i + 1), SumFrom(db, i + 1));
      i := i - 1;
    }
  }

  /** What slide makes of a number: the number itself unless a carry is lost. */
  ghost function Slid(n: nat): int
  {
    n - Shift(Rest(n, 256), 256)
  }

  lemma SlideDigits(n: nat, r: seq<int8>)
    requires |r| == 256 && forall i :: 0 <= i < 256 ==> r[i] as int == Digit(Rest(n, i))
    ensures OddDigits(r) && SumFrom(I8(r), 0) == Slid(n)
  {
    forall i | 0 <= i < 256 ensures (r[i] == 0 || r[i] as int % 2 == 1) && -15 <= r[i] <= 15 {
      if r[i] != 0 { OddDigit(Rest(n, i)); }
    }
    DigitsValue(n, I8(r));
  }

  lemma {:induction false} BytesBits(k: nat)
    ensures Pow256(k) == Pow2(8 * k)
  {
    if k > 0 {
      BytesBits(k - 1);
      EightMore(8 * (k - 1));
    }
  }

  lemma TimesPower(t: int, p: nat)
    requires 0 <= t <= 256
    ensures t * p <= 256 * p && (t <= 128 ==> t * p <= 128 * p)
  {
    assert (256 - t) * p >= 0;
    if t <= 128 { assert (128 - t) * p >= 0; }
  }

  lemma EightMore(j: nat)
    ensures Pow2(j + 7) == 128 * Pow2(j) && Pow2(j + 8) == 256 * Pow2(j)
  {
    assert Pow2(j + 8) == 2 * Pow2(j + 7) == 4 * Pow2(j + 6) == 8 * Pow2(j + 5) == 16 * Pow2(j + 4);
    assert Pow2(j + 4) == 2 * Pow2(j + 3) == 4 * Pow2(j + 2) == 8 * Pow2(j + 1) == 16 * Pow2(j);
  }

  lemma BytesBelow(a: bytes, k: nat)
    requires |a| == k + 1
    ensures LE(a) < Pow2(8 * k + 8)
    ensures a[k] <= 127 ==> LE(a) < Pow2(8 * k + 7)
  {
    LETop(a, 0);
    BytesBits(k);
    EightMore(8 * k);
    TimesPower(a[k] as int + 1, Pow256(k));
  }

  lemma SlidExact(a: bytes)
    requires |a| == 32
    ensures Slid(LE(a)) == LE(a) <==> Rest(LE(a), 256) == 0
    ensures a[31] <= 127 ==> Slid(LE(a)) == LE(a)
  {
    BytesBelow(a, |a| - 1);
    NothingLeft(LE(a));
    LeftDecides(Slid(LE(a)), Rest(LE(a), 256), 256, LE(a));
  }

  /** r = a A + b B, with each scalar as slide spells it; below 2^255 that is the scalar. */
  method DoubleScalarMult<P(!new)>(g: Group<P>, a: array<byte>, A: P, b: array<byte>, bi: seq<P>, ghost B: P) returns (r: P)
    requires Abelian(g) && a.Length == b.Length == 32
    requires |bi| == 8 && forall j :: 0 <= j < 8 ==> bi[j] == Mul(g, 2 * j + 1, B)
    ensures r == Lin(g, Slid(LE(a[..])), A, Slid(LE(b[..])), B)
    ensures a[31] <= 127 && b[31] <= 127 ==> r == Lin(g, LE(a[..]), A, LE(b[..]), B)
  {
    var aSlide, bSlide := new int8[256], new int8[256];
    Slide(aSlide, a);
    Slide(bSlide, b);
    SlideDigits(LE(a[..]), aSlide[..]);
    SlideDigits(LE(b[..]), bSlide[..]);
    SlidExact(a[..]);
    SlidExact(b[..]);
    r := Combine(g, aSlide[..], A, bSlide[..], bi, B);
  }

  // ---------- a B from the table

  /** base[pos][j] = (j + 1) 256^pos B */
  ghost predicate BaseTable<P(!new)>(g: Group<P>, base: seq<seq<P>>, B: P)
  {
    && |base| == 32
    && forall pos :: 0 <= pos < 32 ==> |base[pos]| == 8 && forall j :: 0 <= j < 8 ==>
      base[pos][j] == Mul(g, (j + 1) * Pow256(pos), B)
  }

  // the bit forms selectPoint is built from

  /** A small number as a 32-bit word. */
  function Word(n: int): (w: bv32)
    requires -8 <= n <= 8
    decreases if n < 0 then -n else n
  {
    if n == 0 then 0 else if n > 0 then Word(n - 1) + 1 else Word(n + 1) - 1
  }

  function Equal(b: bv32, c: bv32): (r: bv32)
  {
    ((b ^ c) - 1) >> 31
  }

  function Negative(b: bv32): (r: bv32)
  {
    (b >> 31) & 1
  }

  function Abs(b: bv32, negative: bv32): (r: bv32)
  {
    b - (((0 - negative) & b) << 1)
  }

  lemma TopBitOfPredecessor(x: bv32)
    ensures (x - 1) >> 31 == if x == 0 || x > 0x8000_0000 then 1 else 0
  {
  }

  /** equal is 1 for equal arguments, and 0 otherwise unless they differ in the sign bit and in another. */
  lemma EqualBits(b: bv32, c: bv32)
    ensures Equal(b, c) == if b == c || (b ^ c) > 0x8000_0000 then 1 else 0
  {
    TopBitOfPredecessor(b ^ c);
  }

  lemma SmallXor(b: bv32, c: bv32)
    requires b <= 15 && c <= 15
    ensures b ^ c <= 15
  {
  }

  lemma NegativeBits(b: bv32)
    ensures Negative(b) == if b >= 0x8000_0000 then 1 else 0
  {
  }

  lemma NegatedBits(b: bv32)
    ensures Abs(b, 1) == 0 - b
  {
  }

  lemma KeptBits(b: bv32)
    ensures Abs(b, 0) == b
  {
  }

  lemma Words()
    ensures Word(0) == 0 && Word(1) == 1 && Word(2) == 2 && Word(3) == 3 && Word(4) == 4
    ensures Word(5) == 5 && Word(6) == 6 && Word(7) == 7 && Word(8) == 8
  {
    assert Word(3) == 3;
    assert Word(6) == 6;
  }

  lemma {:induction false} WordNegated(n: nat)
    requires n <= 8
    ensures Word(0 - n) == 0 - Word(n)
  {
    if n > 0 {
      WordNegated(n - 1);
      Opposite(Word(n - 1));
    }
  }

  lemma Opposite(w: bv32)
    ensures (0 - w) - 1 == 0 - (w + 1)
  {
  }

  lemma SmallNegated(w: bv32)
    requires 1 <= w <= 8
    ensures 0 - w >= 0x8000_0000 && 0 - (0 - w) == w
  {
  }

  /** Sign and size of a digit, from its word. */
  lemma DigitWord(b: int)
    requires -8 <= b <= 8
    ensures Negative(Word(b)) == if b < 0 then 1 else 0
    ensures Abs(Word(b), Negative(Word(b))) == Word(if b < 0 then -b else b)
  {
    Words();
    NegativeBits(Word(b));
    if b < 0 {
      WordNegated(-b);
      SmallNegated(Word(-b));
      NegatedBits(Word(b));
    } else {
      KeptBits(Word(b));
    }
  }

  /** Words of small numbers are equal for equal numbers only. */
  lemma EqualWords(x: nat, y: nat)
    requires x <= 8 && y <= 8
    ensures Equal(Word(x), Word(y)) == if x == y then 1 else 0
  {
    Words();
    EqualBits(Word(x), Word(y));
    SmallXor(Word(x), Word(y));
  }

  /** f ^ (-b & (f ^ g)) is g for b = 1 and f for b = 0. */
  lemma MoveBits(f: bv32, g: bv32, b: bv32)
    requires b == 0 || b == 1
    ensures f ^ ((0 - b) & (f ^ g)) == if b == 1 then g else f
  {
  }

  /** FeCMove, on the words of the limbs */
  method FeCMove(f: array<bv32>, g: array<bv32>, b: bv32)
    requires f.Length == g.Length == 10 && (b == 0 || b == 1)
    modifies f
    ensures f[..] == if b == 1 then old(g[..]) else old(f[..])
  {
    for i := 0 to 10
      invariant forall j :: 0 <= j < i ==> f[j] == old(if b == 1 then g[j] else f[j])
      invariant forall j :: i <= j < 10 ==> f[j] == old(f[j]) && g[j] == old(g[j])
    {
      MoveBits(f[i], g[i], b);
      f[i] := f[i] ^ ((0 - b) & (f[i] ^ g[i]));
    }
  }

  /** What a conditional move leaves in t. */
  function Moved<P>(t: P, u: P, b: bv32): (r: P)
    requires b == 0 || b == 1
  {
    if b == 1 then u else t
  }

  /** selectPoint's loop: every entry is looked at, and the one for |b| moved into t. */
  method LookUp<P>(zero: P, row: seq<P>, bAbs: bv32, ghost n: nat) returns (t: P)
    requires |row| == 8 && n <= 8 && bAbs == Word(n)
    ensures t == if n > 0 then row[n - 1] else zero
  {
    t := zero;
    var i := 0;
    while i < 8
      invariant 0 <= i <= 8
      invariant t == if 1 <= n <= i then row[n - 1] else zero
    {
      EqualWords(n, i + 1);
      t := Moved(t, row[i], Equal(bAbs, Word(i + 1)));
      i := i + 1;
    }
  }

  /** t = b 256^pos B */
  method SelectPoint<P(!new)>(g: Group<P>, base: seq<seq<P>>, pos: nat, b: int8, ghost B: P) returns (t: P)
    requires Abelian(g) && BaseTable(g, base, B) && pos < 32 && -8 <= b <= 8
    ensures t == Mul(g, b as int * Pow256(pos), B)
  {
    ghost var n: int := if b < 0 then 0 - b as int else b as int;
    DigitWord(b as int);
    var bNegative := Negative(Word(b as int));
    var bAbs := Abs(Word(b as int), bNegative);
    t := LookUp(g.zero, base[pos], bAbs, n);
    TableEntry(g, base, pos, n, B);
    if b < 0 {
      MulNeg(g, n * Pow256(pos), B);
      NegTimes(b as int, n, Pow256(pos));
    }
    t := Moved(t, g.neg(t), bNegative);
  }

  lemma NegTimes(b: int, n: int, w: int)
    requires b == -n
    ensures b * w == -(n * w)
  {
  }

  lemma TableEntry<P(!new)>(g: Group<P>, base: seq<seq<P>>, pos: nat, n: nat, B: P)
    requires Abelian(g) && BaseTable(g, base, B) && pos < 32 && n <= 8
    ensures n > 0 ==> base[pos][n - 1] == Mul(g, n * Pow256(pos), B)
    ensures n == 0 ==> g.zero == Mul(g, n * Pow256(pos), B)
  {
    if n == 0 { MulOne(g, B); } else { assert base[pos][n - 1] == Mul(g, ((n - 1) + 1) * Pow256(pos), B); }
  }

  /** e[p] + 256 e[2+p] + ... + 256^(k-1) e[2(k-1)+p] */
  function PassSum(e: seq<int>, k: nat, p: nat): (v: int)
    requires 2 * k <= |e| && p <= 1
  {
    if k == 0 then 0 else PassSum(e, k - 1, p) + e[2 * (k - 1) + p] * Pow256(k - 1)
  }

  lemma WeightTimes(w: int, x: int, y: int, z: int)
    ensures w * (x + 16 * (y + 16 * z)) == x * w + 16 * (y * w) + (256 * w) * z
  {
    assert w * (x + 16 * (y + 16 * z)) == w * x + w * (16 * y) + w * (256 * z);
  }

  /** The even digits and 16 times the odd ones are all of them. */
  lemma {:induction false} PassesValue(e: seq<int>, k: nat)
    requires 2 * k <= |e|
    ensures HexFrom(e, 0) == PassSum(e, k, 0) + 16 * PassSum(e, k, 1) + Pow256(k) * HexFrom(e, 2 * k)
  {
    if k > 0 {
      var i := 2 * (k - 1);
      PassesValue(e, k - 1);
      assert HexFrom(e, i) == e[i] + 16 * (e[i + 1] + 16 * HexFrom(e, i + 2));
      WeightTimes(Pow256(k - 1), e[i], e[i + 1], HexFrom(e, i + 2));
    }
  }

  /** All digits of one pass. */
  function Pass(e: seq<int>, p: nat): (v: int)
    requires |e| % 2 == 0 && p <= 1
  {
    PassSum(e, |e| / 2, p)
  }

  lemma PassesAll(e: seq<int>)
    requires |e| % 2 == 0
    ensures HexFrom(e, 0) == Pass(e, 0) + 16 * Pass(e, 1)
  {
    PassesValue(e, |e| / 2);
  }

  method AddSelected<P(!new)>(g: Group<P>, base: seq<seq<P>>, pos: nat, b: int8, h: P, ghost n: int, ghost B: P)
    returns (s: P, ghost m: int)
    requires Abelian(g) && BaseTable(g, base, B) && pos < 32 && -8 <= b <= 8 && h == Mul(g, n, B)
    ensures s == Mul(g, m, B) && m == n + b as int * Pow256(pos)
  {
    var t := SelectPoint(g, base, pos, b, B);
    AddMultiples(g, n, b as int * Pow256(pos), B);
    s, m := g.add(h, t), n + b as int * Pow256(pos);
  }

  /** One pass over the odd (p = 1) or the even (p = 0) digits, added to h = n B. */
  method AddPass<P(!new)>(g: Group<P>, base: seq<seq<P>>, e: seq<int8>, p: nat, h: P, ghost n: int, ghost B: P)
    returns (s: P, ghost m: int)
    requires Abelian(g) && BaseTable(g, base, B) && p <= 1 && h == Mul(g, n, B)
    requires |e| == 64 && forall j :: 0 <= j < 64 ==> -8 <= e[j] <= 8
    ensures s == Mul(g, m, B) && m == n + Pass(I8(e), p)
  {
    s, m := h, n;
    var k := 0;
    while k < 32
      invariant 0 <= k <= 32 && s == Mul(g, m, B) && m == n + PassSum(I8(e), k, p)
    {
      s, m := AddSelected(g, base, k, e[2 * k + p], s, m, B);
      k := k + 1;
    }
  }

  method SixteenTimes<P(!new)>(g: Group<P>, h: P, ghost n: int, ghost B: P) returns (s: P)
    requires Abelian(g) && h == Mul(g, n, B)
    ensures s == Mul(g, 16 * n, B)
  {
    s := g.add(h, h);
    AddMultiples(g, n, n, B);
    s := g.add(s, s);
    AddMultiples(g, 2 * n, 2 * n, B);
    s := g.add(s, s);
    AddMultiples(g, 4 * n, 4 * n, B);
    s := g.add(s, s);
    AddMultiples(g, 8 * n, 8 * n, B);
  }

  /** h = a B */
  method ScalarMultBase<P(!new)>(g: Group<P>, base: seq<seq<P>>, a: array<byte>, ghost B: P) returns (h: P)
    requires Abelian(g) && BaseTable(g, base, B) && a.Length == 32 && a[31] <= 127
    ensures h == Mul(g, LE(a[..]), B)
  {
    var e := new int8[64];
    ToSigned(e, a);
    ghost var d := I8(e[..]);
    PassesAll(d);
    MulOne(g, B);
    ghost var n;
    h, n := AddPass(g, base, e[..], 1, g.zero, 0, B);
    h := SixteenTimes(g, h, n, B);
    h, n := AddPass(g, base, e[..], 0, h, 16 * n, B);
    assert n == LE(a[..]);
  }
}
