/** bn/bignumber.go: the integer square root, and the signed byte form of a number. */
module Number {
  import opened Ints
  import opened BigEndian
  import opened Results

  // ---------- square roots

  /** y is the square root of x, rounded down. */
  predicate IsRoot(x: int, y: int)
  {
    y >= 0 && y * y <= x < (y + 1) * (y + 1)
  }

  /** A number has one root only, so that IsRoot says which number Sqrt returns. */
  lemma RootUnique(x: int, y: int, z: int)
    requires IsRoot(x, y) && IsRoot(x, z)
    ensures y == z
  {
    if y < z { SquareGrows(y + 1, z); }
    if z < y { SquareGrows(z + 1, y); }
  }

  lemma SquareGrows(a: int, b: int)
    requires 0 <= a <= b
    ensures a * a <= b * b
  {
    assert b * b - a * a == (b - a) * (b + a);
  }

  /** The mean of two numbers is no less than the root of their product. */
  lemma MeanAboveRoot(s: int, p: int, q: int)
    requires s >= p + q && p >= 0 && q >= 0
    ensures s * s >= 4 * (p * q)
  {
    SquareGrows(p + q, s);
    assert (p + q) * (p + q) - 4 * (p * q) == (p - q) * (p - q);
    SquareSign(p - q);
  }

  lemma SquareSign(d: int)
    ensures d * d >= 0
  {
  }

  /** Newton's step from y. */
  function Next(x: int, y: int): (z: int)
    requires y > 0
  {
    (x / y + y) / 2
  }

  /** No step falls below the root. */
  lemma StepAboveRoot(x: int, y: int)
    requires x >= 0 && y > 0
    ensures Next(x, y) >= 0 && x < (Next(x, y) + 1) * (Next(x, y) + 1)
  {
    var q, z := x / y, Next(x, y);
    assert x == y * q + x % y;
    assert x < y * (q + 1);
    MeanAboveRoot(2 * (z + 1), y, q + 1);
    assert (2 * (z + 1)) * (2 * (z + 1)) == 4 * ((z + 1) * (z + 1));
  }

  /** A step that does not go down has reached the root. */
  lemma StepEnds(x: int, y: int)
    requires x >= 0 && y > 0 && Next(x, y) >= y
    ensures y * y <= x
  {
    var q := x / y;
    assert q >= y;
    assert x == y * q + x % y;
    assert y * (q - y) >= 0;
  }

  // ---------- bytes

  /** What Bytes returns for a number. */
  function Signed(v: int): (b: bytes)
    ensures |b| >= 1
  {
    if v < 0 then [0xFF] + IntBytes(-v) else [0] + IntBytes(v)
  }

  /** What SetBytes reads; nothing in no bytes. */
  function Value(b: bytes): (v: Option<int>)
  {
    if b == [] then None else if b[0] == 0xFF then Some(0 - BE(b[1..])) else Some(BE(b))
  }

  /** Reading what was written gives every integer back. */
  lemma ValueOfSigned(v: int)
    ensures Value(Signed(v)) == Some(v)
  {
    var m: nat := if v < 0 then -v else v;
    IntBytesValue(m);
    SignThenBytes(if v < 0 then 0xFF else 0, IntBytes(m));
  }

  lemma SignThenBytes(sign: byte, m: bytes)
    requires sign == 0 || sign == 0xFF
    ensures Value([sign] + m) == Some(if sign == 0 then BE(m) else 0 - BE(m))
  {
    assert ([sign] + m)[1..] == m;
    ZeroFirst(m);
  }

  lemma {:induction false} ZeroFirst(b: bytes)
    ensures BE([0] + b) == BE(b)
  {
    if b != [] {
      ZeroFirst(b[..|b| - 1]);
      assert ([0] + b)[..|b|] == [0] + b[..|b| - 1];
    }
  }

  /** The bytes that writing can produce: a sign, a magnitude without leading zeros, and no negative zero. */
  predicate Canonical(b: bytes)
  {
    b != [] && (b[0] == 0 || (b[0] == 0xFF && |b| > 1)) && (|b| > 1 ==> b[1] != 0)
  }

  lemma SignedCanonical(v: int)
    ensures Canonical(Signed(v))
  {
    IntBytesValue(if v < 0 then -v else v);
  }

  lemma CanonicalBack(sign: byte, m: bytes)
    requires Canonical([sign] + m)
    ensures Signed(Value([sign] + m).value) == [sign] + m
  {
    assert m != [] ==> ([sign] + m)[1] == m[0];
    SignThenBytes(sign, m);
    IntBytesUnique(m);
    if m != [] { BEPositive(m); }
  }

  /** Writing what was read gives the bytes back exactly when they are canonical. */
  lemma SignedOfValue(b: bytes)
    requires b != []
    ensures Signed(Value(b).value) == b <==> Canonical(b)
  {
    assert b == [b[0]] + b[1..];
    if Canonical(b) { CanonicalBack(b[0], b[1..]); }
    SignedCanonical(Value(b).value);
  }

  /** A number; None is a nil V. */
  class Number {
    var v: Option<int>

    constructor (v: Option<int>)
      ensures this.v == v
    {
      this.v := v;
    }

    /** None where Go panics: for negative numbers, and for nil. */
    method Sqrt() returns (r: Option<int>)
      ensures r.Some? <==> v.Some? && v.value >= 0
      ensures r.Some? ==> IsRoot(v.value, r.value)
    {
      if v.None? || v.value < 0 {
        return None;
      }
      var x := v.value;
      var z, y := (x + 1) / 2, x;
      assert x > 0 ==> x / x == 1;
      while z < y
        invariant y >= 0 && x < (y + 1) * (y + 1)
        invariant x > 0 ==> y > 0 && z == Next(x, y)
        invariant x == 0 ==> y == 0 && z == 0
        decreases y
      {
        StepAboveRoot(x, y);
        NextPositive(x, y);
        y := z;
        z := (x / z + z) / 2;
      }
      if x > 0 { StepEnds(x, y); }
      return Some(y);
    }

    method Bytes() returns (b: bytes)
      ensures b == if v.None? then [] else Signed(v.value)
      ensures v.Some? ==> b[0] == (if v.value < 0 then 0xFF else 0) && BE(b[1..]) == if v.value < 0 then -v.value else v.value
      ensures |b| > 1 ==> b[1] != 0
    {
      if v.None? {
        return [];
      }
      var z := IntBytes(if v.value < 0 then -v.value else v.value);
      IntBytesValue(if v.value < 0 then -v.value else v.value);
      b := [if v.value < 0 then 0xFF else 0] + z;
      assert b[1..] == z;
    }

    /** No bytes leave a number as it is, and make nil 0. */
    method SetBytes(b: bytes)
      modifies this
      ensures v == if b != [] then Value(b) else if old(v).None? then Some(0) else old(v)
      ensures b != [] ==> v == Some(if b[0] == 0xFF then 0 - BE(b[1..]) else BE(b))
    {
      if v.None? {
        v := Some(0);
      }
      if |b| > 0 {
        if b[0] == 0xFF {
          v := Some(0 - BE(b[1..]));
        } else {
          v := Some(BE(b));
        }
      }
    }
  }

  lemma NextPositive(x: int, y: int)
    requires x > 0 && y > 0
    ensures Next(x, y) > 0
  {
    if y == 1 { assert x / 1 == x; }
  }

  /** Bytes, then SetBytes into any number. */
  method Copy(x: Number, y: Number)
    requires x.v.Some?
    modifies y
    ensures y.v == old(x.v)
  {
    var b := x.Bytes();
    ValueOfSigned(x.v.value);
    y.SetBytes(b);
  }
}
