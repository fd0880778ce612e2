/** Integers as bytes, most significant byte first. */
module BigEndian {
  import opened Ints

  function BE(b: bytes): (n: nat)
  {
    if b == [] then 0 else 256 * BE(b[..|b| - 1]) + b[|b| - 1]
  }

  /** The shortest big-endian form; empty for 0. */
  function IntBytes(n: nat): (b: bytes)
    ensures b == [] <==> n == 0
  {
    if n == 0 then [] else IntBytes(n / 256) + [n % 256]
  }

  lemma {:induction false} IntBytesValue(n: nat)
    ensures BE(IntBytes(n)) == n
    ensures n > 0 ==> IntBytes(n)[0] != 0
  {
    if n != 0 {
      IntBytesValue(n / 256);
      var b := IntBytes(n);
      assert b[..|b| - 1] == IntBytes(n / 256);
    }
  }

  lemma IntBytesStep(n: nat, q: nat, r: byte)
    requires n == 256 * q + r as int && n > 0
    ensures IntBytes(n) == IntBytes(q) + [r]
  {
    DivUnique(n, 256, q, r);
  }

  lemma BEAppend(c: bytes, x: byte)
    ensures BE(c + [x]) == 256 * BE(c) + x as int
  {
    assert (c + [x])[..|c|] == c;
  }

  lemma IntBytesAppend(c: bytes, x: byte)
    requires IntBytes(BE(c)) == c && (BE(c) > 0 || x != 0)
    ensures IntBytes(BE(c + [x])) == c + [x]
  {
    BEAppend(c, x);
    IntBytesStep(256 * BE(c) + x as int, BE(c), x);
  }

  /** A form without leading zeros is the shortest one. */
  lemma {:induction false} IntBytesUnique(b: bytes)
    requires b == [] || b[0] != 0
    ensures IntBytes(BE(b)) == b
  {
    if b != [] {
      var c, x := b[..|b| - 1], b[|b| - 1];
      assert b == c + [x];
      IntBytesUnique(c);
      if c != [] { BEPositive(c); }
      IntBytesAppend(c, x);
    }
  }

  lemma {:induction false} BEPositive(b: bytes)
    requires b != [] && b[0] != 0
    ensures BE(b) > 0
  {
    if |b| > 1 { BEPositive(b[..|b| - 1]); }
  }

  lemma {:induction false} BEBound(b: bytes)
    ensures BE(b) < Pow256(|b|)
  {
    if b != [] { BEBound(b[..|b| - 1]); }
  }

  /** The first byte is the most significant one. */
  lemma {:induction false} BEFirst(b: bytes)
    requires b != []
    ensures BE(b) == b[0] as int * Pow256(|b| - 1) + BE(b[1..])
  {
    if |b| > 1 {
      var c := b[..|b| - 1];
      BEFirst(c);
      assert b[1..][..|b| - 2] == c[1..];
      Regroup(b[0], Pow256(|b| - 2));
    }
  }

  lemma {:induction false} IntBytesLength(n: nat, k: nat)
    requires n < Pow256(k)
    ensures |IntBytes(n)| <= k
  {
    if n != 0 { IntBytesLength(n / 256, k - 1); }
  }

  lemma Pow256Eight()
    ensures Pow256(8) == 0x1_0000_0000_0000_0000
  {
  }

  // ---------- fixed width

  function PutBE(x: nat, n: nat): (b: bytes)
    ensures |b| == n
  {
    if n == 0 then [] else PutBE(x / 256, n - 1) + [x % 256]
  }

  lemma {:induction false} BEBack(x: nat, n: nat)
    requires x < Pow256(n)
    ensures BE(PutBE(x, n)) == x
  {
    if n > 0 {
      BEBack(x / 256, n - 1);
      assert PutBE(x, n)[..n - 1] == PutBE(x / 256, n - 1);
    }
  }
}
