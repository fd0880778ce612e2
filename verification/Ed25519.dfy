/**
 * MakePublicKey, Sign and Verify of tendermint/ed25519/ed25519.go.  SHA-512 and the encoding of
 * curve points are parameters; everything else is the code of the modules below it.
 */
module Ed25519 {
  import opened Ints
  import opened Results
  import opened ScalarSpec
  import opened Scalar
  import opened Group
  import opened ScalarMult

  type Digest = d: bytes | |d| == 64 witness seq(64, _ => 0)

  /** The curve: its group, the base point, the two tables of its multiples and the 32-byte encoding. */
  datatype Curve<!P> = Curve(group: Group<P>, B: P, base: seq<seq<P>>, bi: seq<P>, encode: P -> bytes, decode: bytes -> Option<P>)

  ghost predicate Valid<P(!new)>(c: Curve<P>)
  {
    && Abelian(c.group)
    && Mul(c.group, L, c.B) == c.group.zero
    && BaseTable(c.group, c.base, c.B)
    && |c.bi| == 8 && (forall j :: 0 <= j < 8 ==> c.bi[j] == Mul(c.group, 2 * j + 1, c.B))
    && (forall p :: |c.encode(p)| == 32 && c.decode(c.encode(p)) == Some(p))
  }

  // ---------- what the three operations are for

  const TWO251: nat := 0x800_0000_0000_0000_0000_0000_0000_0000_0000_0000_0000_0000_0000_0000_0000_0000

  /** The scalar of a digest: 2^254 and bits 3 to 253 of its first half. */
  function SecretScalar(digest: Digest): (s: nat)
    ensures s % 8 == 0 && 8 * TWO251 <= s < 16 * TWO251
    ensures s / 8 % TWO251 == LE(digest[..32]) / 8 % TWO251
  {
    8 * TWO251 + 8 * (LE(digest[..32]) / 8 % TWO251)
  }

  /** Its bytes: those of the first half with the low three bits cleared and bits 254 and 255 set to 1 and 0. */
  function SecretBytes(digest: Digest): (b: bytes)
    ensures |b| == 32
  {
    digest[..32][0 := digest[0] / 8 * 8][31 := 64 + digest[31] as int % 64]
  }

  lemma TopBits(q: nat, r: nat, w: nat)
    requires r < 64
    ensures (64 * q + r) * w == 64 * w * q + r * w && r * w + w <= 64 * w
  {
    assert (64 * q + r) * w == 64 * (q * w) + r * w;
    assert (63 - r) * w >= 0;
  }

  /** a, m and t are the first byte, the 30 bytes after it and the last one; w is 2^245. */
  lemma ClampedNumber(a: nat, m: nat, t: nat, w: nat, n: nat)
    requires n == a + 256 * m + 8 * (t * w) && a < 256 && 32 * m + 32 <= w
    ensures n / 8 % (64 * w) == a / 8 + 32 * m + (t % 64) * w
  {
    var low := a / 8 + 32 * m;
    DivUnique(n, 8, low + t * w, a % 8);
    TopBits(t / 64, t % 64, w);
    DivUnique(low + t * w, 64 * w, t / 64, low + (t % 64) * w);
  }

  lemma {:induction false} LESame(b: bytes, c: bytes, i: nat)
    requires i <= |b| == |c| && forall j :: i <= j < |b| ==> b[j] == c[j]
    ensures LEFrom(b, i) == LEFrom(c, i)
    decreases |b| - i
  {
    if i < |b| { LESame(b, c, i + 1); }
  }

  /** A number by its first byte, its last byte and the 30 bytes between them. */
  lemma FirstAndLast(b: bytes, z: bytes)
    requires |b| == |z| == 32 && z[31] == 0 && forall j :: 1 <= j < 31 ==> z[j] == b[j]
    ensures LE(b) == b[0] as int + 256 * LEFrom(z, 1) + b[31] as int * (TWO251 / 8)
    ensures 32 * LEFrom(z, 1) + 32 <= TWO251 / 64
  {
    var c := b[31 := 0];
    LELast(b, c, b[31], 0);
    LESame(c, z, 1);
    LETop(z, 1);
    Pow256Top();
    assert Pow256(31) == 256 * Pow256(30);
  }

  /** The bytes that MakePublicKey and Sign make hold the scalar. */
  lemma SecretBytesValue(digest: Digest)
    ensures LE(SecretBytes(digest)) == SecretScalar(digest)
  {
    var n, s := digest[..32], SecretBytes(digest);
    var z := n[31 := 0];
    FirstAndLast(n, z);
    FirstAndLast(s, z);
    var w := TWO251 / 64;
    ClampedNumber(n[0], LEFrom(z, 1), n[31], w, LE(n));
    assert (64 + n[31] as int % 64) * (8 * w) == 8 * (64 * w) + 8 * ((n[31] as int % 64) * w);
  }

  ghost function PublicKeyOf<P>(c: Curve<P>, hash: bytes -> Digest, seed: bytes): bytes
  {
    c.encode(Mul(c.group, SecretScalar(hash(seed)), c.B))
  }

  /** Signature (R, S) of a message by the key of a seed: R = r B, S = k s + r mod l. */
  ghost predicate IsSignature<P>(c: Curve<P>, hash: bytes -> Digest, seed: bytes, publicKey: bytes, message: bytes, sig: bytes)
  {
    var digest := hash(seed);
    var r := ModL(LE(hash(digest[32..] + message)));
    && |sig| == 64
    && sig[..32] == c.encode(Mul(c.group, r, c.B))
    && LE(sig[32..]) == ModL(ModL(LE(hash(sig[..32] + publicKey + message))) * SecretScalar(digest) + r)
  }

  /** R = S B - k A, for a public key that decodes and an S below 2^253. */
  ghost predicate Accepts<P>(c: Curve<P>, hash: bytes -> Digest, publicKey: bytes, message: bytes, sig: bytes)
    requires |sig| == 64
  {
    && sig[63] < 32
    && c.decode(publicKey).Some?
    && var k, A := ModL(LE(hash(sig[..32] + publicKey + message))), c.decode(publicKey).value;
    c.encode(Lin(c.group, k, c.group.neg(A), LE(sig[32..]), c.B)) == sig[..32]
  }

  // ---------- signatures verify

  /** Multiples of the base point only depend on the scalar mod l. */
  lemma MulModL<P(!new)>(g: Group<P>, B: P, n: int)
    requires Abelian(g) && Mul(g, L, B) == g.zero
    ensures Mul(g, ModL(n), B) == Mul(g, n, B)
  {
    var q := (n - ModL(n)) / L;
    assert n == q * L + ModL(n) by { assert n == L * (n / L) + n % L; }
    MulMul(g, q, L, B);
    MulOfZero(g, q);
    MulAdd(g, q * L, ModL(n), B);
    Zero(g, Mul(g, ModL(n), B));
  }

  lemma {:induction false} MulOfZero<P(!new)>(g: Group<P>, n: int)
    requires Abelian(g)
    ensures Mul(g, n, g.zero) == g.zero
    decreases if n < 0 then 1 - n else n
  {
    if n > 0 {
      MulOfZero(g, n - 1);
      Zero(g, g.zero);
    } else if n < 0 {
      MulOfZero(g, -n);
      NegZero(g);
    }
  }

  /** k (-s B) + S B = r B when S = k s + r mod l. */
  lemma SignedPoint<P(!new)>(g: Group<P>, B: P, k: int, s: int, r: int, S: int)
    requires Abelian(g) && Mul(g, L, B) == g.zero && S == ModL(k * s + r)
    ensures Lin(g, k, g.neg(Mul(g, s, B)), S, B) == Mul(g, r, B)
  {
    MulNeg(g, s, B);
    MulMul(g, k, -s, B);
    MulModL(g, B, k * s + r);
    assert k * (-s) == -(k * s);
    MulAdd(g, -(k * s), k * s + r, B);
  }

  /** A number below 2^253 in 32 bytes leaves the top three bits 0. */
  lemma {:induction false} TopByteBelow(b: bytes, i: nat)
    requires i < |b|
    ensures LEFrom(b, i) >= b[|b| - 1] as int * Pow256(|b| - 1 - i)
    decreases |b| - i
  {
    if i + 1 < |b| {
      TopByteBelow(b, i + 1);
      var t, p := b[|b| - 1] as int, Pow256(|b| - 2 - i);
      assert t * (256 * p) == 256 * (t * p);
    }
  }

  lemma ScalarTopByte(b: bytes)
    requires |b| == 32 && LE(b) < L
    ensures b[31] < 32
  {
    TopByteBelow(b, 0);
    Pow256Top();
  }

  /** Verify accepts, for the public key of the seed, what Sign made from the seed. */
  lemma SignedIsAccepted<P(!new)>(c: Curve<P>, hash: bytes -> Digest, seed: bytes, message: bytes, sig: bytes)
    requires Valid(c) && IsSignature(c, hash, seed, PublicKeyOf(c, hash, seed), message, sig)
    ensures Accepts(c, hash, PublicKeyOf(c, hash, seed), message, sig)
  {
    var publicKey := PublicKeyOf(c, hash, seed);
    var digest := hash(seed);
    var s := SecretScalar(digest);
    var r := ModL(LE(hash(digest[32..] + message)));
    var k := ModL(LE(hash(sig[..32] + publicKey + message)));
    assert c.decode(publicKey) == Some(Mul(c.group, s, c.B));
    SignedPoint(c.group, c.B, k, s, r, LE(sig[32..]));
    ScalarTopByte(sig[32..]);
  }

  // ---------- the operations

  /** Setting bit k of a number below 2^(k+1). */
  lemma {:induction false} OrTop(z: nat, k: nat, bit: bool)
    requires z < Pow2(k)
    ensures Or(z + if bit then Pow2(k) else 0, Pow2(k)) == Pow2(k) + z
    decreases k
  {
    if k > 0 { OrTop(z / 2, k - 1, bit); }
  }

  /** Key generation masks byte 31 with 127 and signing with 63; setting bit 6 makes them the same. */
  lemma ClampsAgree(x: byte)
    ensures Or(x as int % 128, 64) == 64 + x as int % 64
    ensures Or(x as int % 64, 64) == 64 + x as int % 64
  {
    SmallPowers();
    var z, q := x as int % 64, x as int / 64;
    DivUnique(x, 128, q / 2, z + 64 * (q % 2));
    OrTop(z, 6, q % 2 == 1);
    OrTop(z, 6, false);
  }

  /** The masks of MakePublicKey. */
  method ClampedKey(digest: Digest) returns (b: bytes)
    ensures |b| == 32 && LE(b) == SecretScalar(digest) && b[31] < 128
  {
    b := digest[..32];
    ClampsAgree(b[31]);
    SecretBytesValue(digest);
    b := b[0 := b[0] / 8 * 8];
    b := b[31 := b[31] % 128];
    b := b[31 := Or(b[31], 64)];
    assert b == SecretBytes(digest);
  }

  method CopyOf(b: bytes) returns (a: array<byte>)
    ensures fresh(a) && a[..] == b
  {
    a := new byte[|b|](i requires 0 <= i < |b| => b[i]);
    assert a[..] == b;
  }

  method EncodedPoint<P(!new)>(c: Curve<P>, hash: bytes -> Digest, seed: bytes) returns (encoded: bytes)
    requires Valid(c)
    ensures |encoded| == 32 && encoded == PublicKeyOf(c, hash, seed)
  {
    var key := ClampedKey(hash(seed));
    var hBytes := CopyOf(key);
    var A := ScalarMultBase(c.group, c.base, hBytes, c.B);
    encoded := c.encode(A);
  }

  /** The public key of a seed; it is also stored in the second half of the private key. */
  method MakePublicKey<P(!new)>(c: Curve<P>, hash: bytes -> Digest, privateKey: array<byte>) returns (publicKey: array<byte>)
    requires Valid(c) && privateKey.Length == 64
    modifies privateKey
    ensures fresh(publicKey) && publicKey[..] == PublicKeyOf(c, hash, old(privateKey[..32]))
    ensures privateKey[..] == old(privateKey[..32]) + publicKey[..]
  {
    var encoded := EncodedPoint(c, hash, privateKey[..32]);
    publicKey := CopyOf(encoded);
    forall i | 0 <= i < 32 { privateKey[32 + i] := publicKey[i]; }
  }

  method Reduced(digest: Digest) returns (out: array<byte>)
    ensures fresh(out) && out.Length == 32 && LE(out[..]) == ModL(LE(digest)) && out[31] < 32
  {
    var d := new byte[64](i requires 0 <= i < 64 => digest[i]);
    assert d[..] == digest;
    out := new byte[32];
    ScReduce(out, d);
    ScalarTopByte(out[..]);
  }

  method ExpandedSecretKey(digest: Digest) returns (expanded: bytes)
    ensures |expanded| == 32 && LE(expanded) == SecretScalar(digest)
  {
    SecretBytesValue(digest);
    expanded := digest[..32];
    ClampsAgree(expanded[31]);
    expanded := expanded[0 := expanded[0] / 8 * 8];
    expanded := expanded[31 := expanded[31] % 64];
    expanded := expanded[31 := Or(expanded[31], 64)];
    assert expanded == SecretBytes(digest);
  }

  /** The nonce of a message and its point. */
  method Commitment<P(!new)>(c: Curve<P>, hash: bytes -> Digest, digest: Digest, message: bytes)
    returns (r: bytes, encodedR: bytes)
    requires Valid(c)
    ensures |r| == |encodedR| == 32 && LE(r) == ModL(LE(hash(digest[32..] + message))) &&
            encodedR == c.encode(Mul(c.group, LE(r), c.B))
  {
    var messageDigest := Reduced(hash(digest[32..] + message));
    r := messageDigest[..];
    var R := ScalarMultBase(c.group, c.base, messageDigest, c.B);
    encodedR := c.encode(R);
  }

  method MulAdd32(a: bytes, b: bytes, c: bytes) returns (s: bytes)
    requires |a| == |b| == |c| == 32
    ensures |s| == 32 && LE(s) == ModL(LE(a) * LE(b) + LE(c))
  {
    var a', b', c' := new byte[32](i requires 0 <= i < 32 => a[i]), new byte[32](i requires 0 <= i < 32 => b[i]),
      new byte[32](i requires 0 <= i < 32 => c[i]);
    assert a'[..] == a && b'[..] == b && c'[..] == c;
    var t := new byte[32];
    ScMulAdd(t, a', b', c');
    s := t[..];
  }

  lemma SignatureIs<P>(c: Curve<P>, hash: bytes -> Digest, seed: bytes, publicKey: bytes, message: bytes, sig: bytes,
                       R: bytes, S: bytes, k: nat, s: nat, r: nat)
    requires |R| == |S| == 32 && sig == R + S && R == c.encode(Mul(c.group, r, c.B)) && LE(S) == ModL(k * s + r)
    requires k == ModL(LE(hash(R + publicKey + message))) && s == SecretScalar(hash(seed)) &&
             r == ModL(LE(hash(hash(seed)[32..] + message)))
    ensures IsSignature(c, hash, seed, publicKey, message, sig)
  {
    assert sig[..32] == R && sig[32..] == S;
  }

  /** S = k s + r mod l, for the challenge k of R, the public key and the message. */
  method Response(hash: bytes -> Digest, publicKey: bytes, message: bytes, secret: bytes, r: bytes, encodedR: bytes)
    returns (s: bytes)
    requires |secret| == |r| == 32
    ensures |s| == 32 && LE(s) == ModL(ModL(LE(hash(encodedR + publicKey + message))) * LE(secret) + LE(r))
  {
    var hramDigest := Reduced(hash(encodedR + publicKey + message));
    var k := hramDigest[..];
    s := MulAdd32(k, secret, r);
  }

  method Sign<P(!new)>(c: Curve<P>, hash: bytes -> Digest, privateKey: bytes, message: bytes) returns (signature: bytes)
    requires Valid(c) && |privateKey| == 64
    ensures IsSignature(c, hash, privateKey[..32], privateKey[32..], message, signature)
  {
    var seed, publicKey := privateKey[..32], privateKey[32..];
    var secret := ExpandedSecretKey(hash(seed));
    var r, encodedR := Commitment(c, hash, hash(seed), message);
    var s := Response(hash, publicKey, message, secret, r, encodedR);
    signature := encodedR + s;
    SignatureIs(c, hash, seed, publicKey, message, signature, encodedR, s,
      ModL(LE(hash(encodedR + publicKey + message))), LE(secret), LE(r));
  }

  /** Exactly the signatures that Accepts describes. */
  method Verify<P(!new)>(c: Curve<P>, hash: bytes -> Digest, publicKey: bytes, message: bytes, sig: bytes) returns (ok: bool)
    requires Valid(c) && |publicKey| == 32 && |sig| == 64
    ensures ok <==> Accepts(c, hash, publicKey, message, sig)
  {
    if sig[63] / 32 != 0 { return false; }
    var a := c.decode(publicKey);
    if a.None? { return false; }
    var A := c.group.neg(a.value);
    var hReduced := Reduced(hash(sig[..32] + publicKey + message));
    var b := new byte[32](i requires 0 <= i < 32 => sig[32 + i]);
    assert b[..] == sig[32..];
    var R := DoubleScalarMult(c.group, hReduced, A, b, c.bi, c.B);
    ok := sig[..32] == c.encode(R);
  }

  /** Key generation, signing and verification in turn: the signature is accepted. */
  method SignThenVerify<P(!new)>(c: Curve<P>, hash: bytes -> Digest, privateKey: array<byte>, message: bytes) returns (ok: bool)
    requires Valid(c) && privateKey.Length == 64
    modifies privateKey
    ensures ok
  {
    ghost var seed := privateKey[..32];
    var publicKey := MakePublicKey(c, hash, privateKey);
    assert privateKey[..][..32] == seed && privateKey[..][32..] == publicKey[..];
    var sig := Sign(c, hash, privateKey[..], message);
    SignedIsAccepted(c, hash, seed, message, sig);
    ok := Verify(c, hash, publicKey[..], message, sig);
  }
}
