/** The encoding of rlp/encode.go byte by byte: first byte, size and content in numbers. */
module RlpBytes {
  import opened Ints
  import opened BigEndian
  import opened RlpSpec

  /**
   * Content after its header: below 56 bytes the header is the one byte short + n; from 56 bytes on it
   * is long + k and n itself, most significant byte first, in the k bytes that n needs.
   */
  predicate Framed(e: bytes, short: nat, long: nat, content: bytes)
  {
    var n := |content|;
    if n < 56 then |e| == 1 + n && e[0] as int == short + n && e[1..] == content
    else
      var k := |e| - n - 1;
      && 1 <= k <= 8 && Pow256(k - 1) <= n < Pow256(k)
      && e[0] as int == long + k && BE(e[1..1 + k]) == n && e[1 + k..] == content
  }

  lemma AtLeast(x: nat, p: nat, r: nat)
    requires x >= 1
    ensures x * p + r >= p
  {
  }

  lemma BytesNeeded(m: bytes)
    requires m != [] && m[0] != 0
    ensures Pow256(|m| - 1) <= BE(m) < Pow256(|m|)
  {
    BEBound(m);
    BEFirst(m);
    AtLeast(m[0], Pow256(|m| - 1), BE(m[1..]));
  }

  lemma Parts(first: byte, m: bytes, content: bytes, e: bytes)
    requires e == [first] + m + content
    ensures |e| == 1 + |m| + |content| && e[0] == first && e[1..1 + |m|] == m && e[1 + |m|..] == content
  {
  }

  lemma LongFrame(short: nat, long: nat, m: bytes, content: bytes, e: bytes)
    requires |e| == 1 + |m| + |content| && e[1..1 + |m|] == m && e[1 + |m|..] == content && e[0] as int == long + |m|
    requires 1 <= |m| <= 8 && m[0] != 0 && BE(m) == |content| >= 56
    ensures Framed(e, short, long, content)
  {
    BytesNeeded(m);
  }

  lemma HeadParts(list: bool, n: nat, h: bytes)
    requires n <= MAX_LEN && h == Head(if list then ListKind else String, n)
    ensures n < 56 ==> h == [(if list then 0xC0 else 0x80) + n]
    ensures n >= 56 ==>
            var m := IntBytes(n);
            1 <= |m| <= 8 && m[0] != 0 && BE(m) == n && h == [(if list then 0xF7 else 0xB7) + |m|] + m
  {
    if n >= 56 { SizeBytes(n); }
  }

  /** short + n in one byte, or short + 0x37 + k and the k bytes that n needs. */
  predicate HeadInNumbers(h: bytes, short: nat, n: nat)
  {
    if n < 56 then |h| == 1 && h[0] as int == short + n
    else
      var k := |h| - 1;
      1 <= k <= 8 && Pow256(k - 1) <= n < Pow256(k) && h[0] as int == short + 0x37 + k && BE(h[1..]) == n
  }

  lemma HeadIsInNumbers(list: bool, n: nat, h: bytes)
    requires n <= MAX_LEN && h == Head(if list then ListKind else String, n)
    ensures HeadInNumbers(h, if list then 0xC0 else 0x80, n)
  {
    HeadParts(list, n, h);
    if n >= 56 {
      assert h[1..] == IntBytes(n);
      BytesNeeded(IntBytes(n));
    }
  }

  lemma HeadFrames(list: bool, content: bytes, h: bytes, e: bytes)
    requires |content| <= MAX_LEN && h == Head(if list then ListKind else String, |content|) && e == h + content
    ensures Framed(e, if list then 0xC0 else 0x80, if list then 0xF7 else 0xB7, content)
  {
    HeadParts(list, |content|, h);
    if |content| < 56 {
      assert e[1..] == content;
    } else {
      var m := IntBytes(|content|);
      Parts(h[0], m, content, e);
      LongFrame(if list then 0xC0 else 0x80, if list then 0xF7 else 0xB7, m, content, e);
    }
  }

  /** A string: a byte below 0x80 is itself, any other string follows 0x80 + n, or 0xB7 + k and n. */
  lemma StringWritten(b: bytes)
    requires |b| <= MAX_LEN
    ensures if |b| == 1 && b[0] < 0x80 then Enc(Str(b)) == b else Framed(Enc(Str(b)), 0x80, 0xB7, b)
  {
    if !(|b| == 1 && b[0] < 0x80) { HeadFrames(false, b, Head(String, |b|), Enc(Str(b))); }
  }

  /** A list: its items, one after the other, after 0xC0 + n, or 0xF7 + k and n. */
  lemma ListWritten(items: seq<Item>)
    requires |EncAll(items)| <= MAX_LEN
    ensures Framed(Enc(List(items)), 0xC0, 0xF7, EncAll(items))
  {
    HeadFrames(true, EncAll(items), Head(ListKind, |EncAll(items)|), Enc(List(items)));
  }

  predicate InNumbers(e: bytes, t: Item)
  {
    match t
    case Str(b) => if |b| == 1 && b[0] < 0x80 then e == b else Framed(e, 0x80, 0xB7, b)
    case List(items) => Framed(e, 0xC0, 0xF7, EncAll(items))
  }

  lemma EncInNumbers(t: Item)
    requires |Enc(t)| <= MAX_LEN
    ensures InNumbers(Enc(t), t)
  {
    if t.List? { ListWritten(t.items); } else { StringWritten(t.b); }
  }

  lemma OneItem(t: Item)
    ensures EncAll([t]) == Enc(t)
  {
    assert [t][1..] == [];
  }

  lemma Reassociate(a: bytes, b: bytes, c: bytes)
    ensures a + (b + c) == a + b + c
  {
  }

  /** The items of a list are written in their order. */
  lemma {:induction false} ItemsInTurn(a: seq<Item>, b: seq<Item>)
    ensures EncAll(a + b) == EncAll(a) + EncAll(b)
  {
    if a == [] {
      assert a + b == b;
    } else {
      var ab, rest := a + b, a[1..];
      assert ab[0] == a[0] && ab[1..] == rest + b;
      ItemsInTurn(rest, b);
      Reassociate(Enc(a[0]), EncAll(rest), EncAll(b));
    }
  }

  /** The list of one string of 56 bytes: F8 3A, B8 38, and the bytes. */
  lemma ListOf56(b: bytes)
    requires |b| == 56
    ensures Enc(List([Str(b)])) == [0xF8, 0x3A, 0xB8, 0x38] + b
  {
    assert Pow256(1) == 256;
    StringWritten(b);
    var s := Enc(Str(b));
    assert s == [0xB8, 0x38] + b by { OneByteSize(s, 56, 0xB7); }
    OneItem(Str(b));
    ListWritten([Str(b)]);
    var e := Enc(List([Str(b)]));
    assert e == [0xF8, 0x3A] + s by { OneByteSize(e, 58, 0xF7); }
  }

  lemma NeedsOne(k: nat, n: nat)
    requires k >= 1 && Pow256(k - 1) <= n < 256
    ensures k == 1
  {
  }

  lemma OneByteSize(e: bytes, n: nat, long: nat)
    requires 56 <= n < 256 && n <= |e| && long + 1 < 256 && Framed(e, 0, long, e[|e| - n..])
    ensures e == [long + 1, n] + e[|e| - n..]
  {
    NeedsOne(|e| - n - 1, n);
    assert e[1..2] == [] + [e[1]];
    BEAppend([], e[1]);
  }
}
