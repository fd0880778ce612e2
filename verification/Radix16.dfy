/** The signed radix-16 digits at the start of GeScalarMultBase in tendermint/ed25519/edwards25519/edwards25519.go. */
module Radix16 {
  import opened Ints
  import opened Recode

  /** e[i] + 16 e[i+1] + 256 e[i+2] + ... */
  function HexFrom(e: seq<int>, i: nat): (v: int)
    requires i <= |e|
    decreases |e| - i
  {
    if i == |e| then 0 else e[i] + 16 * HexFrom(e, i + 1)
  }

  lemma {:induction false} HexTail(e: seq<int>, f: seq<int>, i: nat)
    requires i <= |e| == |f| && forall j :: i <= j < |e| ==> e[j] == f[j]
    ensures HexFrom(e, i) == HexFrom(f, i)
    decreases |e| - i
  {
    if i < |e| { HexTail(e, f, i + 1); }
  }

  lemma {:induction false} HexCarry(e: seq<int>, f: seq<int>, i: nat, k: nat, c: int)
    requires k <= i && i + 1 < |e| == |f|
    requires f[i] == e[i] - 16 * c && f[i + 1] == e[i + 1] + c
    requires forall j :: 0 <= j < |e| && j != i && j != i + 1 ==> e[j] == f[j]
    ensures HexFrom(f, k) == HexFrom(e, k)
    decreases i - k
  {
    if k < i { HexCarry(e, f, i, k + 1, c); } else { HexTail(e, f, i + 2); }
  }

  lemma {:induction false} NibblesValue(a: bytes, e: seq<int>, i: nat)
    requires |e| == 2 * |a| && i <= |a|
    requires forall j :: 0 <= j < |a| ==> e[2 * j] == a[j] as int % 16 && e[2 * j + 1] == a[j] as int / 16
    ensures HexFrom(e, 2 * i) == LEFrom(a, i)
    decreases |a| - i
  {
    if i < |a| {
      NibblesValue(a, e, i + 1);
      assert HexFrom(e, 2 * i) == e[2 * i] + 16 * (e[2 * i + 1] + 16 * HexFrom(e, 2 * (i + 1)));
    }
  }

  method ToNibbles(e: array<int8>, a: array<byte>)
    requires e.Length == 64 && a.Length == 32
    modifies e
    ensures forall j :: 0 <= j < 64 ==> 0 <= e[j] <= 15
    ensures e[63] as int == a[31] as int / 16
    ensures HexFrom(I8(e[..]), 0) == LE(a[..])
  {
    var i := 0;
    while i < 32
      invariant 0 <= i <= 32
      invariant forall j :: 0 <= j < i ==> e[2 * j] as int == a[j] as int % 16 && e[2 * j + 1] as int == a[j] as int / 16
      invariant forall j :: 0 <= j < 2 * i ==> 0 <= e[j] <= 15
    {
      e[2 * i] := (a[i] as int % 16) as int8;
      e[2 * i + 1] := (a[i] as int / 16 % 16) as int8;
      i := i + 1;
    }
    NibblesValue(a[..], I8(e[..]), 0);
  }

  /** One turn of the loop: digit i takes the carry and hands on its own. */
  method CarryDigit(e: array<int8>, i: nat, carry: int8) returns (next: int8)
    requires e.Length == 64 && i < 63 && 0 <= e[i] <= 15 && 0 <= carry <= 1
    modifies e
    ensures -8 <= e[i] < 8 && 0 <= next <= 1 && e[i] as int == old(e[i]) as int + carry as int - 16 * next as int
    ensures forall j :: 0 <= j < 64 && j != i ==> e[j] == old(e[j])
  {
    e[i] := e[i] + carry;
    next := (e[i] + 8) / 16;
    e[i] := e[i] - next * 16;
  }

  /** e = 64 digits from -8 to 8 that spell a. */
  method ToSigned(e: array<int8>, a: array<byte>)
    requires e.Length == 64 && a.Length == 32 && a[31] <= 127
    modifies e
    ensures forall j :: 0 <= j < 64 ==> -8 <= e[j] <= 8
    ensures HexFrom(I8(e[..]), 0) == LE(a[..])
  {
    ToNibbles(e, a);
    var carry: int8 := 0;
    var i := 0;
    ghost var t := I8(e[..]);
    while i < 63
      invariant 0 <= i <= 63 && 0 <= carry <= 1
      invariant forall j :: 0 <= j < i ==> -8 <= e[j] < 8
      invariant forall j :: i <= j < 64 ==> 0 <= e[j] <= 15
      invariant e[63] <= 7
      invariant t == I8(e[..])[i := e[i] as int + carry as int] && HexFrom(t, 0) == LE(a[..])
    {
      carry := CarryDigit(e, i, carry);
      i := i + 1;
      ghost var u := I8(e[..])[i := e[i] as int + carry as int];
      HexCarry(t, u, i - 1, 0, carry as int);
      t := u;
    }
    e[63] := e[63] + carry;
    assert t == I8(e[..]);
  }
}
