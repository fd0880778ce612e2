/** Carrying ten 64-bit sums of products back into limbs.  A method that verifies here has no overflow. */
module FieldCombine {
  import opened Ints
  import opened FieldSpec

  lemma {:induction false} ValueTail(t: seq<int>, u: seq<int>, i: nat)
    requires i <= |t| == |u|
    requires forall j :: i <= j < |t| ==> t[j] == u[j]
    ensures ValueFrom(t, i) == ValueFrom(u, i)
    decreases |t| - i
  {
    if i < |t| { ValueTail(t, u, i + 1); }
  }

  /** A carry from limb i to limb i + 1 leaves the value alone. */
  lemma {:induction false} ValueCarry(t: seq<int>, u: seq<int>, i: nat, k: nat, c: int)
    requires k <= i && i + 1 < |t| == |u|
    requires u[i] == t[i] - Radix(i) * c && u[i + 1] == t[i + 1] + c
    requires forall j :: 0 <= j < |t| && j != i && j != i + 1 ==> t[j] == u[j]
    ensures ValueFrom(u, k) == ValueFrom(t, k)
    decreases i - k
  {
    if k < i { ValueCarry(t, u, i, k + 1, c); } else { ValueTail(t, u, i + 2); }
  }

  /** A carry out of limb 9 comes back 19-fold into limb 0, since 2^255 = p + 19. */
  lemma ValueWrap(t: seq<int>, c: int)
    requires |t| == 10
    ensures Residue(Value(t[0 := t[0] + 19 * c][9 := t[9] - 0x200_0000 * c])) == Residue(Value(t))
  {
    var u := t[0 := t[0] + 19 * c][9 := t[9] - 0x200_0000 * c];
    ValueUnfold(t);
    ValueUnfold(u);
    assert Value(u) == Value(t) - P * c;
  }

  /** c := (h[i] + half) >> n; h[i+1] += c; h[i] -= c << n.  The ghost k bounds the carry. */
  method Carry(h: array<int64>, i: nat, ghost k: int)
    requires h.Length == 10 && i < 9
    requires -0x7fff_ffff_0000_0000 <= h[i] <= 0x7fff_ffff_0000_0000
    requires -Radix(i) * k <= h[i] as int <= Radix(i) * k
    requires -0x7fff_ffff_ffff_ffff <= h[i + 1] as int - k && h[i + 1] as int + k <= 0x7fff_ffff_ffff_ffff
    modifies h
    ensures Value(I64(h[..])) == old(Value(I64(h[..])))
    ensures -Radix(i) / 2 <= h[i] as int < Radix(i) / 2
    ensures old(h[i + 1]) as int - k <= h[i + 1] as int <= old(h[i + 1]) as int + k
    ensures forall j :: 0 <= j < 10 && j != i && j != i + 1 ==> h[j] == old(h[j])
  {
    ghost var t := I64(h[..]);
    var radix := Radix(i) as int64;
    var c := (h[i] + radix / 2) / radix;
    h[i + 1] := h[i + 1] + c;
    h[i] := h[i] - c * radix;
    ValueCarry(t, I64(h[..]), i, 0, c as int);
  }

  predicate Abs(x: int64, b: int)
  {
    -b <= x as int <= b
  }

  method Carry0415(h: array<int64>)
    requires h.Length == 10 && Combinable(h[..])
    modifies h
    ensures Value(I64(h[..])) == old(Value(I64(h[..])))
    ensures Abs(h[0], 0x200_0000) && Abs(h[4], 0x200_0000) && Abs(h[1], 0x100_0000) && Abs(h[5], 0x100_0000)
    ensures Abs(h[2], 0x7fff_ff40_0000_0000) && Abs(h[6], 0x7fff_ff40_0000_0000)
    ensures h[3] == old(h[3]) && h[7] == old(h[7]) && h[8] == old(h[8]) && h[9] == old(h[9])
  {
    assert forall i :: 0 <= i < 10 ==> h[i] == h[..][i];
    Carry(h, 0, 0x20_0000_0000);
    Carry(h, 4, 0x20_0000_0000);
    Carry(h, 1, 0x40_0000_0000);
    Carry(h, 5, 0x40_0000_0000);
  }

  method Carry2637(h: array<int64>)
    requires h.Length == 10
    requires Abs(h[4], 0x200_0000) && Abs(h[8], 0x7fff_ff00_0000_0000)
    requires Abs(h[2], 0x7fff_ff40_0000_0000) && Abs(h[6], 0x7fff_ff40_0000_0000)
    requires Abs(h[3], 0x7fff_ff00_0000_0000) && Abs(h[7], 0x7fff_ff00_0000_0000)
    modifies h
    ensures Value(I64(h[..])) == old(Value(I64(h[..])))
    ensures Abs(h[2], 0x200_0000) && Abs(h[6], 0x200_0000) && Abs(h[3], 0x100_0000) && Abs(h[7], 0x100_0000)
    ensures Abs(h[4], 0x40_0200_0000) && Abs(h[8], 0x7fff_ff40_0000_0000)
    ensures h[0] == old(h[0]) && h[1] == old(h[1]) && h[5] == old(h[5]) && h[9] == old(h[9])
  {
    Carry(h, 2, 0x20_0000_0000);
    Carry(h, 6, 0x20_0000_0000);
    Carry(h, 3, 0x40_0000_0000);
    Carry(h, 7, 0x40_0000_0000);
  }

  method Carry4890(h: array<int64>)
    requires h.Length == 10
    requires Abs(h[0], 0x200_0000) && Abs(h[1], 0x100_0000) && Abs(h[5], 0x100_0000)
    requires Abs(h[4], 0x40_0200_0000) && Abs(h[8], 0x7fff_ff40_0000_0000) && Abs(h[9], 0x7fff_ff00_0000_0000)
    modifies h
    ensures Residue(Value(I64(h[..]))) == old(Residue(Value(I64(h[..]))))
    ensures Abs(h[0], 0x200_0000) && Abs(h[4], 0x200_0000) && Abs(h[8], 0x200_0000) && Abs(h[9], 0x100_0000)
    ensures Abs(h[1], 0x102_0000) && Abs(h[5], 0x102_0000)
    ensures h[2] == old(h[2]) && h[3] == old(h[3]) && h[6] == old(h[6]) && h[7] == old(h[7])
  {
    Carry(h, 4, 0x2000);
    Carry(h, 8, 0x20_0000_0000);
    ghost var u := I64(h[..]);
    var c9 := (h[9] + 0x100_0000) / 0x200_0000;
    h[0] := h[0] + c9 * 19;
    h[9] := h[9] - c9 * 0x200_0000;
    assert I64(h[..]) == u[0 := u[0] + 19 * c9 as int][9 := u[9] - 0x200_0000 * c9 as int];
    ValueWrap(u, c9 as int);
    Carry(h, 0, 0x1_3400);
  }

  method Store(h: array<int32>, w: array<int64>)
    requires h.Length == w.Length == 10
    requires forall i :: 0 <= i < 10 ==> Abs(w[i], 0x202_0000)
    modifies h
    ensures forall i :: 0 <= i < 10 ==> h[i] as int == w[i] as int
  {
    for i := 0 to 10
      invariant forall j :: 0 <= j < i ==> h[j] as int == w[j] as int
    {
      h[i] := w[i] as int32;
    }
  }

  method FeCombine(h: array<int32>, t: seq<int64>)
    requires h.Length == 10 && Combinable(t)
    modifies h
    ensures Bounded(h[..], 101, 0x200_0000)
    ensures Residue(Fe(h[..])) == Residue(Value(I64(t)))
  {
    var w := new int64[10](i requires 0 <= i < 10 => t[i]);
    assert w[..] == t;
    Carry0415(w);
    Carry2637(w);
    Carry4890(w);
    forall i | 0 <= i < 10
      ensures Abs(w[i], 0x202_0000)
    {
      if i < 5 {
        assert i == 0 || i == 1 || i == 2 || i == 3 || i == 4;
      } else {
        assert i == 5 || i == 6 || i == 7 || i == 8 || i == 9;
      }
    }
    Store(h, w);
    assert I32(h[..]) == I64(w[..]);
  }
}
