/** The primitive encodings of tendermint/go-amino/encoder.go and decoder.go. */
module AminoPrim {
  import opened Ints
  import opened BigEndian
  import opened Results

  // ---------- uvarint and varint, as in encoding/binary

  /** Seven bits at a time, least significant first; the top bit says that more follow. */
  function PutUvarint(x: nat): (b: bytes)
    ensures |b| >= 1
  {
    if x < 128 then [x] else [x % 128 + 128] + PutUvarint(x / 128)
  }

  /** A number and how many bytes it took; nothing if the bytes end early or the number needs more than 64 bits. */
  function UvarintAt(bz: bytes, i: nat): (r: Option<(nat, nat)>)
    decreases |bz|
  {
    if bz == [] then None
    else if bz[0] < 128 then
      if i > 9 || (i == 9 && bz[0] > 1) then None else Some((bz[0] as int, 1))
    else
      match UvarintAt(bz[1..], i + 1)
      case None => None
      case Some((x, n)) => Some((bz[0] as int - 128 + 128 * x, n + 1))
  }

  /** DecodeUvarint */
  function DecodeUvarint(bz: bytes): (r: Option<(nat, nat)>)
    ensures r.Some? ==> 1 <= r.value.1 <= |bz|
  {
    UvarintTakes(bz, 0);
    UvarintAt(bz, 0)
  }

  lemma {:induction false} UvarintTakes(bz: bytes, i: nat)
    ensures UvarintAt(bz, i).Some? ==> 1 <= UvarintAt(bz, i).value.1 <= |bz|
    decreases |bz|
  {
    if bz != [] && bz[0] >= 128 { UvarintTakes(bz[1..], i + 1); }
  }

  /** 2^(64 - 7i): what a 64-bit number can still hold after i bytes */
  function Room(i: nat): (m: nat)
    requires i <= 9
    ensures m >= 2
    decreases 9 - i
  {
    if i == 9 then 2 else 128 * Room(i + 1)
  }

  lemma RoomStart()
    ensures Room(0) == 0x1_0000_0000_0000_0000
  {
    assert Room(5) == 0x2000_0000;
  }

  /** What was put is read back, whatever follows it. */
  lemma {:induction false} UvarintFrom(x: nat, i: nat, rest: bytes)
    requires i <= 9 && x < Room(i)
    ensures UvarintAt(PutUvarint(x) + rest, i) == Some((x, |PutUvarint(x)|))
    decreases x
  {
    if x >= 128 {
      assert (PutUvarint(x) + rest)[1..] == PutUvarint(x / 128) + rest;
      UvarintFrom(x / 128, i + 1, rest);
    }
  }

  lemma UvarintBack(x: nat, rest: bytes)
    requires x < 0x1_0000_0000_0000_0000
    ensures DecodeUvarint(PutUvarint(x) + rest) == Some((x, |PutUvarint(x)|))
  {
    RoomStart();
    UvarintFrom(x, 0, rest);
  }

  /** Signed numbers fold their sign into the lowest bit. */
  function Zigzag(i: int): (u: nat)
  {
    if i >= 0 then 2 * i else -2 * i - 1
  }

  function Unzigzag(u: nat): (i: int)
  {
    if u % 2 == 0 then u / 2 else -(u / 2) - 1
  }

  /** DecodeVarint; it takes a number that was cut short for a 0 of no bytes */
  function DecodeVarint(bz: bytes): (r: Option<(int, nat)>)
    ensures r.Some? ==> r.value.1 <= |bz|
  {
    match DecodeUvarint(bz)
    case Some((u, n)) => Some((Unzigzag(u), n))
    case None => if CutShort(bz) then Some((0, 0)) else None
  }

  /** Every byte says that more follow. */
  predicate CutShort(bz: bytes)
  {
    forall i :: 0 <= i < |bz| ==> bz[i] >= 128
  }

  lemma VarintBack(i: int, rest: bytes)
    requires -0x8000_0000_0000_0000 <= i < 0x8000_0000_0000_0000
    ensures DecodeVarint(PutUvarint(Zigzag(i)) + rest) == Some((i, |PutUvarint(Zigzag(i))|))
  {
    UvarintBack(Zigzag(i), rest);
  }

  // ---------- the number kinds

  datatype NumKind = Int8 | Int16 | Int32 | Int64 | Int | Uint8 | Uint16 | Uint32 | Uint64 | Uint

  predicate Signed(k: NumKind)
  {
    k in {Int8, Int16, Int32, Int64, Int}
  }

  /** How many values a kind has. */
  function Span(k: NumKind): (m: nat)
    ensures m >= 256
  {
    match k
    case Int8 | Uint8 => 0x100
    case Int16 | Uint16 => 0x1_0000
    case Int32 | Uint32 => 0x1_0000_0000
    case _ => 0x1_0000_0000_0000_0000
  }

  predicate InRange(i: int, k: NumKind)
  {
    if Signed(k) then -(Span(k) / 2) <= i < Span(k) / 2 else 0 <= i < Span(k)
  }

  /** The bytes of the fixed-width form, or 0 for varints; varint is the field option of 64-bit numbers. */
  function Width(k: NumKind, varint: bool): (n: nat)
  {
    if k == Int32 || k == Uint32 then 4 else if (k == Int64 || k == Uint64) && !varint then 8 else 0
  }

  /** The conversions between signed and unsigned numbers of a kind. */
  function Wrap(i: int, k: NumKind): (u: int)
  {
    if i < 0 then i + Span(k) else i
  }

  function Unwrap(u: nat, k: NumKind): (i: int)
  {
    if Signed(k) && u >= Span(k) / 2 then u - Span(k) else u
  }

  function EncodeNum(i: int, k: NumKind, varint: bool): (b: bytes)
    requires InRange(i, k)
    ensures |b| >= 1
  {
    var w := Width(k, varint);
    if w > 0 then PutBE(Wrap(i, k), w) else if Signed(k) then PutUvarint(Zigzag(i)) else PutUvarint(i)
  }

  /** Varints above the range of their kind are refused; below it, they wrap around. */
  function DecodeNum(bz: bytes, k: NumKind, varint: bool): (r: Option<(int, nat)>)
    ensures r.Some? ==> r.value.1 <= |bz|
  {
    var w := Width(k, varint);
    if w > 0 then (if |bz| < w then None else Some((Unwrap(BE(bz[..w]), k), w)))
    else if Signed(k) then
      match DecodeVarint(bz)
      case Some((i, n)) => if i >= Span(k) / 2 then None else Some((Unwrap(i % Span(k), k), n))
      case None => None
    else
      match DecodeUvarint(bz)
      case Some((u, n)) => if u >= Span(k) then None else Some((u, n))
      case None => None
  }

  lemma FixedSpan(k: NumKind, varint: bool)
    requires Width(k, varint) > 0
    ensures Pow256(Width(k, varint)) == Span(k)
  {
    assert Pow256(4) == 0x1_0000_0000;
    assert Pow256(8) == 0x1_0000_0000_0000_0000;
  }

  lemma WrapBack(i: int, k: NumKind)
    requires InRange(i, k)
    ensures 0 <= Wrap(i, k) < Span(k) && Unwrap(Wrap(i, k), k) == i
  {
  }

  /** Every number of every kind survives. */
  lemma NumBack(i: int, k: NumKind, varint: bool, rest: bytes)
    requires InRange(i, k)
    ensures DecodeNum(EncodeNum(i, k, varint) + rest, k, varint) == Some((i, |EncodeNum(i, k, varint)|))
  {
    var w, e := Width(k, varint), EncodeNum(i, k, varint);
    if w > 0 {
      WrapBack(i, k);
      FixedSpan(k, varint);
      BEBack(Wrap(i, k), w);
      assert (e + rest)[..w] == e;
    } else if Signed(k) {
      VarintBack(i, rest);
      SmallWrap(i, k);
    } else {
      UvarintBack(i, rest);
    }
  }

  lemma SmallWrap(i: int, k: NumKind)
    requires InRange(i, k) && Signed(k)
    ensures Unwrap(i % Span(k), k) == i
  {
    DivUnique(i, Span(k), if i < 0 then -1 else 0, Wrap(i, k));
  }

  // ---------- length-prefixed bytes

  /** EncodeByteSlice, EncodeString */
  function EncodeBytes(b: bytes): (e: bytes)
    ensures |e| >= 1
  {
    PutUvarint(|b|) + b
  }

  /** DecodeByteSlice, DecodeString; a length of 2^63 or more is negative as an int */
  function DecodeBytes(bz: bytes): (r: Option<(bytes, nat)>)
    ensures r.Some? ==> r.value.1 <= |bz|
  {
    match DecodeUvarint(bz)
    case None => None
    case Some((count, n)) =>
      if count >= 0x8000_0000_0000_0000 || |bz| - n < count then None else Some((bz[n..n + count], n + count))
  }

  lemma BytesBack(b: bytes, rest: bytes)
    requires |b| < 0x8000_0000_0000_0000
    ensures DecodeBytes(EncodeBytes(b) + rest) == Some((b, |EncodeBytes(b)|))
  {
    var p := PutUvarint(|b|);
    assert EncodeBytes(b) + rest == p + (b + rest);
    UvarintBack(|b|, b + rest);
    assert (p + (b + rest))[|p|..|p| + |b|] == b;
  }

  // ---------- numbers that are cut short

  lemma {:induction false} CutShortEnds(bz: bytes, i: nat)
    ensures CutShort(bz) ==> UvarintAt(bz, i) == None
    decreases |bz|
  {
    if bz != [] { CutShortEnds(bz[1..], i + 1); }
  }

  /** A signed number of no bytes is read exactly where every byte says that more follow. */
  lemma NoBytesRead(bz: bytes)
    ensures DecodeVarint(bz) == Some((0, 0)) <==> CutShort(bz)
  {
    CutShortEnds(bz, 0);
  }

  lemma {:induction false} PrefixCutShort(x: nat, n: nat)
    requires n < |PutUvarint(x)|
    ensures CutShort(PutUvarint(x)[..n])
    decreases x
  {
    if x >= 128 && n > 0 {
      PrefixCutShort(x / 128, n - 1);
      assert PutUvarint(x)[..n] == [x % 128 + 128] + PutUvarint(x / 128)[..n - 1];
    }
  }

  /** An encoding that is cut short is refused, except that of a signed varint: it reads as 0. */
  lemma CutShortRefused(i: int, k: NumKind, varint: bool, n: nat)
    requires InRange(i, k) && n < |EncodeNum(i, k, varint)|
    ensures var r := DecodeNum(EncodeNum(i, k, varint)[..n], k, varint);
            && (r.None? <==> !Signed(k) || Width(k, varint) > 0)
            && (r.Some? ==> r.value == (0, 0))
  {
    if Width(k, varint) == 0 {
      var x := if Signed(k) then Zigzag(i) else i;
      PrefixCutShort(x, n);
      CutShortEnds(PutUvarint(x)[..n], 0);
      DivUnique(0, Span(k), 0, 0);
    }
  }
}
