/** The repository's own additions to RLP: signed integers and maps (rlp/encode.go, rlp/decode.go). */
module RlpExt {
  import opened Ints
  import opened Results
  import opened BigEndian
  import opened RlpSpec
  import opened RlpStream
  import opened RlpEncode
  import opened RlpDecode

  /** Strings and byte slices, unsigned and signed integers of 1, 2, 4 or 8 bytes. */
  datatype ScalarType = TBytes | TUint(width: nat) | TInt(width: nat)

  datatype Scalar = Bytes(b: bytes) | Unsigned(n: nat) | Signed(i: int)

  predicate ValidType(ty: ScalarType)
  {
    ty.TBytes? || ty.width in {1, 2, 4, 8}
  }

  /** 256^width, for the widths there are */
  function Modulus(width: nat): (m: nat)
  {
    if width == 1 then 0x100 else if width == 2 then 0x1_0000 else if width == 4 then 0x1_0000_0000 else 0x1_0000_0000_0000_0000
  }

  predicate HasType(v: Scalar, ty: ScalarType)
  {
    match ty
    case TBytes => v.Bytes?
    case TUint(w) => v.Unsigned? && v.n < Modulus(w)
    case TInt(w) => v.Signed? && -2 * v.i <= Modulus(w) && 2 * v.i < Modulus(w)
  }

  // ---------- integers

  /** writeUint, and what writeInt does after its conversion */
  function WriteUint(i: nat): (b: bytes)
  {
    if i == 0 then [0x80]
    else if i < 128 then [i]
    else [(0x80 + |PutInt(i)|) % 256] + PutInt(i)
  }

  /** The conversion of writeInt: negative numbers wrap around in their own width. */
  function ToUint(i: int, width: nat): (v: int)
  {
    if i < 0 then i + Modulus(width) else i
  }

  /** The conversion of decodeInt: int64(num), stored in the width of the target */
  function ToInt(v: nat, width: nat): (i: int)
  {
    if 2 * v < Modulus(width) then v else v - Modulus(width)
  }

  lemma UintIsStr(i: nat)
    requires i < 0x1_0000_0000_0000_0000
    ensures WriteUint(i) == EncStr(IntBytes(i))
  {
    PutIntIs(i);
    if 0 < i < 256 { OneByteNumber(i); }
    if i >= 256 { TwoBytes(i); }
  }

  lemma TwoBytes(i: nat)
    requires i >= 256
    ensures |IntBytes(i)| >= 2
  {
    assert i / 256 > 0;
  }

  /** Wrapping around and back is the identity on the numbers of a width. */
  lemma WrapAround(i: int, width: nat)
    requires HasType(Signed(i), TInt(width))
    ensures 0 <= ToUint(i, width) < Modulus(width) && ToInt(ToUint(i, width), width) == i
  {
  }

  lemma UnwrapAround(v: nat, width: nat)
    requires v < Modulus(width)
    ensures HasType(Signed(ToInt(v, width)), TInt(width)) && ToUint(ToInt(v, width), width) == v
  {
  }

  function WriteScalar(v: Scalar, ty: ScalarType): (b: bytes)
    requires HasType(v, ty)
  {
    match ty
    case TBytes => EncStr(v.b)
    case TUint(_) => WriteUint(v.n)
    case TInt(w) => WriteUint(ToUint(v.i, w))
  }

  lemma WidthBytes(n: nat, width: nat)
    requires width in {1, 2, 4, 8}
    ensures n < Modulus(width) <==> |IntBytes(n)| <= width
  {
    SmallPow256();
    if n < Modulus(width) { IntBytesLength(n, width); }
    if |IntBytes(n)| <= width {
      IntBytesValue(n);
      BEBound(IntBytes(n));
      PowMonotone(|IntBytes(n)|, width);
    }
  }

  /** The numbers a target of some width takes are those below its modulus. */
  lemma NumberConforms(b: bytes, width: nat)
    requires width in {1, 2, 4, 8}
    ensures Conforms(Str(b), Uint(width)) <==> BE(b) < Modulus(width) && IntBytes(BE(b)) == b
  {
    if b == [] || b[0] != 0 {
      IntBytesUnique(b);
      WidthBytes(BE(b), width);
    } else if IntBytes(BE(b)) == b {
      IntBytesValue(BE(b));
    }
  }

  lemma NumberWritten(n: nat, width: nat)
    requires width in {1, 2, 4, 8}
    ensures n < Modulus(width) <==> Conforms(Str(IntBytes(n)), Uint(width))
    ensures n < Modulus(width) ==> WriteUint(n) == Enc(Str(IntBytes(n)))
    ensures BE(IntBytes(n)) == n
  {
    IntBytesValue(n);
    NumberConforms(IntBytes(n), width);
    if n < Modulus(width) { UintIsStr(n); }
  }

  /** Some number of the width is written as b. */
  ghost predicate IsNumber(b: bytes, width: nat)
  {
    exists n: nat :: n < Modulus(width) && WriteUint(n) == b
  }

  method DecodeNumber(b: bytes, width: nat) returns (r: Result<nat, Error>)
    requires |b| <= MAX_LEN && width in {1, 2, 4, 8}
    ensures r.Ok? ==> r.value < Modulus(width) && WriteUint(r.value) == b
    ensures r.Err? ==> !IsNumber(b, width)
  {
    var t := DecodeBytes(b, Uint(width));
    r := if t.Ok? then Ok(BE(t.value.b)) else Err(t.error);
    if t.Ok? {
      NumberConforms(t.value.b, width);
      NumberWritten(BE(t.value.b), width);
    } else {
      forall n: nat ensures !(n < Modulus(width) && WriteUint(n) == b) {
        NumberWritten(n, width);
        assert Enc(Str(IntBytes(n))) == b && Conforms(Str(IntBytes(n)), Uint(width)) ==> IsEncoding(b, Uint(width));
      }
    }
  }

  /** Some scalar of the type is written as b. */
  ghost predicate IsScalar(b: bytes, ty: ScalarType)
  {
    exists v :: HasType(v, ty) && WriteScalar(v, ty) == b
  }

  /** Decoding a scalar succeeds exactly on what writing a scalar of the type gives. */
  method DecodeScalar(b: bytes, ty: ScalarType) returns (r: Result<Scalar, Error>)
    requires |b| <= MAX_LEN && ValidType(ty)
    ensures r.Ok? ==> HasType(r.value, ty) && WriteScalar(r.value, ty) == b
    ensures r.Err? ==> !IsScalar(b, ty)
  {
    match ty {
      case TBytes =>
        var t := DecodeBytes(b, ByteSlice);
        r := if t.Ok? then Ok(Bytes(t.value.b)) else Err(t.error);
        forall v | HasType(v, ty) && WriteScalar(v, ty) == b ensures IsEncoding(b, ByteSlice) { assert Enc(Str(v.b)) == b; }
      case TUint(w) =>
        var n := DecodeNumber(b, w);
        r := if n.Ok? then Ok(Unsigned(n.value)) else Err(n.error);
      case TInt(w) =>
        var n := DecodeNumber(b, w);
        r := if n.Ok? then Ok(Signed(ToInt(n.value, w))) else Err(n.error);
        if n.Ok? { UnwrapAround(n.value, w); }
        forall v | HasType(v, ty) && WriteScalar(v, ty) == b ensures IsNumber(b, w) { WrapAround(v.i, w); }
    }
  }
}
