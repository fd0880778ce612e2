/**
 * The binary codec of tendermint/go-amino: types and values in place of reflection, the encoding of
 * binary-encode.go and the decoding of binary-decode.go as functions.
 */
module AminoCodec {
  import opened Ints
  import opened Results
  import opened AminoPrim
  import opened AminoRegistry

  /**
   * Go types.  Slices and arrays of bytes are TByteSlice and TByteArray; named says that their elements are not uint8
   * itself but a type with that kind.  TIface names an interface by its place in the codec.
   */
  datatype Type =
    | TBool | TNum(kind: NumKind) | TString | TByteSlice(named: bool) | TByteArray(len: nat, named: bool)
    | TSlice(elem: Type) | TArray(len: nat, elem: Type) | TStruct(fields: seq<Field>)
    | TIface(iface: nat) | TPtr(elem: Type) | TNamed(id: TypeId)

  /** A struct field; varint is its binary:"varint" option. */
  datatype Field = Field(typ: Type, varint: bool)

  /**
   * Go values.  Nil and empty slices are one value, and an interface holds a registered type's value without pointers,
   * be it the value or a pointer to it.
   */
  datatype Value =
    | VBool(b: bool) | VInt(i: int) | VBytes(bs: bytes) | VList(vs: seq<Value>) | VStruct(vs: seq<Value>)
    | VNil | VPtr(v: Value) | VIface(id: TypeId, v: Value) | VZero(t: Type)

  /**
   * What the codec knows: named types and registrations.  A type implements an interface by its pointer, and perhaps
   * also by its values.
   */
  datatype Env = Env(under: map<TypeId, Type>, ifaces: seq<Iface>, concretes: seq<Concrete>, disfixes: map<bytes, Concrete>,
                     implements: (TypeId, IfaceId) -> bool, valueImplements: (TypeId, IfaceId) -> bool)

  // ---------- types

  /** The type behind a name. */
  function Core(env: Env, t: Type): Type
  {
    if t.TNamed? && t.id in env.under then env.under[t.id] else t
  }

  function DerefT(t: Type): (r: Type)
    ensures !r.TPtr?
  {
    if t.TPtr? then DerefT(t.elem) else t
  }

  /** The concrete type registered for an id. */
  function Registered(cs: seq<Concrete>, id: TypeId): (c: Option<Concrete>)
    ensures c.Some? ==> c.value in cs && c.value.id == id
  {
    if cs == [] then None else if cs[0].id == id then Some(cs[0]) else Registered(cs[1..], id)
  }

  function RegisteredType(env: Env, t: Type): (c: Option<Concrete>)
  {
    if t.TNamed? then Registered(env.concretes, t.id) else None
  }

  /** typeToTyp3 */
  function Typ3(env: Env, t: Type, varint: bool): (typ: nat)
    ensures typ < 8
  {
    match Core(env, t)
    case TIface(_) => 7
    case TString => 2
    case TByteSlice(_) => 2
    case TByteArray(_, _) => 2
    case TSlice(_) => 6
    case TArray(_, _) => 6
    case TStruct(_) => 3
    case TNum(k) => if k == Int64 || k == Uint64 then (if varint then 0 else 1) else if k == Int32 || k == Uint32 then 5 else 0
    case _ => 0
  }

  /** typeToTyp4: with a bit for pointers */
  function Typ4(env: Env, t: Type, varint: bool): (typ: nat)
    ensures typ < 16
  {
    Typ3(env, DerefT(t), varint) + if t.TPtr? then 8 else 0
  }

  // ---------- values

  function DerefV(v: Value): (r: Value)
    ensures !r.VPtr?
  {
    if v.VPtr? then DerefV(v.v) else v
  }

  /** isVoid: nil or empty after following pointers */
  predicate IsVoid(env: Env, v: Value, t: Type)
    decreases v
  {
    match Core(env, t)
    case TPtr(e) => v.VPtr? ==> IsVoid(env, v.v, e)
    case TString => v == VBytes([])
    case TByteSlice(_) => v == VBytes([])
    case TSlice(_) => v == VList([])
    case TIface(_) => v == VNil
    case _ => false
  }

  /** The zero value of a type; those of structs and arrays are not spelled out. */
  function Zero(env: Env, t: Type): Value
  {
    match Core(env, t)
    case TPtr(_) => VNil
    case TIface(_) => VNil
    case TString => VBytes([])
    case TByteSlice(_) => VBytes([])
    case TSlice(_) => VList([])
    case TBool => VBool(false)
    case TNum(_) => VInt(0)
    case _ => VZero(t)
  }

  const MAX: nat := 0x7fff_ffff_ffff_ffff

  predicate HasType(env: Env, v: Value, t: Type)
    decreases v, 0
  {
    match Core(env, t)
    case TBool => v.VBool?
    case TNum(k) => v.VInt? && InRange(v.i, k)
    case TString => v.VBytes? && |v.bs| <= MAX
    case TByteSlice(_) => v.VBytes? && |v.bs| <= MAX
    case TByteArray(n, _) => v.VBytes? && |v.bs| == n <= MAX
    case TSlice(e) => v.VList? && |v.vs| <= MAX && HaveType(env, v.vs, e)
    case TArray(n, e) => v.VList? && |v.vs| == n <= MAX && HaveType(env, v.vs, e)
    case TStruct(fs) => v.VStruct? && |v.vs| == |fs| && FieldsHaveType(env, v.vs, fs)
    case TIface(k) => k < |env.ifaces| && (v.VNil? || (v.VIface? && Implements(env, v.id, k) && HasType(env, v.v, TNamed(v.id))))
    case TPtr(e) => v.VNil? || (v.VPtr? && HasType(env, v.v, e))
    case TNamed(_) => false
  }

  predicate HaveType(env: Env, vs: seq<Value>, t: Type)
    decreases vs, 0
  {
    vs == [] || (HasType(env, vs[0], t) && HaveType(env, vs[1..], t))
  }

  predicate FieldsHaveType(env: Env, vs: seq<Value>, fs: seq<Field>)
    decreases vs, 0
  {
    |vs| == |fs| && (vs == [] || (HasType(env, vs[0], fs[0].typ) && FieldsHaveType(env, vs[1..], fs[1..])))
  }

  /** A registered type behind an interface: its pointer implements it. */
  predicate Implements(env: Env, id: TypeId, k: nat)
  {
    k < |env.ifaces| && Registered(env.concretes, id).Some? && env.implements(id, env.ifaces[k].id)
  }

  // ---------- encoding

  /** encodeFieldNumberAndTyp3 */
  function Key(num: nat, typ: nat): (b: bytes)
    requires typ < 8
    ensures |b| >= 1
  {
    PutUvarint(8 * num + typ)
  }

  /** encodeReflectBinary: registered types have their prefix in front */
  function Enc(env: Env, v: Value, t: Type, varint: bool): (b: bytes)
    requires HasType(env, v, t) && !t.TPtr? && Supported(env)
    decreases v, 2
  {
    var c := RegisteredType(env, t);
    (if c.Some? then WithTyp3(c.value.prefix, Typ3(env, t, varint)) else []) + EncBody(env, v, t, varint)
  }

  /** _encodeReflectBinary */
  function EncBody(env: Env, v: Value, t: Type, varint: bool): (b: bytes)
    requires HasType(env, v, t) && !t.TPtr? && Supported(env)
    decreases v, 1
  {
    match Core(env, t)
    case TBool => if v.b then [1] else [0]
    case TNum(k) => EncodeNum(v.i, k, varint)
    case TString => EncodeBytes(v.bs)
    case TByteSlice(_) => EncodeBytes(v.bs)
    case TByteArray(_, _) => EncodeBytes(v.bs)
    case TSlice(e) => [Typ4(env, e, varint)] + PutUvarint(|v.vs|) + EncElems(env, v.vs, e, varint)
    case TArray(_, e) => [Typ4(env, e, varint)] + PutUvarint(|v.vs|) + EncElems(env, v.vs, e, varint)
    case TStruct(fs) => EncFields(env, v.vs, fs, 1) + [4]
    case TIface(k) =>
      if v.VNil? then [0, 0]
      else
        var c := Registered(env.concretes, v.id).value;
        HeaderOf(env.ifaces[k], c, Typ3(env, TNamed(v.id), varint)) + EncBody(env, v.v, TNamed(v.id), varint)
  }

  /** The elements of a list; pointers say first whether they are nil or empty. */
  function EncElems(env: Env, vs: seq<Value>, t: Type, varint: bool): (b: bytes)
    requires HaveType(env, vs, t) && Supported(env)
    decreases vs, 0
  {
    if vs == [] then [] else EncElem(env, vs[0], t, varint) + EncElems(env, vs[1..], t, varint)
  }

  function EncElem(env: Env, v: Value, t: Type, varint: bool): (b: bytes)
    requires HasType(env, v, t) && Supported(env)
    decreases v, 3
  {
    if !t.TPtr? then Enc(env, v, t, varint)
    else if IsVoid(env, v, t) then [1]
    else
      DerefType(env, v, t);
      [0] + Enc(env, DerefV(v), DerefT(t), varint)
  }

  /** The fields of a struct from number num on; nil and empty ones are left out. */
  function EncFields(env: Env, vs: seq<Value>, fs: seq<Field>, num: nat): (b: bytes)
    requires FieldsHaveType(env, vs, fs) && Supported(env)
    decreases vs, 0
  {
    if vs == [] then [] else EncField(env, vs[0], fs[0], num) + EncFields(env, vs[1..], fs[1..], num + 1)
  }

  function EncField(env: Env, v: Value, f: Field, num: nat): (b: bytes)
    requires HasType(env, v, f.typ) && Supported(env)
    decreases v, 3
  {
    if IsVoid(env, v, f.typ) then []
    else
      DerefType(env, v, f.typ);
      Key(num, Typ3(env, DerefT(f.typ), f.varint)) + Enc(env, DerefV(v), DerefT(f.typ), f.varint)
  }

  /** A value that is not void is still there behind its pointers. */
  lemma {:induction false} DerefType(env: Env, v: Value, t: Type)
    requires HasType(env, v, t) && !IsVoid(env, v, t) && Supported(env)
    ensures HasType(env, DerefV(v), DerefT(t)) && (DerefV(v) == v || DerefV(v) < v)
    decreases v
  {
    if t.TPtr? { DerefType(env, v.v, t.elem); }
  }

  // ---------- which types are supported

  /** The elements that make a slice or an array a byte string. */
  predicate IsByte(env: Env, t: Type)
  {
    Core(env, t) == TNum(Uint8)
  }

  /** Fewer fields than field numbers, names that are defined, and byte strings that are written as such. */
  predicate SupportedType(env: Env, t: Type)
  {
    match t
    case TPtr(e) => SupportedType(env, e)
    case TSlice(e) => SupportedType(env, e) && !IsByte(env, e)
    case TArray(_, e) => SupportedType(env, e) && !IsByte(env, e)
    case TStruct(fs) => |fs| < 0x1000_0000 && forall i :: 0 <= i < |fs| ==> SupportedType(env, fs[i].typ)
    case TNamed(id) => id in env.under
    case _ => true
  }

  /** Registrations as they succeed, and names that stand for types other than names, pointers and interfaces. */
  ghost predicate Supported(env: Env)
  {
    && WellFormed(env.ifaces, env.concretes, env.disfixes, env.implements)
    && (forall c :: c in env.concretes ==> c.id in env.under)
    && (forall id :: id in env.under ==>
         SupportedType(env, env.under[id]) && !env.under[id].TNamed? && !env.under[id].TPtr? && !env.under[id].TIface?)
  }

  // ---------- decoding

  /** A value in place behind the pointers of its type. */
  function WrapPtr(v: Value, t: Type): Value
  {
    if t.TPtr? then VPtr(WrapPtr(v, t.elem)) else v
  }

  /** A decoded value and the number of bytes it took; none for an error or a panic. */
  type Decoded<T> = Option<(T, nat)>

  predicate Within<T>(r: Decoded<T>, bz: bytes)
  {
    r.Some? ==> r.value.1 <= |bz|
  }

  /** decodeFieldNumberAndTyp3: number, type bits and bytes taken; number 0 stands for an error, too */
  function DecodeKey(bz: bytes): (r: (nat, nat, nat))
    ensures r.0 != 0 ==> 1 <= r.2 <= |bz|
  {
    match DecodeUvarint(bz)
    case None => (0, 0, 0)
    case Some((x, n)) => if x / 8 >= 0x2000_0000 then (0, x % 8, n) else (x / 8, x % 8, n)
  }

  /** decodeReflectBinary, into a fresh target; a pointer to an interface panics */
  function Dec(env: Env, bz: bytes, t: Type, varint: bool): (r: Decoded<Value>)
    ensures Within(r, bz)
    decreases |bz|, 2, 0
  {
    var d := DerefT(t);
    var c := RegisteredType(env, d);
    if t.TPtr? && Core(env, d).TIface? then None
    else if c.Some? && (|bz| < 4 || SplitTyp3(bz[..4]) != (c.value.prefix, Typ3(env, d, varint))) then None
    else
      var k := if c.Some? then 4 else 0;
      match DecBody(env, bz[k..], d, varint)
      case None => None
      case Some((v, n)) => Some((WrapPtr(v, t), k + n))
  }

  /** _decodeReflectBinary */
  function DecBody(env: Env, bz: bytes, t: Type, varint: bool): (r: Decoded<Value>)
    ensures Within(r, bz)
    decreases |bz|, 1, 0
  {
    match Core(env, t)
    case TSlice(e) => DecList(env, bz, e, varint, None)
    case TArray(len, e) => DecList(env, bz, e, varint, Some(len))
    case TStruct(fs) => DecStruct(env, bz, fs)
    case TIface(k) => DecIface(env, bz, k, varint)
    case core => DecScalar(bz, core, varint)
  }

  /** A list: of any length that the bytes have room for, or of an array's length. */
  function DecList(env: Env, bz: bytes, t: Type, varint: bool, len: Option<nat>): (r: Decoded<Value>)
    ensures Within(r, bz)
    decreases |bz|, 0, 0
  {
    match DecListHead(env, bz, t, varint)
    case None => None
    case Some((count, n)) =>
      if (len.None? && count > |bz| - n) || (len.Some? && count != len.value) then None
      else match DecElems(env, bz[n..], t, varint, count) case None => None case Some((vs, m)) => Some((VList(vs), n + m))
  }

  /** The types that hold no other values; bytes cannot be set into elements of another type than uint8. */
  function DecScalar(bz: bytes, t: Type, varint: bool): (r: Decoded<Value>)
    ensures Within(r, bz)
  {
    match t
    case TBool => if bz == [] || bz[0] > 1 then None else Some((VBool(bz[0] == 1), 1))
    case TNum(k) => (match DecodeNum(bz, k, varint) case None => None case Some((i, n)) => Some((VInt(i), n)))
    case TString => DecBytes(bz)
    case TByteSlice(named) =>
      var r := DecBytes(bz);
      if named && r.Some? && r.value.0 != VBytes([]) then None else r
    case TByteArray(len, named) =>
      var r := DecBytes(bz);
      if named || |bz| < len || r.None? || !r.value.0.VBytes? || |r.value.0.bs| != len then None else r
    case _ => None
  }

  function DecBytes(bz: bytes): (r: Decoded<Value>)
    ensures Within(r, bz)
  {
    match DecodeBytes(bz) case None => None case Some((b, n)) => Some((VBytes(b), n))
  }

  /** The Typ4 byte of the elements, and their number. */
  function DecListHead(env: Env, bz: bytes, t: Type, varint: bool): (r: Decoded<nat>)
    ensures r.Some? ==> 2 <= r.value.1 <= |bz| && r.value.0 <= MAX
  {
    if bz == [] || bz[0] as int != Typ4(env, t, varint) then None
    else
      match DecodeUvarint(bz[1..])
      case None => None
      case Some((count, n)) => if count > MAX then None else Some((count, 1 + n))
  }

  function DecElems(env: Env, bz: bytes, t: Type, varint: bool, count: nat): (r: Decoded<seq<Value>>)
    ensures Within(r, bz)
    decreases |bz|, 4, count
  {
    if count == 0 then Some(([], 0))
    else
      match DecElem(env, bz, t, varint)
      case None => None
      case Some((v, n)) =>
        match DecElems(env, bz[n..], t, varint, count - 1)
        case None => None
        case Some((vs, m)) => Some(([v] + vs, n + m))
  }

  /** One element; decodeNumNilBytes accepts 0 and 1 */
  function DecElem(env: Env, bz: bytes, t: Type, varint: bool): (r: Decoded<Value>)
    ensures Within(r, bz)
    decreases |bz|, 3, 0
  {
    if !t.TPtr? then Dec(env, bz, t, varint)
    else if bz == [] || bz[0] > 1 then None
    else if bz[0] == 1 then Some((Zero(env, t), 1))
    else match Dec(env, bz[1..], t, varint) case None => None case Some((v, n)) => Some((v, 1 + n))
  }

  /** The zero values of the fields that were left out at the end. */
  function ZeroFields(env: Env, fs: seq<Field>): (vs: seq<Value>)
    ensures |vs| == |fs|
  {
    if fs == [] then [] else [Zero(env, fs[0].typ)] + ZeroFields(env, fs[1..])
  }

  /** What is ahead for one field. */
  datatype Step = Wrong | Ended | Read(v: Value, n: nat)

  /** Field number num: a larger number ahead leaves it out, number 0 ends the fields. */
  function DecField(env: Env, bz: bytes, f: Field, num: nat): (s: Step)
    ensures s.Read? ==> s.n <= |bz|
    decreases |bz|, 0, 0
  {
    var (k, typ, n) := DecodeKey(bz);
    if num < k then Read(Zero(env, f.typ), 0)
    else if k == 0 then Ended
    else if k != num || typ != Typ3(env, DerefT(f.typ), f.varint) then Wrong
    else match Dec(env, bz[n..], f.typ, f.varint) case None => Wrong case Some((v, m)) => Read(v, n + m)
  }

  /** The fields from number num on. */
  function DecFields(env: Env, bz: bytes, fs: seq<Field>, num: nat): (r: Decoded<seq<Value>>)
    ensures Within(r, bz)
    decreases |bz|, 0, 1 + |fs|
  {
    if fs == [] then Some(([], 0))
    else
      match DecField(env, bz, fs[0], num)
      case Wrong => None
      case Ended => Some((ZeroFields(env, fs), 0))
      case Read(v, n) =>
        match DecFields(env, bz[n..], fs[1..], num + 1)
        case None => None
        case Some((vs, m)) => Some(([v] + vs, n + m))
  }

  /** The fields and the byte that ends them. */
  function DecStruct(env: Env, bz: bytes, fs: seq<Field>): (r: Decoded<Value>)
    ensures Within(r, bz)
    decreases |bz|, 0, 2 + |fs|
  {
    match DecFields(env, bz, fs, 1)
    case None => None
    case Some((vs, n)) => if n < |bz| && bz[n] == 4 then Some((VStruct(vs), n + 1)) else None
  }

  /** Whether what constructConcreteType makes, a pointer or a value, can be set into the interface. */
  predicate Settable(env: Env, c: Concrete, k: nat)
    requires k < |env.ifaces|
  {
    if c.pointer then env.implements(c.id, env.ifaces[k].id) else env.valueImplements(c.id, env.ifaces[k].id)
  }

  function DecIface(env: Env, bz: bytes, k: nat, varint: bool): (r: Decoded<Value>)
    ensures Within(r, bz)
    decreases |bz|, 0, 0
  {
    if k >= |env.ifaces| then None
    else
      var h := ReadHeader(bz);
      if h.NilHeader? then Some((VNil, 2))
      else
        var c := Lookup(env.ifaces[k], env.disfixes, h);
        if c.None? || h.typ != Typ3(env, TNamed(c.value.id), varint) || !Settable(env, c.value, k) then None
        else
          match DecBody(env, bz[HeaderSize(h)..], TNamed(c.value.id), varint)
          case None => None
          case Some((v, n)) => Some((VIface(c.value.id, v), HeaderSize(h) + n))
  }
}
