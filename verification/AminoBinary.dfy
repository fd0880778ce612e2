/**
 * The loops of tendermint/go-amino/binary-encode.go and binary-decode.go, and the entry points of amino.go, whose
 * contracts are the round trip.
 */
module AminoBinary {
  import opened Ints
  import opened Results
  import opened AminoPrim
  import opened AminoRegistry
  import opened AminoCodec
  import opened AminoRoundTrip

  // ---------- the loops of encoding

  /** The writer that encoders append to. */
  class Buffer {
    var buf: bytes

    constructor ()
      ensures buf == []
    {
      buf := [];
    }

    method Write(b: bytes)
      modifies this
      ensures buf == old(buf) + b
    {
      buf := buf + b;
    }
  }

  method EncodeList(env: Env, w: Buffer, vs: seq<Value>, t: Type, varint: bool)
    requires HaveType(env, vs, t) && Supported(env)
    modifies w
    ensures w.buf == old(w.buf) + ([Typ4(env, t, varint)] + PutUvarint(|vs|) + EncElems(env, vs, t, varint))
  {
    w.Write([Typ4(env, t, varint)]);
    w.Write(PutUvarint(|vs|));
    ghost var start := w.buf;
    var i := 0;
    while i < |vs|
      invariant 0 <= i <= |vs| && HaveType(env, vs[i..], t)
      invariant w.buf + EncElems(env, vs[i..], t, varint) == start + EncElems(env, vs, t, varint)
    {
      assert vs[i..][0] == vs[i] && vs[i..][1..] == vs[i + 1..];
      ghost var before := w.buf;
      EncodeElem(env, w, vs[i], t, varint);
      Assoc(before, EncElem(env, vs[i], t, varint), EncElems(env, vs[i + 1..], t, varint));
      i := i + 1;
    }
    assert vs[i..] == [] && w.buf + [] == w.buf;
    Assoc(old(w.buf), [Typ4(env, t, varint)], PutUvarint(|vs|));
    Assoc(old(w.buf), [Typ4(env, t, varint)] + PutUvarint(|vs|), EncElems(env, vs, t, varint));
  }

  /** An element, after a byte that says whether a pointer is nil or empty. */
  method EncodeElem(env: Env, w: Buffer, v: Value, t: Type, varint: bool)
    requires HasType(env, v, t) && Supported(env)
    modifies w
    ensures w.buf == old(w.buf) + EncElem(env, v, t, varint)
  {
    if t.TPtr? && IsVoid(env, v, t) {
      w.Write([1]);
    } else if t.TPtr? {
      DerefType(env, v, t);
      w.Write([0]);
      w.Write(Enc(env, DerefV(v), DerefT(t), varint));
      Assoc(old(w.buf), [0], Enc(env, DerefV(v), DerefT(t), varint));
    } else {
      w.Write(Enc(env, v, t, varint));
    }
  }

  method EncodeStruct(env: Env, w: Buffer, vs: seq<Value>, fs: seq<Field>)
    requires FieldsHaveType(env, vs, fs) && Supported(env)
    modifies w
    ensures w.buf == old(w.buf) + (EncFields(env, vs, fs, 1) + [4])
  {
    var i := 0;
    while i < |vs|
      invariant 0 <= i <= |vs| && FieldsHaveType(env, vs[i..], fs[i..])
      invariant w.buf + EncFields(env, vs[i..], fs[i..], i + 1) == old(w.buf) + EncFields(env, vs, fs, 1)
    {
      assert vs[i..][0] == vs[i] && vs[i..][1..] == vs[i + 1..] && fs[i..][0] == fs[i] && fs[i..][1..] == fs[i + 1..];
      ghost var before := w.buf;
      if !IsVoid(env, vs[i], fs[i].typ) {
        DerefType(env, vs[i], fs[i].typ);
        var key := Key(i + 1, Typ3(env, DerefT(fs[i].typ), fs[i].varint));
        w.Write(key);
        w.Write(Enc(env, DerefV(vs[i]), DerefT(fs[i].typ), fs[i].varint));
        Assoc(before, key, Enc(env, DerefV(vs[i]), DerefT(fs[i].typ), fs[i].varint));
      }
      assert w.buf == before + EncField(env, vs[i], fs[i], i + 1);
      Assoc(before, EncField(env, vs[i], fs[i], i + 1), EncFields(env, vs[i + 1..], fs[i + 1..], i + 2));
      i := i + 1;
    }
    assert vs[i..] == [] && w.buf + [] == w.buf;
    w.Write([4]);
    Assoc(old(w.buf), EncFields(env, vs, fs, 1), [4]);
  }

  // ---------- the loops of decoding

  /** Values read and bytes taken so far, before those still to come. */
  function Then(vs: seq<Value>, n: nat, r: Decoded<seq<Value>>): Decoded<seq<Value>>
  {
    match r case None => None case Some((ws, m)) => Some((vs + ws, n + m))
  }

  lemma ThenCons(vs: seq<Value>, n: nat, v: Value, k: nat, r: Decoded<seq<Value>>)
    ensures Then(vs, n, Then([v], k, r)) == Then(vs + [v], n + k, r)
  {
    if r.Some? {
      assert vs + ([v] + r.value.0) == (vs + [v]) + r.value.0;
    }
  }

  lemma ThenNone(r: Decoded<seq<Value>>)
    ensures Then([], 0, r) == r
  {
    if r.Some? {
      assert [] + r.value.0 == r.value.0;
    }
  }

  /** One element more. */
  lemma ElemsStep(env: Env, bz: bytes, t: Type, varint: bool, count: nat, vs: seq<Value>, n: nat, e: Decoded<Value>)
    requires count > 0 && DecElem(env, bz, t, varint) == e
    ensures e.None? ==> Then(vs, n, DecElems(env, bz, t, varint, count)) == None
    ensures e.Some? ==> e.value.1 <= |bz| && Then(vs, n, DecElems(env, bz, t, varint, count))
                                        == Then(vs + [e.value.0], n + e.value.1,
                                          DecElems(env, bz[e.value.1..], t, varint, count - 1))
  {
    if e.Some? {
      var r := DecElems(env, bz[e.value.1..], t, varint, count - 1);
      assert DecElems(env, bz, t, varint, count) == Then([e.value.0], e.value.1, r);
      ThenCons(vs, n, e.value.0, e.value.1, r);
    }
  }

  /** The loop over the elements of a slice or an array. */
  method DecodeElems(env: Env, bz: bytes, t: Type, varint: bool, count: nat) returns (r: Decoded<seq<Value>>)
    ensures r == DecElems(env, bz, t, varint, count)
  {
    var b, vs, n := bz, [], 0;
    ghost var all := DecElems(env, bz, t, varint, count);
    ghost var left := all;
    ThenNone(all);
    var i := 0;
    while i < count
      invariant 0 <= i <= count
      invariant left == DecElems(env, b, t, varint, count - i)
      invariant all == Then(vs, n, left)
    {
      var e := DecElem(env, b, t, varint);
      ElemsStep(env, b, t, varint, count - i, vs, n, e);
      match e {
        case None => return None;
        case Some((v, m)) => b, vs, n := b[m..], vs + [v], n + m;
      }
      i := i + 1;
      left := DecElems(env, b, t, varint, count - i);
    }
    assert vs + [] == vs;
    return Some((vs, n));
  }

  /** One field more. */
  lemma FieldsStep(env: Env, bz: bytes, fs: seq<Field>, num: nat, vs: seq<Value>, n: nat, s: Step)
    requires fs != [] && DecField(env, bz, fs[0], num) == s
    ensures s.Wrong? ==> Then(vs, n, DecFields(env, bz, fs, num)) == None
    ensures s.Ended? ==> Then(vs, n, DecFields(env, bz, fs, num)) == Some((vs + ZeroFields(env, fs), n))
    ensures s.Read? ==> s.n <= |bz| && Then(vs, n, DecFields(env, bz, fs, num))
                                    == Then(vs + [s.v], n + s.n, DecFields(env, bz[s.n..], fs[1..], num + 1))
  {
    if s.Read? {
      var r := DecFields(env, bz[s.n..], fs[1..], num + 1);
      assert DecFields(env, bz, fs, num) == Then([s.v], s.n, r);
      ThenCons(vs, n, s.v, s.n, r);
    }
  }

  /** The loop over the fields of a struct. */
  method DecodeFields(env: Env, bz: bytes, fs: seq<Field>) returns (r: Decoded<seq<Value>>)
    ensures r == DecFields(env, bz, fs, 1)
  {
    var b, todo, vs, n := bz, fs, [], 0;
    ghost var all := DecFields(env, bz, fs, 1);
    ghost var left := all;
    ThenNone(all);
    var num := 1;
    while todo != []
      invariant left == DecFields(env, b, todo, num)
      invariant all == Then(vs, n, left)
      decreases |todo|
    {
      var s := DecField(env, b, todo[0], num);
      FieldsStep(env, b, todo, num, vs, n, s);
      match s {
        case Wrong => return None;
        case Ended => return Some((vs + ZeroFields(env, todo), n));
        case Read(v, m) => b, vs, n := b[m..], vs + [v], n + m;
      }
      todo, num := todo[1..], num + 1;
      left := DecFields(env, b, todo, num);
    }
    assert vs + [] == vs;
    return Some((vs, n));
  }

  // ---------- entry points

  /** derefPointers finds a nil pointer. */
  predicate NilPointer(v: Value, t: Type)
    decreases v
  {
    t.TPtr? && (v.VPtr? ==> NilPointer(v.v, t.elem))
  }

  lemma {:induction false} DerefNotNil(env: Env, v: Value, t: Type)
    requires HasType(env, v, t) && Supported(env) && !NilPointer(v, t)
    ensures HasType(env, DerefV(v), DerefT(t))
    decreases v
  {
    if t.TPtr? {
      DerefNotNil(env, v.v, t.elem);
    } else {
      NotPtr(env, v, t);
    }
  }

  /** What UnmarshalBinaryBare leaves in a fresh target of type t; none for an error. */
  function Unmarshalled(env: Env, bz: bytes, t: Type): (v: Option<Value>)
  {
    var r := Dec(env, bz, t, false);
    if bz == [] || r.None? || r.value.1 != |bz| then None else Some(r.value.0)
  }

  /** What UnmarshalBinary leaves there: the length must be that of the bytes after it. */
  function UnmarshalledLong(env: Env, bz: bytes, t: Type): (v: Option<Value>)
  {
    match DecodeUvarint(bz)
    case None => None
    case Some((size, n)) => if size != |bz| - n then None else Unmarshalled(env, bz[n..], t)
  }

  /** The value behind the pointers of a marshalled one, as it comes back; none if it cannot be read. */
  ghost function ComesBack(env: Env, v: Value, t: Type): (r: Option<Value>)
    requires HasType(env, v, t) && Supported(env) && !NilPointer(v, t)
  {
    DerefNotNil(env, v, t);
    if Readable(env, DerefV(v), DerefT(t)) then Some(Norm(env, DerefV(v), DerefT(t))) else None
  }

  lemma EncLong(env: Env, v: Value, t: Type)
    requires HasType(env, v, t) && Supported(env) && !t.TPtr?
    ensures |Enc(env, v, t, false)| >= 1
  {
    BodyLong(env, v, t, false);
  }

  /** Unmarshalling gives back what was marshalled, and takes all of its bytes. */
  lemma MarshalBack(env: Env, v: Value, t: Type)
    requires HasType(env, v, t) && Supported(env) && SupportedType(env, t) && !NilPointer(v, t)
    ensures HasType(env, DerefV(v), DerefT(t))
    ensures Unmarshalled(env, Enc(env, DerefV(v), DerefT(t), false), DerefT(t)) == ComesBack(env, v, t)
  {
    DerefNotNil(env, v, t);
    DerefSupported(env, t);
    var w, d := DerefV(v), DerefT(t);
    Back(env, w, d, false, []);
    EncLong(env, w, d);
    assert Enc(env, w, d, false) + [] == Enc(env, w, d, false);
  }

  /** None for a nil pointer, where Go panics. */
  method MarshalBinaryBare(env: Env, v: Value, t: Type) returns (r: Option<bytes>)
    requires HasType(env, v, t) && Supported(env) && SupportedType(env, t)
    ensures r.Some? <==> !NilPointer(v, t)
    ensures r.Some? ==> HasType(env, DerefV(v), DerefT(t)) && r.value == Enc(env, DerefV(v), DerefT(t), false)
    ensures r.Some? ==> |r.value| >= 1 && Unmarshalled(env, r.value, DerefT(t)) == ComesBack(env, v, t)
  {
    if NilPointer(v, t) {
      return None;
    }
    MarshalBack(env, v, t);
    EncLong(env, DerefV(v), DerefT(t));
    return Some(Enc(env, DerefV(v), DerefT(t), false));
  }

  method MarshalBinary(env: Env, v: Value, t: Type) returns (r: Option<bytes>)
    requires HasType(env, v, t) && Supported(env) && SupportedType(env, t)
    ensures r.Some? <==> !NilPointer(v, t)
    ensures r.Some? ==>
              HasType(env, DerefV(v), DerefT(t)) &&
              var bz := Enc(env, DerefV(v), DerefT(t), false);
              r.value == PutUvarint(|bz|) + bz
    ensures r.Some? && |r.value| <= MAX ==> UnmarshalledLong(env, r.value, DerefT(t)) == ComesBack(env, v, t)
  {
    var bare := MarshalBinaryBare(env, v, t);
    if bare.None? {
      return None;
    }
    var bz := bare.value;
    r := Some(PutUvarint(|bz|) + bz);
    if |bz| <= MAX {
      UvarintBack(|bz|, bz);
      Drop(PutUvarint(|bz|), bz);
    }
  }

  method UnmarshalBinaryBare(env: Env, bz: bytes, t: Type) returns (r: Option<Value>)
    ensures r == Unmarshalled(env, bz, t)
    ensures r.Some? ==> bz != [] && Dec(env, bz, t, false) == Some((r.value, |bz|))
    ensures r.None? ==> bz == [] || Dec(env, bz, t, false).None? || Dec(env, bz, t, false).value.1 < |bz|
  {
    if |bz| == 0 {
      return None;
    }
    var d := Dec(env, bz, t, false);
    match d {
      case None => return None;
      case Some((v, n)) => return if n != |bz| then None else Some(v);
    }
  }

  method UnmarshalBinary(env: Env, bz: bytes, t: Type) returns (r: Option<Value>)
    ensures r == UnmarshalledLong(env, bz, t)
    ensures r.Some? ==>
              DecodeUvarint(bz).Some? &&
              var size, n := DecodeUvarint(bz).value.0, DecodeUvarint(bz).value.1;
              n + size == |bz| && size > 0 && Dec(env, bz[n..], t, false) == Some((r.value, size))
  {
    var d := DecodeUvarint(bz);
    match d {
      case None => return None;
      case Some((size, n)) =>
        if size > |bz| - n || size < |bz| - n {
          return None;
        }
        r := UnmarshalBinaryBare(env, bz[n..], t);
    }
  }

  /** MarshalBinaryBare, then UnmarshalBinaryBare into the type behind the pointers. */
  method MarshalThenUnmarshal(env: Env, v: Value, t: Type) returns (r: Option<Value>)
    requires HasType(env, v, t) && Supported(env) && SupportedType(env, t)
    ensures r == if NilPointer(v, t) then None else ComesBack(env, v, t)
  {
    var bz := MarshalBinaryBare(env, v, t);
    if bz.None? {
      return None;
    }
    r := UnmarshalBinaryBare(env, bz.value, DerefT(t));
  }

  // ---------- where decoding fails

  /** Whatever the bytes, nothing is read through a pointer to an interface. */
  lemma InterfacePointerFails(env: Env, bz: bytes, t: Type, varint: bool)
    requires ToInterface(t)
    ensures Dec(env, bz, t, varint) == None
  {
  }

  /** One interface and one boolean type, whose pointer implements it and whose values may. */
  function Example(pointer: bool, byValue: bool): (env: Env)
  {
    var c := Concrete(0, [1, 0, 0, 0], [1, 0, 0], pointer);
    Env(map[0 := TBool], [Iface(0, [], false, map[[1, 0, 0, 0] := [c]])], [c], map[[1, 0, 0, 1, 0, 0, 0] := c],
        (t, i) => true, (t, i) => byValue)
  }

  lemma ExampleSupported(pointer: bool, byValue: bool)
    ensures Supported(Example(pointer, byValue))
  {
    var env := Example(pointer, byValue);
    var c, f := env.concretes[0], Iface(0, [], false, map[]);
    assert c.disamb + c.prefix == [1, 0, 0, 1, 0, 0, 0];
    assert Collected(f.implementers, [], 0, env.implements);
    assert env.implements(c.id, f.id);
    assert Group(f.implementers, c.prefix) + [c] == [c];
    assert f.implementers[c.prefix := [c]] == env.ifaces[0].implementers;
    RegisteredWellFormed([f], env.ifaces, [], map[], c, env.implements);
    assert [] + [c] == env.concretes;
  }

  /** A struct whose field points to an interface with a value is written, and cannot be read. */
  lemma InterfacePointerExample()
    ensures var env, t := Example(true, true), TStruct([Field(TPtr(TIface(0)), false)]);
            var v := VStruct([VPtr(VIface(0, VBool(true)))]);
            && Supported(env) && SupportedType(env, t) && HasType(env, v, t)
            && Unmarshalled(env, Enc(env, v, t, false), t) == None
  {
    ExampleSupported(true, true);
    MarshalBack(Example(true, true), VStruct([VPtr(VIface(0, VBool(true)))]), TStruct([Field(TPtr(TIface(0)), false)]));
  }

  /** A value in an interface comes back exactly if its type was registered by a pointer or its values implement it. */
  lemma RegisteredByValueExample(pointer: bool, byValue: bool)
    ensures var env, v := Example(pointer, byValue), VIface(0, VBool(true));
            && Supported(env) && HasType(env, v, TIface(0))
            && Unmarshalled(env, Enc(env, v, TIface(0), false), TIface(0)) == if pointer || byValue then Some(v) else None
  {
    ExampleSupported(pointer, byValue);
    MarshalBack(Example(pointer, byValue), VIface(0, VBool(true)), TIface(0));
  }

  /** A slice of bytes of a named type comes back exactly if it is empty. */
  lemma NamedBytesExample(env: Env, b: bytes)
    requires Supported(env) && |b| <= MAX
    ensures Unmarshalled(env, Enc(env, VBytes(b), TByteSlice(true), false), TByteSlice(true))
         == if b == [] then Some(VBytes([])) else None
  {
    MarshalBack(env, VBytes(b), TByteSlice(true));
  }

  /** Nothing is read into an interface from the header of a type that, as registered, does not implement it. */
  lemma NotSettableFails(env: Env, bz: bytes, k: nat, varint: bool, c: Concrete)
    requires k < |env.ifaces| && Lookup(env.ifaces[k], env.disfixes, ReadHeader(bz)) == Some(c) && !Settable(env, c, k)
    ensures Dec(env, bz, TIface(k), varint) == None
  {
    NoPrefix(env, TIface(k), varint, bz);
    BodyIsIface(env, bz, TIface(k), k, varint);
    assert DecIface(env, bz, k, varint) == None;
  }
}
