/**
 * Amino decoding undoes encoding, whatever bytes follow, for every value of every supported type that is readable.
 * Three kinds of values are not: behind a pointer to an interface, in an interface that its type as registered does
 * not implement, and bytes of a named type.
 */
module AminoRoundTrip {
  import opened Ints
  import opened Results
  import opened AminoPrim
  import opened AminoRegistry
  import opened AminoCodec

  /** What a value is after a round trip: pointers to nil or empty values are nil. */
  function Norm(env: Env, v: Value, t: Type): (r: Value)
    requires HasType(env, v, t)
    decreases v, 1
  {
    match Core(env, t)
    case TPtr(e) => if IsVoid(env, v, t) then VNil else VPtr(Norm(env, v.v, e))
    case TSlice(e) => VList(NormAll(env, v.vs, e))
    case TArray(_, e) => VList(NormAll(env, v.vs, e))
    case TStruct(fs) => VStruct(NormFields(env, v.vs, fs))
    case TIface(_) => if v.VNil? then VNil else VIface(v.id, Norm(env, v.v, TNamed(v.id)))
    case _ => v
  }

  function NormAll(env: Env, vs: seq<Value>, t: Type): (r: seq<Value>)
    requires HaveType(env, vs, t)
    decreases vs, 0
  {
    if vs == [] then [] else [Norm(env, vs[0], t)] + NormAll(env, vs[1..], t)
  }

  function NormFields(env: Env, vs: seq<Value>, fs: seq<Field>): (r: seq<Value>)
    requires FieldsHaveType(env, vs, fs)
    decreases vs, 0
  {
    if vs == [] then [] else [Norm(env, vs[0], fs[0].typ)] + NormFields(env, vs[1..], fs[1..])
  }

  // ---------- small facts

  lemma Assoc(a: bytes, b: bytes, c: bytes)
    ensures (a + b) + c == a + (b + c)
  {
  }

  /** A prefix is dropped again. */
  lemma Drop(a: bytes, b: bytes)
    ensures (a + b)[|a|..] == b && (a + b)[..|a|] == a
  {
  }

  lemma {:induction false} DerefSupported(env: Env, t: Type)
    requires SupportedType(env, t)
    ensures SupportedType(env, DerefT(t))
  {
    if t.TPtr? { DerefSupported(env, t.elem); }
  }

  /** A value that is not void comes back behind the same pointers. */
  lemma {:induction false} NormDeref(env: Env, v: Value, t: Type)
    requires HasType(env, v, t) && Supported(env) && SupportedType(env, t) && (t.TPtr? ==> !IsVoid(env, v, t))
    ensures HasType(env, DerefV(v), DerefT(t)) && Norm(env, v, t) == WrapPtr(Norm(env, DerefV(v), DerefT(t)), t)
    decreases v
  {
    if t.TPtr? {
      if t.elem.TPtr? {
        NormDeref(env, v.v, t.elem);
      } else {
        NotPtr(env, v.v, t.elem);
      }
    } else {
      NotPtr(env, v, t);
    }
  }

  /** Only pointer types hold pointers. */
  lemma NotPtr(env: Env, v: Value, t: Type)
    requires HasType(env, v, t) && Supported(env) && !t.TPtr?
    ensures !Core(env, t).TPtr? && DerefV(v) == v && DerefT(t) == t
  {
  }

  /** Values that are left out are the zero values of their types. */
  lemma {:induction false} VoidIsZero(env: Env, v: Value, t: Type)
    requires HasType(env, v, t) && IsVoid(env, v, t) && Supported(env)
    ensures Norm(env, v, t) == Zero(env, t)
  {
  }

  // ---------- the cases that hold no other values

  lemma KeyBack(num: nat, typ: nat, rest: bytes)
    requires 1 <= num < 0x2000_0000 && typ < 8
    ensures DecodeKey(Key(num, typ) + rest) == (num, typ, |Key(num, typ)|)
  {
    UvarintBack(8 * num + typ, rest);
  }

  lemma TermBack(rest: bytes)
    ensures DecodeKey([4] + rest).0 == 0
  {
    assert PutUvarint(4) == [4];
    UvarintBack(4, rest);
  }

  lemma ListHeadBack(env: Env, t: Type, varint: bool, n: nat, rest: bytes)
    requires n <= MAX
    ensures DecListHead(env, [Typ4(env, t, varint)] + PutUvarint(n) + rest, t, varint) == Some((n, 1 + |PutUvarint(n)|))
  {
    var bz := [Typ4(env, t, varint)] + PutUvarint(n) + rest;
    assert bz[1..] == PutUvarint(n) + rest;
    UvarintBack(n, rest);
  }

  lemma {:induction false} BodyLong(env: Env, v: Value, t: Type, varint: bool)
    requires HasType(env, v, t) && !t.TPtr? && Supported(env)
    ensures |EncBody(env, v, t, varint)| >= 1
  {
  }

  lemma ElemLong(env: Env, v: Value, t: Type, varint: bool)
    requires HasType(env, v, t) && Supported(env)
    ensures |EncElem(env, v, t, varint)| >= 1
  {
    if !t.TPtr? {
      BodyLong(env, v, t, varint);
      assert |Enc(env, v, t, varint)| >= |EncBody(env, v, t, varint)|;
    }
  }

  lemma {:induction false} ElemsLong(env: Env, vs: seq<Value>, t: Type, varint: bool)
    requires HaveType(env, vs, t) && Supported(env)
    ensures |EncElems(env, vs, t, varint)| >= |vs|
  {
    if vs != [] {
      ElemLong(env, vs[0], t, varint);
      ElemsLong(env, vs[1..], t, varint);
    }
  }

  // ---------- what can be read

  /** A pointer to an interface, through any number of pointers. */
  predicate ToInterface(t: Type)
  {
    t.TPtr? && DerefT(t).TIface?
  }

  /**
   * No pointer to an interface leads to anything but nil, the type in an interface was registered by a pointer or
   * implements it by its values, and bytes are of type uint8.
   */
  predicate Readable(env: Env, v: Value, t: Type)
    requires HasType(env, v, t) && Supported(env)
    decreases v, 0
  {
    match Core(env, t)
    case TSlice(e) => AllReadable(env, v.vs, e)
    case TArray(_, e) => AllReadable(env, v.vs, e)
    case TStruct(fs) => FieldsReadable(env, v.vs, fs)
    case TIface(k) => v.VNil? || (Settable(env, Registered(env.concretes, v.id).value, k) && Readable(env, v.v, TNamed(v.id)))
    case TByteSlice(named) => !named || v.bs == []
    case TByteArray(_, named) => !named
    case TPtr(e) => IsVoid(env, v, t) || (!ToInterface(t) && Readable(env, v.v, e))
    case _ => true
  }

  predicate AllReadable(env: Env, vs: seq<Value>, t: Type)
    requires HaveType(env, vs, t) && Supported(env)
    decreases vs, 0
  {
    vs == [] || (Readable(env, vs[0], t) && AllReadable(env, vs[1..], t))
  }

  predicate FieldsReadable(env: Env, vs: seq<Value>, fs: seq<Field>)
    requires FieldsHaveType(env, vs, fs) && Supported(env)
    decreases vs, 0
  {
    vs == [] || ((IsVoid(env, vs[0], fs[0].typ) || Readable(env, vs[0], fs[0].typ)) && FieldsReadable(env, vs[1..], fs[1..]))
  }

  /** Whether a value is readable is decided behind its pointers. */
  lemma {:induction false} ReadableDeref(env: Env, v: Value, t: Type)
    requires HasType(env, v, t) && Supported(env) && !IsVoid(env, v, t) && HasType(env, DerefV(v), DerefT(t))
    ensures Readable(env, v, t) <==> !ToInterface(t) && Readable(env, DerefV(v), DerefT(t))
    decreases v
  {
    if t.TPtr? {
      DerefType(env, v.v, t.elem);
      ReadableDeref(env, v.v, t.elem);
    } else {
      NotPtr(env, v, t);
    }
  }

  /** A type without pointers to interfaces and without bytes of a named type. */
  predicate Plain(t: Type)
  {
    match t
    case TByteSlice(named) => !named
    case TByteArray(_, named) => !named
    case TPtr(e) => !ToInterface(t) && Plain(e)
    case TSlice(e) => Plain(e)
    case TArray(_, e) => Plain(e)
    case TStruct(fs) => forall i :: 0 <= i < |fs| ==> Plain(fs[i].typ)
    case _ => true
  }

  /** The same of all named types, and types as registered implement the interfaces they were registered for. */
  ghost predicate PlainEnv(env: Env)
  {
    && (forall id :: id in env.under ==> Plain(env.under[id]))
    && (forall c, k :: c in env.concretes && 0 <= k < |env.ifaces| && env.implements(c.id, env.ifaces[k].id) ==>
         Settable(env, c, k))
  }

  /** There, every value is readable. */
  lemma {:induction false} PlainReadable(env: Env, v: Value, t: Type)
    requires HasType(env, v, t) && Supported(env) && PlainEnv(env) && Plain(t)
    ensures Readable(env, v, t)
    decreases v, 0
  {
    match Core(env, t)
    case TSlice(e) => PlainAll(env, v.vs, e);
    case TArray(_, e) => PlainAll(env, v.vs, e);
    case TStruct(fs) => PlainFields(env, v.vs, fs);
    case TIface(_) => if v.VIface? { PlainReadable(env, v.v, TNamed(v.id)); }
    case TPtr(e) => if v.VPtr? { PlainReadable(env, v.v, e); }
    case _ =>
  }

  lemma {:induction false} PlainAll(env: Env, vs: seq<Value>, t: Type)
    requires HaveType(env, vs, t) && Supported(env) && PlainEnv(env) && Plain(t)
    ensures AllReadable(env, vs, t)
    decreases vs, 0
  {
    if vs != [] {
      PlainReadable(env, vs[0], t);
      PlainAll(env, vs[1..], t);
    }
  }

  lemma {:induction false} PlainFields(env: Env, vs: seq<Value>, fs: seq<Field>)
    requires FieldsHaveType(env, vs, fs) && Supported(env) && PlainEnv(env) && forall i :: 0 <= i < |fs| ==> Plain(fs[i].typ)
    ensures FieldsReadable(env, vs, fs)
    decreases vs, 0
  {
    if vs != [] {
      PlainReadable(env, vs[0], fs[0].typ);
      PlainFields(env, vs[1..], fs[1..]);
    }
  }

  /** The result of decoding, if there is one. */
  function Out<T>(ok: bool, v: T, n: nat): (r: Decoded<T>)
  {
    if ok then Some((v, n)) else None
  }

  // ---------- round trips

  /** Registered types: the prefix is read, checked and dropped. */
  lemma PrefixRead(env: Env, t: Type, c: Concrete, varint: bool, e: bytes, rest: bytes, ok: bool, r: Value)
    requires !t.TPtr? && RegisteredType(env, t) == Some(c) && ValidName(c)
    requires DecBody(env, e + rest, t, varint) == Out(ok, r, |e|)
    ensures var p := WithTyp3(c.prefix, Typ3(env, t, varint)); Dec(env, p + e + rest, t, varint) == Out(ok, r, |p + e|)
  {
    var p := WithTyp3(c.prefix, Typ3(env, t, varint));
    Assoc(p, e, rest);
    Drop(p, e + rest);
    Typ3Back(c.prefix, Typ3(env, t, varint));
  }

  lemma NoPrefix(env: Env, t: Type, varint: bool, bz: bytes)
    requires !t.TPtr? && RegisteredType(env, t) == None
    ensures Dec(env, bz, t, varint) == DecBody(env, bz, t, varint)
  {
    assert bz[0..] == bz;
  }

  lemma PrefixBack(env: Env, v: Value, t: Type, varint: bool, rest: bytes, ok: bool, r: Value)
    requires HasType(env, v, t) && Supported(env) && !t.TPtr?
    requires DecBody(env, EncBody(env, v, t, varint) + rest, t, varint) == Out(ok, r, |EncBody(env, v, t, varint)|)
    ensures Dec(env, Enc(env, v, t, varint) + rest, t, varint) == Out(ok, r, |Enc(env, v, t, varint)|)
  {
    var c, e := RegisteredType(env, t), EncBody(env, v, t, varint);
    if c.Some? {
      PrefixRead(env, t, c.value, varint, e, rest, ok, r);
    } else {
      NoPrefix(env, t, varint, e + rest);
      assert [] + e == e;
    }
  }

  /** Behind pointers, the same bytes are read into the pointed-to value. */
  lemma PtrBack(env: Env, bz: bytes, t: Type, varint: bool, ok: bool, r: Value, n: nat)
    requires SupportedType(env, t) && Supported(env) && Dec(env, bz, DerefT(t), varint) == Out(ok, r, n)
    ensures Dec(env, bz, t, varint) == Out(ok && !ToInterface(t), WrapPtr(r, t), n)
  {
    DerefSupported(env, t);
    DerefTwice(t);
  }

  lemma {:induction false} DerefTwice(t: Type)
    ensures DerefT(DerefT(t)) == DerefT(t)
  {
    if t.TPtr? { DerefTwice(t.elem); }
  }

  /**
   * The main result: decoding returns the value, up to void pointers, and takes the bytes of its encoding; it fails
   * exactly for values that are not readable.
   */
  lemma {:induction false} Back(env: Env, v: Value, t: Type, varint: bool, rest: bytes)
    requires HasType(env, v, t) && Supported(env) && SupportedType(env, t) && !t.TPtr?
    ensures Dec(env, Enc(env, v, t, varint) + rest, t, varint)
            == Out(Readable(env, v, t), Norm(env, v, t), |Enc(env, v, t, varint)|)
    decreases v, 2
  {
    BodyBack(env, v, t, varint, rest);
    PrefixBack(env, v, t, varint, rest, Readable(env, v, t), Norm(env, v, t));
  }

  lemma CoreSupported(env: Env, t: Type)
    requires Supported(env) && SupportedType(env, t)
    ensures SupportedType(env, Core(env, t)) && !Core(env, t).TNamed?
  {
  }

  lemma {:induction false} BodyBack(env: Env, v: Value, t: Type, varint: bool, rest: bytes)
    requires HasType(env, v, t) && Supported(env) && SupportedType(env, t) && !t.TPtr?
    ensures DecBody(env, EncBody(env, v, t, varint) + rest, t, varint)
            == Out(Readable(env, v, t), Norm(env, v, t), |EncBody(env, v, t, varint)|)
    decreases v, 1
  {
    CoreSupported(env, t);
    match Core(env, t)
    case TSlice(e) => ListBack(env, v, t, e, varint, rest);
    case TArray(_, e) => ListBack(env, v, t, e, varint, rest);
    case TStruct(fs) => FieldsBack(env, v.vs, fs, 1, rest); StructBack(env, v, t, fs, varint, rest);
    case TIface(k) =>
      if v.VIface? {
        BodyBack(env, v.v, TNamed(v.id), varint, rest);
        IfaceBack(env, v, t, k, varint, rest);
      } else {
        NilBack(env, v, t, k, varint, rest);
      }
    case _ => ScalarBack(env, v, t, varint, rest);
  }

  /** Values that hold no others. */
  lemma ScalarBack(env: Env, v: Value, t: Type, varint: bool, rest: bytes)
    requires HasType(env, v, t) && Supported(env) && !t.TPtr?
    requires var c := Core(env, t); c.TBool? || c.TNum? || c.TString? || c.TByteSlice? || c.TByteArray?
    ensures DecBody(env, EncBody(env, v, t, varint) + rest, t, varint)
         == Out(Readable(env, v, t), Norm(env, v, t), |EncBody(env, v, t, varint)|)
  {
    match Core(env, t)
    case TBool =>
    case TNum(k) => NumBack(v.i, k, varint, rest);
    case TString => BytesBack(v.bs, rest);
    case TByteSlice(_) => BytesBack(v.bs, rest);
    case TByteArray(_, _) => BytesBack(v.bs, rest);
  }

  lemma NilBack(env: Env, v: Value, t: Type, k: nat, varint: bool, rest: bytes)
    requires HasType(env, v, t) && Supported(env) && !t.TPtr? && Core(env, t) == TIface(k) && v.VNil?
    ensures Readable(env, v, t)
    ensures DecBody(env, EncBody(env, v, t, varint) + rest, t, varint) == Some((Norm(env, v, t), |EncBody(env, v, t, varint)|))
  {
    var bz := [0, 0] + rest;
    assert bz[0] == 0 && bz[1] == 0;
  }

  predicate ListOf(env: Env, t: Type, e: Type, n: nat)
  {
    Core(env, t) == TSlice(e) || Core(env, t) == TArray(n, e)
  }

  lemma DecListIs(env: Env, bz: bytes, t: Type, e: Type, varint: bool, n: nat, k: nat, ok: bool, vs: seq<Value>, m: nat)
    requires ListOf(env, t, e, n) && DecListHead(env, bz, e, varint) == Some((n, k)) && n <= |bz| - k
    requires DecElems(env, bz[k..], e, varint, n) == Out(ok, vs, m)
    ensures DecBody(env, bz, t, varint) == Out(ok, VList(vs), k + m)
  {
    assert DecList(env, bz, e, varint, if Core(env, t).TSlice? then None else Some(n)) == Out(ok, VList(vs), k + m);
  }

  lemma ListBytes(env: Env, v: Value, t: Type, e: Type, varint: bool)
    requires HasType(env, v, t) && Supported(env) && !t.TPtr? && v.VList? && ListOf(env, t, e, |v.vs|)
    ensures HaveType(env, v.vs, e) && |v.vs| <= MAX
    ensures EncBody(env, v, t, varint) == [Typ4(env, e, varint)] + PutUvarint(|v.vs|) + EncElems(env, v.vs, e, varint)
  {
  }

  lemma ListRead(env: Env, v: Value, t: Type, e: Type)
    requires HasType(env, v, t) && Supported(env) && !t.TPtr? && v.VList? && ListOf(env, t, e, |v.vs|) && HaveType(env, v.vs, e)
    ensures Norm(env, v, t) == VList(NormAll(env, v.vs, e)) && Readable(env, v, t) == AllReadable(env, v.vs, e)
  {
  }

  lemma {:induction false} ListBack(env: Env, v: Value, t: Type, e: Type, varint: bool, rest: bytes)
    requires HasType(env, v, t) && Supported(env) && !t.TPtr? && v.VList? && ListOf(env, t, e, |v.vs|) && SupportedType(env, e)
    ensures DecBody(env, EncBody(env, v, t, varint) + rest, t, varint)
            == Out(Readable(env, v, t), Norm(env, v, t), |EncBody(env, v, t, varint)|)
    decreases v, 0
  {
    ListBytes(env, v, t, e, varint);
    ListRead(env, v, t, e);
    ElemsBack(env, v.vs, e, varint, rest);
    ElemsLong(env, v.vs, e, varint);
    HeadThenElems(env, t, e, varint, |v.vs|, EncElems(env, v.vs, e, varint), rest, AllReadable(env, v.vs, e),
      NormAll(env, v.vs, e));
  }

  lemma HeadThenElems(env: Env, t: Type, e: Type, varint: bool, n: nat, es: bytes, rest: bytes, ok: bool, vs: seq<Value>)
    requires ListOf(env, t, e, n) && n <= MAX && n <= |es|
    requires DecElems(env, es + rest, e, varint, n) == Out(ok, vs, |es|)
    ensures var b := [Typ4(env, e, varint)] + PutUvarint(n) + es; DecBody(env, b + rest, t, varint) == Out(ok, VList(vs), |b|)
  {
    var h := [Typ4(env, e, varint)] + PutUvarint(n);
    Assoc(h, es, rest);
    ListHeadBack(env, e, varint, n, es + rest);
    Drop(h, es + rest);
    DecListIs(env, h + (es + rest), t, e, varint, n, |h|, ok, vs, |es|);
  }

  lemma StructBack(env: Env, v: Value, t: Type, fs: seq<Field>, varint: bool, rest: bytes)
    requires HasType(env, v, t) && Supported(env) && !t.TPtr? && Core(env, t) == TStruct(fs)
    requires DecFields(env, EncFields(env, v.vs, fs, 1) + ([4] + rest), fs, 1)
          == Out(FieldsReadable(env, v.vs, fs), NormFields(env, v.vs, fs), |EncFields(env, v.vs, fs, 1)|)
    ensures DecBody(env, EncBody(env, v, t, varint) + rest, t, varint)
         == Out(Readable(env, v, t), Norm(env, v, t), |EncBody(env, v, t, varint)|)
  {
    var es := EncFields(env, v.vs, fs, 1);
    FieldsThenEnd(env, t, fs, varint, es, rest, FieldsReadable(env, v.vs, fs), NormFields(env, v.vs, fs));
  }

  lemma FieldsThenEnd(env: Env, t: Type, fs: seq<Field>, varint: bool, es: bytes, rest: bytes, ok: bool, vs: seq<Value>)
    requires Core(env, t) == TStruct(fs) && DecFields(env, es + ([4] + rest), fs, 1) == Out(ok, vs, |es|)
    ensures DecBody(env, es + [4] + rest, t, varint) == Out(ok, VStruct(vs), |es + [4]|)
  {
    Assoc(es, [4], rest);
    assert (es + ([4] + rest))[|es|] == 4;
    assert DecStruct(env, es + ([4] + rest), fs) == Out(ok, VStruct(vs), |es| + 1);
  }

  lemma DecIfaceStep(env: Env, bz: bytes, k: nat, varint: bool, h: HeaderRead, c: Concrete, ok: bool, v: Value, n: nat)
    requires k < |env.ifaces| && h == ReadHeader(bz) && (h.Disambiguated? || h.Prefixed?)
    requires Lookup(env.ifaces[k], env.disfixes, h) == Some(c) && h.typ == Typ3(env, TNamed(c.id), varint) &&
             HeaderSize(h) <= |bz|
    requires DecBody(env, bz[HeaderSize(h)..], TNamed(c.id), varint) == Out(ok, v, n)
    ensures DecIface(env, bz, k, varint) == Out(ok && Settable(env, c, k), VIface(c.id, v), HeaderSize(h) + n)
  {
  }

  /** The header of a value's type is read back, and found to be that type's. */
  lemma IfaceHeader(env: Env, k: nat, c: Concrete, typ: nat, rest: bytes)
    requires Supported(env) && k < |env.ifaces| && c in env.concretes && env.implements(c.id, env.ifaces[k].id) && typ < 8
    ensures var b := HeaderOf(env.ifaces[k], c, typ); var h := ReadHeader(b + rest);
            (h.Disambiguated? || h.Prefixed?) && h.typ == typ && HeaderSize(h) == |b| &&
              Lookup(env.ifaces[k], env.disfixes, h) == Some(c)
  {
    HeaderResolves(env.ifaces, env.concretes, env.disfixes, env.implements, k, c, typ, rest);
  }

  lemma IfaceBytes(env: Env, v: Value, t: Type, k: nat, c: Concrete, varint: bool)
    requires HasType(env, v, t) && Supported(env) && !t.TPtr? && Core(env, t) == TIface(k) && v.VIface?
    requires Registered(env.concretes, v.id) == Some(c)
    ensures HasType(env, v.v, TNamed(v.id)) && k < |env.ifaces| && env.implements(c.id, env.ifaces[k].id) && c in env.concretes
    ensures Norm(env, v, t) == VIface(v.id, Norm(env, v.v, TNamed(v.id))) &&
            Readable(env, v, t) == (Settable(env, c, k) && Readable(env, v.v, TNamed(v.id)))
    ensures EncBody(env, v, t, varint)
         == HeaderOf(env.ifaces[k], c, Typ3(env, TNamed(v.id), varint)) + EncBody(env, v.v, TNamed(v.id), varint)
  {
  }

  lemma IfaceBack(env: Env, v: Value, t: Type, k: nat, varint: bool, rest: bytes)
    requires HasType(env, v, t) && Supported(env) && !t.TPtr? && Core(env, t) == TIface(k) && v.VIface?
    requires DecBody(env, EncBody(env, v.v, TNamed(v.id), varint) + rest, TNamed(v.id), varint)
          == Out(Readable(env, v.v, TNamed(v.id)), Norm(env, v.v, TNamed(v.id)), |EncBody(env, v.v, TNamed(v.id), varint)|)
    ensures DecBody(env, EncBody(env, v, t, varint) + rest, t, varint)
            == Out(Readable(env, v, t), Norm(env, v, t), |EncBody(env, v, t, varint)|)
  {
    var c, n := Registered(env.concretes, v.id).value, TNamed(v.id);
    IfaceBytes(env, v, t, k, c, varint);
    HeaderThenBody(env, t, k, c, varint, EncBody(env, v.v, n, varint), rest, Readable(env, v.v, n), Norm(env, v.v, n));
  }

  lemma HeaderThenBody(env: Env, t: Type, k: nat, c: Concrete, varint: bool, e: bytes, rest: bytes, ok: bool, v: Value)
    requires Supported(env) && k < |env.ifaces| && c in env.concretes && env.implements(c.id, env.ifaces[k].id)
    requires Core(env, t) == TIface(k) && DecBody(env, e + rest, TNamed(c.id), varint) == Out(ok, v, |e|)
    ensures var b := HeaderOf(env.ifaces[k], c, Typ3(env, TNamed(c.id), varint)) + e;
            DecBody(env, b + rest, t, varint) == Out(ok && Settable(env, c, k), VIface(c.id, v), |b|)
  {
    var typ := Typ3(env, TNamed(c.id), varint);
    var h := HeaderOf(env.ifaces[k], c, typ);
    Assoc(h, e, rest);
    IfaceHeader(env, k, c, typ, e + rest);
    Drop(h, e + rest);
    BodyIsIface(env, h + (e + rest), t, k, varint);
    DecIfaceStep(env, h + (e + rest), k, varint, ReadHeader(h + (e + rest)), c, ok, v, |e|);
  }

  lemma BodyIsIface(env: Env, bz: bytes, t: Type, k: nat, varint: bool)
    requires Core(env, t) == TIface(k)
    ensures DecBody(env, bz, t, varint) == DecIface(env, bz, k, varint)
  {
  }

  lemma {:induction false} ElemsBack(env: Env, vs: seq<Value>, t: Type, varint: bool, rest: bytes)
    requires HaveType(env, vs, t) && Supported(env) && SupportedType(env, t)
    ensures DecElems(env, EncElems(env, vs, t, varint) + rest, t, varint, |vs|)
         == Out(AllReadable(env, vs, t), NormAll(env, vs, t), |EncElems(env, vs, t, varint)|)
    decreases vs, 0
  {
    if vs != [] {
      var e, es := EncElem(env, vs[0], t, varint), EncElems(env, vs[1..], t, varint);
      ElemBack(env, vs[0], t, varint, es + rest);
      ElemsBack(env, vs[1..], t, varint, rest);
      ElemThenElems(env, t, varint, |vs|, e, es, rest, Readable(env, vs[0], t), Norm(env, vs[0], t),
                    AllReadable(env, vs[1..], t), NormAll(env, vs[1..], t));
    }
  }

  lemma ElemThenElems(env: Env, t: Type, varint: bool, count: nat, e: bytes, es: bytes, rest: bytes, ok: bool, v: Value,
                      allOk: bool, vs: seq<Value>)
    requires count > 0 && DecElem(env, e + (es + rest), t, varint) == Out(ok, v, |e|)
    requires DecElems(env, es + rest, t, varint, count - 1) == Out(allOk, vs, |es|)
    ensures DecElems(env, e + es + rest, t, varint, count) == Out(ok && allOk, [v] + vs, |e + es|)
  {
    Assoc(e, es, rest);
    Drop(e, es + rest);
  }

  lemma {:induction false} ElemBack(env: Env, v: Value, t: Type, varint: bool, rest: bytes)
    requires HasType(env, v, t) && Supported(env) && SupportedType(env, t)
    ensures DecElem(env, EncElem(env, v, t, varint) + rest, t, varint)
            == Out(Readable(env, v, t), Norm(env, v, t), |EncElem(env, v, t, varint)|)
    decreases v, 4
  {
    if !t.TPtr? {
      Back(env, v, t, varint, rest);
    } else if IsVoid(env, v, t) {
      VoidIsZero(env, v, t);
    } else {
      PointedBack(env, v, t, varint, rest);
      PointerElem(env, Enc(env, DerefV(v), DerefT(t), varint), t, varint, rest, Readable(env, v, t), Norm(env, v, t));
    }
  }

  lemma PointerElem(env: Env, e: bytes, t: Type, varint: bool, rest: bytes, ok: bool, v: Value)
    requires t.TPtr? && Dec(env, e + rest, t, varint) == Out(ok, v, |e|)
    ensures DecElem(env, [0] + e + rest, t, varint) == Out(ok, v, |[0] + e|)
  {
    Assoc([0], e, rest);
    Drop([0], e + rest);
  }

  /** A value that is not void, read through the pointers of its type. */
  lemma {:induction false} PointedBack(env: Env, v: Value, t: Type, varint: bool, rest: bytes)
    requires HasType(env, v, t) && Supported(env) && SupportedType(env, t) && !IsVoid(env, v, t)
    ensures HasType(env, DerefV(v), DerefT(t))
    ensures var e := Enc(env, DerefV(v), DerefT(t), varint);
            Dec(env, e + rest, t, varint) == Out(Readable(env, v, t), Norm(env, v, t), |e|)
    decreases v, 3
  {
    DerefType(env, v, t);
    DerefSupported(env, t);
    NormDeref(env, v, t);
    ReadableDeref(env, v, t);
    var w, d := DerefV(v), DerefT(t);
    Back(env, w, d, varint, rest);
    PtrBack(env, Enc(env, w, d, varint) + rest, t, varint, Readable(env, w, d), Norm(env, w, d), |Enc(env, w, d, varint)|);
  }

  predicate FieldsSupported(env: Env, fs: seq<Field>, num: nat)
  {
    1 <= num && num + |fs| <= 0x2000_0000 && forall i :: 0 <= i < |fs| ==> SupportedType(env, fs[i].typ)
  }

  /** The next key belongs to a field from num on; number 0 means that none of them is there. */
  lemma {:induction false} NextKey(env: Env, vs: seq<Value>, fs: seq<Field>, num: nat, rest: bytes)
    requires FieldsHaveType(env, vs, fs) && Supported(env) && FieldsSupported(env, fs, num)
    ensures var k := DecodeKey(EncFields(env, vs, fs, num) + ([4] + rest)).0;
            && (k == 0 || k >= num)
            && (k == 0 ==>
              EncFields(env, vs, fs, num) == [] && NormFields(env, vs, fs) == ZeroFields(env, fs) &&
              FieldsReadable(env, vs, fs))
    decreases vs
  {
    if vs == [] {
      TermBack(rest);
      assert [] + ([4] + rest) == [4] + rest;
    } else if IsVoid(env, vs[0], fs[0].typ) {
      VoidIsZero(env, vs[0], fs[0].typ);
      NextKey(env, vs[1..], fs[1..], num + 1, rest);
      assert [] + EncFields(env, vs[1..], fs[1..], num + 1) == EncFields(env, vs[1..], fs[1..], num + 1);
    } else {
      FieldKey(env, vs, fs, num, [4] + rest);
    }
  }

  /** A field that is there starts with its own key. */
  lemma FieldKey(env: Env, vs: seq<Value>, fs: seq<Field>, num: nat, rest: bytes)
    requires FieldsHaveType(env, vs, fs) && Supported(env) && FieldsSupported(env, fs, num) && vs != [] &&
             !IsVoid(env, vs[0], fs[0].typ)
    ensures HasType(env, DerefV(vs[0]), DerefT(fs[0].typ))
    ensures var typ := Typ3(env, DerefT(fs[0].typ), fs[0].varint);
            var key, e, es := Key(num, typ), Enc(env, DerefV(vs[0]), DerefT(fs[0].typ), fs[0].varint),
              EncFields(env, vs[1..], fs[1..], num + 1);
            && EncFields(env, vs, fs, num) + rest == key + (e + (es + rest))
            && DecodeKey(EncFields(env, vs, fs, num) + rest) == (num, typ, |key|)
            && |EncFields(env, vs, fs, num)| == |key| + |e| + |es|
  {
    DerefType(env, vs[0], fs[0].typ);
    var typ := Typ3(env, DerefT(fs[0].typ), fs[0].varint);
    var key, e, es := Key(num, typ), Enc(env, DerefV(vs[0]), DerefT(fs[0].typ), fs[0].varint),
      EncFields(env, vs[1..], fs[1..], num + 1);
    Assoc(key + e, es, rest);
    Assoc(key, e, es + rest);
    KeyBack(num, typ, e + (es + rest));
  }

  lemma DecFieldStep(env: Env, bz: bytes, fs: seq<Field>, num: nat, ok: bool, v: Value, n: nat, allOk: bool, vs: seq<Value>,
                     l: nat)
    requires fs != [] && n <= |bz| && DecField(env, bz, fs[0], num) == (if ok then Read(v, n) else Wrong)
    requires DecFields(env, bz[n..], fs[1..], num + 1) == Out(allOk, vs, l)
    ensures DecFields(env, bz, fs, num) == Out(ok && allOk, [v] + vs, n + l)
  {
  }

  lemma {:induction false} FieldsBack(env: Env, vs: seq<Value>, fs: seq<Field>, num: nat, rest: bytes)
    requires FieldsHaveType(env, vs, fs) && Supported(env) && FieldsSupported(env, fs, num)
    ensures DecFields(env, EncFields(env, vs, fs, num) + ([4] + rest), fs, num)
         == Out(FieldsReadable(env, vs, fs), NormFields(env, vs, fs), |EncFields(env, vs, fs, num)|)
    decreases vs, 0
  {
    if vs != [] {
      FieldsBack(env, vs[1..], fs[1..], num + 1, rest);
      if IsVoid(env, vs[0], fs[0].typ) {
        var es := LeftOutParts(env, vs, fs, num);
        LeftOutBack(env, vs, fs, num, rest, es, FieldsReadable(env, vs[1..], fs[1..]), NormFields(env, vs[1..], fs[1..]));
      } else {
        PresentBack(env, vs, fs, num, rest);
      }
    }
  }

  lemma LeftOutBack(env: Env, vs: seq<Value>, fs: seq<Field>, num: nat, rest: bytes, es: bytes, allOk: bool, ws: seq<Value>)
    requires vs != [] && |fs| == |vs| && Supported(env) && FieldsSupported(env, fs, num) && FieldsHaveType(env, vs[1..], fs[1..])
    requires es == EncFields(env, vs[1..], fs[1..], num + 1) && allOk == FieldsReadable(env, vs[1..], fs[1..])
    requires ws == NormFields(env, vs[1..], fs[1..])
    requires DecFields(env, es + ([4] + rest), fs[1..], num + 1) == Out(allOk, ws, |es|)
    ensures DecFields(env, es + ([4] + rest), fs, num) == Out(allOk, [Zero(env, fs[0].typ)] + ws, |es|)
  {
    NextKey(env, vs[1..], fs[1..], num + 1, rest);
    SkipField(env, es + ([4] + rest), fs, num, allOk, ws, |es|);
  }

  /** A field that is left out: nothing is written for it, and its zero value is what comes back. */
  lemma LeftOutParts(env: Env, vs: seq<Value>, fs: seq<Field>, num: nat) returns (es: bytes)
    requires FieldsHaveType(env, vs, fs) && Supported(env) && vs != [] && IsVoid(env, vs[0], fs[0].typ)
    ensures es == EncFields(env, vs[1..], fs[1..], num + 1) == EncFields(env, vs, fs, num)
    ensures NormFields(env, vs, fs) == [Zero(env, fs[0].typ)] + NormFields(env, vs[1..], fs[1..])
    ensures FieldsReadable(env, vs, fs) == FieldsReadable(env, vs[1..], fs[1..])
  {
    es := EncFields(env, vs[1..], fs[1..], num + 1);
    VoidIsZero(env, vs[0], fs[0].typ);
    assert EncFields(env, vs, fs, num) == [] + es == es;
  }

  lemma SkipField(env: Env, bz: bytes, fs: seq<Field>, num: nat, allOk: bool, vs: seq<Value>, l: nat)
    requires fs != [] && (DecodeKey(bz).0 == 0 || DecodeKey(bz).0 > num)
    requires DecFields(env, bz, fs[1..], num + 1) == Out(allOk, vs, l)
    requires DecodeKey(bz).0 == 0 ==> allOk && l == 0 && vs == ZeroFields(env, fs[1..])
    ensures DecFields(env, bz, fs, num) == Out(allOk, [Zero(env, fs[0].typ)] + vs, l)
  {
    if DecodeKey(bz).0 > num {
      assert bz[0..] == bz;
      DecFieldStep(env, bz, fs, num, true, Zero(env, fs[0].typ), 0, allOk, vs, l);
    }
  }

  lemma {:induction false} PresentBack(env: Env, vs: seq<Value>, fs: seq<Field>, num: nat, rest: bytes)
    requires FieldsHaveType(env, vs, fs) && Supported(env) && FieldsSupported(env, fs, num) && vs != [] &&
             !IsVoid(env, vs[0], fs[0].typ)
    requires DecFields(env, EncFields(env, vs[1..], fs[1..], num + 1) + ([4] + rest), fs[1..], num + 1)
          == Out(FieldsReadable(env, vs[1..], fs[1..]), NormFields(env, vs[1..], fs[1..]),
            |EncFields(env, vs[1..], fs[1..], num + 1)|)
    ensures DecFields(env, EncFields(env, vs, fs, num) + ([4] + rest), fs, num)
         == Out(FieldsReadable(env, vs, fs), NormFields(env, vs, fs), |EncFields(env, vs, fs, num)|)
    decreases vs[0], 5
  {
    var e, es := FieldParts(env, vs, fs, num, [4] + rest);
    PointedBack(env, vs[0], fs[0].typ, fs[0].varint, es + ([4] + rest));
    var ok, v := Readable(env, vs[0], fs[0].typ), Norm(env, vs[0], fs[0].typ);
    FieldBack(env, fs[0], num, e, es + ([4] + rest), ok, v);
    KeyThenValue(env, fs, num, Key(num, Typ3(env, DerefT(fs[0].typ), fs[0].varint)), e, es + ([4] + rest), ok, v,
                 FieldsReadable(env, vs[1..], fs[1..]), NormFields(env, vs[1..], fs[1..]), |es|,
                 EncFields(env, vs, fs, num) + ([4] + rest), |EncFields(env, vs, fs, num)|);
  }

  /** A key and a value are read as the field with that number. */
  lemma FieldBack(env: Env, f: Field, num: nat, e: bytes, more: bytes, ok: bool, v: Value)
    requires 1 <= num < 0x2000_0000 && Dec(env, e + more, f.typ, f.varint) == Out(ok, v, |e|)
    ensures var key := Key(num, Typ3(env, DerefT(f.typ), f.varint));
            DecField(env, key + (e + more), f, num) == if ok then Read(v, |key| + |e|) else Wrong
  {
    var typ := Typ3(env, DerefT(f.typ), f.varint);
    KeyBack(num, typ, e + more);
    Drop(Key(num, typ), e + more);
  }

  /** A field that is there: its bytes and those of the fields after it. */
  lemma FieldParts(env: Env, vs: seq<Value>, fs: seq<Field>, num: nat, rest: bytes) returns (e: bytes, es: bytes)
    requires FieldsHaveType(env, vs, fs) && Supported(env) && FieldsSupported(env, fs, num) && vs != [] &&
             !IsVoid(env, vs[0], fs[0].typ)
    ensures HasType(env, DerefV(vs[0]), DerefT(fs[0].typ)) && e == Enc(env, DerefV(vs[0]), DerefT(fs[0].typ), fs[0].varint)
    ensures es == EncFields(env, vs[1..], fs[1..], num + 1)
    ensures var key := Key(num, Typ3(env, DerefT(fs[0].typ), fs[0].varint));
            EncFields(env, vs, fs, num) + rest == key + (e + (es + rest)) && |EncFields(env, vs, fs, num)| == |key| + |e| + |es|
    ensures NormFields(env, vs, fs) == [Norm(env, vs[0], fs[0].typ)] + NormFields(env, vs[1..], fs[1..])
    ensures FieldsReadable(env, vs, fs) == (Readable(env, vs[0], fs[0].typ) && FieldsReadable(env, vs[1..], fs[1..]))
  {
    FieldKey(env, vs, fs, num, rest);
    e, es := Enc(env, DerefV(vs[0]), DerefT(fs[0].typ), fs[0].varint), EncFields(env, vs[1..], fs[1..], num + 1);
  }

  lemma KeyThenValue(env: Env, fs: seq<Field>, num: nat, key: bytes, e: bytes, more: bytes, ok: bool, v: Value, allOk: bool,
                     vs: seq<Value>, l: nat, all: bytes, n: nat)
    requires fs != [] && DecField(env, key + (e + more), fs[0], num) == (if ok then Read(v, |key| + |e|) else Wrong)
    requires DecFields(env, more, fs[1..], num + 1) == Out(allOk, vs, l)
    requires all == key + (e + more) && n == |key| + |e| + l
    ensures DecFields(env, all, fs, num) == Out(ok && allOk, [v] + vs, n)
  {
    DropTwo(key, e, more);
    DecFieldStep(env, all, fs, num, ok, v, |key| + |e|, allOk, vs, l);
  }

  lemma DropTwo(a: bytes, b: bytes, c: bytes)
    ensures (a + (b + c))[|a| + |b|..] == c
  {
  }
}
