/** What tendermint/go-amino writes, byte by byte and in numbers, and which bytes it insists on when reading. */
module AminoWire {
  import opened Ints
  import opened BigEndian
  import opened Results
  import opened AminoPrim
  import opened AminoRegistry
  import opened AminoCodec
  import RoundTrip = AminoRoundTrip

  // ---------- numbers

  /** The number in groups of seven bits, the first one the least significant. */
  function Sevens(b: bytes): (x: nat)
  {
    if b == [] then 0 else b[0] as int % 128 + 128 * Sevens(b[1..])
  }

  /** All bytes but the last have their top bit set, and the rest of their bits make up x. */
  predicate Spells(b: bytes, x: nat)
  {
    b != [] && b[|b| - 1] < 128 && (forall i :: 0 <= i < |b| - 1 ==> b[i] >= 128) && Sevens(b) == x
  }

  lemma SpellsMore(y: byte, b: bytes, x: nat)
    requires y >= 128 && Spells(b, x)
    ensures Spells([y] + b, y as int - 128 + 128 * x)
  {
    var c := [y] + b;
    assert c[1..] == b;
    forall i | 0 <= i < |c| - 1 ensures c[i] >= 128 { if i > 0 { assert c[i] == b[i - 1]; } }
  }

  lemma SpellsLess(c: bytes, z: nat)
    requires |c| > 1 && Spells(c, z)
    ensures c[0] >= 128 && Spells(c[1..], Sevens(c[1..])) && z == c[0] as int - 128 + 128 * Sevens(c[1..])
  {
  }

  /** EncodeUvarint, without groups that are not needed. */
  lemma {:induction false} UvarintWritten(x: nat)
    ensures var b := PutUvarint(x); Spells(b, x) && (|b| > 1 ==> b[|b| - 1] != 0)
  {
    if x >= 128 {
      UvarintWritten(x / 128);
      SpellsMore(x % 128 + 128, PutUvarint(x / 128), x / 128);
    }
  }

  lemma {:induction false} UvarintAtSpells(bz: bytes, i: nat, x: nat, n: nat)
    requires i <= 9 && UvarintAt(bz, i) == Some((x, n))
    ensures 1 <= n <= |bz| && i + n <= 10 && Spells(bz[..n], x) && x < Room(i)
    decreases |bz|
  {
    if bz[0] < 128 {
      assert bz[..1] == [bz[0]] && [bz[0]][1..] == [];
    } else {
      var y, m := (x - (bz[0] as int - 128)) / 128, n - 1;
      if i == 9 { TooLong(bz[1..], 10); }
      UvarintAtSpells(bz[1..], i + 1, y, m);
      assert bz[..n] == [bz[0]] + bz[1..][..m];
      SpellsMore(bz[0], bz[1..][..m], y);
    }
  }

  lemma {:induction false} TooLong(bz: bytes, i: nat)
    requires i > 9
    ensures UvarintAt(bz, i) == None
    decreases |bz|
  {
    if bz != [] && bz[0] >= 128 { TooLong(bz[1..], i + 1); }
  }

  lemma {:induction false} SpelledAt(bz: bytes, i: nat, x: nat, n: nat)
    requires 1 <= n <= |bz| && i + n <= 10 && Spells(bz[..n], x) && x < Room(i)
    ensures UvarintAt(bz, i) == Some((x, n))
    decreases n
  {
    var c := bz[1..];
    if n == 1 {
      assert bz[..1] == [bz[0]] && Sevens([bz[0]]) == bz[0] as int;
      assert i == 9 ==> Room(i) == 2;
    } else {
      SpellsLess(bz[..n], x);
      assert bz[..n][0] == bz[0] && bz[..n][1..] == c[..n - 1];
      SpelledAt(c, i + 1, Sevens(c[..n - 1]), n - 1);
    }
  }

  /** DecodeUvarint reads exactly the numbers below 2^64 that are spelled in at most ten bytes. */
  lemma UvarintRead(bz: bytes, x: nat, n: nat)
    ensures DecodeUvarint(bz) == Some((x, n)) <==>
            1 <= n <= |bz| && n <= 10 && Spells(bz[..n], x) && x < 0x1_0000_0000_0000_0000
  {
    RoomStart();
    if DecodeUvarint(bz) == Some((x, n)) { UvarintAtSpells(bz, 0, x, n); }
    if 1 <= n <= |bz| && n <= 10 && Spells(bz[..n], x) && x < 0x1_0000_0000_0000_0000 { SpelledAt(bz, 0, x, n); }
  }

  /**
   * int32 and uint32 take four bytes and int64 and uint64 without the option eight, most significant byte first
   * and modulo 2^32 and 2^64; the other signed numbers are varints of 2i or -2i - 1, the other unsigned ones of i.
   */
  lemma NumWritten(i: int, k: NumKind, varint: bool)
    requires InRange(i, k)
    ensures var e := EncodeNum(i, k, varint);
            if k in {Int32, Uint32} then |e| == 4 && BE(e) == i % 0x1_0000_0000
            else if k in {Int64, Uint64} && !varint then |e| == 8 && BE(e) == i % 0x1_0000_0000_0000_0000
            else if k in {Uint8, Uint16, Uint64, Uint} then Spells(e, i)
            else Spells(e, if i >= 0 then 2 * i else -2 * i - 1)
  {
    var w := Width(k, varint);
    if w > 0 {
      FixedSpan(k, varint);
      BEBack(Wrap(i, k), w);
      DivUnique(i, Span(k), if i < 0 then -1 else 0, Wrap(i, k));
    } else {
      UvarintWritten(if Signed(k) then Zigzag(i) else i);
    }
  }

  // ---------- the type bits

  /** The three type bits of the type behind names and pointers. */
  predicate TypeBits(core: Type, varint: bool, c: nat)
  {
    match core
    case TBool => c == 0
    case TString => c == 2
    case TByteSlice(_) => c == 2
    case TByteArray(_, _) => c == 2
    case TStruct(_) => c == 3
    case TSlice(_) => c == 6
    case TArray(_, _) => c == 6
    case TIface(_) => c == 7
    case TNum(Int32) => c == 5
    case TNum(Uint32) => c == 5
    case TNum(Int64) => c == if varint then 0 else 1
    case TNum(Uint64) => c == if varint then 0 else 1
    case TNum(_) => c == 0
    case TPtr(_) => true
    case TNamed(_) => true
  }

  lemma Typ3Is(env: Env, t: Type, varint: bool)
    ensures TypeBits(Core(env, t), varint, Typ3(env, t, varint))
  {
  }

  // ---------- which values are left out

  /** A nil pointer or interface, or an empty string or slice, behind any pointers. */
  predicate Empty(env: Env, v: Value, t: Type)
  {
    var w, d := DerefV(v), Core(env, DerefT(t));
    w == VNil || ((d.TString? || d.TByteSlice?) && w == VBytes([])) || (d.TSlice? && w == VList([]))
  }

  lemma {:induction false} VoidIsEmpty(env: Env, v: Value, t: Type)
    requires HasType(env, v, t) && Supported(env)
    ensures IsVoid(env, v, t) <==> Empty(env, v, t)
    decreases v
  {
    if t.TPtr? && v.VPtr? { VoidIsEmpty(env, v.v, t.elem); }
  }

  // ---------- structs

  /** The bytes of field num: none exactly if it is empty, and else its number and type bits and its value. */
  lemma FieldWritten(env: Env, v: Value, f: Field, num: nat) returns (c: nat)
    requires HasType(env, v, f.typ) && Supported(env)
    ensures EncField(env, v, f, num) == [] <==> Empty(env, v, f.typ)
    ensures !Empty(env, v, f.typ) ==>
              TypeBits(Core(env, DerefT(f.typ)), f.varint, c) && HasType(env, DerefV(v), DerefT(f.typ)) &&
              EncField(env, v, f, num) == PutUvarint(8 * num + c) + Enc(env, DerefV(v), DerefT(f.typ), f.varint)
  {
    VoidIsEmpty(env, v, f.typ);
    c := Typ3(env, DerefT(f.typ), f.varint);
    if !Empty(env, v, f.typ) { DerefType(env, v, f.typ); }
  }

  /** The number of a field and its type bits, by the type behind names and pointers. */
  lemma FieldKeys(env: Env, v: Value, f: Field, num: nat)
    requires HasType(env, v, f.typ) && Supported(env) && !Empty(env, v, f.typ)
    ensures var d, e := Core(env, DerefT(f.typ)), EncField(env, v, f, num);
            && (d.TString? || d.TByteSlice? || d.TByteArray? ==> PutUvarint(8 * num + 2) <= e)
            && (d.TStruct? ==> PutUvarint(8 * num + 3) <= e)
            && (d.TSlice? || d.TArray? ==> PutUvarint(8 * num + 6) <= e)
            && (d.TIface? ==> PutUvarint(8 * num + 7) <= e)
            && (d.TBool? ==> PutUvarint(8 * num) <= e)
    ensures var d, e := Core(env, DerefT(f.typ)), EncField(env, v, f, num);
            d.TNum? ==>
              PutUvarint(8 * num + if d.kind in {Int64, Uint64} && !f.varint then 1
                                   else if d.kind in {Int32, Uint32} then 5 else 0) <= e
  {
    var c := FieldWritten(env, v, f, num);
  }

  function Joined(parts: seq<bytes>): (b: bytes)
  {
    if parts == [] then [] else parts[0] + Joined(parts[1..])
  }

  lemma JoinedMore(a: bytes, parts: seq<bytes>)
    ensures Joined([a] + parts) == a + Joined(parts)
  {
    assert ([a] + parts)[1..] == parts;
  }

  /** Fields are written in order and numbered in order. */
  lemma {:induction false} FieldsInTurn(env: Env, vs: seq<Value>, fs: seq<Field>, num: nat) returns (parts: seq<bytes>)
    requires FieldsHaveType(env, vs, fs) && Supported(env)
    ensures |parts| == |vs| == |fs| && EncFields(env, vs, fs, num) == Joined(parts)
    ensures forall i :: 0 <= i < |vs| ==> HasType(env, vs[i], fs[i].typ) && parts[i] == EncField(env, vs[i], fs[i], num + i)
  {
    if vs == [] {
      parts := [];
    } else {
      var e := EncField(env, vs[0], fs[0], num);
      var rest := FieldsInTurn(env, vs[1..], fs[1..], num + 1);
      parts := [e] + rest;
      JoinedMore(e, rest);
      forall i | 0 <= i < |vs| ensures HasType(env, vs[i], fs[i].typ) && parts[i] == EncField(env, vs[i], fs[i], num + i) {
        if i > 0 { assert vs[i] == vs[1..][i - 1] && fs[i] == fs[1..][i - 1] && parts[i] == rest[i - 1]; }
      }
    }
  }

  /** The fields, numbered from 1, and a 4. */
  lemma StructWritten(env: Env, v: Value, t: Type, varint: bool) returns (parts: seq<bytes>)
    requires HasType(env, v, t) && !t.TPtr? && Supported(env) && Core(env, t).TStruct?
    ensures EncBody(env, v, t, varint) == Joined(parts) + [4] && |parts| == |v.vs| == |Core(env, t).fields|
    ensures var fs := Core(env, t).fields;
            forall i :: 0 <= i < |fs| ==> HasType(env, v.vs[i], fs[i].typ) && parts[i] == EncField(env, v.vs[i], fs[i], 1 + i)
  {
    parts := FieldsInTurn(env, v.vs, Core(env, t).fields, 1);
  }

  // ---------- lists

  /** A pointer is 1 if it is empty, and else 0 and what it leads to. */
  lemma ElemWritten(env: Env, v: Value, t: Type, varint: bool)
    requires HasType(env, v, t) && Supported(env)
    ensures !t.TPtr? ==> EncElem(env, v, t, varint) == Enc(env, v, t, varint)
    ensures t.TPtr? && Empty(env, v, t) ==> EncElem(env, v, t, varint) == [1]
    ensures t.TPtr? && !Empty(env, v, t) ==>
              HasType(env, DerefV(v), DerefT(t)) && EncElem(env, v, t, varint) == [0] + Enc(env, DerefV(v), DerefT(t), varint)
  {
    VoidIsEmpty(env, v, t);
    if t.TPtr? && !Empty(env, v, t) { DerefType(env, v, t); }
  }

  /** Elements are written in order. */
  lemma {:induction false} ElemsInTurn(env: Env, vs: seq<Value>, t: Type, varint: bool) returns (parts: seq<bytes>)
    requires HaveType(env, vs, t) && Supported(env)
    ensures |parts| == |vs| && EncElems(env, vs, t, varint) == Joined(parts)
    ensures forall i :: 0 <= i < |vs| ==> HasType(env, vs[i], t) && parts[i] == EncElem(env, vs[i], t, varint)
  {
    if vs == [] {
      parts := [];
    } else {
      var e := EncElem(env, vs[0], t, varint);
      var rest := ElemsInTurn(env, vs[1..], t, varint);
      parts := [e] + rest;
      JoinedMore(e, rest);
      forall i | 0 <= i < |vs| ensures HasType(env, vs[i], t) && parts[i] == EncElem(env, vs[i], t, varint) {
        if i > 0 { assert vs[i] == vs[1..][i - 1] && parts[i] == rest[i - 1]; }
      }
    }
  }

  /** The element type with a bit for pointers, the number of elements, and the elements. */
  lemma ListWritten(env: Env, v: Value, t: Type, varint: bool, e: Type) returns (c: nat, parts: seq<bytes>)
    requires HasType(env, v, t) && !t.TPtr? && Supported(env)
    requires Core(env, t) == TSlice(e) || (Core(env, t).TArray? && Core(env, t).elem == e)
    ensures TypeBits(Core(env, DerefT(e)), varint, c) && c < 8
    ensures EncBody(env, v, t, varint) == [c + if e.TPtr? then 8 else 0] + PutUvarint(|v.vs|) + Joined(parts) && |parts| == |v.vs|
    ensures forall i :: 0 <= i < |v.vs| ==> HasType(env, v.vs[i], e) && parts[i] == EncElem(env, v.vs[i], e, varint)
  {
    c := Typ3(env, DerefT(e), varint);
    parts := ElemsInTurn(env, v.vs, e, varint);
  }

  // ---------- registered types and interfaces

  /** The prefix of a registered type, with type bits in its last three bits. */
  predicate Prefix(b: bytes, prefix: bytes, c: nat)
    requires |prefix| == 4
  {
    |b| == 4 && b[..3] == prefix[..3] && b[3] as int == prefix[3] as int + c
  }

  lemma PrefixWritten(c: Concrete, typ: nat)
    requires ValidName(c) && typ < 8
    ensures Prefix(WithTyp3(c.prefix, typ), c.prefix, typ)
  {
    TypedByteIs(c.prefix[3], typ);
  }

  /** A value of a registered type starts with its prefix, any other value with its own bytes. */
  lemma RegisteredWritten(env: Env, v: Value, t: Type, varint: bool) returns (p: bytes, c: nat)
    requires HasType(env, v, t) && !t.TPtr? && Supported(env)
    ensures Enc(env, v, t, varint) == p + EncBody(env, v, t, varint)
    ensures RegisteredType(env, t).None? ==> p == []
    ensures RegisteredType(env, t).Some? ==>
              var r := RegisteredType(env, t).value;
              |r.prefix| == 4 && Prefix(p, r.prefix, c) && c < 8 && TypeBits(Core(env, t), varint, c)
  {
    var r := RegisteredType(env, t);
    c := Typ3(env, t, varint);
    if r.Some? {
      p := WithTyp3(r.value.prefix, c);
      PrefixWritten(r.value, c);
    } else {
      p := [];
    }
  }

  /** Another registered type that implements the interface has the same prefix. */
  ghost predicate Ambiguous(env: Env, k: nat, c: Concrete)
    requires k < |env.ifaces|
  {
    exists d :: d in env.concretes && d != c && d.prefix == c.prefix && env.implements(d.id, env.ifaces[k].id)
  }

  lemma {:induction false} MatchingOrder(cs: seq<Concrete>, i: IfaceId, p: bytes, implements: (TypeId, IfaceId) -> bool)
    requires forall j, k :: 0 <= j < k < |cs| ==> cs[j] != cs[k]
    ensures var r := Matching(cs, i, p, implements); forall j, k :: 0 <= j < k < |r| ==> r[j] != r[k]
  {
    if cs != [] {
      var rest, last := cs[..|cs| - 1], cs[|cs| - 1];
      MatchingOrder(rest, i, p, implements);
      MatchingMembers(rest, i, p, implements, last);
    }
  }

  lemma SharedPrefix(env: Env, k: nat, c: Concrete)
    requires Supported(env) && k < |env.ifaces| && c in env.concretes && env.implements(c.id, env.ifaces[k].id)
    ensures |Group(env.ifaces[k].implementers, c.prefix)| > 1 <==> Ambiguous(env, k, c)
  {
    var f := env.ifaces[k];
    var r := Matching(env.concretes, f.id, c.prefix, env.implements);
    assert Group(f.implementers, c.prefix) == r;
    MatchingOrder(env.concretes, f.id, c.prefix, env.implements);
    MatchingMembers(env.concretes, f.id, c.prefix, env.implements, c);
    if |r| > 1 {
      var d := if r[0] == c then r[1] else r[0];
      MatchingMembers(env.concretes, f.id, c.prefix, env.implements, d);
    }
    if Ambiguous(env, k, c) {
      var d :| d in env.concretes && d != c && d.prefix == c.prefix && env.implements(d.id, f.id);
      MatchingMembers(env.concretes, f.id, c.prefix, env.implements, d);
    }
  }

  /**
   * Two zeros for nil.  Else a zero and the disambiguation bytes, if the interface always wants them or another type
   * that implements it has the same prefix, then the prefix with the type bits, then the value.
   */
  lemma InterfaceWritten(env: Env, v: Value, k: nat, varint: bool) returns (p: bytes, c: nat)
    requires HasType(env, v, TIface(k)) && Supported(env)
    ensures v.VNil? ==> EncBody(env, v, TIface(k), varint) == [0, 0]
    ensures v.VIface? ==>
              Registered(env.concretes, v.id).Some? &&
              var r := Registered(env.concretes, v.id).value;
              |r.prefix| == 4 && Prefix(p, r.prefix, c) && c < 8 && TypeBits(Core(env, TNamed(v.id)), varint, c) &&
              EncBody(env, v, TIface(k), varint)
              == (if env.ifaces[k].always || Ambiguous(env, k, r) then [0] + r.disamb else []) + p +
                 EncBody(env, v.v, TNamed(v.id), varint)
  {
    if v.VIface? {
      var r := Registered(env.concretes, v.id).value;
      c := Typ3(env, TNamed(v.id), varint);
      p := WithTyp3(r.prefix, c);
      PrefixWritten(r, c);
      SharedPrefix(env, k, r);
    } else {
      p, c := [], 0;
    }
  }

  /** One byte for booleans, and the length before strings and byte strings. */
  lemma ScalarWritten(env: Env, v: Value, t: Type, varint: bool)
    requires HasType(env, v, t) && !t.TPtr? && Supported(env)
    ensures var d, e := Core(env, t), EncBody(env, v, t, varint);
            && (d.TBool? ==> e == [if v.b then 1 else 0])
            && (d.TString? || d.TByteSlice? || d.TByteArray? ==> e == PutUvarint(|v.bs|) + v.bs)
            && (d.TNum? ==> e == EncodeNum(v.i, d.kind, varint))
  {
  }

  lemma StringField(env: Env, b: byte, num: nat)
    requires Supported(env) && num < 16
    ensures EncField(env, VBytes([b]), Field(TString, false), num) == [8 * num + 2, 1, b]
  {
    var v, f := VBytes([b]), Field(TString, false);
    assert !Empty(env, v, TString);
    var c := FieldWritten(env, v, f, num);
    assert PutUvarint(8 * num + c) == [8 * num + 2];
    var p, d := RegisteredWritten(env, v, TString, false);
    ScalarWritten(env, v, TString, false);
    assert Enc(env, v, TString, false) == [] + ([1] + [b]);
  }

  /** A struct whose only field is the string "a". */
  lemma OneString(env: Env, v: Value, t: Type)
    requires Supported(env) && v == VStruct([VBytes([0x61])]) && t == TStruct([Field(TString, false)])
    ensures HasType(env, v, t) && Enc(env, v, t, false) == [0x0A, 0x01, 0x61, 0x04]
  {
    assert FieldsHaveType(env, [], []);
    var parts := StructWritten(env, v, t, false);
    StringField(env, 0x61, 1);
    assert parts == [[0x0A, 0x01, 0x61]];
    assert Joined(parts) == parts[0] + Joined([]);
  }

  // ---------- what reading insists on

  lemma PrefixRead(b: bytes, c: Concrete, typ: nat)
    requires |b| == 4 && ValidName(c) && typ < 8
    ensures SplitTyp3(b) == (c.prefix, typ) <==> Prefix(b, c.prefix, typ)
  {
    if SplitTyp3(b) == (c.prefix, typ) {
      assert c.prefix[3] == UntypedByte(b[3]) && c.prefix[..3] == b[..3];
    }
    if Prefix(b, c.prefix, typ) {
      Typ3Back(c.prefix, typ);
      PrefixWritten(c, typ);
      assert b == b[..3] + [b[3]] == WithTyp3(c.prefix, typ);
    }
  }

  /** A registered type is only read behind its prefix with the type bits. */
  lemma RegisteredRead(env: Env, bz: bytes, t: Type, varint: bool) returns (c: nat)
    requires Supported(env) && Dec(env, bz, t, varint).Some? && RegisteredType(env, DerefT(t)).Some?
    ensures TypeBits(Core(env, DerefT(t)), varint, c) && c < 8 && |bz| >= 4 &&
            var r := RegisteredType(env, DerefT(t)).value; |r.prefix| == 4 && Prefix(bz[..4], r.prefix, c)
  {
    c := Typ3(env, DerefT(t), varint);
    PrefixRead(bz[..4], RegisteredType(env, DerefT(t)).value, c);
  }

  /** A list is only read behind the type bits of its elements and their number, which is that of an array. */
  lemma ListRead(env: Env, bz: bytes, e: Type, varint: bool, len: Option<nat>) returns (c: nat, count: nat, n: nat)
    requires DecList(env, bz, e, varint, len).Some?
    ensures TypeBits(Core(env, DerefT(e)), varint, c) && c < 8 && bz != [] && bz[0] as int == c + if e.TPtr? then 8 else 0
    ensures n < |bz| && Spells(bz[1..1 + n], count) && (len.Some? ==> count == len.value)
    ensures var v := DecList(env, bz, e, varint, len).value.0; v.VList? && |v.vs| == count
  {
    c := Typ3(env, DerefT(e), varint);
    count, n := DecodeUvarint(bz[1..]).value.0, DecodeUvarint(bz[1..]).value.1;
    UvarintRead(bz[1..], count, n);
    assert bz[1..][..n] == bz[1..1 + n];
    ElemsCount(env, bz[1 + n..], e, varint, count);
  }

  lemma {:induction false} ElemsCount(env: Env, bz: bytes, t: Type, varint: bool, count: nat)
    ensures var r := DecElems(env, bz, t, varint, count); r.Some? ==> |r.value.0| == count
    decreases count
  {
    if count > 0 && DecElem(env, bz, t, varint).Some? {
      ElemsCount(env, bz[DecElem(env, bz, t, varint).value.1..], t, varint, count - 1);
    }
  }

  /** A pointer is only read behind a 1, and is nil then, or a 0; a boolean is only read from these bytes. */
  lemma FlagRead(env: Env, bz: bytes, t: Type, varint: bool)
    ensures t.TPtr? && DecElem(env, bz, t, varint).Some? ==>
              bz != [] && (bz[0] == 0 || (bz[0] == 1 && DecElem(env, bz, t, varint) == Some((VNil, 1))))
    ensures DecScalar(bz, TBool, varint).Some? <==> bz != [] && (bz[0] == 0 || bz[0] == 1)
    ensures DecScalar(bz, TBool, varint).Some? ==> DecScalar(bz, TBool, varint).value == (VBool(bz[0] == 1), 1)
  {
  }

  /** A struct is only read up to a 4, and has all its fields. */
  lemma StructRead(env: Env, bz: bytes, fs: seq<Field>)
    requires DecStruct(env, bz, fs).Some?
    ensures var r := DecStruct(env, bz, fs).value; r.1 >= 1 && bz[r.1 - 1] == 4 && r.0.VStruct? && |r.0.vs| == |fs|
  {
    FieldsCount(env, bz, fs, 1);
  }

  lemma {:induction false} FieldsCount(env: Env, bz: bytes, fs: seq<Field>, num: nat)
    ensures var r := DecFields(env, bz, fs, num); r.Some? ==> |r.value.0| == |fs|
    decreases |fs|
  {
    if fs != [] && DecField(env, bz, fs[0], num).Read? {
      FieldsCount(env, bz[DecField(env, bz, fs[0], num).n..], fs[1..], num + 1);
    }
  }

  /** A field is only read behind its number and type bits; bytes with a larger number leave it at its zero value. */
  lemma FieldRead(env: Env, bz: bytes, f: Field, num: nat) returns (c: nat, n: nat, x: nat)
    requires DecField(env, bz, f, num).Read?
    ensures 1 <= n <= |bz| && Spells(bz[..n], x) && TypeBits(Core(env, DerefT(f.typ)), f.varint, c)
    ensures if x / 8 > num then DecField(env, bz, f, num) == Read(Zero(env, f.typ), 0)
            else x == 8 * num + c && Dec(env, bz[n..], f.typ, f.varint).Some? &&
                 var r := Dec(env, bz[n..], f.typ, f.varint).value; DecField(env, bz, f, num) == Read(r.0, n + r.1)
  {
    c := Typ3(env, DerefT(f.typ), f.varint);
    x, n := DecodeUvarint(bz).value.0, DecodeUvarint(bz).value.1;
    UvarintRead(bz, x, n);
  }

  lemma SameDisfix(r: Concrete, db: bytes, pb: bytes)
    requires Disfix(r) == db + pb && ValidName(r) && |db| == 3
    ensures r.disamb == db && r.prefix == pb
  {
    assert Disfix(r)[..3] == r.disamb && Disfix(r)[3..] == r.prefix;
    assert (db + pb)[..3] == db && (db + pb)[3..] == pb;
  }

  /**
   * An interface is only read behind the disambiguation bytes and the prefix of a registered type, or behind the prefix
   * alone if it is that of one implementing type; what is constructed for the type has to fit into the interface.
   */
  lemma InterfaceRead(env: Env, bz: bytes, k: nat, varint: bool) returns (r: Concrete, c: nat)
    requires Supported(env) && DecIface(env, bz, k, varint).Some? && !DecIface(env, bz, k, varint).value.0.VNil?
    ensures r in env.concretes && |r.prefix| == 4 && k < |env.ifaces| && Settable(env, r, k)
    ensures TypeBits(Core(env, TNamed(r.id)), varint, c) && |bz| >= 4
    ensures bz[0] == 0 ==> |bz| >= 8 && bz[1..4] == r.disamb && Prefix(bz[4..8], r.prefix, c)
    ensures bz[0] != 0 ==> Prefix(bz[..4], r.prefix, c) && env.implements(r.id, env.ifaces[k].id) && !Ambiguous(env, k, r)
    ensures var v := DecIface(env, bz, k, varint).value.0; v.VIface? && v.id == r.id
  {
    var h := ReadHeader(bz);
    r := Lookup(env.ifaces[k], env.disfixes, h).value;
    c := Typ3(env, TNamed(r.id), varint);
    if h.Disambiguated? {
      SameDisfix(r, h.disamb, h.prefix);
      PrefixRead(bz[4..8], r, c);
    } else {
      MatchingMembers(env.concretes, env.ifaces[k].id, h.prefix, env.implements, r);
      PrefixRead(bz[..4], r, c);
      SharedPrefix(env, k, r);
    }
  }

  // ---------- what comes back

  /** No pointer leads to an empty value. */
  predicate NoEmptyPointers(env: Env, v: Value, t: Type)
    requires HasType(env, v, t)
    decreases v, 1
  {
    match Core(env, t)
    case TPtr(e) => v.VNil? || (!Empty(env, v.v, e) && NoEmptyPointers(env, v.v, e))
    case TSlice(e) => NoneInElems(env, v.vs, e)
    case TArray(_, e) => NoneInElems(env, v.vs, e)
    case TStruct(fs) => NoneInFields(env, v.vs, fs)
    case TIface(_) => v.VNil? || NoEmptyPointers(env, v.v, TNamed(v.id))
    case _ => true
  }

  predicate NoneInElems(env: Env, vs: seq<Value>, t: Type)
    requires HaveType(env, vs, t)
    decreases vs, 0
  {
    vs == [] || (NoEmptyPointers(env, vs[0], t) && NoneInElems(env, vs[1..], t))
  }

  predicate NoneInFields(env: Env, vs: seq<Value>, fs: seq<Field>)
    requires FieldsHaveType(env, vs, fs)
    decreases vs, 0
  {
    vs == [] || (NoEmptyPointers(env, vs[0], fs[0].typ) && NoneInFields(env, vs[1..], fs[1..]))
  }

  /** A round trip changes nothing exactly in values without pointers to empty values. */
  lemma {:induction false} UnchangedExactly(env: Env, v: Value, t: Type)
    requires HasType(env, v, t) && Supported(env)
    ensures RoundTrip.Norm(env, v, t) == v <==> NoEmptyPointers(env, v, t)
    decreases v, 1
  {
    match Core(env, t)
    case TPtr(e) =>
      if v.VPtr? {
        VoidIsEmpty(env, v.v, e);
        UnchangedExactly(env, v.v, e);
      }
    case TSlice(e) => ElemsUnchanged(env, v.vs, e);
    case TArray(_, e) => ElemsUnchanged(env, v.vs, e);
    case TStruct(fs) => FieldsUnchanged(env, v.vs, fs);
    case TIface(_) => if v.VIface? { UnchangedExactly(env, v.v, TNamed(v.id)); }
    case _ =>
  }

  lemma {:induction false} ElemsUnchanged(env: Env, vs: seq<Value>, t: Type)
    requires HaveType(env, vs, t) && Supported(env)
    ensures RoundTrip.NormAll(env, vs, t) == vs <==> NoneInElems(env, vs, t)
    decreases vs, 0
  {
    if vs != [] {
      UnchangedExactly(env, vs[0], t);
      ElemsUnchanged(env, vs[1..], t);
      FirstAndRest(vs, RoundTrip.Norm(env, vs[0], t), RoundTrip.NormAll(env, vs[1..], t));
    }
  }

  lemma {:induction false} FieldsUnchanged(env: Env, vs: seq<Value>, fs: seq<Field>)
    requires FieldsHaveType(env, vs, fs) && Supported(env)
    ensures RoundTrip.NormFields(env, vs, fs) == vs <==> NoneInFields(env, vs, fs)
    decreases vs, 0
  {
    if vs != [] {
      UnchangedExactly(env, vs[0], fs[0].typ);
      FieldsUnchanged(env, vs[1..], fs[1..]);
      FirstAndRest(vs, RoundTrip.Norm(env, vs[0], fs[0].typ), RoundTrip.NormFields(env, vs[1..], fs[1..]));
    }
  }

  lemma FirstAndRest(vs: seq<Value>, x: Value, rest: seq<Value>)
    requires vs != []
    ensures [x] + rest == vs <==> x == vs[0] && rest == vs[1..]
  {
    if [x] + rest == vs { assert vs[0] == x && vs[1..] == rest; }
    if x == vs[0] && rest == vs[1..] { assert [x] + rest == vs; }
  }

  /** A pointer to an empty value comes back as nil, any other pointer as one to what its value comes back as. */
  lemma PointerBack(env: Env, v: Value, t: Type)
    requires HasType(env, v, t) && Supported(env) && t.TPtr?
    ensures RoundTrip.Norm(env, v, t) == if Empty(env, v, t) then VNil else VPtr(RoundTrip.Norm(env, v.v, t.elem))
  {
    VoidIsEmpty(env, v, t);
  }
}
