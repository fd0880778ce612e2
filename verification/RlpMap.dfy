/** Maps in rlp/encode.go and rlp/decode.go: a string that holds the list of encoded key-value pairs, by key. */
module RlpMap {
  import opened Ints
  import opened Results
  import opened BigEndian
  import opened RlpSpec
  import opened RlpStream
  import opened RlpEncode
  import opened RlpDecode
  import opened RlpExt

  // ---------- the order of keys

  /** The order of Go strings, byte by byte. */
  predicate Lex(a: bytes, b: bytes)
  {
    b != [] && (a == [] || a[0] < b[0] || (a[0] == b[0] && Lex(a[1..], b[1..])))
  }

  /** The comparison writeMap sorts keys with. */
  predicate Less(a: Scalar, b: Scalar)
  {
    match (a, b)
    case (Bytes(x), Bytes(y)) => Lex(x, y)
    case (Unsigned(x), Unsigned(y)) => x < y
    case (Signed(x), Signed(y)) => x < y
    case _ => false
  }

  lemma {:induction false} LexTotal(a: bytes, b: bytes)
    ensures a == b || Lex(a, b) || Lex(b, a)
  {
    if a != [] && b != [] && a[0] == b[0] {
      LexTotal(a[1..], b[1..]);
      if a[1..] == b[1..] { assert a == [a[0]] + a[1..] == [b[0]] + b[1..] == b; }
    }
  }

  lemma {:induction false} LexOrder(a: bytes, b: bytes, c: bytes)
    ensures !Lex(a, a)
    ensures Lex(a, b) && Lex(b, c) ==> Lex(a, c)
  {
    if a != [] { LexOrder(a[1..], if b == [] then [] else b[1..], if c == [] then [] else c[1..]); }
  }

  lemma KeyOrder(a: Scalar, b: Scalar, c: Scalar, ty: ScalarType)
    requires HasType(a, ty) && HasType(b, ty) && HasType(c, ty)
    ensures !Less(a, a) && (a == b || Less(a, b) || Less(b, a))
    ensures Less(a, b) && Less(b, c) ==> Less(a, c)
  {
    if ty.TBytes? {
      LexTotal(a.b, b.b);
      LexOrder(a.b, b.b, c.b);
    }
  }

  predicate Typed(ks: seq<Scalar>, ty: ScalarType)
  {
    forall i :: 0 <= i < |ks| ==> HasType(ks[i], ty)
  }

  predicate Increasing(ks: seq<Scalar>)
  {
    forall i, j :: 0 <= i < j < |ks| ==> Less(ks[i], ks[j])
  }

  // ---------- sorting

  function Insert(k: Scalar, ks: seq<Scalar>): (r: seq<Scalar>)
    ensures multiset(r) == multiset(ks) + multiset{k}
  {
    if ks == [] then [k]
    else if Less(ks[0], k) then
      assert ks == [ks[0]] + ks[1..];
      [ks[0]] + Insert(k, ks[1..])
    else [k] + ks
  }

  /** The stable sort of the keys. */
  function Sort(ks: seq<Scalar>): (r: seq<Scalar>)
    ensures multiset(r) == multiset(ks)
  {
    if ks == [] then []
    else
      assert ks == [ks[0]] + ks[1..];
      Insert(ks[0], Sort(ks[1..]))
  }

  lemma SameElements(a: seq<Scalar>, b: seq<Scalar>, x: Scalar)
    requires multiset(a) == multiset(b)
    ensures x in a <==> x in b
  {
    assert x in a <==> x in multiset(a);
    assert x in b <==> x in multiset(b);
  }

  lemma {:induction false} InsertIncreasing(k: Scalar, ks: seq<Scalar>, ty: ScalarType)
    requires Typed(ks, ty) && HasType(k, ty) && Increasing(ks) && k !in ks
    ensures Increasing(Insert(k, ks)) && Typed(Insert(k, ks), ty)
  {
    if ks != [] {
      var rest := ks[1..];
      if Less(ks[0], k) {
        InsertIncreasing(k, rest, ty);
        InsertMembers(k, rest);
        var r := Insert(k, rest);
        forall x | x in r ensures Less(ks[0], x) { }
      } else {
        KeyOrder(k, ks[0], ks[0], ty);
        forall i | 0 <= i < |ks| ensures Less(k, ks[i]) { if i > 0 { KeyOrder(k, ks[0], ks[i], ty); } }
      }
    }
  }

  lemma {:induction false} InsertMembers(k: Scalar, ks: seq<Scalar>)
    ensures forall x :: x in Insert(k, ks) <==> x == k || x in ks
  {
    forall x ensures x in Insert(k, ks) <==> x == k || x in ks {
      assert x in Insert(k, ks) <==> x in multiset(Insert(k, ks));
      assert x in ks <==> x in multiset(ks);
    }
  }

  predicate Distinct(ks: seq<Scalar>)
  {
    forall i, j :: 0 <= i < j < |ks| ==> ks[i] != ks[j]
  }

  lemma {:induction false} SortIncreasing(ks: seq<Scalar>, ty: ScalarType)
    requires Typed(ks, ty) && Distinct(ks)
    ensures Increasing(Sort(ks)) && Typed(Sort(ks), ty)
  {
    if ks != [] {
      SortIncreasing(ks[1..], ty);
      SameElements(Sort(ks[1..]), ks[1..], ks[0]);
      InsertIncreasing(ks[0], Sort(ks[1..]), ty);
    }
  }

  /** There is one increasing order of the same keys. */
  lemma {:induction false} IncreasingUnique(a: seq<Scalar>, b: seq<Scalar>, ty: ScalarType)
    requires Typed(a, ty) && Typed(b, ty) && Increasing(a) && Increasing(b)
    requires forall x :: x in a <==> x in b
    ensures a == b
  {
    assert a != [] ==> a[0] in b;
    assert b != [] ==> b[0] in a;
    if a != [] && b != [] {
      KeyOrder(a[0], b[0], a[0], ty);
      assert a[0] == b[0];
      assert a == [a[0]] + a[1..] && b == [b[0]] + b[1..];
      forall x ensures x in a[1..] <==> x in b[1..] {
        KeyOrder(a[0], a[0], a[0], ty);
        assert x in a <==> x == a[0] || x in a[1..];
        assert x in b <==> x == b[0] || x in b[1..];
        assert a[0] !in a[1..] && b[0] !in b[1..];
      }
      IncreasingUnique(a[1..], b[1..], ty);
    }
  }

  /** ks lists each key of m once, in any order: what MapKeys returns. */
  ghost predicate KeysOf(ks: seq<Scalar>, m: map<Scalar, Scalar>)
  {
    Distinct(ks) && forall x :: x in ks <==> x in m
  }

  /** The order in which the keys come makes no difference. */
  lemma SortOfKeys(m: map<Scalar, Scalar>, ks: seq<Scalar>, ls: seq<Scalar>, ty: ScalarType)
    requires KeysOf(ks, m) && KeysOf(ls, m) && Typed(ks, ty) && Typed(ls, ty)
    ensures Sort(ks) == Sort(ls)
  {
    SortIncreasing(ks, ty);
    SortIncreasing(ls, ty);
    forall x ensures x in Sort(ks) <==> x in Sort(ls) {
      SameElements(Sort(ks), ks, x);
      SameElements(Sort(ls), ls, x);
    }
    IncreasingUnique(Sort(ks), Sort(ls), ty);
  }

  // ---------- writing

  predicate TypedMap(m: map<Scalar, Scalar>, kt: ScalarType, vt: ScalarType)
  {
    forall k :: k in m ==> HasType(k, kt) && HasType(m[k], vt)
  }

  /** A key and its value, encoded apart and then as a list of two strings. */
  function Pair(k: Scalar, v: Scalar, kt: ScalarType, vt: ScalarType): (t: Item)
    requires HasType(k, kt) && HasType(v, vt)
  {
    List([Str(WriteScalar(k, kt)), Str(WriteScalar(v, vt))])
  }

  /** The encoded pairs of the keys ks, as strings. */
  function Entries(m: map<Scalar, Scalar>, ks: seq<Scalar>, kt: ScalarType, vt: ScalarType): (items: seq<Item>)
    requires TypedMap(m, kt, vt) && forall x :: x in ks ==> x in m
    ensures |items| == |ks|
  {
    if ks == [] then [] else [Str(Enc(Pair(ks[0], m[ks[0]], kt, vt)))] + Entries(m, ks[1..], kt, vt)
  }

  /** What writeMap writes for keys in the order ks. */
  function MapBytes(m: map<Scalar, Scalar>, ks: seq<Scalar>, kt: ScalarType, vt: ScalarType): (b: bytes)
    requires TypedMap(m, kt, vt) && forall x :: x in ks ==> x in m
  {
    EncStr(Enc(List(Entries(m, ks, kt, vt))))
  }

  lemma EncStrLonger(b: bytes)
    ensures |b| <= |EncStr(b)|
  {
  }

  lemma {:induction false} EncAllLonger(items: seq<Item>, i: nat)
    requires i < |items|
    ensures |Enc(items[i])| <= |EncAll(items)|
  {
    if i > 0 { EncAllLonger(items[1..], i - 1); }
  }

  /** Everything inside a map's encoding is no longer than it. */
  lemma PartsFit(items: seq<Item>, i: nat)
    requires i < |items| && items[i].Str?
    ensures |items[i].b| <= |EncAll(items)| <= |Enc(List(items))| <= |EncStr(Enc(List(items)))|
  {
    EncStrLonger(items[i].b);
    EncAllLonger(items, i);
    EncStrLonger(Enc(List(items)));
  }

  lemma SortKeepsKeys(ks: seq<Scalar>, m: map<Scalar, Scalar>)
    requires forall x :: x in ks <==> x in m
    ensures forall x :: x in Sort(ks) <==> x in m
  {
    forall x ensures x in Sort(ks) <==> x in ks { SameElements(Sort(ks), ks, x); }
  }

  /** The encoding of a map whose keys are listed in any order. */
  ghost function MapCode(m: map<Scalar, Scalar>, keys: seq<Scalar>, kt: ScalarType, vt: ScalarType): (b: bytes)
    requires TypedMap(m, kt, vt) && KeysOf(keys, m)
  {
    SortKeepsKeys(keys, m);
    MapBytes(m, Sort(keys), kt, vt)
  }

  /** The same map has the same encoding, whatever order its keys are listed in. */
  lemma MapCodeIsUnique(m: map<Scalar, Scalar>, keys: seq<Scalar>, others: seq<Scalar>, kt: ScalarType, vt: ScalarType)
    requires TypedMap(m, kt, vt) && KeysOf(keys, m) && KeysOf(others, m)
    ensures MapCode(m, keys, kt, vt) == MapCode(m, others, kt, vt)
  {
    SortOfKeys(m, keys, others, kt);
  }

  /** writeMap, for the keys in the order MapKeys gave them */
  method WriteMap(m: map<Scalar, Scalar>, keys: seq<Scalar>, kt: ScalarType, vt: ScalarType) returns (out: bytes)
    requires TypedMap(m, kt, vt) && KeysOf(keys, m)
    requires |MapCode(m, keys, kt, vt)| <= MAX_LEN
    ensures out == MapCode(m, keys, kt, vt)
  {
    SortKeepsKeys(keys, m);
    var ks := if |keys| > 1 then Sort(keys) else keys;
    assert ks == Sort(keys);
    ghost var all := Entries(m, ks, kt, vt);
    EncStrLonger(Enc(List(all)));
    var entries := EncodeEntries(m, ks, kt, vt);
    var kvs := EncodeToBytes(List(entries));
    out := EncodeToBytes(Str(kvs));
  }

  method EncodeEntry(k: Scalar, v: Scalar, kt: ScalarType, vt: ScalarType) returns (e: Item)
    requires HasType(k, kt) && HasType(v, vt) && |Enc(Pair(k, v, kt, vt))| <= MAX_LEN
    ensures e == Str(Enc(Pair(k, v, kt, vt)))
  {
    var kb, vb := WriteScalar(k, kt), WriteScalar(v, vt);
    var bts := EncodeToBytes(List([Str(kb), Str(vb)]));
    e := Str(bts);
  }

  lemma {:induction false} EntryAt(m: map<Scalar, Scalar>, ks: seq<Scalar>, kt: ScalarType, vt: ScalarType, i: nat)
    requires TypedMap(m, kt, vt) && (forall x :: x in ks ==> x in m) && i < |ks|
    ensures Entries(m, ks, kt, vt)[i] == Str(Enc(Pair(ks[i], m[ks[i]], kt, vt)))
  {
    if i > 0 { EntryAt(m, ks[1..], kt, vt, i - 1); }
  }

  method EncodeEntries(m: map<Scalar, Scalar>, ks: seq<Scalar>, kt: ScalarType, vt: ScalarType) returns (entries: seq<Item>)
    requires TypedMap(m, kt, vt) && (forall x :: x in ks ==> x in m) && |Enc(List(Entries(m, ks, kt, vt)))| <= MAX_LEN
    ensures entries == Entries(m, ks, kt, vt)
  {
    ghost var all := Entries(m, ks, kt, vt);
    entries := [];
    var i := 0;
    while i < |ks|
      invariant 0 <= i <= |ks| && entries == all[..i]
    {
      EntryAt(m, ks, kt, vt, i);
      PartsFit(all, i);
      var e := EncodeEntry(ks[i], m[ks[i]], kt, vt);
      entries := entries + [e];
      i := i + 1;
    }
  }

  // ---------- reading

  /** The item that b is the encoding of, if the target can hold it. */
  function Whole(b: bytes, target: Target): (t: Option<Item>)
  {
    var t := Parse(b, target);
    if t.Some? && |Enc(t.value)| == |b| then t else None
  }

  method DecodeWhole(b: bytes, target: Target) returns (r: Result<Item, Error>)
    requires |b| <= MAX_LEN && Widths(target)
    ensures r.Ok? ==> Whole(b, target) == Some(r.value) && Enc(r.value) == b && Conforms(r.value, target)
    ensures r.Err? ==> Whole(b, target) == None
  {
    r := DecodeBytes(b, target);
    if r.Ok? {
      WholeParse(b, target, r.value);
    } else if Whole(b, target).Some? {
      WholeParse(b, target, Whole(b, target).value);
    }
  }

  function TargetOf(ty: ScalarType): Target
  {
    match ty case TBytes => ByteSlice case TUint(w) => Uint(w) case TInt(w) => Uint(w)
  }

  function ScalarOf(b: bytes, ty: ScalarType): Scalar
  {
    match ty case TBytes => Bytes(b) case TUint(_) => Unsigned(BE(b)) case TInt(w) => Signed(ToInt(BE(b), w))
  }

  /** The scalar that b is the encoding of. */
  function ScalarFrom(b: bytes, ty: ScalarType): (v: Option<Scalar>)
  {
    var t := Whole(b, TargetOf(ty));
    if t.Some? && t.value.Str? then Some(ScalarOf(t.value.b, ty)) else None
  }

  lemma WholeIs(t: Item, target: Target)
    requires Conforms(t, target) && |Enc(t)| <= MAX_LEN
    ensures Whole(Enc(t), target) == Some(t)
  {
    WholeParse(Enc(t), target, t);
  }

  lemma NumberBack(n: nat, width: nat)
    requires width in {1, 2, 4, 8} && n < Modulus(width) && |WriteUint(n)| <= MAX_LEN
    ensures Whole(WriteUint(n), Uint(width)) == Some(Str(IntBytes(n))) && BE(IntBytes(n)) == n
  {
    NumberWritten(n, width);
    WholeIs(Str(IntBytes(n)), Uint(width));
  }

  lemma ScalarBack(v: Scalar, ty: ScalarType)
    requires HasType(v, ty) && ValidType(ty) && |WriteScalar(v, ty)| <= MAX_LEN
    ensures ScalarFrom(WriteScalar(v, ty), ty) == Some(v)
  {
    match ty {
      case TBytes =>
        WholeIs(Str(v.b), ByteSlice);
      case TUint(w) =>
        NumberBack(v.n, w);
      case TInt(w) =>
        WrapAround(v.i, w);
        NumberBack(ToUint(v.i, w), w);
    }
  }

  /** What a scalar is read from is what it is written as. */
  lemma ScalarExact(b: bytes, ty: ScalarType)
    requires |b| <= MAX_LEN && ValidType(ty) && ScalarFrom(b, ty).Some?
    ensures var v := ScalarFrom(b, ty).value; HasType(v, ty) && WriteScalar(v, ty) == b
  {
    var x := Whole(b, TargetOf(ty)).value.b;
    WholeParse(b, TargetOf(ty), Str(x));
    if !ty.TBytes? {
      NumberConforms(x, ty.width);
      NumberWritten(BE(x), ty.width);
      UnwrapAround(BE(x), ty.width);
    }
  }

  method ReadScalar(b: bytes, ty: ScalarType) returns (r: Result<Scalar, Error>)
    requires |b| <= MAX_LEN && ValidType(ty)
    ensures r.Ok? ==> ScalarFrom(b, ty) == Some(r.value)
    ensures r.Err? ==> ScalarFrom(b, ty) == None
  {
    r := DecodeScalar(b, ty);
    if r.Ok? {
      ScalarBack(r.value, ty);
    } else if ScalarFrom(b, ty).Some? {
      ScalarExact(b, ty);
    }
  }

  /** The key and the value in one entry: none if it is malformed. */
  datatype Entry = Malformed | WrongLength | KeyValue(key: Scalar, value: Scalar)

  function EntryFrom(b: bytes, kt: ScalarType, vt: ScalarType): (e: Entry)
  {
    var t := Whole(b, SliceOf(ByteSlice));
    if t.None? || !t.value.List? then Malformed
    else
      var kv := t.value.items;
      if |kv| != 2 then WrongLength
      else if !kv[0].Str? || !kv[1].Str? then Malformed
      else
        var k, v := ScalarFrom(kv[0].b, kt), ScalarFrom(kv[1].b, vt);
        if k.None? || v.None? then Malformed else KeyValue(k.value, v.value)
  }

  /** The entries put into a map in turn; the first one that is not a pair ends the map without an error. */
  function AddAll(es: seq<Entry>, m: map<Scalar, Scalar>): (r: Option<map<Scalar, Scalar>>)
  {
    if es == [] then Some(m)
    else
      match es[0]
      case Malformed => None
      case WrongLength => Some(m)
      case KeyValue(k, v) => AddAll(es[1..], m[k := v])
  }

  function EntriesFrom(items: seq<Item>, kt: ScalarType, vt: ScalarType): (es: seq<Entry>)
    ensures |es| == |items|
  {
    seq(|items|, i requires 0 <= i < |items| => if items[i].Str? then EntryFrom(items[i].b, kt, vt) else Malformed)
  }

  function AddEntries(items: seq<Item>, m: map<Scalar, Scalar>, kt: ScalarType, vt: ScalarType): (r: Option<map<Scalar, Scalar>>)
  {
    AddAll(EntriesFrom(items, kt, vt), m)
  }

  /** What decodeMap reads. */
  function MapFrom(b: bytes, kt: ScalarType, vt: ScalarType): (r: Option<map<Scalar, Scalar>>)
  {
    var s := Whole(b, ByteSlice);
    if s.None? || !s.value.Str? then None
    else
      var t := Whole(s.value.b, SliceOf(ByteSlice));
      if t.None? || !t.value.List? then None else AddEntries(t.value.items, map[], kt, vt)
  }

  lemma {:induction false} StringsConform(items: seq<Item>)
    requires forall i :: 0 <= i < |items| ==> items[i].Str?
    ensures AllConform(items, ByteSlice)
  {
    if items != [] { StringsConform(items[1..]); }
  }

  /** An entry that was written is read back. */
  lemma EntryBack(k: Scalar, v: Scalar, kt: ScalarType, vt: ScalarType)
    requires HasType(k, kt) && HasType(v, vt) && ValidType(kt) && ValidType(vt) && |Enc(Pair(k, v, kt, vt))| <= MAX_LEN
    ensures EntryFrom(Enc(Pair(k, v, kt, vt)), kt, vt) == KeyValue(k, v)
  {
    var p := Pair(k, v, kt, vt);
    StringsConform(p.items);
    WholeIs(p, SliceOf(ByteSlice));
    EncAllLonger(p.items, 0);
    EncAllLonger(p.items, 1);
    EncStrLonger(WriteScalar(k, kt));
    EncStrLonger(WriteScalar(v, vt));
    ScalarBack(k, kt);
    ScalarBack(v, vt);
  }

  /** The part of m for the keys ks. */
  function Restrict(m: map<Scalar, Scalar>, ks: seq<Scalar>): map<Scalar, Scalar>
    requires forall x :: x in ks ==> x in m
  {
    map x | x in ks :: m[x]
  }

  lemma RestrictStep(m: map<Scalar, Scalar>, ks: seq<Scalar>, done: map<Scalar, Scalar>)
    requires ks != [] && forall x :: x in ks ==> x in m
    ensures done[ks[0] := m[ks[0]]] + Restrict(m, ks[1..]) == done + Restrict(m, ks)
  {
    assert ks == [ks[0]] + ks[1..];
  }

  lemma FirstEntry(m: map<Scalar, Scalar>, ks: seq<Scalar>, kt: ScalarType, vt: ScalarType)
    requires ks != [] && TypedMap(m, kt, vt) && (forall x :: x in ks ==> x in m) && ValidType(kt) && ValidType(vt)
    requires |EncAll(Entries(m, ks, kt, vt))| <= MAX_LEN
    ensures var e := Entries(m, ks, kt, vt)[0]; e.Str? && EntryFrom(e.b, kt, vt) == KeyValue(ks[0], m[ks[0]])
    ensures |EncAll(Entries(m, ks[1..], kt, vt))| <= MAX_LEN && Entries(m, ks, kt, vt)[1..] == Entries(m, ks[1..], kt, vt)
  {
    var items, k := Entries(m, ks, kt, vt), ks[0];
    EncAllLonger(items, 0);
    EncStrLonger(Enc(Pair(k, m[k], kt, vt)));
    EntryBack(k, m[k], kt, vt);
  }

  /** The first entry goes into the map before the others. */
  lemma AddFirst(items: seq<Item>, k: Scalar, v: Scalar, kt: ScalarType, vt: ScalarType, m: map<Scalar, Scalar>)
    requires items != [] && items[0].Str? && EntryFrom(items[0].b, kt, vt) == KeyValue(k, v)
    ensures AddEntries(items, m, kt, vt) == AddEntries(items[1..], m[k := v], kt, vt)
  {
    assert EntriesFrom(items, kt, vt)[1..] == EntriesFrom(items[1..], kt, vt);
  }

  /** Reading the entries of some keys adds exactly those keys. */
  lemma {:induction false} EntriesBack(m: map<Scalar, Scalar>, ks: seq<Scalar>, kt: ScalarType, vt: ScalarType,
                                       done: map<Scalar, Scalar>)
    requires TypedMap(m, kt, vt) && (forall x :: x in ks ==> x in m) && ValidType(kt) && ValidType(vt)
    requires |EncAll(Entries(m, ks, kt, vt))| <= MAX_LEN
    ensures AddEntries(Entries(m, ks, kt, vt), done, kt, vt) == Some(done + Restrict(m, ks))
  {
    if ks == [] {
      assert done + Restrict(m, ks) == done;
    } else {
      FirstEntry(m, ks, kt, vt);
      AddFirst(Entries(m, ks, kt, vt), ks[0], m[ks[0]], kt, vt, done);
      EntriesBack(m, ks[1..], kt, vt, done[ks[0] := m[ks[0]]]);
      RestrictStep(m, ks, done);
    }
  }

  lemma RestrictAll(m: map<Scalar, Scalar>, ks: seq<Scalar>)
    requires forall x :: x in ks <==> x in m
    ensures map[] + Restrict(m, ks) == m
  {
  }

  /** A list of strings, wrapped in a string, is read back. */
  lemma ListBack(items: seq<Item>, kt: ScalarType, vt: ScalarType)
    requires |EncStr(Enc(List(items)))| <= MAX_LEN && forall i :: 0 <= i < |items| ==> items[i].Str?
    ensures MapFrom(EncStr(Enc(List(items))), kt, vt) == AddEntries(items, map[], kt, vt)
  {
    EncStrLonger(Enc(List(items)));
    WholeIs(Str(Enc(List(items))), ByteSlice);
    StringsConform(items);
    WholeIs(List(items), SliceOf(ByteSlice));
  }

  /** A map that was written is read back. */
  lemma MapBack(m: map<Scalar, Scalar>, keys: seq<Scalar>, kt: ScalarType, vt: ScalarType)
    requires TypedMap(m, kt, vt) && KeysOf(keys, m) && ValidType(kt) && ValidType(vt) && |MapCode(m, keys, kt, vt)| <= MAX_LEN
    ensures MapFrom(MapCode(m, keys, kt, vt), kt, vt) == Some(m)
  {
    SortKeepsKeys(keys, m);
    var ks := Sort(keys);
    EntriesAreStrings(m, ks, kt, vt);
    ListBack(Entries(m, ks, kt, vt), kt, vt);
    EncStrLonger(Enc(List(Entries(m, ks, kt, vt))));
    EntriesBack(m, ks, kt, vt, map[]);
    RestrictAll(m, ks);
  }

  lemma {:induction false} EntriesAreStrings(m: map<Scalar, Scalar>, ks: seq<Scalar>, kt: ScalarType, vt: ScalarType)
    requires TypedMap(m, kt, vt) && forall x :: x in ks ==> x in m
    ensures forall i :: 0 <= i < |ks| ==> Entries(m, ks, kt, vt)[i].Str?
  {
    if ks != [] { EntriesAreStrings(m, ks[1..], kt, vt); }
  }

  /** decodeMap; entries it could not read are errors, but an entry that is not a pair is not */
  method DecodeMap(b: bytes, kt: ScalarType, vt: ScalarType) returns (r: Result<map<Scalar, Scalar>, Error>)
    requires |b| <= MAX_LEN && ValidType(kt) && ValidType(vt)
    ensures r.Ok? ==> MapFrom(b, kt, vt) == Some(r.value)
    ensures r.Err? ==> MapFrom(b, kt, vt) == None
  {
    var s := DecodeWhole(b, ByteSlice);
    if s.Err? { return Err(s.error); }
    EncStrLonger(s.value.b);
    var bbt := DecodeWhole(s.value.b, SliceOf(ByteSlice));
    if bbt.Err? { return Err(bbt.error); }
    AreStrings(bbt.value.items);
    forall i | 0 <= i < |bbt.value.items| ensures |bbt.value.items[i].b| <= MAX_LEN { StringFits(bbt.value.items, i); }
    r := DecodeEntries(bbt.value.items, kt, vt, EntriesFrom(bbt.value.items, kt, vt));
  }

  lemma {:induction false} AreStrings(items: seq<Item>)
    requires AllConform(items, ByteSlice)
    ensures forall i :: 0 <= i < |items| ==> items[i].Str?
  {
    if items != [] { AreStrings(items[1..]); }
  }

  lemma AddNext(es: seq<Entry>, i: nat, m: map<Scalar, Scalar>)
    requires i < |es|
    ensures es[i].Malformed? ==> AddAll(es[i..], m) == None
    ensures es[i].WrongLength? ==> AddAll(es[i..], m) == Some(m)
    ensures es[i].KeyValue? ==> AddAll(es[i..], m) == AddAll(es[i + 1..], m[es[i].key := es[i].value])
  {
    assert es[i..][0] == es[i] && es[i..][1..] == es[i + 1..];
  }

  method DecodeEntries(items: seq<Item>, kt: ScalarType, vt: ScalarType, ghost es: seq<Entry>)
    returns (r: Result<map<Scalar, Scalar>, Error>)
    requires ValidType(kt) && ValidType(vt) && forall i :: 0 <= i < |items| ==> items[i].Str? && |items[i].b| <= MAX_LEN
    requires es == EntriesFrom(items, kt, vt)
    ensures r.Ok? ==> AddAll(es, map[]) == Some(r.value)
    ensures r.Err? ==> AddAll(es, map[]) == None
  {
    ghost var all := AddAll(es, map[]);
    var val: map<Scalar, Scalar> := map[];
    var i := 0;
    assert es[0..] == es;
    while i < |items|
      invariant 0 <= i <= |items| && all == AddAll(es[i..], val)
    {
      AddNext(es, i, val);
      var e, err := DecodeEntryAt(items, i, kt, vt);
      if err.Some? { return Err(err.value); }
      if e.WrongLength? { return Ok(val); }
      val := val[e.key := e.value];
      i := i + 1;
    }
    return Ok(val);
  }

  method DecodeEntryAt(items: seq<Item>, i: nat, kt: ScalarType, vt: ScalarType) returns (e: Entry, err: Option<Error>)
    requires ValidType(kt) && ValidType(vt) && i < |items| && items[i].Str? && |items[i].b| <= MAX_LEN
    ensures e == EntriesFrom(items, kt, vt)[i] && (err.Some? <==> e == Malformed)
  {
    e, err := DecodeEntry(items[i].b, kt, vt);
  }

  lemma StringFits(items: seq<Item>, i: nat)
    requires i < |items| && items[i].Str?
    ensures |items[i].b| <= |EncAll(items)|
  {
    EncAllLonger(items, i);
    EncStrLonger(items[i].b);
  }

  /** One entry: an error, a list that is not a pair, or a key and a value. */
  method DecodeEntry(b: bytes, kt: ScalarType, vt: ScalarType) returns (e: Entry, err: Option<Error>)
    requires |b| <= MAX_LEN && ValidType(kt) && ValidType(vt)
    ensures e == EntryFrom(b, kt, vt) && (err.Some? <==> e == Malformed)
  {
    var bbv := DecodeWhole(b, SliceOf(ByteSlice));
    if bbv.Err? { return Malformed, Some(bbv.error); }
    var kv := bbv.value.items;
    if |kv| != 2 { return WrongLength, None; }
    AreStrings(kv);
    StringFits(kv, 0);
    StringFits(kv, 1);
    var k := ReadScalar(kv[0].b, kt);
    if k.Err? { return Malformed, Some(k.error); }
    var v := ReadScalar(kv[1].b, vt);
    if v.Err? { return Malformed, Some(v.error); }
    return KeyValue(k.value, v.value), None;
  }
}
