/**
 * Which bytes rlp/decode.go reads as a map: all of them, or only those up to an entry that is not a pair; and which
 * of them were written for it.
 */
module RlpMapExact {
  import opened Ints
  import opened Results
  import opened RlpSpec
  import opened RlpExt
  import RlpDecode
  import opened RlpMap

  // ---------- how much is read

  /** How many entries come before the first one that is not a key with a value. */
  function Pairs(es: seq<Entry>): (n: nat)
    ensures n <= |es| && (n < |es| ==> !es[n].KeyValue?)
    ensures forall i :: 0 <= i < n ==> es[i].KeyValue?
  {
    if es == [] || !es[0].KeyValue? then 0 else 1 + Pairs(es[1..])
  }

  predicate AllPairs(es: seq<Entry>)
  {
    forall i :: 0 <= i < |es| ==> es[i].KeyValue?
  }

  function PutAll(es: seq<Entry>, m: map<Scalar, Scalar>): (r: map<Scalar, Scalar>)
    requires AllPairs(es)
  {
    if es == [] then m else PutAll(es[1..], m[es[0].key := es[0].value])
  }

  /** The pairs in front make the map, and an entry of another length behind them hides all that follows. */
  lemma {:induction false} ReadsPairs(es: seq<Entry>, m: map<Scalar, Scalar>)
    ensures var n := Pairs(es);
            AddAll(es, m) == if n < |es| && es[n].Malformed? then None else Some(PutAll(es[..n], m))
  {
    var n := Pairs(es);
    if n > 0 {
      ReadsPairs(es[1..], m[es[0].key := es[0].value]);
      assert es[..n][1..] == es[1..][..n - 1];
    }
  }

  /** The entries in b, if it is a string with a list of strings in it. */
  function EntriesIn(b: bytes, kt: ScalarType, vt: ScalarType): (es: Option<seq<Entry>>)
  {
    var s := Whole(b, ByteSlice);
    if s.None? || !s.value.Str? then None
    else
      var t := Whole(s.value.b, SliceOf(ByteSlice));
      if t.None? || !t.value.List? then None else Some(EntriesFrom(t.value.items, kt, vt))
  }

  /**
   * A map is read without an error exactly when no entry is malformed before one of another length; all entries are
   * in it exactly when all are pairs.
   */
  lemma WhatIsRead(b: bytes, kt: ScalarType, vt: ScalarType)
    ensures MapFrom(b, kt, vt).Some? <==>
            EntriesIn(b, kt, vt).Some? && var es := EntriesIn(b, kt, vt).value; Pairs(es) == |es| || es[Pairs(es)].WrongLength?
    ensures MapFrom(b, kt, vt).Some? ==>
            var es := EntriesIn(b, kt, vt).value;
            MapFrom(b, kt, vt).value == PutAll(es[..Pairs(es)], map[]) && (Pairs(es) == |es| <==> AllPairs(es))
  {
    if EntriesIn(b, kt, vt).Some? { ReadsPairs(EntriesIn(b, kt, vt).value, map[]); }
  }

  // ---------- what was written

  /** An entry that is read as a pair is the encoding of that pair. */
  lemma EntryExact(b: bytes, kt: ScalarType, vt: ScalarType)
    requires |b| <= MAX_LEN && ValidType(kt) && ValidType(vt) && EntryFrom(b, kt, vt).KeyValue?
    ensures var e := EntryFrom(b, kt, vt); HasType(e.key, kt) && HasType(e.value, vt) && b == Enc(Pair(e.key, e.value, kt, vt))
  {
    var t := Whole(b, SliceOf(ByteSlice)).value;
    var kv := t.items;
    RlpDecode.WholeParse(b, SliceOf(ByteSlice), t);
    StringFits(kv, 0);
    StringFits(kv, 1);
    ScalarExact(kv[0].b, kt);
    ScalarExact(kv[1].b, vt);
    assert kv == [kv[0], kv[1]];
  }

  function KeysIn(es: seq<Entry>): (ks: seq<Scalar>)
    requires AllPairs(es)
    ensures |ks| == |es| && forall i :: 0 <= i < |es| ==> ks[i] == es[i].key
  {
    seq(|es|, i requires 0 <= i < |es| => es[i].key)
  }

  /** Entries in the order of their keys. */
  predicate InKeyOrder(es: seq<Entry>)
  {
    AllPairs(es) && Increasing(KeysIn(es))
  }

  /** With keys that differ, each entry is in the map. */
  lemma {:induction false} PutDistinct(es: seq<Entry>, m: map<Scalar, Scalar>)
    requires AllPairs(es) && Distinct(KeysIn(es))
    ensures forall i :: 0 <= i < |es| ==> es[i].key in PutAll(es, m) && PutAll(es, m)[es[i].key] == es[i].value
    ensures forall k :: k in PutAll(es, m) <==> k in m || k in KeysIn(es)
    ensures forall k :: k in m && k !in KeysIn(es) ==> PutAll(es, m)[k] == m[k]
  {
    if es != [] {
      var ks, rest := KeysIn(es), KeysIn(es[1..]);
      assert rest == ks[1..] && ks == [ks[0]] + rest;
      assert ks[0] !in rest;
      PutDistinct(es[1..], m[es[0].key := es[0].value]);
    }
  }

  lemma {:induction false} SortedDistinct(ks: seq<Scalar>, ty: ScalarType)
    requires Typed(ks, ty) && Increasing(ks)
    ensures Distinct(ks)
  {
    forall i, j | 0 <= i < j < |ks| ensures ks[i] != ks[j] {
      KeyOrder(ks[i], ks[i], ks[i], ty);
    }
  }

  lemma {:induction false} SameItems(items: seq<Item>, m: map<Scalar, Scalar>, ks: seq<Scalar>, kt: ScalarType, vt: ScalarType)
    requires |items| == |ks| && TypedMap(m, kt, vt) && forall x :: x in ks ==> x in m
    requires forall i :: 0 <= i < |ks| ==> items[i] == Str(Enc(Pair(ks[i], m[ks[i]], kt, vt)))
    ensures items == Entries(m, ks, kt, vt)
  {
    forall i | 0 <= i < |items| ensures items[i] == Entries(m, ks, kt, vt)[i] {
      EntryAt(m, ks, kt, vt, i);
    }
  }

  /** es is read from items, and each of items is written for its pair. */
  predicate Exact(items: seq<Item>, es: seq<Entry>, kt: ScalarType, vt: ScalarType)
  {
    |items| == |es| && AllPairs(es) && forall i :: 0 <= i < |es| ==>
      HasType(es[i].key, kt) && HasType(es[i].value, vt) && items[i] == Str(Enc(Pair(es[i].key, es[i].value, kt, vt)))
  }

  lemma EachExact(items: seq<Item>, kt: ScalarType, vt: ScalarType)
    requires ValidType(kt) && ValidType(vt) && (forall i :: 0 <= i < |items| ==> items[i].Str? && |items[i].b| <= MAX_LEN)
    requires AllPairs(EntriesFrom(items, kt, vt))
    ensures Exact(items, EntriesFrom(items, kt, vt), kt, vt)
  {
    var es := EntriesFrom(items, kt, vt);
    forall i | 0 <= i < |items|
      ensures HasType(es[i].key, kt) && HasType(es[i].value, vt) && items[i] == Str(Enc(Pair(es[i].key, es[i].value, kt, vt))) {
      EntryExact(items[i].b, kt, vt);
    }
  }

  /** Items that are read as pairs in key order are those written for the map they make. */
  lemma ItemsExact(items: seq<Item>, es: seq<Entry>, kt: ScalarType, vt: ScalarType)
    requires Exact(items, es, kt, vt) && InKeyOrder(es)
    ensures var m := PutAll(es, map[]);
            TypedMap(m, kt, vt) && KeysOf(KeysIn(es), m) && Typed(KeysIn(es), kt) && items == Entries(m, KeysIn(es), kt, vt)
  {
    var ks, m := KeysIn(es), PutAll(es, map[]);
    SortedDistinct(ks, kt);
    PutDistinct(es, map[]);
    forall i | 0 <= i < |ks| ensures ks[i] in m && items[i] == Str(Enc(Pair(ks[i], m[ks[i]], kt, vt))) {
      assert ks[i] == es[i].key && m[ks[i]] == es[i].value;
    }
    SameItems(items, m, ks, kt, vt);
  }

  /** Bytes that are read as a map are its encoding exactly when all entries are pairs, in the order of their keys. */
  lemma WrittenForIt(b: bytes, m: map<Scalar, Scalar>, keys: seq<Scalar>, kt: ScalarType, vt: ScalarType)
    requires |b| <= MAX_LEN && ValidType(kt) && ValidType(vt) && MapFrom(b, kt, vt) == Some(m)
    requires TypedMap(m, kt, vt) && KeysOf(keys, m)
    ensures MapCode(m, keys, kt, vt) == b <==> EntriesIn(b, kt, vt).Some? && InKeyOrder(EntriesIn(b, kt, vt).value)
  {
    if MapCode(m, keys, kt, vt) == b { WrittenInOrder(b, m, keys, kt, vt); }
    if EntriesIn(b, kt, vt).Some? && InKeyOrder(EntriesIn(b, kt, vt).value) { OrderedWritten(b, m, keys, kt, vt); }
  }

  lemma OrderedWritten(b: bytes, m: map<Scalar, Scalar>, keys: seq<Scalar>, kt: ScalarType, vt: ScalarType)
    requires |b| <= MAX_LEN && ValidType(kt) && ValidType(vt) && MapFrom(b, kt, vt) == Some(m)
    requires TypedMap(m, kt, vt) && KeysOf(keys, m) && EntriesIn(b, kt, vt).Some? && InKeyOrder(EntriesIn(b, kt, vt).value)
    ensures MapCode(m, keys, kt, vt) == b
  {
    var items := ItemsOf(b, kt, vt);
    var es := EntriesIn(b, kt, vt).value;
    EachExact(items, kt, vt);
    ItemsExact(items, es, kt, vt);
    WhatIsRead(b, kt, vt);
    assert es[..|es|] == es;
    SortIncreasing(keys, kt);
    SortKeepsKeys(keys, m);
    IncreasingUnique(Sort(keys), KeysIn(es), kt);
  }

  /** The strings that the entries of b are read from. */
  lemma ItemsOf(b: bytes, kt: ScalarType, vt: ScalarType) returns (items: seq<Item>)
    requires |b| <= MAX_LEN && EntriesIn(b, kt, vt).Some?
    ensures b == EncStr(Enc(List(items))) && EntriesIn(b, kt, vt) == Some(EntriesFrom(items, kt, vt))
    ensures forall i :: 0 <= i < |items| ==> items[i].Str? && |items[i].b| <= MAX_LEN
  {
    var s := Whole(b, ByteSlice).value;
    var t := Whole(s.b, SliceOf(ByteSlice)).value;
    items := t.items;
    RlpDecode.WholeParse(b, ByteSlice, s);
    EncStrLonger(s.b);
    RlpDecode.WholeParse(s.b, SliceOf(ByteSlice), t);
    AreStrings(items);
    forall i | 0 <= i < |items| ensures |items[i].b| <= MAX_LEN { StringFits(items, i); }
  }

  /** The entries that are read from the encoding of a map. */
  lemma EntriesRead(m: map<Scalar, Scalar>, ks: seq<Scalar>, kt: ScalarType, vt: ScalarType)
    requires ValidType(kt) && ValidType(vt) && TypedMap(m, kt, vt) && (forall x :: x in ks ==> x in m)
    requires |MapBytes(m, ks, kt, vt)| <= MAX_LEN
    ensures EntriesIn(MapBytes(m, ks, kt, vt), kt, vt) == Some(EntriesFrom(Entries(m, ks, kt, vt), kt, vt))
  {
    var items := Entries(m, ks, kt, vt);
    EntriesAreStrings(m, ks, kt, vt);
    EncStrLonger(Enc(List(items)));
    WholeIs(Str(Enc(List(items))), ByteSlice);
    StringsConform(items);
    WholeIs(List(items), SliceOf(ByteSlice));
  }

  lemma WrittenInOrder(b: bytes, m: map<Scalar, Scalar>, keys: seq<Scalar>, kt: ScalarType, vt: ScalarType)
    requires |b| <= MAX_LEN && ValidType(kt) && ValidType(vt)
    requires TypedMap(m, kt, vt) && KeysOf(keys, m) && MapCode(m, keys, kt, vt) == b
    ensures EntriesIn(b, kt, vt).Some? && InKeyOrder(EntriesIn(b, kt, vt).value)
  {
    SortKeepsKeys(keys, m);
    SortIncreasing(keys, kt);
    var ks := Sort(keys);
    EntriesRead(m, ks, kt, vt);
    PairsRead(m, ks, kt, vt);
  }

  lemma PairsRead(m: map<Scalar, Scalar>, ks: seq<Scalar>, kt: ScalarType, vt: ScalarType)
    requires ValidType(kt) && ValidType(vt) && TypedMap(m, kt, vt) && (forall x :: x in ks ==> x in m)
    requires |MapBytes(m, ks, kt, vt)| <= MAX_LEN
    ensures var es := EntriesFrom(Entries(m, ks, kt, vt), kt, vt); AllPairs(es) && KeysIn(es) == ks
  {
    var es := EntriesFrom(Entries(m, ks, kt, vt), kt, vt);
    forall i | 0 <= i < |ks| ensures es[i].KeyValue? && es[i].key == ks[i] {
      PairRead(m, ks, kt, vt, i);
    }
  }

  lemma PairRead(m: map<Scalar, Scalar>, ks: seq<Scalar>, kt: ScalarType, vt: ScalarType, i: nat)
    requires ValidType(kt) && ValidType(vt) && TypedMap(m, kt, vt) && (forall x :: x in ks ==> x in m) && i < |ks|
    requires |MapBytes(m, ks, kt, vt)| <= MAX_LEN
    ensures EntriesFrom(Entries(m, ks, kt, vt), kt, vt)[i] == KeyValue(ks[i], m[ks[i]])
  {
    EntryAt(m, ks, kt, vt, i);
    PartsFit(Entries(m, ks, kt, vt), i);
    EntryBack(ks[i], m[ks[i]], kt, vt);
  }

  /** An empty list in place of the first pair hides the pair behind it, and no error is reported. */
  lemma HiddenEntry(pair: bytes, kt: ScalarType, vt: ScalarType)
    requires |EncStr(Enc(List([Str([0xC0]), Str(pair)])))| <= MAX_LEN
    ensures MapFrom(EncStr(Enc(List([Str([0xC0]), Str(pair)]))), kt, vt) == Some(map[])
  {
    var items := [Str([0xC0]), Str(pair)];
    ListBack(items, kt, vt);
    EmptyList(kt, vt);
    assert EntriesFrom(items, kt, vt)[0] == WrongLength;
  }

  lemma EmptyList(kt: ScalarType, vt: ScalarType)
    ensures EntryFrom([0xC0], kt, vt) == WrongLength
  {
    assert Enc(List([])) == [0xC0];
    WholeIs(List([]), SliceOf(ByteSlice));
  }
}
