/** What writeMap of rlp/encode.go writes: which bytes for a key and its value, and the keys in ascending order. */
module RlpMapBytes {
  import opened Ints
  import opened BigEndian
  import opened Results
  import opened RlpSpec
  import opened RlpBytes
  import opened RlpEncode
  import opened RlpExt
  import opened RlpMap
  import opened RlpMapExact

  // ---------- the order

  /** The first n bytes are the same. */
  predicate Agree(a: bytes, b: bytes, n: nat)
  {
    n <= |a| && n <= |b| && forall j :: 0 <= j < n ==> a[j] == b[j]
  }

  lemma {:induction false} LexBefore(a: bytes, b: bytes) returns (n: nat)
    requires Lex(a, b)
    ensures Agree(a, b, n) && n < |b| && (n == |a| || a[n] < b[n])
  {
    if a == [] || a[0] < b[0] {
      n := 0;
    } else {
      n := LexBefore(a[1..], b[1..]);
      forall j | 0 <= j < n + 1 ensures a[j] == b[j] { if j > 0 { assert a[1..][j - 1] == b[1..][j - 1]; } }
      n := n + 1;
    }
  }

  /**
   * Numbers ascend; of two byte strings, the first one is the smaller where they differ first, or it
   * ends there.
   */
  ghost predicate Ascends(a: Scalar, b: Scalar)
  {
    match (a, b)
    case (Unsigned(x), Unsigned(y)) => x < y
    case (Signed(x), Signed(y)) => x < y
    case (Bytes(x), Bytes(y)) => exists n: nat :: Agree(x, y, n) && n < |y| && (n == |x| || x[n] < y[n])
    case _ => false
  }

  lemma SortAscends(keys: seq<Scalar>, ty: ScalarType)
    requires Typed(keys, ty) && Distinct(keys)
    ensures |Sort(keys)| == |keys| && Typed(Sort(keys), ty)
    ensures forall i, j :: 0 <= i < j < |keys| ==> Ascends(Sort(keys)[i], Sort(keys)[j])
  {
    SortIncreasing(keys, ty);
    var ks := Sort(keys);
    assert |multiset(ks)| == |ks| && |multiset(keys)| == |keys|;
    forall i, j | 0 <= i < j < |ks| ensures Ascends(ks[i], ks[j]) {
      LessAscends(ks[i], ks[j]);
    }
  }

  lemma LessAscends(a: Scalar, b: Scalar)
    requires Less(a, b)
    ensures Ascends(a, b)
  {
    if a.Bytes? { var n := LexBefore(a.b, b.b); }
  }

  // ---------- the bytes

  /** A number is a string of the bytes it needs, and a negative one is first taken modulo 256^width. */
  lemma ScalarWritten(v: Scalar, ty: ScalarType)
    requires HasType(v, ty) && ValidType(ty)
    ensures ty.TBytes? ==> WriteScalar(v, ty) == Enc(Str(v.b))
    ensures ty.TUint? ==> WriteScalar(v, ty) == Enc(Str(IntBytes(v.n)))
    ensures ty.TInt? ==> WriteScalar(v, ty) == Enc(Str(IntBytes(v.i % Pow256(ty.width))))
  {
    if !ty.TBytes? {
      SmallPow256();
      var m := Modulus(ty.width);
      if ty.TInt? {
        DivUnique(v.i, m, if v.i < 0 then -1 else 0, ToUint(v.i, ty.width));
        UintIsStr(ToUint(v.i, ty.width));
      } else {
        UintIsStr(v.n);
      }
    }
  }

  /**
   * A map is a string that holds a list of strings, and each of these holds the list of a key and its
   * value, in this order and each encoded apart.  ks are the keys in ascending order.
   */
  lemma MapWritten(m: map<Scalar, Scalar>, keys: seq<Scalar>, kt: ScalarType, vt: ScalarType)
    returns (ks: seq<Scalar>, items: seq<Item>)
    requires TypedMap(m, kt, vt) && KeysOf(keys, m)
    ensures ks == Sort(keys) && |items| == |ks| && (forall x :: x in ks <==> x in m)
    ensures MapCode(m, keys, kt, vt) == Enc(Str(Enc(List(items))))
    ensures forall i :: 0 <= i < |ks| ==>
              items[i] == Str(Enc(List([Str(WriteScalar(ks[i], kt)), Str(WriteScalar(m[ks[i]], vt))])))
  {
    SortKeepsKeys(keys, m);
    ks := Sort(keys);
    items := Entries(m, ks, kt, vt);
    forall i | 0 <= i < |ks|
      ensures items[i] == Str(Enc(List([Str(WriteScalar(ks[i], kt)), Str(WriteScalar(m[ks[i]], vt))]))) {
      EntryAt(m, ks, kt, vt, i);
    }
  }

  /** es are the entries of a map, once each, with the keys in ascending order. */
  ghost predicate AscendingEntries(es: seq<Entry>, m: map<Scalar, Scalar>)
  {
    && (forall i :: 0 <= i < |es| ==> es[i].KeyValue? && es[i].key in m && m[es[i].key] == es[i].value)
    && (forall k :: k in m ==> KeyValue(k, m[k]) in es)
    && forall i, j :: 0 <= i < j < |es| ==> Ascends(es[i].key, es[j].key)
  }

  lemma KeyListed(ks: seq<Scalar>, es: seq<Entry>, m: map<Scalar, Scalar>, k: Scalar)
    requires k in ks && k in m && |es| == |ks|
    requires forall i :: 0 <= i < |ks| ==> ks[i] in m && es[i] == KeyValue(ks[i], m[ks[i]])
    ensures KeyValue(k, m[k]) in es
  {
    var i :| 0 <= i < |ks| && ks[i] == k;
    assert es[i] == KeyValue(k, m[k]);
  }

  lemma EntriesOfKeys(ks: seq<Scalar>, es: seq<Entry>, m: map<Scalar, Scalar>)
    requires (forall k :: k in ks <==> k in m) && |es| == |ks|
    requires forall i :: 0 <= i < |ks| ==> ks[i] in m && es[i] == KeyValue(ks[i], m[ks[i]])
    requires forall i, j :: 0 <= i < j < |ks| ==> Ascends(ks[i], ks[j])
    ensures AscendingEntries(es, m)
  {
    forall k | k in m ensures KeyValue(k, m[k]) in es { KeyListed(ks, es, m, k); }
  }

  lemma PairsOfKeys(m: map<Scalar, Scalar>, ks: seq<Scalar>, kt: ScalarType, vt: ScalarType)
    requires ValidType(kt) && ValidType(vt) && TypedMap(m, kt, vt) && forall k :: k in ks <==> k in m
    requires |MapBytes(m, ks, kt, vt)| <= MAX_LEN && forall i, j :: 0 <= i < j < |ks| ==> Ascends(ks[i], ks[j])
    ensures AscendingEntries(EntriesFrom(Entries(m, ks, kt, vt), kt, vt), m)
  {
    var es := EntriesFrom(Entries(m, ks, kt, vt), kt, vt);
    forall i | 0 <= i < |ks| ensures es[i] == KeyValue(ks[i], m[ks[i]]) { PairRead(m, ks, kt, vt, i); }
    EntriesOfKeys(ks, es, m);
  }

  /** The entries read out of what WriteMap wrote. */
  lemma WrittenAscending(m: map<Scalar, Scalar>, keys: seq<Scalar>, kt: ScalarType, vt: ScalarType)
    requires ValidType(kt) && ValidType(vt) && TypedMap(m, kt, vt) && KeysOf(keys, m)
    requires |MapCode(m, keys, kt, vt)| <= MAX_LEN
    ensures var es := EntriesIn(MapCode(m, keys, kt, vt), kt, vt); es.Some? && AscendingEntries(es.value, m)
  {
    SortKeepsKeys(keys, m);
    SortAscends(keys, kt);
    EntriesRead(m, Sort(keys), kt, vt);
    PairsOfKeys(m, Sort(keys), kt, vt);
  }

  // ---------- an example

  lemma ShortList(items: seq<Item>, c: bytes)
    requires EncAll(items) == c && |c| < 56
    ensures Enc(List(items)) == [0xC0 + |c|] + c
  {
    ListWritten(items);
  }

  lemma ShortString(b: bytes)
    requires 2 <= |b| < 56
    ensures Enc(Str(b)) == [0x80 + |b|] + b
  {
    StringWritten(b);
  }

  lemma SmallPair(k: byte, t: Item)
    requires 0 < k < 128
    requires t == Str(Enc(List([Str(WriteScalar(Unsigned(k), TUint(1))), Str(WriteScalar(Unsigned(1), TUint(1)))])))
    ensures Enc(t) == [0x83, 0xC2, k, 1]
  {
    TwoItems(Str([k]), Str([1]));
    ShortList([Str([k]), Str([1])], [k, 1]);
    ShortString([0xC2, k, 1]);
  }

  lemma TwoItems(a: Item, b: Item)
    ensures EncAll([a, b]) == Enc(a) + Enc(b)
  {
    ItemsInTurn([a], [b]);
    OneItem(a);
    OneItem(b);
  }

  lemma SortTwo(keys: seq<Scalar>)
    requires keys == [Unsigned(2), Unsigned(1)]
    ensures Sort(keys) == [Unsigned(1), Unsigned(2)]
  {
    assert keys[1..] == [Unsigned(1)] && keys[1..][1..] == [];
    assert Sort(keys[1..]) == [Unsigned(1)];
  }

  lemma TwoPairs(a: Item, b: Item, k: byte, l: byte)
    requires Enc(a) == [0x83, 0xC2, k, 1] && Enc(b) == [0x83, 0xC2, l, 1]
    ensures Enc(Str(Enc(List([a, b])))) == [0x89, 0xC8, 0x83, 0xC2, k, 1, 0x83, 0xC2, l, 1]
  {
    TwoItems(a, b);
    var c := [0x83, 0xC2, k, 1, 0x83, 0xC2, l, 1];
    ShortList([a, b], c);
    ShortString([0xC8] + c);
  }

  /** A map of uint8 with the keys 1 and 2 and the value 1 for both. */
  lemma TwoEntries(m: map<Scalar, Scalar>, keys: seq<Scalar>)
    requires m == map[Unsigned(1) := Unsigned(1), Unsigned(2) := Unsigned(1)] && keys == [Unsigned(2), Unsigned(1)]
    ensures KeysOf(keys, m) && TypedMap(m, TUint(1), TUint(1))
    ensures MapCode(m, keys, TUint(1), TUint(1)) == [0x89, 0xC8, 0x83, 0xC2, 1, 1, 0x83, 0xC2, 2, 1]
  {
    SortTwo(keys);
    assert KeysOf(keys, m) && TypedMap(m, TUint(1), TUint(1));
    var ks, items := MapWritten(m, keys, TUint(1), TUint(1));
    SmallPair(1, items[0]);
    SmallPair(2, items[1]);
    assert items == [items[0], items[1]];
    TwoPairs(items[0], items[1], 1, 2);
  }
}
