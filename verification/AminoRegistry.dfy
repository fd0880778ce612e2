/**
 * Registration in tendermint/go-amino/codec.go: interfaces with the concrete types that implement
 * them, and the prefix and disambiguation bytes that lead back to a type.
 */
module AminoRegistry {
  import opened Ints
  import opened Results

  type TypeId = nat
  type IfaceId = nat

  /**
   * A registered concrete type; prefix (4 bytes) and disamb (3 bytes) come from the hash of its name, and pointer says
   * that it was registered by a pointer to it (PointerPreferred).
   */
  datatype Concrete = Concrete(id: TypeId, prefix: bytes, disamb: bytes, pointer: bool)

  /** A registered interface; priority holds the disfixes of the types that may clash. */
  datatype Iface = Iface(id: IfaceId, priority: seq<bytes>, always: bool, implementers: map<bytes, seq<Concrete>>)

  /** What nameToDisfix gives: neither part starts with 0, and the last three bits of the prefix are free. */
  predicate ValidName(c: Concrete)
  {
    |c.prefix| == 4 && |c.disamb| == 3 && c.prefix[0] != 0 && c.disamb[0] != 0 && c.prefix[3] as int % 8 == 0
  }

  /** toDisfix */
  function Disfix(c: Concrete): (d: bytes)
  {
    c.disamb + c.prefix
  }

  // ---------- the types that implement an interface

  /** Those of cs with the prefix p that implement the interface, in the order of registration. */
  function Matching(cs: seq<Concrete>, i: IfaceId, p: bytes, implements: (TypeId, IfaceId) -> bool): (r: seq<Concrete>)
  {
    if cs == [] then []
    else
      var last := cs[|cs| - 1];
      var r := Matching(cs[..|cs| - 1], i, p, implements);
      if last.prefix == p && implements(last.id, i) then r + [last] else r
  }

  function Group(m: map<bytes, seq<Concrete>>, p: bytes): (cs: seq<Concrete>)
  {
    if p in m then m[p] else []
  }

  /** Exactly the implementing types, grouped by prefix. */
  ghost predicate Collected(m: map<bytes, seq<Concrete>>, cs: seq<Concrete>, i: IfaceId, implements: (TypeId, IfaceId) -> bool)
  {
    && (forall p :: Group(m, p) == Matching(cs, i, p, implements))
    && (forall p :: p in m ==> m[p] != [])
  }

  /** Where two types share a prefix, both are in the priority list. */
  ghost predicate NoConflicts(f: Iface)
  {
    forall p, c :: p in f.implementers && |f.implementers[p]| >= 2 && c in f.implementers[p] ==> Disfix(c) in f.priority
  }

  lemma {:induction false} MatchingMembers(cs: seq<Concrete>, i: IfaceId, p: bytes, implements: (TypeId, IfaceId) -> bool,
                                           c: Concrete)
    ensures c in Matching(cs, i, p, implements) <==> c in cs && c.prefix == p && implements(c.id, i)
  {
    if cs != [] {
      MatchingMembers(cs[..|cs| - 1], i, p, implements, c);
      assert cs == cs[..|cs| - 1] + [cs[|cs| - 1]];
    }
  }

  lemma MatchingMore(cs: seq<Concrete>, c: Concrete, i: IfaceId, p: bytes, implements: (TypeId, IfaceId) -> bool)
    ensures Matching(cs + [c], i, p, implements)
         == Matching(cs, i, p, implements) + if c.prefix == p && implements(c.id, i) then [c] else []
  {
    assert (cs + [c])[..|cs|] == cs;
  }

  /** Adding a type to its group keeps the groups complete for one type more. */
  lemma CollectedMore(m: map<bytes, seq<Concrete>>, cs: seq<Concrete>, c: Concrete, i: IfaceId,
                      implements: (TypeId, IfaceId) -> bool)
    requires Collected(m, cs, i, implements)
    ensures implements(c.id, i) ==> Collected(m[c.prefix := Group(m, c.prefix) + [c]], cs + [c], i, implements)
    ensures !implements(c.id, i) ==> Collected(m, cs + [c], i, implements)
  {
    var m' := if implements(c.id, i) then m[c.prefix := Group(m, c.prefix) + [c]] else m;
    forall p ensures Group(m', p) == Matching(cs + [c], i, p, implements) {
      MatchingMore(cs, c, i, p, implements);
      assert Group(m, p) == Matching(cs, i, p, implements);
    }
  }

  // ---------- the codec

  /** All that successful registrations keep. */
  ghost predicate WellFormed(ifaces: seq<Iface>, cs: seq<Concrete>, disfixes: map<bytes, Concrete>,
                             implements: (TypeId, IfaceId) -> bool)
  {
    && (forall k :: 0 <= k < |ifaces| ==>
      Collected(ifaces[k].implementers, cs, ifaces[k].id, implements) &&
      NoConflicts(ifaces[k]))
    && (forall j, k :: 0 <= j < k < |ifaces| ==> ifaces[j].id != ifaces[k].id)
    && (forall c :: c in cs ==> ValidName(c) && Disfix(c) in disfixes && disfixes[Disfix(c)] == c)
    && (forall d :: d in disfixes ==> disfixes[d] in cs && Disfix(disfixes[d]) == d)
    && (forall j, k :: 0 <= j < k < |cs| ==> cs[j].id != cs[k].id)
  }

  /** checkConflictsInPrio */
  predicate InPriority(priority: seq<bytes>, m: map<bytes, seq<Concrete>>)
  {
    forall p | p in m :: |m[p]| < 2 || forall c | c in m[p] :: Disfix(c) in priority
  }

  /** Implementing types that share a prefix are all in the priority list. */
  ghost predicate ClashFree(cs: seq<Concrete>, i: IfaceId, priority: seq<bytes>, implements: (TypeId, IfaceId) -> bool)
  {
    forall p, c :: |Matching(cs, i, p, implements)| >= 2 && c in Matching(cs, i, p, implements) ==> Disfix(c) in priority
  }

  lemma CollectedClashes(m: map<bytes, seq<Concrete>>, cs: seq<Concrete>, i: IfaceId, priority: seq<bytes>,
                         implements: (TypeId, IfaceId) -> bool)
    requires Collected(m, cs, i, implements)
    ensures InPriority(priority, m) <==> ClashFree(cs, i, priority, implements)
  {
    if InPriority(priority, m) {
      forall p, c | |Matching(cs, i, p, implements)| >= 2 && c in Matching(cs, i, p, implements) ensures Disfix(c) in priority {
        assert Group(m, p) == Matching(cs, i, p, implements);
      }
    }
    if ClashFree(cs, i, priority, implements) {
      forall p | p in m ensures |m[p]| < 2 || forall c | c in m[p] :: Disfix(c) in priority {
        assert Group(m, p) == Matching(cs, i, p, implements);
      }
    }
  }

  /** The interface with one more implementing type, if it implements it. */
  function WithType(f: Iface, c: Concrete, implements: (TypeId, IfaceId) -> bool): (g: Iface)
  {
    if implements(c.id, f.id) then f.(implementers := f.implementers[c.prefix := Group(f.implementers, c.prefix) + [c]]) else f
  }

  /**
   * Whether a type can be registered: it is new, its disfix is free, and every interface has its clashes in its
   * priority list.
   */
  ghost predicate CanRegister(ifaces: seq<Iface>, known: set<TypeId>, disfixes: map<bytes, Concrete>, c: Concrete,
                              implements: (TypeId, IfaceId) -> bool)
  {
    && c.id !in known && Disfix(c) !in disfixes
    && forall k :: 0 <= k < |ifaces| ==> implements(c.id, ifaces[k].id) ==>
      InPriority(ifaces[k].priority, WithType(ifaces[k], c, implements).implementers)
  }

  predicate Clashes(f: Iface, c: Concrete, implements: (TypeId, IfaceId) -> bool)
  {
    implements(c.id, f.id) && !InPriority(f.priority, WithType(f, c, implements).implementers)
  }

  /** The first interface from k on in which a type clashes, or the end. */
  function FirstClash(ifaces: seq<Iface>, c: Concrete, implements: (TypeId, IfaceId) -> bool, k: nat): (n: nat)
    requires k <= |ifaces|
    ensures k <= n <= |ifaces| && (n < |ifaces| ==> Clashes(ifaces[n], c, implements))
    ensures forall j :: k <= j < n ==> !Clashes(ifaces[j], c, implements)
    decreases |ifaces| - k
  {
    if k == |ifaces| || Clashes(ifaces[k], c, implements) then k else FirstClash(ifaces, c, implements, k + 1)
  }

  /** The interfaces with the type added to the first n. */
  function AddedTo(ifaces: seq<Iface>, c: Concrete, implements: (TypeId, IfaceId) -> bool, n: nat): (r: seq<Iface>)
    ensures |r| == |ifaces|
  {
    seq(|ifaces|, i requires 0 <= i < |ifaces| => if i < n then WithType(ifaces[i], c, implements) else ifaces[i])
  }

  /** What a failed registration leaves is what was there exactly when no interface before the clash is implemented. */
  lemma LeftAsItWas(ifaces: seq<Iface>, c: Concrete, implements: (TypeId, IfaceId) -> bool, n: nat)
    requires n <= |ifaces|
    ensures AddedTo(ifaces, c, implements, n) == ifaces <==> forall j :: 0 <= j < n ==> !implements(c.id, ifaces[j].id)
  {
    var r := AddedTo(ifaces, c, implements, n);
    forall j | 0 <= j < n ensures r[j] == ifaces[j] <==> !implements(c.id, ifaces[j].id) {
      var m, p := ifaces[j].implementers, c.prefix;
      assert |Group(m[p := Group(m, p) + [c]], p)| == |Group(m, p)| + 1;
    }
  }

  class Codec {
    const implements: (TypeId, IfaceId) -> bool   // whether the pointer to a type implements an interface
    var known: set<TypeId>                        // typeInfos of concrete types, registered or only met
    var ifaces: seq<Iface>                        // interfaceInfos
    var concretes: seq<Concrete>                  // concreteInfos
    var disfixes: map<bytes, Concrete>            // disfixToTypeInfo

    ghost predicate Valid()
      reads this
    {
      WellFormed(ifaces, concretes, disfixes, implements) && forall c :: c in concretes ==> c.id in known
    }

    constructor (implements: (TypeId, IfaceId) -> bool)
      ensures Valid() && ifaces == [] && concretes == [] && known == {} && this.implements == implements
    {
      this.implements := implements;
      known, ifaces, concretes, disfixes := {}, [], [], map[];
    }

    /** getTypeInfo, for a type that was not registered */
    method Meet(id: TypeId)
      requires Valid()
      modifies `known
      ensures Valid() && known == old(known) + {id}
    {
      known := known + {id};
    }

    /** collectImplementers */
    method CollectImplementers(id: IfaceId) returns (m: map<bytes, seq<Concrete>>)
      ensures Collected(m, concretes, id, implements)
    {
      m := map[];
      var j := 0;
      while j < |concretes|
        invariant 0 <= j <= |concretes| && Collected(m, concretes[..j], id, implements)
      {
        var c := concretes[j];
        CollectedMore(m, concretes[..j], c, id, implements);
        assert concretes[..j] + [c] == concretes[..j + 1];
        if implements(c.id, id) { m := m[c.prefix := Group(m, c.prefix) + [c]]; }
        j := j + 1;
      }
      assert concretes[..j] == concretes;
    }

    /** RegisterInterface; ok stands for not panicking */
    method RegisterInterface(id: IfaceId, priority: seq<bytes>, always: bool) returns (ok: bool)
      requires Valid()
      modifies `ifaces
      ensures Valid()
      ensures ok <==>
              (forall k :: 0 <= k < |old(ifaces)| ==> old(ifaces)[k].id != id) &&
              ClashFree(concretes, id, priority, implements)
      ensures !ok ==> ifaces == old(ifaces)
      ensures ok ==> |ifaces| == |old(ifaces)| + 1 && ifaces[..|old(ifaces)|] == old(ifaces)
      ensures ok ==> var f := ifaces[|old(ifaces)|];
              f.id == id && f.priority == priority && f.always == always &&
              Collected(f.implementers, concretes, id, implements)
    {
      var m := CollectImplementers(id);
      var f := Iface(id, priority, always, m);
      CollectedClashes(m, concretes, id, priority, implements);
      if !InPriority(priority, m) { return false; }
      if exists k :: 0 <= k < |ifaces| && ifaces[k].id == id { return false; }
      assert NoConflicts(f);
      ifaces := ifaces + [f];
      return true;
    }

    /**
     * RegisterConcrete.  A type that cannot be registered stays behind in the interfaces before the first clash, and
     * among the concrete types if only its disfix is taken.
     */
    method RegisterConcrete(c: Concrete) returns (ok: bool)
      requires Valid() && ValidName(c)
      modifies this
      ensures ok <==> CanRegister(old(ifaces), old(known), old(disfixes), c, implements)
      ensures ok ==> Valid() && concretes == old(concretes) + [c] && known == old(known) + {c.id}
      ensures ifaces == AddedTo(old(ifaces), c, implements, FirstClash(old(ifaces), c, implements, 0))
      ensures !ok ==> disfixes == old(disfixes)
      ensures FirstClash(old(ifaces), c, implements, 0) < |ifaces| || c.id in old(known) ==>
              !ok && known == old(known) && concretes == old(concretes)
      ensures FirstClash(old(ifaces), c, implements, 0) == |ifaces| && c.id !in old(known) ==>
              known == old(known) + {c.id} && concretes == old(concretes) + [c]
    {
      var clear := AddCheckConflicts(c);
      if !clear { return false; }
      if c.id in known { return false; }
      known := known + {c.id};
      concretes := concretes + [c];
      if Disfix(c) in disfixes { return false; }
      disfixes := disfixes[Disfix(c) := c];
      RegisteredWellFormed(old(ifaces), ifaces, old(concretes), old(disfixes), c, implements);
      return true;
    }

    /** addCheckConflictsWithConcrete: the type is added to one interface after the other, up to the first clash */
    method AddCheckConflicts(c: Concrete) returns (ok: bool)
      modifies `ifaces
      ensures ok <==> FirstClash(old(ifaces), c, implements, 0) == |ifaces|
      ensures ifaces == AddedTo(old(ifaces), c, implements, FirstClash(old(ifaces), c, implements, 0))
    {
      var k := 0;
      while k < |ifaces|
        invariant 0 <= k <= |ifaces| == |old(ifaces)|
        invariant ifaces == AddedTo(old(ifaces), c, implements, k)
        invariant FirstClash(old(ifaces), c, implements, k) == FirstClash(old(ifaces), c, implements, 0)
      {
        var f := ifaces[k];
        if implements(c.id, f.id) {
          ifaces := ifaces[k := WithType(f, c, implements)];
          if !InPriority(f.priority, ifaces[k].implementers) {
            ifaces := ifaces[k := f];
            return false;
          }
        }
        k := k + 1;
      }
      return true;
    }
  }

  /** One more type in every interface it implements, and in the table of disfixes. */
  lemma RegisteredWellFormed(ifaces: seq<Iface>, after: seq<Iface>, cs: seq<Concrete>, disfixes: map<bytes, Concrete>,
                             c: Concrete, implements: (TypeId, IfaceId) -> bool)
    requires WellFormed(ifaces, cs, disfixes, implements) && ValidName(c) && Disfix(c) !in disfixes
    requires forall j :: 0 <= j < |cs| ==> cs[j].id != c.id
    requires |after| == |ifaces| && forall k :: 0 <= k < |ifaces| ==> after[k] == WithType(ifaces[k], c, implements)
    requires forall k :: 0 <= k < |ifaces| ==> implements(c.id, ifaces[k].id) ==>
             InPriority(after[k].priority, after[k].implementers)
    ensures WellFormed(after, cs + [c], disfixes[Disfix(c) := c], implements)
  {
    forall k | 0 <= k < |after| ensures Collected(after[k].implementers, cs + [c], after[k].id, implements) &&
      NoConflicts(after[k]) {
      CollectedMore(ifaces[k].implementers, cs, c, ifaces[k].id, implements);
    }
  }

  // ---------- the header of an interface value

  /** The type bits go where the prefix has none. */
  function TypedByte(x: byte, typ: byte): (y: byte)
  {
    OrByte(typ, x)
  }

  function UntypedByte(y: byte): (x: byte)
  {
    y as int / 8 * 8
  }

  lemma TypedByteIs(x: byte, typ: byte)
    requires x as int % 8 == 0 && typ < 8
    ensures TypedByte(x, typ) as int == typ as int + x as int
  {
    SmallPowers();
    OrSum(typ, x, 8, 3, x as int / 8);
  }

  lemma TypedByteBack(x: byte, typ: byte)
    requires x as int % 8 == 0 && typ < 8
    ensures UntypedByte(TypedByte(x, typ)) == x && TypedByte(x, typ) as int % 8 == typ as int
  {
    TypedByteIs(x, typ);
    DivUnique(typ as int + x as int, 8, x as int / 8, typ);
  }

  /** WithTyp3 */
  function WithTyp3(prefix: bytes, typ: nat): (b: bytes)
    requires |prefix| == 4 && typ < 8
    ensures |b| == 4
  {
    prefix[3 := TypedByte(prefix[3], typ)]
  }

  /** SplitTyp3 */
  function SplitTyp3(b: bytes): (r: (bytes, nat))
    requires |b| == 4
  {
    (b[3 := UntypedByte(b[3])], b[3] as int % 8)
  }

  lemma Typ3Back(prefix: bytes, typ: nat)
    requires |prefix| == 4 && prefix[3] as int % 8 == 0 && typ < 8
    ensures SplitTyp3(WithTyp3(prefix, typ)) == (prefix, typ)
  {
    TypedByteBack(prefix[3], typ);
    OverwriteBack(prefix, TypedByte(prefix[3], typ));
  }

  lemma OverwriteBack(b: bytes, y: byte)
    requires |b| == 4
    ensures b[3 := y][3] == y && b[3 := y][3 := b[3]] == b
  {
  }

  /** What encodeReflectBinaryInterface writes before a value of the type c */
  function HeaderOf(f: Iface, c: Concrete, typ: nat): (h: bytes)
    requires ValidName(c) && typ < 8
  {
    (if f.always || |Group(f.implementers, c.prefix)| > 1 then [0] + c.disamb else []) + WithTyp3(c.prefix, typ)
  }

  /** DecodeDisambPrefixBytes: nil, an error, or disambiguation bytes if any, prefix, type bits and the bytes taken */
  datatype HeaderRead =
    | NilHeader | BadHeader | Disambiguated(disamb: bytes, prefix: bytes, typ: nat) | Prefixed(prefix: bytes, typ: nat)

  function ReadHeader(bz: bytes): (h: HeaderRead)
  {
    if |bz| >= 2 && bz[0] == 0 && bz[1] == 0 then NilHeader
    else if |bz| < 4 then BadHeader
    else if bz[0] == 0 then
      if |bz| < 8 then BadHeader
      else var (pb, typ) := SplitTyp3(bz[4..8]); Disambiguated(bz[1..4], pb, typ)
    else var (pb, typ) := SplitTyp3(bz[..4]); Prefixed(pb, typ)
  }

  function HeaderSize(h: HeaderRead): (n: nat)
  {
    match h case NilHeader => 2 case BadHeader => 0 case Disambiguated(_, _, _) => 8 case Prefixed(_, _) => 4
  }

  /** getTypeInfoFromDisfix and getTypeInfoFromPrefix */
  function Lookup(f: Iface, disfixes: map<bytes, Concrete>, h: HeaderRead): (c: Option<Concrete>)
  {
    match h
    case Disambiguated(db, pb, _) => if db + pb in disfixes then Some(disfixes[db + pb]) else None
    case Prefixed(pb, _) => if |Group(f.implementers, pb)| == 1 then Some(f.implementers[pb][0]) else None
    case _ => None
  }

  lemma ReadDisambiguated(c: Concrete, typ: nat, rest: bytes)
    requires ValidName(c) && typ < 8
    ensures ReadHeader([0] + c.disamb + WithTyp3(c.prefix, typ) + rest) == Disambiguated(c.disamb, c.prefix, typ)
  {
    var bz := [0] + c.disamb + WithTyp3(c.prefix, typ) + rest;
    assert bz[1..4] == c.disamb && bz[4..8] == WithTyp3(c.prefix, typ) && bz[1] == c.disamb[0];
    Typ3Back(c.prefix, typ);
  }

  lemma ReadPrefixed(c: Concrete, typ: nat, rest: bytes)
    requires ValidName(c) && typ < 8
    ensures ReadHeader(WithTyp3(c.prefix, typ) + rest) == Prefixed(c.prefix, typ)
  {
    var bz := WithTyp3(c.prefix, typ) + rest;
    assert bz[..4] == WithTyp3(c.prefix, typ) && bz[0] == c.prefix[0];
    Typ3Back(c.prefix, typ);
  }

  /** The header of every implementing type leads back to it, whatever else is registered and in whatever order. */
  lemma HeaderResolves(ifaces: seq<Iface>, cs: seq<Concrete>, disfixes: map<bytes, Concrete>,
                       implements: (TypeId, IfaceId) -> bool, k: nat, c: Concrete, typ: nat, rest: bytes)
    requires WellFormed(ifaces, cs, disfixes, implements) && k < |ifaces| && c in cs && implements(c.id, ifaces[k].id) && typ < 8
    ensures var h := ReadHeader(HeaderOf(ifaces[k], c, typ) + rest);
            (h.Disambiguated? || h.Prefixed?) && h.typ == typ && HeaderSize(h) == |HeaderOf(ifaces[k], c, typ)| &&
              Lookup(ifaces[k], disfixes, h) == Some(c)
  {
    var f := ifaces[k];
    assert ValidName(c) && Collected(f.implementers, cs, f.id, implements);
    assert Group(f.implementers, c.prefix) == Matching(cs, f.id, c.prefix, implements);
    MatchingMembers(cs, f.id, c.prefix, implements, c);
    if f.always || |Group(f.implementers, c.prefix)| > 1 {
      ReadDisambiguated(c, typ, rest);
    } else {
      ReadPrefixed(c, typ, rest);
      assert [] + WithTyp3(c.prefix, typ) == WithTyp3(c.prefix, typ);
    }
  }
}
