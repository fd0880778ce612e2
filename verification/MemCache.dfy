/**
 * mc/memcache.go: a committed cache, and for every open transaction and key a stack of the values that its txs
 * set, so that a tx can be undone.
 */
module MemCache {
  import opened Ints
  import opened Results

  /** A byte slice; None is nil. */
  type Data = Option<bytes>

  datatype Entry = Entry(id: int, value: Data)

  type Stack = seq<Entry>

  /** The stacks of one transaction. */
  type Stacks = map<string, Stack>

  /** The committed cache, and the open transactions. */
  datatype State = State(ll: map<string, Data>, trans: map<int, Stacks>)

  // ---------- one stack

  function Top(s: Stack): (d: Data)
  {
    if s == [] then None else s[|s| - 1].value
  }

  predicate LastIs(s: Stack, id: int)
  {
    s != [] && s[|s| - 1].id == id
  }

  function Push(s: Stack, id: int, d: Data): (r: Stack)
  {
    (if LastIs(s, id) then s[..|s| - 1] else s) + [Entry(id, d)]
  }

  function Undo(s: Stack, id: int): (r: Stack)
  {
    if LastIs(s, id) then s[..|s| - 1] else s
  }

  /** Undoing a tx forgets all that it set, however often, as long as nothing was set in between. */
  lemma UndoPush(s: Stack, id: int, d: Data)
    ensures Undo(Push(s, id, d), id) == Undo(s, id) && Top(Push(s, id, d)) == d
  {
    var base := if LastIs(s, id) then s[..|s| - 1] else s;
    assert Push(s, id, d)[..|base|] == base;
  }

  /** Undoing a tx removes all its entries exactly when none of them is below the last entry. */
  lemma UndoRemovesAll(s: Stack, id: int)
    ensures (forall i :: 0 <= i < |Undo(s, id)| ==> Undo(s, id)[i].id != id) <==> (forall i :: 0 <= i < |s| - 1 ==> s[i].id != id)
  {
    var r := Undo(s, id);
    if LastIs(s, id) {
      assert |r| == |s| - 1;
    } else if s != [] {
      assert s[|s| - 1].id != id && r == s;
      if forall i :: 0 <= i < |s| - 1 ==> s[i].id != id {
        forall i | 0 <= i < |r| ensures r[i].id != id { }
      }
    }
  }

  /** Tx 1 cannot be undone any more after tx 2 has set the same key. */
  lemma UndoMissesEarlier()
    ensures Undo([Entry(1, Some([7])), Entry(2, None)], 1) == [Entry(1, Some([7])), Entry(2, None)]
  {
  }

  // ---------- the operations on states

  function Read(m: map<string, Data>, key: string): (d: Data)
  {
    if key in m then m[key] else None
  }

  /** A new stack starts with what is committed. */
  function Fresh(ll: map<string, Data>, key: string): (s: Stack)
    ensures Top(s) == Read(ll, key)
  {
    if key in ll then [Entry(0, ll[key])] else []
  }

  function StacksOf(s: State, t: int): (m: Stacks)
  {
    if t in s.trans then s.trans[t] else map[]
  }

  function Opened(m: Stacks, ll: map<string, Data>, key: string): (r: Stacks)
    ensures key in r
  {
    if key in m then m else m[key := Fresh(ll, key)]
  }

  function Written(m: Stacks, ll: map<string, Data>, key: string, id: int, d: Data): (r: Stacks)
  {
    var o := Opened(m, ll, key);
    o[key := Push(o[key], id, d)]
  }

  function Undone(m: Stacks, id: int): (r: Stacks)
  {
    map key | key in m :: Undo(m[key], id)
  }

  function Tops(m: Stacks): (r: map<string, Data>)
  {
    map key | key in m :: Top(m[key])
  }

  /** What the operations on an instance do; Write is NewMc followed by Set. */
  datatype Op = Open(t: int, key: string) | Write(t: int, key: string, id: int, d: Data) | UndoTx(t: int, id: int)
              | DropTrans(t: int) | Commit(t: int) | DropKey(key: string)

  function Do(s: State, op: Op): (r: State)
  {
    match op
    case Open(t, key) => State(s.ll, s.trans[t := Opened(StacksOf(s, t), s.ll, key)])
    case Write(t, key, id, d) => State(s.ll, s.trans[t := Written(StacksOf(s, t), s.ll, key, id, d)])
    case UndoTx(t, id) => if t in s.trans then State(s.ll, s.trans[t := Undone(s.trans[t], id)]) else s
    case DropTrans(t) => State(s.ll, s.trans - {t})
    case Commit(t) => if t in s.trans then State(s.ll + Tops(s.trans[t]), s.trans - {t}) else s
    case DropKey(key) => State(s.ll - {key}, map t | t in s.trans :: s.trans[t] - {key})
  }

  function Run(s: State, ops: seq<Op>): (r: State)
    decreases |ops|
  {
    if ops == [] then s else Run(Do(s, ops[0]), ops[1..])
  }

  // ---------- the objects

  /** The stack of one key in one transaction. */
  class Cache {
    const transID: int
    const key: string
    var tx: Stack

    constructor (transID: int, key: string, tx: Stack)
      ensures this.transID == transID && this.key == key && this.tx == tx
    {
      this.transID, this.key, this.tx := transID, key, tx;
    }

    method Get() returns (d: Data)
      ensures d == Top(tx)
    {
      if |tx| > 0 {
        return tx[|tx| - 1].value;
      }
      return None;
    }

    method Set(txID: int, data: Data)
      modifies this
      ensures tx == Push(old(tx), txID, data)
    {
      if |tx| > 0 && tx[|tx| - 1].id == txID {
        tx := tx[|tx| - 1 := Entry(txID, data)];
        assert tx == old(tx)[..|old(tx)| - 1] + [Entry(txID, data)];
        return;
      }
      tx := tx + [Entry(txID, data)];
    }

    method Dirty(txID: int)
      modifies this
      ensures tx == Undo(old(tx), txID)
    {
      if |tx| > 0 {
        if tx[|tx| - 1].id == txID {
          tx := tx[..|tx| - 1];
        }
      }
    }
  }

  // ---------- the loops over the stacks of a transaction

  /** Every stack is under its own key. */
  ghost predicate Keyed(mcs: map<string, Cache>)
  {
    forall key :: key in mcs ==> mcs[key].key == key
  }

  /** DirtyTransTx's loop */
  method DirtyAll(mcs: map<string, Cache>, txID: int)
    requires Keyed(mcs)
    modifies mcs.Values
    ensures forall key :: key in mcs ==> mcs[key].tx == Undo(old(mcs[key].tx), txID)
  {
    var left := mcs.Keys;
    while left != {}
      invariant left <= mcs.Keys
      invariant forall key :: key in mcs ==> mcs[key].tx == if key in left then old(mcs[key].tx) else Undo(old(mcs[key].tx), txID)
      decreases |left|
    {
      var key :| key in left;
      mcs[key].Dirty(txID);
      left := left - {key};
    }
  }

  /** CommitTrans's loop */
  method WriteBack(ll: map<string, Data>, mcs: map<string, Cache>) returns (r: map<string, Data>)
    requires Keyed(mcs)
    ensures forall key :: key in r <==> key in ll || key in mcs
    ensures forall key :: key in mcs ==> r[key] == Top(mcs[key].tx)
    ensures forall key :: key in ll && key !in mcs ==> r[key] == ll[key]
  {
    r := ll;
    var left := mcs.Keys;
    while left != {}
      invariant forall key :: key in left ==> key in mcs
      invariant forall key :: key in r <==> key in ll || (key in mcs && key !in left)
      invariant forall key :: key in mcs && key !in left ==> r[key] == Top(mcs[key].tx)
      invariant forall key :: key in ll && key !in mcs ==> r[key] == ll[key]
      decreases |left|
    {
      var key :| key in left;
      var top := mcs[key].Get();
      r := r[mcs[key].key := top];
      left := left - {key};
    }
  }

  /** Dirty's inner loop */
  method DropFrom(mcs: map<string, Cache>, key: string) returns (r: map<string, Cache>)
    requires Keyed(mcs)
    ensures r == mcs - {key}
  {
    r := mcs;
    var left := mcs.Keys;
    assert key !in mcs ==> mcs - {key} == mcs;
    while left != {}
      invariant left <= mcs.Keys
      invariant r == if key in left then mcs else mcs - {key}
      decreases |left|
    {
      var k :| k in left;
      if mcs[k].key == key {
        r := r - {key};
      }
      left := left - {k};
    }
  }

  lemma NotEmpty(s: set<int>)
    requires s != {}
    ensures exists t: int :: t in s
  {
    assert (forall t: int :: t !in s) ==> s == {};
  }

  /** Dirty's outer loop */
  method DropEverywhere(mcCache: map<int, map<string, Cache>>, key: string) returns (r: map<int, map<string, Cache>>)
    requires forall t :: t in mcCache ==> Keyed(mcCache[t])
    ensures forall t :: t in r <==> t in mcCache
    ensures forall t :: t in mcCache ==> r[t] == mcCache[t] - {key}
  {
    r := mcCache;
    var left := mcCache.Keys;
    while left != {}
      invariant forall t :: t in left ==> t in mcCache
      invariant forall t :: t in r <==> t in mcCache
      invariant forall t :: t in mcCache ==> r[t] == if t in left then mcCache[t] else mcCache[t] - {key}
      decreases |left|
    {
      NotEmpty(left);
      var t :| t in left;
      var mcs := DropFrom(mcCache[t], key);
      r := r[t := mcs];
      left := left - {t};
    }
  }

  /** The objects of a transaction are in their places and hold its stacks. */
  ghost predicate InTrans(mcs: map<string, Cache>, t: int, m: Stacks, caches: set<Cache>)
    reads caches
  {
    && (forall key :: key in m ==> key in mcs)
    && (forall key :: key in mcs ==> Placed(mcs[key], t, key) && key in m && mcs[key] in caches && mcs[key].tx == m[key])
  }

  ghost predicate Placed(c: Cache, t: int, key: string)
  {
    c.transID == t && c.key == key
  }

  lemma OpenIs(s: State, t: int, key: string, trans: map<int, Stacks>)
    requires var m := StacksOf(s, t); trans == s.trans[t := m][t := if key in m then m else m[key := Fresh(s.ll, key)]]
    ensures State(s.ll, trans) == Do(s, Open(t, key))
  {
    assert s.trans[t := StacksOf(s, t)][t := Opened(StacksOf(s, t), s.ll, key)]
      == s.trans[t := Opened(StacksOf(s, t), s.ll, key)];
  }

  ghost predicate InPlace(mcCache: map<int, map<string, Cache>>, trans: map<int, Stacks>, caches: set<Cache>)
    reads caches
  {
    && (forall t :: t in trans ==> t in mcCache)
    && (forall t :: t in mcCache ==> t in trans && InTrans(mcCache[t], t, trans[t], caches))
  }

  lemma TransPut(mcCache: map<int, map<string, Cache>>, trans: map<int, Stacks>, caches: set<Cache>, t: int,
                 mcs: map<string, Cache>, m: Stacks)
    requires forall u :: u in trans ==> u in mcCache
    requires forall u :: u in mcCache && u != t ==> u in trans && InTrans(mcCache[u], u, trans[u], caches)
    requires InTrans(mcs, t, m, caches)
    ensures InPlace(mcCache[t := mcs], trans[t := m], caches)
  {
  }

  lemma MoreCaches(mcCache: map<int, map<string, Cache>>, trans: map<int, Stacks>, caches: set<Cache>, c: Cache)
    requires InPlace(mcCache, trans, caches)
    ensures InPlace(mcCache, trans, caches + {c})
  {
  }

  lemma DropIn(mcs: map<string, Cache>, t: int, m: Stacks, caches: set<Cache>, key: string)
    requires InTrans(mcs, t, m, caches)
    ensures InTrans(mcs - {key}, t, m - {key}, caches)
  {
  }

  lemma DropInPlace(mcCache: map<int, map<string, Cache>>, trans: map<int, Stacks>, caches: set<Cache>, key: string,
                    r: map<int, map<string, Cache>>, rest: map<int, Stacks>)
    requires InPlace(mcCache, trans, caches)
    requires forall t :: t in r <==> t in mcCache
    requires forall t :: t in mcCache ==> r[t] == mcCache[t] - {key}
    requires forall t :: t in rest <==> t in trans
    requires forall t :: t in trans ==> rest[t] == trans[t] - {key}
    ensures InPlace(r, rest, caches)
  {
    forall t | t in r ensures t in rest && InTrans(r[t], t, rest[t], caches) {
      DropIn(mcCache[t], t, trans[t], caches, key);
    }
  }

  class Instance {
    var llCache: map<string, Data>
    var mcCache: map<int, map<string, Cache>>
    ghost var trans: map<int, Stacks>
    ghost var caches: set<Cache>

    ghost predicate Valid()
      reads this, caches
    {
      InPlace(mcCache, trans, caches)
    }

    ghost function CurrentState(): (s: State)
      reads this
    {
      State(llCache, trans)
    }

    constructor ()
      ensures Valid() && CurrentState() == State(map[], map[])
    {
      llCache, mcCache, trans, caches := map[], map[], map[], {};
    }

    method NewMc(transID: int, key: string) returns (mc: Cache)
      requires Valid()
      modifies `mcCache, `trans, `caches
      ensures Valid() && CurrentState() == Do(old(CurrentState()), Open(transID, key))
      ensures transID in mcCache && key in mcCache[transID] && mc == mcCache[transID][key]
      ensures fresh(caches - old(caches))
    {
      OpenTrans(transID);
      if key !in mcCache[transID] {
        AddCache(transID, key);
      }
      mc := mcCache[transID][key];
      OpenIs(old(CurrentState()), transID, key, trans);
    }

    method OpenTrans(transID: int)
      requires Valid()
      modifies `mcCache, `trans
      ensures Valid() && transID in mcCache && trans == old(trans)[transID := StacksOf(old(CurrentState()), transID)]
    {
      if transID !in mcCache {
        mcCache := mcCache[transID := map[]];
        trans := trans[transID := map[]];
      }
    }

    method AddCache(transID: int, key: string)
      requires Valid() && transID in mcCache && key !in mcCache[transID]
      modifies `mcCache, `trans, `caches
      ensures Valid() && transID in mcCache && key in mcCache[transID]
      ensures trans == old(trans)[transID := old(trans)[transID][key := Fresh(llCache, key)]]
      ensures fresh(caches - old(caches))
    {
      var mc := new Cache(transID, key, if key in llCache then [Entry(0, llCache[key])] else []);
      MoreCaches(mcCache, trans, caches, mc);
      caches := caches + {mc};
      Place(mc);
    }

    method Place(mc: Cache)
      requires Valid() && mc.transID in mcCache && mc.key !in mcCache[mc.transID] && mc in caches &&
               mc.tx == Fresh(llCache, mc.key)
      modifies `mcCache, `trans
      ensures Valid() && mc.transID in mcCache && mc.key in mcCache[mc.transID]
      ensures trans == old(trans)[mc.transID := old(trans)[mc.transID][mc.key := Fresh(llCache, mc.key)]]
    {
      var mcs := mcCache[mc.transID];
      ghost var m := trans[mc.transID];
      TransPut(mcCache, trans, caches, mc.transID, mcs[mc.key := mc], m[mc.key := Fresh(llCache, mc.key)]);
      mcCache := mcCache[mc.transID := mcs[mc.key := mc]];
      trans := trans[mc.transID := m[mc.key := Fresh(llCache, mc.key)]];
    }

    /** NewMc, then Set on the cache it returns. */
    method SetIn(transID: int, key: string, txID: int, data: Data)
      requires Valid()
      modifies this, caches
      ensures Valid() && CurrentState() == Do(old(CurrentState()), Write(transID, key, txID, data))
    {
      var mc := NewMc(transID, key);
      SetAt(transID, key, mc, txID, data);
    }

    method SetAt(transID: int, key: string, mc: Cache, txID: int, data: Data)
      requires Valid() && transID in mcCache && key in mcCache[transID] && mc == mcCache[transID][key]
      modifies `trans, mc
      ensures Valid() && mcCache == old(mcCache) && caches == old(caches) && llCache == old(llCache)
      ensures trans == old(trans)[transID := old(trans)[transID][key := Push(old(trans)[transID][key], txID, data)]]
    {
      mc.Set(txID, data);
      ghost var m := trans[transID];
      TransPut(mcCache, trans, caches, transID, mcCache[transID], m[key := mc.tx]);
      assert mcCache[transID := mcCache[transID]] == mcCache;
      trans := trans[transID := m[key := mc.tx]];
    }

    method DirtyTransTx(transID: int, txID: int)
      requires Valid()
      modifies `trans, caches
      ensures Valid() && CurrentState() == Do(old(CurrentState()), UndoTx(transID, txID))
    {
      if transID in mcCache {
        DirtyAll(mcCache[transID], txID);
        TransPut(mcCache, trans, caches, transID, mcCache[transID], Undone(trans[transID], txID));
        assert mcCache[transID := mcCache[transID]] == mcCache;
        trans := trans[transID := Undone(trans[transID], txID)];
      }
    }

    method DirtyTrans(transID: int)
      requires Valid()
      modifies this
      ensures Valid() && CurrentState() == Do(old(CurrentState()), DropTrans(transID))
    {
      mcCache := mcCache - {transID};
      trans := trans - {transID};
    }

    method CommitTrans(transID: int)
      requires Valid()
      modifies this
      ensures Valid() && CurrentState() == Do(old(CurrentState()), Commit(transID))
    {
      if transID in mcCache {
        var ll := WriteBack(llCache, mcCache[transID]);
        assert ll == llCache + Tops(trans[transID]);
        llCache := ll;
        mcCache := mcCache - {transID};
        trans := trans - {transID};
      }
    }

    method Dirty(key: string)
      requires Valid()
      modifies this
      ensures Valid() && CurrentState() == Do(old(CurrentState()), DropKey(key))
    {
      mcCache := DropEverywhere(mcCache, key);
      llCache := llCache - {key};
      ghost var was := trans;
      trans := map t | t in trans :: trans[t] - {key};
      DropInPlace(old(mcCache), was, caches, key, mcCache, trans);
    }
  }
}
