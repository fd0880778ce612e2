/** Whole transactions on the cache of mc/memcache.go: txs that are kept or undone, and the commit that ends them. */
module MemCacheRuns {
  import opened Results
  import opened MemCache

  /** What a tx does to the cache; Look opens a key and only reads it. */
  datatype Act = Look(key: string) | Put(key: string, d: Data)

  datatype Tx = Tx(id: int, acts: seq<Act>, kept: bool)

  // ---------- what should be committed

  function Applied(view: map<string, Data>, acts: seq<Act>): (r: map<string, Data>)
    decreases |acts|
  {
    if acts == [] then view
    else Applied(if acts[0].Put? then view[acts[0].key := acts[0].d] else view, acts[1..])
  }

  /** The kept txs alone, in order. */
  function Replay(view: map<string, Data>, txs: seq<Tx>): (r: map<string, Data>)
    decreases |txs|
  {
    if txs == [] then view else Replay(if txs[0].kept then Applied(view, txs[0].acts) else view, txs[1..])
  }

  // ---------- what is done

  function OpOf(t: int, id: int, a: Act): (op: Op)
  {
    match a case Look(key) => Open(t, key) case Put(key, d) => Write(t, key, id, d)
  }

  function ActOps(t: int, id: int, acts: seq<Act>): (ops: seq<Op>)
    ensures |ops| == |acts|
  {
    seq(|acts|, i requires 0 <= i < |acts| => OpOf(t, id, acts[i]))
  }

  function TxOps(t: int, tx: Tx): (ops: seq<Op>)
  {
    ActOps(t, tx.id, tx.acts) + if tx.kept then [] else [UndoTx(t, tx.id)]
  }

  function AllOps(t: int, txs: seq<Tx>): (ops: seq<Op>)
  {
    if txs == [] then [] else TxOps(t, txs[0]) + AllOps(t, txs[1..])
  }

  /** One tx after the other, each with an id of its own that is not the 0 of committed values. */
  predicate OwnIds(txs: seq<Tx>, used: set<int>)
  {
    txs == [] || (txs[0].id != 0 && txs[0].id !in used && OwnIds(txs[1..], used + {txs[0].id}))
  }

  // ---------- other transactions in between

  /** Operations on the stacks of one transaction. */
  predicate Local(op: Op)
  {
    !op.Commit? && !op.DropKey?
  }

  predicate Of(op: Op, t: int)
  {
    Local(op) && op.t == t
  }

  function Only(ops: seq<Op>, t: int): (r: seq<Op>)
    requires forall i :: 0 <= i < |ops| ==> Local(ops[i])
  {
    if ops == [] then [] else (if Of(ops[0], t) then [ops[0]] else []) + Only(ops[1..], t)
  }

  function Without(ops: seq<Op>, t: int): (r: seq<Op>)
    requires forall i :: 0 <= i < |ops| ==> Local(ops[i])
  {
    if ops == [] then [] else (if Of(ops[0], t) then [] else [ops[0]]) + Without(ops[1..], t)
  }

  /** The stacks of the transaction of op, after op. */
  function DoIn(m: Stacks, ll: map<string, Data>, op: Op): (r: Stacks)
    requires Local(op)
  {
    match op
    case Open(_, key) => Opened(m, ll, key)
    case Write(_, key, id, d) => Written(m, ll, key, id, d)
    case UndoTx(_, id) => Undone(m, id)
    case DropTrans(_) => map[]
  }

  function RunIn(m: Stacks, ll: map<string, Data>, ops: seq<Op>): (r: Stacks)
    requires forall i :: 0 <= i < |ops| ==> Local(ops[i])
    decreases |ops|
  {
    if ops == [] then m else RunIn(DoIn(m, ll, ops[0]), ll, ops[1..])
  }

  lemma DoLocal(s: State, op: Op, t: int)
    requires Local(op)
    ensures Do(s, op).ll == s.ll
    ensures StacksOf(Do(s, op), t) == if op.t == t then DoIn(StacksOf(s, t), s.ll, op) else StacksOf(s, t)
    ensures op.t == t ==> Do(s, op).trans - {t} == s.trans - {t}
  {
    if op.UndoTx? && op.t == t && t !in s.trans {
      assert Undone(map[], op.id) == map[];
    }
  }

  /** A transaction sees its own operations only. */
  lemma {:induction false} RunOnly(s: State, ops: seq<Op>, t: int)
    requires forall i :: 0 <= i < |ops| ==> Local(ops[i])
    ensures Run(s, ops).ll == s.ll
    ensures (forall i :: 0 <= i < |Only(ops, t)| ==> Local(Only(ops, t)[i]))
    ensures StacksOf(Run(s, ops), t) == RunIn(StacksOf(s, t), s.ll, Only(ops, t))
    decreases |ops|
  {
    if ops != [] {
      DoLocal(s, ops[0], t);
      RunOnly(Do(s, ops[0]), ops[1..], t);
      var only := Only(ops, t);
      if Of(ops[0], t) {
        assert only[0] == ops[0] && only[1..] == Only(ops[1..], t);
      } else {
        assert only == Only(ops[1..], t);
      }
    }
  }

  /** States that differ in one transaction only. */
  predicate SameBut(s: State, r: State, t: int)
  {
    s.ll == r.ll && s.trans - {t} == r.trans - {t}
  }

  lemma OtherKept(s: State, r: State, t: int, u: int)
    requires SameBut(s, r, t) && u != t
    ensures (u in s.trans <==> u in r.trans) && StacksOf(s, u) == StacksOf(r, u)
  {
    assert u in s.trans <==> u in s.trans - {t};
    assert u in r.trans <==> u in r.trans - {t};
    if u in s.trans { assert s.trans[u] == (s.trans - {t})[u] == (r.trans - {t})[u]; }
  }

  lemma DoOther(s: State, r: State, t: int, op: Op)
    requires SameBut(s, r, t) && Local(op) && op.t != t
    ensures SameBut(Do(s, op), Do(r, op), t)
  {
    OtherKept(s, r, t, op.t);
    var x, y := Do(s, op).trans - {t}, Do(r, op).trans - {t};
    forall u ensures (u in x <==> u in y) && (u in x ==> x[u] == y[u]) {
      if u != t { OtherKept(s, r, t, u); }
    }
  }

  /** Others run as if the transaction were not there. */
  lemma {:induction false} RunWithout(s: State, r: State, ops: seq<Op>, t: int)
    requires forall i :: 0 <= i < |ops| ==> Local(ops[i])
    requires SameBut(s, r, t)
    ensures SameBut(Run(s, ops), Run(r, Without(ops, t)), t)
    decreases |ops|
  {
    if ops != [] {
      var w := Without(ops, t);
      if Of(ops[0], t) {
        DoLocal(s, ops[0], t);
        assert w == Without(ops[1..], t);
        RunWithout(Do(s, ops[0]), r, ops[1..], t);
      } else {
        DoOther(s, r, t, ops[0]);
        assert w[0] == ops[0] && w[1..] == Without(ops[1..], t);
        RunWithout(Do(s, ops[0]), Do(r, ops[0]), ops[1..], t);
      }
    }
  }

  // ---------- the stacks of a transaction

  predicate Ids(s: Stack, used: set<int>)
  {
    forall i :: 0 <= i < |s| ==> s[i].id == 0 || s[i].id in used
  }

  /** Between txs, the tops of the stacks are what the kept ones have set. */
  ghost predicate Settled(m: Stacks, ll: map<string, Data>, view: map<string, Data>, used: set<int>)
  {
    && (forall key :: key in m ==> Top(m[key]) == Read(view, key) && Ids(m[key], used))
    && (forall key :: key !in m ==> Read(view, key) == Read(ll, key))
  }

  /** During tx id, and also without it. */
  ghost predicate Running(m: Stacks, ll: map<string, Data>, before: map<string, Data>, now: map<string, Data>, id: int,
                          used: set<int>)
  {
    && (forall key :: key in m ==> InTx(m[key], Read(before, key), Read(now, key), id, used))
    && (forall key :: key !in m ==> Read(now, key) == Read(before, key) == Read(ll, key))
  }

  predicate InTx(s: Stack, before: Data, now: Data, id: int, used: set<int>)
  {
    Top(s) == now && Top(Undo(s, id)) == before && Ids(Undo(s, id), used)
  }

  lemma Begins(m: Stacks, ll: map<string, Data>, view: map<string, Data>, id: int, used: set<int>)
    requires Settled(m, ll, view, used) && id != 0 && id !in used
    ensures Running(m, ll, view, view, id, used)
  {
    forall key | key in m ensures InTx(m[key], Read(view, key), Read(view, key), id, used) {
      assert Ids(m[key], used);
    }
  }

  lemma Opens(m: Stacks, ll: map<string, Data>, before: map<string, Data>, now: map<string, Data>, id: int, used: set<int>,
              key: string)
    requires Running(m, ll, before, now, id, used) && id != 0
    ensures Running(Opened(m, ll, key), ll, before, now, id, used)
  {
  }

  lemma Puts(m: Stacks, ll: map<string, Data>, before: map<string, Data>, now: map<string, Data>, id: int, used: set<int>,
             key: string, d: Data)
    requires Running(m, ll, before, now, id, used) && id != 0
    ensures Running(Written(m, ll, key, id, d), ll, before, now[key := d], id, used)
  {
    Opens(m, ll, before, now, id, used, key);
    UndoPush(Opened(m, ll, key)[key], id, d);
  }

  lemma {:induction false} Acts(m: Stacks, ll: map<string, Data>, before: map<string, Data>, now: map<string, Data>, id: int,
                                used: set<int>, t: int, acts: seq<Act>)
    requires Running(m, ll, before, now, id, used) && id != 0
    ensures Running(RunIn(m, ll, ActOps(t, id, acts)), ll, before, Applied(now, acts), id, used)
    decreases |acts|
  {
    if acts != [] {
      var a, ops := acts[0], ActOps(t, id, acts);
      assert ops[1..] == ActOps(t, id, acts[1..]);
      if a.Put? {
        Puts(m, ll, before, now, id, used, a.key, a.d);
        Acts(Written(m, ll, a.key, id, a.d), ll, before, now[a.key := a.d], id, used, t, acts[1..]);
      } else {
        Opens(m, ll, before, now, id, used, a.key);
        Acts(Opened(m, ll, a.key), ll, before, now, id, used, t, acts[1..]);
      }
    }
  }

  lemma Keeps(m: Stacks, ll: map<string, Data>, before: map<string, Data>, now: map<string, Data>, id: int, used: set<int>)
    requires Running(m, ll, before, now, id, used)
    ensures Settled(m, ll, now, used + {id}) && Settled(Undone(m, id), ll, before, used + {id})
  {
    forall key | key in m ensures Ids(m[key], used + {id}) && Ids(Undo(m[key], id), used + {id}) {
      assert InTx(m[key], Read(before, key), Read(now, key), id, used);
    }
  }

  lemma {:induction false} RunAppend(m: Stacks, ll: map<string, Data>, a: seq<Op>, b: seq<Op>)
    requires forall i :: 0 <= i < |a| ==> Local(a[i])
    requires forall i :: 0 <= i < |b| ==> Local(b[i])
    ensures RunIn(m, ll, a + b) == RunIn(RunIn(m, ll, a), ll, b)
    decreases |a|
  {
    if a == [] {
      assert a + b == b;
    } else {
      assert (a + b)[0] == a[0] && (a + b)[1..] == a[1..] + b;
      RunAppend(DoIn(m, ll, a[0]), ll, a[1..], b);
    }
  }

  lemma {:induction false} AllLocal(t: int, txs: seq<Tx>)
    ensures forall i :: 0 <= i < |AllOps(t, txs)| ==> Local(AllOps(t, txs)[i])
  {
    if txs != [] { AllLocal(t, txs[1..]); }
  }

  lemma OneTx(m: Stacks, ll: map<string, Data>, view: map<string, Data>, used: set<int>, t: int, tx: Tx)
    requires Settled(m, ll, view, used) && tx.id != 0 && tx.id !in used
    ensures Settled(RunIn(m, ll, TxOps(t, tx)), ll, if tx.kept then Applied(view, tx.acts) else view, used + {tx.id})
  {
    var ops := ActOps(t, tx.id, tx.acts);
    Begins(m, ll, view, tx.id, used);
    Acts(m, ll, view, view, tx.id, used, t, tx.acts);
    Keeps(RunIn(m, ll, ops), ll, view, Applied(view, tx.acts), tx.id, used);
    if tx.kept {
      assert TxOps(t, tx) == ops;
    } else {
      RunAppend(m, ll, ops, [UndoTx(t, tx.id)]);
    }
  }

  /** After any number of txs, the tops are those of the kept ones alone. */
  lemma {:induction false} Txs(m: Stacks, ll: map<string, Data>, view: map<string, Data>, used: set<int>, t: int, txs: seq<Tx>)
    returns (ids: set<int>)
    requires Settled(m, ll, view, used) && OwnIds(txs, used)
    ensures forall i :: 0 <= i < |AllOps(t, txs)| ==> Local(AllOps(t, txs)[i])
    ensures Settled(RunIn(m, ll, AllOps(t, txs)), ll, Replay(view, txs), ids)
    decreases |txs|
  {
    ids := used;
    AllLocal(t, txs);
    if txs != [] {
      AllLocal(t, txs[1..]);
      OneTx(m, ll, view, used, t, txs[0]);
      var m1 := RunIn(m, ll, TxOps(t, txs[0]));
      RunAppend(m, ll, TxOps(t, txs[0]), AllOps(t, txs[1..]));
      ids := Txs(m1, ll, if txs[0].kept then Applied(view, txs[0].acts) else view, used + {txs[0].id}, t, txs[1..]);
    }
  }

  // ---------- whole runs

  /** Any run in which the operations of t are those of txs, one after the other. */
  ghost predicate Interleaved(ops: seq<Op>, t: int, txs: seq<Tx>)
  {
    (forall i :: 0 <= i < |ops| ==> Local(ops[i])) && Only(ops, t) == AllOps(t, txs)
  }

  /** Before the commit, a key of t reads as the kept txs and the running one have set it. */
  lemma ReadDuringRun(s: State, t: int, txs: seq<Tx>, id: int, acts: seq<Act>, ops: seq<Op>, key: string)
    requires t !in s.trans && OwnIds(txs + [Tx(id, acts, true)], {}) && Interleaved(ops, t, txs + [Tx(id, acts, true)])
    ensures var m := Opened(StacksOf(Run(s, ops), t), s.ll, key); Top(m[key]) == Read(Applied(Replay(s.ll, txs), acts), key)
  {
    RunOnly(s, ops, t);
    var ids := Txs(map[], s.ll, s.ll, {}, t, txs + [Tx(id, acts, true)]);
    ReplayAppend(s.ll, txs, Tx(id, acts, true));
  }

  lemma {:induction false} ReplayAppend(view: map<string, Data>, txs: seq<Tx>, tx: Tx)
    ensures Replay(view, txs + [tx]) == if tx.kept then Applied(Replay(view, txs), tx.acts) else Replay(view, txs)
    decreases |txs|
  {
    if txs == [] {
      assert txs + [tx] == [tx];
    } else {
      assert (txs + [tx])[0] == txs[0] && (txs + [tx])[1..] == txs[1..] + [tx];
      ReplayAppend(if txs[0].kept then Applied(view, txs[0].acts) else view, txs[1..], tx);
    }
  }

  /**
   * The commit leaves the cache as if only the kept txs had run; keys that t has not opened and other transactions
   * stay as they are.
   */
  lemma CommitIsReplay(s: State, t: int, txs: seq<Tx>, ops: seq<Op>)
    requires t !in s.trans && OwnIds(txs, {}) && Interleaved(ops, t, txs)
    ensures var r := Do(Run(s, ops), Commit(t));
            && (forall key :: Read(r.ll, key) == Read(Replay(s.ll, txs), key))
            && (forall key :: key !in StacksOf(Run(s, ops), t) ==>
              (key in r.ll <==> key in s.ll) &&
              (key in s.ll ==> r.ll[key] == s.ll[key]))
            && SameBut(r, State(r.ll, Run(s, Without(ops, t)).trans), t)
            && t !in r.trans
  {
    var e := Run(s, ops);
    RunOnly(s, ops, t);
    RunWithout(s, s, ops, t);
    var ids := Txs(map[], s.ll, s.ll, {}, t, txs);
    assert Settled(StacksOf(e, t), s.ll, Replay(s.ll, txs), ids);
    CommitReads(e, t, Replay(s.ll, txs), ids);
  }

  lemma CommitReads(e: State, t: int, view: map<string, Data>, ids: set<int>)
    requires Settled(StacksOf(e, t), e.ll, view, ids)
    ensures forall key :: Read(Do(e, Commit(t)).ll, key) == Read(view, key)
    ensures Do(e, Commit(t)).trans == e.trans - {t}
  {
    assert t !in e.trans ==> e.trans - {t} == e.trans;
  }

  // ---------- what one operation changes for every reader

  /** What NewMc followed by Get returns. */
  function Seen(s: State, t: int, key: string): (d: Data)
  {
    Top(Opened(StacksOf(s, t), s.ll, key)[key])
  }

  /** A write is seen under its own key and in its own transaction, and opening a key is not seen at all. */
  lemma WriteSeen(s: State, t: int, key: string, id: int, d: Data, u: int, k: string)
    ensures Seen(Do(s, Write(t, key, id, d)), u, k) == if u == t && k == key then d else Seen(s, u, k)
    ensures Seen(Do(s, Open(t, key)), u, k) == Seen(s, u, k)
    ensures Read(Do(s, Write(t, key, id, d)).ll, k) == Read(Do(s, Open(t, key)).ll, k) == Read(s.ll, k)
  {
    UndoPush(Opened(StacksOf(s, t), s.ll, key)[key], id, d);
  }

  /** A transaction that is dropped reads as committed again, and nothing else changes. */
  lemma DropTransSeen(s: State, t: int, u: int, k: string)
    ensures Seen(Do(s, DropTrans(t)), u, k) == if u == t then Read(s.ll, k) else Seen(s, u, k)
    ensures Read(Do(s, DropTrans(t)).ll, k) == Read(s.ll, k)
  {
    assert u != t ==> StacksOf(Do(s, DropTrans(t)), u) == StacksOf(s, u);
  }

  /** What the transaction saw is committed; others see it under the keys they have not opened. */
  lemma CommitSeen(s: State, t: int, u: int, k: string)
    ensures Read(Do(s, Commit(t)).ll, k) == Seen(s, t, k) == Seen(Do(s, Commit(t)), t, k)
    ensures u != t ==> Seen(Do(s, Commit(t)), u, k) == if k in StacksOf(s, u) then Seen(s, u, k) else Seen(s, t, k)
  {
    assert u != t ==> StacksOf(Do(s, Commit(t)), u) == StacksOf(s, u);
  }

  /** A key that is dropped reads as nil in the committed cache and in every transaction; other keys are as before. */
  lemma DropKeySeen(s: State, key: string, t: int, k: string)
    ensures Read(Do(s, DropKey(key)).ll, key) == Seen(Do(s, DropKey(key)), t, key) == None
    ensures k != key ==> Read(Do(s, DropKey(key)).ll, k) == Read(s.ll, k) && Seen(Do(s, DropKey(key)), t, k) == Seen(s, t, k)
  {
    assert t in s.trans ==> StacksOf(Do(s, DropKey(key)), t) == s.trans[t] - {key};
  }
}
