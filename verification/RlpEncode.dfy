/**
 * The two-phase encoder of rlp/encode.go: string data and list headers are collected apart, with
 * the size of a list filled in when it ends, and are put together by toBytes, toWriter or encReader.
 */
module RlpEncode {
  import opened Ints
  import opened Results
  import opened BigEndian
  import opened RlpSpec
  import opened RlpBytes

  // ---------- integers and headers

  /** putint: as many bytes as i needs, but at least one */
  function PutInt(i: nat): (b: bytes)
    ensures 1 <= |b| <= 8
  {
    if i < 0x100 then PutBE(i, 1)
    else if i < 0x1_0000 then PutBE(i, 2)
    else if i < 0x100_0000 then PutBE(i, 3)
    else if i < 0x1_0000_0000 then PutBE(i, 4)
    else if i < 0x100_0000_0000 then PutBE(i, 5)
    else if i < 0x1_0000_0000_0000 then PutBE(i, 6)
    else if i < 0x100_0000_0000_0000 then PutBE(i, 7)
    else PutBE(i, 8)
  }

  /** Numbers of exactly n bytes. */
  lemma {:induction false} ShortestIs(i: nat, n: nat)
    requires n > 0 && i < Pow256(n) && (n == 1 || i >= Pow256(n - 1)) && i > 0
    ensures PutBE(i, n) == IntBytes(i)
  {
    if n > 1 {
      var p := Pow256(n - 2);
      assert i / 256 >= p && i / 256 < Pow256(n - 1) && p >= 1;
      ShortestIs(i / 256, n - 1);
    } else {
      assert i / 256 == 0;
    }
  }

  lemma SmallPow256()
    ensures Pow256(0) == 1 && Pow256(1) == 0x100 && Pow256(2) == 0x1_0000 && Pow256(3) == 0x100_0000 && Pow256(4) == 0x1_0000_0000
    ensures Pow256(5) == 0x100_0000_0000 && Pow256(6) == 0x1_0000_0000_0000 && Pow256(7) == 0x100_0000_0000_0000
    ensures Pow256(8) == 0x1_0000_0000_0000_0000
  {
  }

  /** putint writes the shortest form, except of 0. */
  lemma PutIntIs(i: nat)
    requires i < 0x1_0000_0000_0000_0000
    ensures PutInt(i) == if i == 0 then [0] else IntBytes(i)
  {
    SmallPow256();
    if i > 0 { ShortestIs(i, |PutInt(i)|); }
  }

  /** intsize */
  method IntSize(i: nat) returns (size: nat)
    requires i < 0x1_0000_0000_0000_0000
    ensures size == |PutInt(i)|
  {
    PutIntIs(i);
    size := 1;
    var j: nat := i / 256;
    while j != 0
      invariant i > 0 ==> |IntBytes(i)| == size + |IntBytes(j)|
      invariant i == 0 ==> j == 0 && size == 1
    {
      size := size + 1;
      j := j / 256;
    }
  }

  /** puthead */
  function PutHead(k: Kind, size: nat): (h: bytes)
  {
    if size < 56 then [TagByte(Short(k, size))] else [TagByte(Long(k, |PutInt(size)|))] + PutInt(size)
  }

  lemma PutHeadIs(k: Kind, size: nat)
    requires size <= MAX_LEN
    ensures PutHead(k, size) == Head(k, size)
  {
    PutIntIs(size);
  }

  lemma PutHeadInNumbers(list: bool, size: nat)
    requires size <= MAX_LEN
    ensures HeadInNumbers(PutHead(if list then ListKind else String, size), if list then 0xC0 else 0x80, size)
  {
    PutHeadIs(if list then ListKind else String, size);
    HeadIsInNumbers(list, size, PutHead(if list then ListKind else String, size));
  }

  /** headsize */
  method HeadSize(size: nat) returns (n: nat)
    requires size <= MAX_LEN
    ensures n == |Head(ListKind, size)|
  {
    PutHeadIs(ListKind, size);
    if size < 56 { return 1; }
    n := IntSize(size);
    n := n + 1;
  }

  // ---------- what the buffer holds for an item

  /** offset: where in the string data the header goes; size: of the list's payload, once it is known */
  datatype ListHead = ListHead(offset: nat, size: int)

  /** The string data of an item: all but the list headers. */
  function Data(t: Item): (s: bytes)
    decreases t, 0
  {
    match t
    case Str(b) => EncStr(b)
    case List(items) => DataAll(items)
  }

  function DataAll(items: seq<Item>): (s: bytes)
    decreases items, 0
  {
    if items == [] then [] else Data(items[0]) + DataAll(items[1..])
  }

  /** Its list headers, outer before inner, for data that starts at p. */
  function Heads(t: Item, p: nat): (h: seq<ListHead>)
    decreases t, 0
  {
    match t
    case Str(_) => []
    case List(items) => [ListHead(p, |EncAll(items)|)] + HeadsAll(items, p)
  }

  function HeadsAll(items: seq<Item>, p: nat): (h: seq<ListHead>)
    decreases items, 0
  {
    if items == [] then [] else Heads(items[0], p) + HeadsAll(items[1..], p + |Data(items[0])|)
  }

  /** The bytes its list headers take. */
  function HeadBytes(t: Item): (n: nat)
    decreases t, 0
  {
    match t
    case Str(_) => 0
    case List(items) => |Head(ListKind, |EncAll(items)|)| + HeadBytesAll(items)
  }

  function HeadBytesAll(items: seq<Item>): (n: nat)
    decreases items, 0
  {
    if items == [] then 0 else HeadBytes(items[0]) + HeadBytesAll(items[1..])
  }

  /** Data and headers together are as long as the encoding. */
  lemma {:induction false} EncLength(t: Item)
    ensures |Enc(t)| == |Data(t)| + HeadBytes(t)
    decreases t, 0
  {
    if t.List? { EncAllLength(t.items); }
  }

  lemma {:induction false} EncAllLength(items: seq<Item>)
    ensures |EncAll(items)| == |DataAll(items)| + HeadBytesAll(items)
    decreases items, 0
  {
    if items != [] {
      EncLength(items[0]);
      EncAllLength(items[1..]);
    }
  }

  // ---------- putting data and headers together

  /** The string data from p on, with each header at its offset; the offsets have to be in order. */
  function Emit(str: bytes, heads: seq<ListHead>, p: nat): (e: Option<bytes>)
    decreases |heads|
  {
    if heads == [] then (if p <= |str| then Some(str[p..]) else None)
    else if !(p <= heads[0].offset <= |str| && 0 <= heads[0].size <= MAX_LEN) then None
    else
      var e := Emit(str, heads[1..], heads[0].offset);
      if e.None? then None else Some(str[p..heads[0].offset] + Head(ListKind, heads[0].size) + e.value)
  }

  lemma Assoc<T>(a: seq<T>, b: seq<T>, c: seq<T>)
    ensures (a + b) + c == a + (b + c)
  {
  }

  /** Data before the next header comes first. */
  lemma EmitSkip(str: bytes, heads: seq<ListHead>, p: nat, q: nat, x: bytes)
    requires p <= q <= |str| && Emit(str, heads, q) == Some(x)
    ensures Emit(str, heads, p) == Some(str[p..q] + x)
  {
    if heads == [] {
      assert str[p..] == str[p..q] + str[q..];
    } else {
      var o := heads[0].offset;
      var h, e := Head(ListKind, heads[0].size), Emit(str, heads[1..], o).value;
      assert str[p..o] == str[p..q] + str[q..o];
      Assoc(str[p..q], str[q..o], h);
      Assoc(str[p..q], str[q..o] + h, e);
    }
  }

  lemma EmitHead(str: bytes, h: ListHead, inner: seq<ListHead>, p: nat, x: bytes)
    requires h.offset == p <= |str| && 0 <= h.size <= MAX_LEN && Emit(str, inner, p) == Some(x)
    ensures Emit(str, [h] + inner, p) == Some(Head(ListKind, h.size) + x)
  {
    assert ([h] + inner)[1..] == inner;
    assert str[p..p] + Head(ListKind, h.size) == Head(ListKind, h.size);
  }

  /** The data d is at place p. */
  predicate At(str: bytes, p: nat, d: bytes)
  {
    p + |d| <= |str| && str[p..p + |d|] == d
  }

  lemma AtParts(str: bytes, p: nat, a: bytes, b: bytes)
    requires At(str, p, a + b)
    ensures At(str, p, a) && At(str, p + |a|, b)
  {
    assert str[p..p + |a|] == str[p..p + |a + b|][..|a|];
    assert str[p + |a|..p + |a| + |b|] == str[p..p + |a + b|][|a|..];
  }

  /** The data and the headers of an item, in place, emit its encoding. */
  lemma {:induction false} EmitItem(t: Item, str: bytes, p: nat, more: seq<ListHead>, x: bytes, heads: seq<ListHead>, e: bytes)
    requires |Enc(t)| <= MAX_LEN && At(str, p, Data(t)) && Emit(str, more, p + |Data(t)|) == Some(x)
    requires heads == Heads(t, p) + more && e == Enc(t) + x
    ensures Emit(str, heads, p) == Some(e)
    decreases t, 0
  {
    match t
    case Str(b) =>
      assert [] + more == more;
      EmitSkip(str, more, p, p + |Data(t)|, x);
    case List(items) =>
      var n := |EncAll(items)|;
      var inner, y := HeadsAll(items, p) + more, EncAll(items) + x;
      EmitAll(items, str, p, more, x, inner, y);
      Assoc([ListHead(p, n)], HeadsAll(items, p), more);
      EmitHead(str, ListHead(p, n), inner, p, y);
      Assoc(Head(ListKind, n), EncAll(items), x);
  }

  lemma {:induction false} EmitAll(items: seq<Item>, str: bytes, p: nat, more: seq<ListHead>, x: bytes, heads: seq<ListHead>,
                                   e: bytes)
    requires |EncAll(items)| <= MAX_LEN && At(str, p, DataAll(items)) && Emit(str, more, p + |DataAll(items)|) == Some(x)
    requires heads == HeadsAll(items, p) + more && e == EncAll(items) + x
    ensures Emit(str, heads, p) == Some(e)
    decreases items, 0
  {
    if items == [] {
      assert [] + more == more && [] + x == x;
    } else {
      var q, hs, y := FirstParts(items, str, p, more, x, items[0], items[1..]);
      EmitAll(items[1..], str, q, more, x, hs, y);
      EmitItem(items[0], str, p, hs, y, heads, e);
    }
  }

  lemma FirstParts(items: seq<Item>, str: bytes, p: nat, more: seq<ListHead>, x: bytes, t: Item, rest: seq<Item>)
    returns (q: nat, hs: seq<ListHead>, y: bytes)
    requires items != [] && t == items[0] && rest == items[1..] && At(str, p, DataAll(items))
    ensures At(str, p, Data(t)) && q == p + |Data(t)| && At(str, q, DataAll(rest)) && p + |DataAll(items)| == q + |DataAll(rest)|
    ensures hs == HeadsAll(rest, q) + more && HeadsAll(items, p) + more == Heads(t, p) + hs
    ensures y == EncAll(rest) + x && EncAll(items) + x == Enc(t) + y && |EncAll(items)| == |Enc(t)| + |EncAll(rest)|
  {
    q := p + |Data(t)|;
    hs, y := HeadsAll(rest, q) + more, EncAll(rest) + x;
    DataParts(items, str, p, t, rest);
    HeadParts(items, p, more, t, rest);
    CodeParts(items, x, t, rest);
  }

  lemma DataParts(items: seq<Item>, str: bytes, p: nat, t: Item, rest: seq<Item>)
    requires items != [] && t == items[0] && rest == items[1..] && At(str, p, DataAll(items))
    ensures At(str, p, Data(t)) && At(str, p + |Data(t)|, DataAll(rest))
    ensures p + |DataAll(items)| == p + |Data(t)| + |DataAll(rest)|
  {
    AtParts(str, p, Data(t), DataAll(rest));
  }

  lemma HeadParts(items: seq<Item>, p: nat, more: seq<ListHead>, t: Item, rest: seq<Item>)
    requires items != [] && t == items[0] && rest == items[1..]
    ensures HeadsAll(items, p) + more == Heads(t, p) + (HeadsAll(rest, p + |Data(t)|) + more)
  {
    Assoc(Heads(t, p), HeadsAll(rest, p + |Data(t)|), more);
  }

  lemma CodeParts(items: seq<Item>, x: bytes, t: Item, rest: seq<Item>)
    requires items != [] && t == items[0] && rest == items[1..]
    ensures EncAll(items) + x == Enc(t) + (EncAll(rest) + x) && |EncAll(items)| == |Enc(t)| + |EncAll(rest)|
  {
    Assoc(Enc(t), EncAll(rest), x);
  }

  // ---------- the buffer

  class EncBuf {
    var str: bytes              // string data, everything except list headers
    var lheads: seq<ListHead>   // all list headers
    var lhsize: nat             // sum of the sizes of all encoded list headers

    /** A buffer after reset */
    constructor ()
      ensures str == [] && lheads == [] && lhsize == 0
    {
      str, lheads, lhsize := [], [], 0;
    }

    /** size: of the encoded data */
    function Size(): (n: nat)
      reads this
    {
      |str| + lhsize
    }

    method EncodeString(b: bytes)
      requires |b| <= MAX_LEN
      modifies `str
      ensures str == old(str) + EncStr(b)
    {
      if |b| == 1 && b[0] <= 0x7F {
        str := str + [b[0]];
        assert b == [b[0]];
      } else {
        PutHeadIs(String, |b|);
        str := str + PutHead(String, |b|);
        str := str + b;
        Assoc(old(str), Head(String, |b|), b);
      }
    }

    /** list: opens a list; the number of its header stands for the pointer the source returns */
    method ListStart() returns (lh: nat)
      modifies `lheads
      ensures lh == |old(lheads)| && lheads == old(lheads) + [ListHead(|str|, lhsize)]
    {
      lh := |lheads|;
      lheads := lheads + [ListHead(|str|, lhsize)];
    }

    /** listEnd: the size of the list is what was added since its start */
    method ListEnd(lh: nat)
      requires lh < |lheads| && 0 <= Size() - lheads[lh].offset - lheads[lh].size <= MAX_LEN
      modifies `lheads, `lhsize
      ensures var h := old(lheads)[lh]; var n := old(Size()) - h.offset - h.size;
              lheads == old(lheads)[lh := ListHead(h.offset, n)] && lhsize == old(lhsize) + |Head(ListKind, n)|
    {
      var h := lheads[lh];
      var n := Size() - h.offset - h.size;
      lheads := lheads[lh := ListHead(h.offset, n)];
      var k := HeadSize(n);
      lhsize := lhsize + k;
    }

    /** The writers of strings and of slices: data, headers and header sizes of the item are added. */
    method EncodeItem(t: Item)
      requires |Enc(t)| <= MAX_LEN
      modifies this
      ensures str == old(str) + Data(t)
      ensures lheads == old(lheads) + Heads(t, |old(str)|)
      ensures lhsize == old(lhsize) + HeadBytes(t)
      decreases t, 1
    {
      match t
      case Str(b) =>
        EncodeString(b);
        assert old(lheads) + [] == old(lheads);
      case List(items) =>
        var lh := ListStart();
        EncodeItems(items);
        EncAllLength(items);
        ListEnd(lh);
        var p := |old(str)|;
        assert lheads == old(lheads) + ([ListHead(p, |EncAll(items)|)] + HeadsAll(items, p));
    }

    method EncodeItems(items: seq<Item>)
      requires |EncAll(items)| <= MAX_LEN
      modifies this
      ensures str == old(str) + DataAll(items)
      ensures lheads == old(lheads) + HeadsAll(items, |old(str)|)
      ensures lhsize == old(lhsize) + HeadBytesAll(items)
      decreases items, 0
    {
      var i := 0;
      assert items[0..] == items;
      while i < |items|
        invariant 0 <= i <= |items| && |EncAll(items[i..])| <= MAX_LEN
        invariant str + DataAll(items[i..]) == old(str) + DataAll(items)
        invariant lheads + HeadsAll(items[i..], |str|) == old(lheads) + HeadsAll(items, |old(str)|)
        invariant lhsize + HeadBytesAll(items[i..]) == old(lhsize) + HeadBytesAll(items)
      {
        ghost var rest, s, h := items[i..], str, lheads;
        assert rest[0] == items[i] && rest[1..] == items[i + 1..];
        EncodeItem(items[i]);
        Assoc(s, Data(rest[0]), DataAll(rest[1..]));
        Assoc(h, Heads(rest[0], |s|), HeadsAll(rest[1..], |str|));
        i := i + 1;
      }
      assert items[i..] == [];
      assert str + [] == str && lheads + [] == lheads;
    }

    /** toBytes: data and headers in order, in a slice of exactly the size computed before */
    method ToBytes() returns (out: array<byte>)
      requires Emit(str, lheads, 0).Some? && |Emit(str, lheads, 0).value| == Size()
      ensures fresh(out) && out[..] == Emit(str, lheads, 0).value
    {
      ghost var all := Emit(str, lheads, 0).value;
      out := new byte[Size()];
      var strpos: nat, pos: nat, i: nat := 0, 0, 0;
      ghost var todo := all;
      assert lheads[0..] == lheads && out[..0] + todo == all;
      while i < |lheads|
        invariant 0 <= i <= |lheads| && pos <= out.Length && strpos <= |str| && Emit(str, lheads[i..], strpos) == Some(todo)
        invariant out[..pos] + todo == all
      {
        var head := lheads[i];
        ghost var e := NextHead(str, lheads[i..], strpos, todo);
        assert lheads[i..][1..] == lheads[i + 1..];
        pos := Put(out, pos, str[strpos..head.offset], Head(ListKind, head.size) + e, all);
        PutHeadIs(ListKind, head.size);
        pos := Put(out, pos, PutHead(ListKind, head.size), e, all);
        strpos, todo, i := head.offset, e, i + 1;
      }
      assert todo == str[strpos..] + [];
      pos := Put(out, pos, str[strpos..], [], all);
      assert out[..pos] + [] == out[..];
    }

    /** toWriter: the same as a run of writes, none of them empty */
    method ToWriter() returns (writes: seq<bytes>)
      requires Emit(str, lheads, 0).Some?
      ensures Concat(writes) == Emit(str, lheads, 0).value
      ensures forall i :: 0 <= i < |writes| ==> writes[i] != []
    {
      ghost var all := Emit(str, lheads, 0).value;
      var strpos: nat, i: nat := 0, 0;
      writes := [];
      ghost var todo := all;
      assert lheads[0..] == lheads && [] + todo == all;
      while i < |lheads|
        invariant 0 <= i <= |lheads| && strpos <= |str| && Emit(str, lheads[i..], strpos) == Some(todo)
        invariant Concat(writes) + todo == all
        invariant forall j :: 0 <= j < |writes| ==> writes[j] != []
      {
        var head := lheads[i];
        ghost var e := NextHead(str, lheads[i..], strpos, todo);
        assert lheads[i..][1..] == lheads[i + 1..];
        PutHeadIs(ListKind, head.size);
        ghost var h := Head(ListKind, head.size);
        if head.offset - strpos > 0 {
          writes := WriteNext(writes, str[strpos..head.offset], h + e, all);
        } else {
          assert todo == h + e;
        }
        writes := WriteNext(writes, PutHead(ListKind, head.size), e, all);
        strpos, todo, i := head.offset, e, i + 1;
      }
      assert todo == str[strpos..] + [];
      if strpos < |str| {
        writes := WriteNext(writes, str[strpos..], [], all);
      }
      assert Concat(writes) + [] == Concat(writes);
    }
  }

  /** What comes up to and including the next header, and what comes after it. */
  lemma NextHead(str: bytes, heads: seq<ListHead>, p: nat, x: bytes) returns (e: bytes)
    requires heads != [] && Emit(str, heads, p) == Some(x)
    ensures p <= heads[0].offset <= |str| && 0 <= heads[0].size <= MAX_LEN && Emit(str, heads[1..], heads[0].offset) == Some(e)
    ensures x == str[p..heads[0].offset] + (Head(ListKind, heads[0].size) + e)
  {
    e := Emit(str, heads[1..], heads[0].offset).value;
    Assoc(str[p..heads[0].offset], Head(ListKind, heads[0].size), e);
  }

  /** copy(out[pos:], src), when what is still to be written is src and then more. */
  method Put(out: array<byte>, pos: nat, src: bytes, ghost more: bytes, ghost all: bytes) returns (next: nat)
    requires pos <= out.Length == |all| && out[..pos] + (src + more) == all
    modifies out
    ensures next == pos + |src| <= out.Length && out[..next] + more == all
  {
    ghost var done := out[..pos];
    forall j | 0 <= j < |src| { out[pos + j] := src[j]; }
    next := pos + |src|;
    assert out[..next] == done + src;
    Assoc(done, src, more);
  }

  /** The bytes of a run of writes. */
  function Concat(w: seq<bytes>): (b: bytes)
  {
    if w == [] then [] else Concat(w[..|w| - 1]) + w[|w| - 1]
  }

  method WriteNext(writes: seq<bytes>, b: bytes, ghost more: bytes, ghost all: bytes) returns (after: seq<bytes>)
    requires Concat(writes) + (b + more) == all
    ensures after == writes + [b] && Concat(after) + more == all
  {
    after := writes + [b];
    assert after[..|writes|] == writes;
    Assoc(Concat(writes), b, more);
  }

  // ---------- the reader

  /** encReader: hands out the encoding piece by piece */
  class EncReader {
    var buf: EncBuf?            // null once the end was seen
    var lhpos: nat              // the list header that comes next
    var strpos: nat             // where in the string data we are
    var piece: Option<bytes>    // what is left of the piece that is being read

    /** The bytes not read yet. */
    ghost function Pending(): (p: Option<bytes>)
      reads this, buf
    {
      if buf == null then Some([])
      else if lhpos > |buf.lheads| || piece == Some([]) then None
      else
        var e := Emit(buf.str, buf.lheads[lhpos..], strpos);
        if e.None? then None else Some((if piece.Some? then piece.value else []) + e.value)
    }

    constructor (b: EncBuf)
      ensures buf == b && piece.None? && Pending() == Emit(b.str, b.lheads, 0)
    {
      buf, lhpos, strpos, piece := b, 0, 0, None;
      new;
      assert b.lheads[0..] == b.lheads;
      var e := Emit(b.str, b.lheads, 0);
      if e.Some? { assert [] + e.value == e.value; }
    }

    /** next: the piece to be read next, none at the end */
    method Next() returns (p: Option<bytes>)
      requires Pending().Some?
      modifies `lhpos, `strpos
      ensures p.None? <==> old(Pending()).value == []
      ensures p.Some? ==> buf != null && p.value != [] && lhpos <= |buf.lheads|
      ensures p.Some? ==> var e := Emit(buf.str, buf.lheads[lhpos..], strpos);
              e.Some? &&
              p.value + e.value == old(Pending()).value
    {
      if buf == null { return None; }
      if piece.Some? { return piece; }
      ghost var x := Emit(buf.str, buf.lheads[lhpos..], strpos).value;
      assert [] + x == x;
      if lhpos < |buf.lheads| {
        p := BeforeHead(x);
      } else if strpos < |buf.str| {
        p := Some(buf.str[strpos..]);
        strpos := |buf.str|;
        assert p.value + [] == p.value;
      } else {
        p := None;
      }
    }

    /** The data before the next header or, if there is none, the header. */
    method BeforeHead(ghost x: bytes) returns (p: Option<bytes>)
      requires buf != null && lhpos < |buf.lheads| && Emit(buf.str, buf.lheads[lhpos..], strpos) == Some(x)
      modifies `lhpos, `strpos
      ensures p.Some? && p.value != [] && lhpos <= |buf.lheads|
      ensures var e := Emit(buf.str, buf.lheads[lhpos..], strpos); e.Some? && p.value + e.value == x
    {
      var head := buf.lheads[lhpos];
      ghost var e := NextHead(buf.str, buf.lheads[lhpos..], strpos, x);
      var sizebefore := head.offset - strpos;
      if sizebefore > 0 {
        p := Some(buf.str[strpos..head.offset]);
        strpos := head.offset;
        HeadFirst(buf.str, buf.lheads[lhpos..], e);
      } else {
        PutHeadIs(ListKind, head.size);
        p := Some(PutHead(ListKind, head.size));
        assert buf.lheads[lhpos..][1..] == buf.lheads[lhpos + 1..];
        lhpos := lhpos + 1;
        assert buf.str[strpos..strpos] + (p.value + e) == p.value + e;
      }
    }

    /** Read: as much as fits into b; the end is reported with the last bytes if they fit */
    method Read(b: array<byte>) returns (n: nat, eof: bool)
      requires Pending().Some?
      modifies this, b
      ensures Pending().Some? && (buf == old(buf) || buf == null)
      ensures n == if |old(Pending()).value| <= b.Length then |old(Pending()).value| else b.Length
      ensures b[..n] == old(Pending()).value[..n] && b[n..] == old(b[n..])
      ensures Pending().value == old(Pending()).value[n..]
      ensures eof <==> |old(Pending()).value| <= b.Length
    {
      ghost var all := Pending().value;
      n := 0;
      assert all[0..] == all;
      while true
        invariant n <= b.Length && n <= |all| && Pending() == Some(all[n..]) && b[..n] == all[..n] && b[n..] == old(b[n..])
        invariant buf == old(buf)
        decreases |all| - n
      {
        var p := Next();
        piece := p;
        if p.None? {
          buf := null;
          return n, true;
        }
        var full;
        n, full := ReadPiece(b, n, p.value, all);
        if !full { return n, false; }
      }
    }

    /** Copies what fits of the piece p and keeps the rest of it. */
    method ReadPiece(b: array<byte>, n: nat, p: bytes, ghost all: bytes) returns (m: nat, full: bool)
      requires buf != null && lhpos <= |buf.lheads| && p != [] && n <= b.Length && n <= |all| && b[..n] == all[..n]
      requires var e := Emit(buf.str, buf.lheads[lhpos..], strpos); e.Some? && p + e.value == all[n..]
      modifies `piece, b
      ensures m <= b.Length && m <= |all| && Pending() == Some(all[m..]) && b[..m] == all[..m] && b[m..] == old(b[m..])
      ensures full ==> m > n
      ensures !full ==> m == b.Length < |all|
    {
      ghost var e := Emit(buf.str, buf.lheads[lhpos..], strpos).value;
      var nn := if |p| <= b.Length - n then |p| else b.Length - n;
      assert all[n..][..nn] == all[n..n + nn] && (p + e)[..nn] == p[..nn];
      CopyPiece(b, n, p[..nn], all);
      m := n + nn;
      full := nn >= |p|;
      assert all[m..] == all[n..][nn..] == (p + e)[nn..];
      piece := if full then None else Some(p[nn..]);
      assert (p + e)[nn..] == p[nn..] + e;
    }
  }

  lemma HeadFirst(str: bytes, heads: seq<ListHead>, e: bytes)
    requires heads != [] && heads[0].offset <= |str| && 0 <= heads[0].size <= MAX_LEN &&
             Emit(str, heads[1..], heads[0].offset) == Some(e)
    ensures Emit(str, heads, heads[0].offset) == Some(Head(ListKind, heads[0].size) + e)
  {
    var p, h := heads[0].offset, Head(ListKind, heads[0].size);
    assert str[p..p] + h == h;
  }

  method CopyPiece(b: array<byte>, n: nat, src: bytes, ghost all: bytes)
    requires n + |src| <= b.Length && n + |src| <= |all| && b[..n] == all[..n] && src == all[n..n + |src|]
    modifies b
    ensures b[..n + |src|] == all[..n + |src|] && b[n + |src|..] == old(b[n + |src|..])
  {
    forall j | 0 <= j < |src| { b[n + j] := src[j]; }
  }

  // ---------- the three ways out

  /** A buffer that holds one item emits its encoding, of the size the buffer computed. */
  lemma EmitOne(t: Item)
    requires |Enc(t)| <= MAX_LEN
    ensures Emit(Data(t), Heads(t, 0), 0) == Some(Enc(t)) && |Enc(t)| == |Data(t)| + HeadBytes(t)
  {
    var str := Data(t);
    assert str[|str|..] == [] && str[0..0 + |str|] == str;
    assert Heads(t, 0) + [] == Heads(t, 0) && Enc(t) + [] == Enc(t);
    EmitItem(t, str, 0, [], [], Heads(t, 0), Enc(t));
    EncLength(t);
  }

  method EncodedBuf(t: Item) returns (eb: EncBuf)
    requires |Enc(t)| <= MAX_LEN
    ensures fresh(eb) && Emit(eb.str, eb.lheads, 0) == Some(Enc(t)) && eb.Size() == |Enc(t)|
  {
    eb := new EncBuf();
    eb.EncodeItem(t);
    assert [] + Data(t) == Data(t) && [] + Heads(t, 0) == Heads(t, 0);
    EmitOne(t);
  }

  /** EncodeToBytes */
  method EncodeToBytes(t: Item) returns (out: bytes)
    requires |Enc(t)| <= MAX_LEN
    ensures out == Enc(t)
    ensures InNumbers(out, t)
  {
    var eb := EncodedBuf(t);
    var a := eb.ToBytes();
    out := a[..];
    EncInNumbers(t);
  }

  /** Encode, as the writes it makes */
  method Encode(t: Item) returns (writes: seq<bytes>)
    requires |Enc(t)| <= MAX_LEN
    ensures Concat(writes) == Enc(t)
  {
    var eb := EncodedBuf(t);
    writes := eb.ToWriter();
  }

  /** EncodeToReader */
  method EncodeToReader(t: Item) returns (size: nat, r: EncReader)
    requires |Enc(t)| <= MAX_LEN
    ensures fresh(r) && fresh(r.buf) && size == |Enc(t)| && r.Pending() == Some(Enc(t))
  {
    var eb := EncodedBuf(t);
    size := eb.Size();
    r := new EncReader(eb);
  }

  function Sum(sizes: seq<nat>): (n: nat)
  {
    if sizes == [] then 0 else sizes[0] + Sum(sizes[1..])
  }

  method ReadMore(r: EncReader, size: nat, got: bytes, ghost all: bytes) returns (more: bytes)
    requires r.Pending().Some? && got + r.Pending().value == all
    modifies r
    ensures r.Pending().Some? && more + r.Pending().value == all && (r.buf == old(r.buf) || r.buf == null)
    ensures |more| == if |got| + size <= |all| then |got| + size else |all|
  {
    ghost var p := r.Pending().value;
    var b := new byte[size];
    var n, _ := r.Read(b);
    assert p == p[..n] + p[n..];
    Assoc(got, p[..n], p[n..]);
    more := got + b[..n];
  }

  /** Whatever buffers a reader is read with, the bytes read are the encoding from its start on. */
  method ReadWith(t: Item, sizes: seq<nat>) returns (got: bytes)
    requires |Enc(t)| <= MAX_LEN
    ensures got == if Sum(sizes) <= |Enc(t)| then Enc(t)[..Sum(sizes)] else Enc(t)
  {
    var size, r := EncodeToReader(t);
    ghost var all := Enc(t);
    var i := 0;
    got := [];
    assert sizes[0..] == sizes;
    while i < |sizes|
      invariant 0 <= i <= |sizes| && r.Pending().Some? && got + r.Pending().value == all && fresh(r) &&
                (r.buf == null || fresh(r.buf))
      invariant |got| == if Sum(sizes) - Sum(sizes[i..]) <= |all| then Sum(sizes) - Sum(sizes[i..]) else |all|
    {
      assert sizes[i..][1..] == sizes[i + 1..];
      got := ReadMore(r, sizes[i], got, all);
      i := i + 1;
    }
    assert sizes[i..] == [] && got == all[..|got|];
  }
}
