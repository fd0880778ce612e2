/** Decoding into a target: decodeInterface, decodeListSlice, decodeSliceElems and DecodeBytes of rlp/decode.go. */
module RlpDecode {
  import opened Ints
  import opened Results
  import opened BigEndian
  import opened RlpSpec
  import opened RlpBytes
  import opened RlpStream

  /** Integers have one to eight bytes, and slices of bytes are ByteSlice. */
  predicate Widths(target: Target)
  {
    match target
    case Uint(width) => 1 <= width <= 8
    case SliceOf(elem) => Widths(elem) && elem != Uint(1)
    case _ => true
  }

  // ---------- what a parsed header means for the targets

  lemma NoHeader(w: bytes, target: Target)
    requires HeaderAt(w) == None
    ensures Parse(w, target) == None
  {
  }

  lemma AnyString(w: bytes)
    requires HeaderAt(w).Some? && HeaderAt(w).value.kind != ListKind
    ensures Parse(w, AnyItem) == Parse(w, ByteSlice)
  {
  }

  lemma NotAList(w: bytes, target: Target)
    requires !ListAhead(w) && target.SliceOf?
    ensures Parse(w, target) == None
  {
  }

  lemma ListRefused(t: Todo, u: Todo, n: nat, target: Target)
    requires Opened(t, u, n) && TakesLists(target) && ParseAll(u.cur, ElemOf(target)) == None
    ensures Parse(t.cur, target) == None
  {
  }

  lemma ListParsed(t: Todo, u: Todo, n: nat, target: Target, items: seq<Item>)
    requires Opened(t, u, n) && TakesLists(target) && ParseAll(u.cur, ElemOf(target)) == Some(items)
    ensures Parse(t.cur, target) == Some(List(items)) && After(t, u.outside, List(items))
  {
    var h := HeaderAt(t.cur).value;
    ParseList(items, t.cur, target, h.tag);
    ParseAllSound(u.cur, ElemOf(target));
    ListLength(t.cur, items, h.tag, n);
    AfterIs(t, u.outside, List(items), h.tag + n);
  }

  lemma ListLength(w: bytes, items: seq<Item>, tag: nat, n: nat)
    requires HeaderAt(w) == Some(Header(ListKind, tag, n)) && EncAll(items) == w[tag..tag + n]
    ensures |Enc(List(items))| == tag + n
  {
    HeadOfHeader(w);
  }

  /** The items read so far and the items still to be parsed. */
  function Joined(items: seq<Item>, more: Option<seq<Item>>): Option<seq<Item>>
  {
    if more.None? then None else Some(items + more.value)
  }

  lemma NextItem(c: bytes, target: Target, items: seq<Item>, t: Item)
    requires c != [] && Parse(c, target) == Some(t) && |Enc(t)| <= |c|
    ensures Joined(items, ParseAll(c, target)) == Joined(items + [t], ParseAll(c[|Enc(t)|..], target))
  {
    var more := ParseAll(c[|Enc(t)|..], target);
    if more.Some? { assert items + ([t] + more.value) == (items + [t]) + more.value; }
  }

  lemma NoItemYet(more: Option<seq<Item>>)
    ensures Joined([], more) == more
  {
    if more.Some? { assert [] + more.value == more.value; }
  }

  lemma LastItem(items: seq<Item>, target: Target)
    ensures Joined(items, ParseAll([], target)) == Some(items)
  {
    assert items + [] == items;
  }

  // ---------- decoding

  method DecodeInto(s: Stream, target: Target) returns (r: Result<Item, Error>)
    requires s.Valid() && Widths(target)
    modifies s
    ensures s.Valid() && |s.rest| <= |old(s.rest)| && (r.Ok? ==> s.Measure() < old(s.Measure()))
    ensures old(s.synced) ==> Outcome(old(s.todo).cur, old(s.stack).InList?, target, r)
    ensures old(s.synced) && r.Ok? ==> s.synced && s.kind.None? && After(old(s.todo), s.todo, r.value)
    ensures old(s.synced) && r == Err(EOL) ==> s.synced && s.kind.None? && s.todo == old(s.todo)
    decreases s.Measure(), 2
  {
    match target
    case AnyItem =>
      r := DecodeInterface(s);
    case ByteSlice =>
      var b := s.Bytes();
      r := AsItem(b);
    case Uint(width) =>
      var v := s.ReadNumber(width);
      r := NumberItem(v);
    case SliceOf(_) =>
      r := DecodeListSlice(s, target);
  }

  method DecodeInterface(s: Stream) returns (r: Result<Item, Error>)
    requires s.Valid()
    modifies s
    ensures s.Valid() && |s.rest| <= |old(s.rest)| && (r.Ok? ==> s.Measure() < old(s.Measure()))
    ensures old(s.synced) ==> Outcome(old(s.todo).cur, old(s.stack).InList?, AnyItem, r)
    ensures old(s.synced) && r.Ok? ==> s.synced && s.kind.None? && After(old(s.todo), s.todo, r.value)
    ensures old(s.synced) && r == Err(EOL) ==> s.synced && s.kind.None? && s.todo == old(s.todo)
    decreases s.Measure(), 1
  {
    ghost var w := s.todo.cur;
    var k, _, err := s.KindAhead();
    if err.Some? {
      if old(s.synced) { NoHeader(w, AnyItem); }
      return Err(err.value);
    }
    if k == ListKind {
      r := DecodeListSlice(s, AnyItem);
    } else {
      if old(s.synced) { AnyString(w); }
      var b := s.Bytes();
      r := AsItem(b);
    }
  }

  method DecodeListSlice(s: Stream, target: Target) returns (r: Result<Item, Error>)
    requires s.Valid() && Widths(target) && TakesLists(target)
    requires target.AnyItem? ==> s.synced ==> ListAhead(s.todo.cur)
    modifies s
    ensures s.Valid() && |s.rest| <= |old(s.rest)| && (r.Ok? ==> s.Measure() < old(s.Measure()))
    ensures old(s.synced) ==> Outcome(old(s.todo).cur, old(s.stack).InList?, target, r)
    ensures old(s.synced) && r.Ok? ==> s.synced && s.kind.None? && After(old(s.todo), s.todo, r.value)
    ensures old(s.synced) && r == Err(EOL) ==> s.synced && s.kind.None? && s.todo == old(s.todo)
    decreases s.Measure(), 0
  {
    ghost var t := s.todo;
    var size := s.OpenList();
    if size.Err? {
      if old(s.synced) { NotAList(t.cur, target); }
      return Err(size.error);
    }
    ghost var u := s.todo;
    var items := Ok([]);
    if size.value != 0 {
      items := DecodeSliceElems(s, ElemOf(target));
      if items.Err? {
        if old(s.synced) { ListRefused(t, u, size.value as int, target); }
        return Err(items.error);
      }
    }
    if old(s.synced) { ListParsed(t, u, size.value as int, target, items.value); }
    var end := s.CloseList();
    if end.Some? { return Err(end.value); }
    return Ok(List(items.value));
  }

  method DecodeSliceElems(s: Stream, target: Target) returns (r: Result<seq<Item>, Error>)
    requires s.Valid() && Widths(target) && s.stack.InList? && s.kind.None?
    modifies s
    ensures s.Valid() && |s.rest| <= |old(s.rest)|
    ensures old(s.synced) && r.Ok? ==>
            ParseAll(old(s.todo).cur, target) == Some(r.value) && s.synced && s.kind.None? &&
            s.todo == old(s.todo).(cur := [])
    ensures old(s.synced) && r.Err? ==> ParseAll(old(s.todo).cur, target) == None && r.error != EOL
    decreases s.Measure(), 3
  {
    ghost var w := s.todo.cur;
    if s.synced { InListShape(s.C(), s.taken, s.todo); }
    NoItemYet(ParseAll(w, target));
    var items: seq<Item> := [];
    while true
      invariant s.Valid() && |s.rest| <= |old(s.rest)| && s.Measure() <= old(s.Measure())
      invariant old(s.synced) ==> s.synced && s.kind.None? && s.todo.Then? && s.todo == old(s.todo).(cur := s.todo.cur)
      invariant old(s.synced) ==> ParseAll(w, target) == Joined(items, ParseAll(s.todo.cur, target))
      decreases s.Measure()
    {
      ghost var c := s.todo.cur;
      if s.synced { InListShape(s.C(), s.taken, s.todo); }
      var x := DecodeInto(s, target);
      if x.Err? {
        if x.error == EOL {
          LastItem(items, target);
          return Ok(items);
        }
        return Err(x.error);
      }
      if old(s.synced) { NextItem(c, target, items, x.value); }
      items := items + [x.value];
    }
  }

  lemma WholeParse(b: bytes, target: Target, t: Item)
    requires |b| <= MAX_LEN
    ensures Enc(t) == b && Conforms(t, target) <==> Parse(b, target) == Some(t) && |Enc(t)| == |b|
  {
    if Enc(t) == b && Conforms(t, target) { ParseComplete(t, b, target); }
    if Parse(b, target) == Some(t) { ParseSound(b, target); }
  }

  /** Decoding one value from the whole of b, and what is left of b then. */
  method DecodeFirst(b: bytes, target: Target) returns (r: Result<Item, Error>, rest: bytes)
    requires |b| <= MAX_LEN && Widths(target)
    ensures r.Ok? ==> Parse(b, target) == Some(r.value) && |Enc(r.value)| <= |b| && rest == b[|Enc(r.value)|..]
    ensures r.Err? ==> Parse(b, target) == None
  {
    var s := new Stream(b, Some(|b| as uint64));
    r := DecodeInto(s, target);
    rest := s.rest;
    if r.Ok? { WholeInput(s.C(), s.todo); }
  }

  /** Some item that the target can hold has the encoding b. */
  ghost predicate IsEncoding(b: bytes, target: Target)
  {
    exists t :: Enc(t) == b && Conforms(t, target)
  }

  /** b is the encoding of an item the target can hold, and the result is that item; or the result is an error. */
  method DecodeBytes(b: bytes, target: Target) returns (r: Result<Item, Error>)
    requires |b| <= MAX_LEN && Widths(target)
    ensures r.Ok? ==> Enc(r.value) == b && Conforms(r.value, target) && InNumbers(b, r.value)
    ensures r.Err? ==> !IsEncoding(b, target)
  {
    var rest;
    r, rest := DecodeFirst(b, target);
    if r.Ok? && rest != [] { r := Err(MoreThanOneValue); }
    forall t ensures r == Ok(t) <==> Enc(t) == b && Conforms(t, target) { WholeParse(b, target, t); }
    if r.Ok? { EncInNumbers(r.value); }
  }

  /** At most one item has a given encoding. */
  lemma EncInjective(t: Item, u: Item)
    requires Enc(t) == Enc(u) && |Enc(t)| <= MAX_LEN
    ensures t == u
  {
    assert Enc(t) + [] == Enc(u) + [];
    PrefixFree(t, u, [], []);
  }
}
