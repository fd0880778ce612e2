/** The stateful decoder of rlp/decode.go: Stream and its operations. */
module RlpStream {
  import opened Ints
  import opened Results
  import opened BigEndian
  import opened RlpSpec

  datatype Error =
    | EOL | EOF | UnexpectedEOF | ExpectedString | ExpectedList | CanonInt | CanonSize | ElemTooLarge
    | ValueTooLarge | MoreThanOneValue | NotInList | NotAtEOL | UintOverflow

  // ---------- the stack of open lists

  /** The open lists, innermost first, and how far each has been read. */
  datatype Lists = NoList | InList(pos: uint64, size: uint64, under: Lists)

  function Left(s: Lists): (n: int)
    requires s.InList?
  {
    s.size as int - s.pos as int
  }

  /** Each list is read no further than its end, and what is left of it holds the list of n bytes inside it. */
  predicate Nested(s: Lists, n: nat)
  {
    s.InList? ==> n <= Left(s) && Nested(s.under, s.size as int)
  }

  /** The bytes the open lists still have to come after the list of n bytes inside them. */
  function Owed(s: Lists, n: nat): (k: nat)
    requires Nested(s, n)
  {
    if s.NoList? then 0 else Left(s) - n + Owed(s.under, s.size as int)
  }

  /** The innermost list after n more bytes. */
  function Advance(s: Lists, n: nat): (r: Lists)
    requires s.InList? ==> n <= Left(s)
  {
    if s.NoList? then s else s.(pos := (s.pos as int + n) as uint64)
  }

  lemma AdvanceNested(s: Lists, m: nat, n: nat)
    requires Nested(s, m + n)
    ensures Nested(s, m) && Nested(Advance(s, m), n) && Owed(Advance(s, m), n) == Owed(s, m + n)
    ensures s.InList? ==> Owed(s, m) == Owed(s, m + n) + n
  {
  }

  // ---------- reading

  /** The input not read yet, how much of it may still be read, and the open lists. */
  datatype Core = Core(rest: bytes, remaining: uint64, limited: bool, stack: Lists)

  /** Lists nest, and the bytes they still have to come are within the limit. */
  predicate Sound(c: Core)
  {
    Nested(c.stack, 0) && (c.limited ==> Owed(c.stack, 0) <= c.remaining as int)
  }

  /** The most that may be read now. */
  function Budget(c: Core): (n: int)
  {
    if c.stack.InList? then Left(c.stack) else if c.limited then c.remaining as int else 0xffff_ffff_ffff_ffff
  }

  /** Inside a list the limit is never what is short. */
  lemma BudgetInLimit(c: Core)
    requires Sound(c)
    ensures 0 <= Budget(c) && (c.limited ==> Budget(c) <= c.remaining as int)
  {
  }

  /** n bytes charged to the innermost list and to the limit. */
  function Charge(c: Core, n: nat): (d: Core)
    requires Sound(c) && n <= Budget(c)
  {
    BudgetInLimit(c);
    c.(stack := Advance(c.stack, n), remaining := if c.limited then (c.remaining as int - n) as uint64 else c.remaining)
  }

  lemma ChargeSound(c: Core, n: nat)
    requires Sound(c) && n <= Budget(c)
    ensures Sound(Charge(c, n)) && Budget(Charge(c, n)) == if c.stack.InList? || c.limited then Budget(c) - n else Budget(c)
  {
    AdvanceNested(c.stack, n, 0);
    AdvanceNested(c.stack, 0, n);
  }

  /** n bytes read. */
  function Consume(c: Core, n: nat): (d: Core)
    requires Sound(c) && n <= Budget(c) && n <= |c.rest|
  {
    Charge(c, n).(rest := c.rest[n..])
  }

  lemma ConsumeSound(c: Core, n: nat)
    requires Sound(c) && n <= Budget(c) && n <= |c.rest|
    ensures Sound(Consume(c, n)) && Budget(Consume(c, n)) == if c.stack.InList? || c.limited then Budget(c) - n else Budget(c)
  {
    ChargeSound(c, n);
  }

  lemma ConsumeTwice(c: Core, m: nat, n: nat)
    requires Sound(c) && m + n <= Budget(c) && m + n <= |c.rest|
    ensures Sound(Consume(c, m)) && n <= Budget(Consume(c, m)) && Consume(Consume(c, m), n) == Consume(c, m + n)
  {
    ConsumeSound(c, m);
    assert c.rest[m..][n..] == c.rest[m + n..];
  }

  lemma ConsumeNone(c: Core)
    requires Sound(c)
    ensures 0 <= Budget(c) && Consume(c, 0) == c
  {
    BudgetInLimit(c);
  }

  // ---------- what is still to come

  /** The input cut at the ends of the open lists: what is to come in the innermost one, and then outside it. */
  datatype Todo = Last(cur: bytes) | Then(cur: bytes, outside: Todo)

  function Cuts(rest: bytes, s: Lists, n: nat): (t: Todo)
    requires Nested(s, n) && Owed(s, n) <= |rest|
    decreases s
  {
    if s.NoList? then Last(rest)
    else Then(rest[..Left(s) - n], Cuts(rest[Left(s) - n..], s.under, s.size as int))
  }

  /** The bytes that may be read now. */
  function Window(c: Core): (w: bytes)
    requires Sound(c)
  {
    BudgetInLimit(c);
    if Budget(c) <= |c.rest| then c.rest[..Budget(c)] else c.rest
  }

  /** The limit is what is left of the input, and todo is the header taken and then that. */
  predicate InSync(c: Core, taken: bytes, todo: Todo)
  {
    && Sound(c) && c.limited && c.remaining as int == |c.rest|
    && todo == Prefixed(taken, Cuts(c.rest, c.stack, 0))
  }

  function Prefixed(b: bytes, t: Todo): Todo
  {
    t.(cur := b + t.cur)
  }

  lemma FirstCut(c: Core)
    requires Sound(c) && c.limited && c.remaining as int == |c.rest|
    ensures Cuts(c.rest, c.stack, 0).cur == Window(c) && |Window(c)| == Budget(c) <= |c.rest|
  {
    BudgetInLimit(c);
    if c.stack.NoList? { assert c.rest[..|c.rest|] == c.rest; }
  }

  /** Outside lists, what is to come is the rest of the input. */
  lemma WholeInput(c: Core, todo: Todo)
    requires InSync(c, [], todo) && todo.Last?
    ensures todo.cur == c.rest
  {
    assert [] + c.rest == c.rest;
  }

  lemma InListShape(c: Core, taken: bytes, todo: Todo)
    requires InSync(c, taken, todo)
    ensures todo.Then? <==> c.stack.InList?
  {
  }

  /** Reading changes nothing outside the innermost list. */
  lemma CutsConsume(c: Core, n: nat)
    requires Sound(c) && c.limited && c.remaining as int == |c.rest| && n <= Budget(c)
    ensures n <= |c.rest| && Sound(Consume(c, n)) && Consume(c, n).remaining as int == |Consume(c, n).rest|
    ensures n <= |Window(c)| && Cuts(Consume(c, n).rest, Consume(c, n).stack, 0)
            == Cuts(c.rest, c.stack, 0).(cur := Window(c)[n..])
  {
    FirstCut(c);
    ConsumeSound(c, n);
    if c.stack.InList? {
      assert c.rest[n..][Left(c.stack) - n..] == c.rest[Left(c.stack)..];
      assert c.rest[n..][..Left(c.stack) - n] == Window(c)[n..];
    } else {
      assert c.rest == Window(c);
    }
  }

  /** Content is read. */
  lemma SyncConsume(c: Core, taken: bytes, todo: Todo, n: nat)
    requires InSync(c, taken, todo) && n <= Budget(c)
    ensures n <= |c.rest| && |taken| + n <= |todo.cur| && InSync(Consume(c, n), [], todo.(cur := todo.cur[|taken| + n..]))
  {
    FirstCut(c);
    CutsConsume(c, n);
    assert todo.cur[|taken| + n..] == [] + Window(c)[n..];
  }

  /** A header is read. */
  lemma SyncHeader(c: Core, todo: Todo, n: nat)
    requires InSync(c, [], todo) && n <= Budget(c)
    ensures n <= |c.rest| && n <= |todo.cur| && InSync(Consume(c, n), c.rest[..n], todo)
  {
    FirstCut(c);
    CutsConsume(c, n);
    assert todo.cur == c.rest[..n] + Window(c)[n..];
  }

  /** The header is dropped with the value it stands for. */
  lemma SyncDrop(c: Core, taken: bytes, todo: Todo)
    requires InSync(c, taken, todo)
    ensures |taken| <= |todo.cur| && InSync(c, [], todo.(cur := todo.cur[|taken|..]))
  {
    FirstCut(c);
    assert todo.cur[|taken|..] == [] + Window(c);
  }

  lemma PushSound(c: Core, size: uint64)
    requires Sound(c) && size as int <= Budget(c)
    ensures Sound(c.(stack := InList(0, size, c.stack)))
  {
    BudgetInLimit(c);
    AdvanceNested(c.stack, 0, size as int);
  }

  /** A list is opened. */
  lemma SyncPush(c: Core, taken: bytes, todo: Todo, size: uint64)
    requires InSync(c, taken, todo) && size as int <= Budget(c)
    ensures |taken| + size as int <= |todo.cur|
    ensures InSync(c.(stack := InList(0, size, c.stack)), [],
                   Then(todo.cur[|taken|..|taken| + size as int], todo.(cur := todo.cur[|taken| + size as int..])))
  {
    var n := size as int;
    FirstCut(c);
    PushSound(c, size);
    var w := Window(c);
    assert todo.cur[|taken|..|taken| + n] == [] + c.rest[..n];
    assert todo.cur[|taken| + n..] == w[n..];
    if c.stack.InList? {
      assert c.rest[n..][Left(c.stack) - n..] == c.rest[Left(c.stack)..];
      assert c.rest[n..][..Left(c.stack) - n] == w[n..];
    } else {
      assert c.rest == w;
    }
  }

  /** The stack when the innermost list is closed. */
  function Popped(s: Lists): (r: Lists)
    requires s.InList? && Nested(s, 0)
  {
    assert Nested(s.under, s.size as int);
    Advance(s.under, s.size as int)
  }

  lemma PopSound(c: Core)
    requires Sound(c) && c.stack.InList? && Left(c.stack) == 0
    ensures Sound(c.(stack := Popped(c.stack)))
  {
    AdvanceNested(c.stack.under, c.stack.size as int, 0);
  }

  /** A list is closed at its end. */
  lemma SyncPop(c: Core, todo: Todo)
    requires InSync(c, [], todo) && c.stack.InList? && Left(c.stack) == 0
    ensures todo.Then? && InSync(c.(stack := Popped(c.stack)), [], todo.outside)
  {
    PopSound(c);
    var d := c.(stack := Popped(c.stack));
    assert c.rest[0..] == c.rest;
    assert Cuts(c.rest, c.stack.under, c.stack.size as int) == Cuts(d.rest, d.stack, 0);
    assert [] + Cuts(d.rest, d.stack, 0).cur == Cuts(d.rest, d.stack, 0).cur;
  }

  // ---------- headers

  lemma EightBytes(b: bytes)
    requires |b| <= 8
    ensures BE(b) < 0x1_0000_0000_0000_0000
  {
    BEBound(b);
    Pow256Eight();
    PowMonotone(|b|, 8);
  }

  lemma {:induction false} PowMonotone(i: nat, j: nat)
    requires i <= j
    ensures Pow256(i) <= Pow256(j)
    decreases j
  {
    if i < j { PowMonotone(i, j - 1); }
  }

  lemma SliceOfPrefix(b: bytes, k: nat, i: nat, j: nat)
    requires i <= j <= k <= |b|
    ensures b[..k][i..j] == b[i..j] == b[i..][..j - i]
  {
  }

  /** A header whose size takes count more bytes, as readUint reads them. */
  lemma LongTag(c: Core, count: nat)
    requires Sound(c) && 1 <= Budget(c) && c.rest != [] && TagOf(c.rest[0]).Long? && TagOf(c.rest[0]).count == count
    ensures var d := Consume(c, 1); var h := TagAt(Window(c));
            && Sound(d)
            && (h.Some? <==> count <= Budget(d) && count <= |d.rest| && d.rest[0] != 0 && BE(d.rest[..count]) >= 56)
            && (h.Some? ==>
              h.value == Header(TagOf(c.rest[0]).kind, 1 + count, BE(d.rest[..count])) &&
              Consume(d, count) == Consume(c, 1 + count))
  {
    ConsumeSound(c, 1);
    var w := Window(c);
    assert w == c.rest[..|w|];
    if 1 + count <= |w| {
      ConsumeTwice(c, 1, count);
      SliceOfPrefix(c.rest, |w|, 1, 1 + count);
    }
  }

  lemma ShortTag(c: Core)
    requires Sound(c) && 1 <= Budget(c) && c.rest != [] && !TagOf(c.rest[0]).Long?
    ensures TagAt(Window(c)) == Some(if c.rest[0] < 0x80 then Header(Byte, 1, 0) else Header(TagOf(c.rest[0]).kind, 1,
            TagOf(c.rest[0]).size))
  {
  }

  lemma NoTag(c: Core)
    requires Sound(c) && (Budget(c) < 1 || c.rest == [])
    ensures TagAt(Window(c)).None?
  {
  }

  lemma OneLeadingZero(b: bytes)
    requires |b| == 1 && b[0] == 0
    ensures BE(b) == 0
  {
  }

  /** Reading the header ahead takes nothing from what is to come. */
  lemma AheadSync(c: Core, todo: Todo, h: Header)
    requires InSync(c, [], todo) && TagAt(Window(c)) == Some(h)
    ensures h.tag <= Budget(c) && h.tag <= |c.rest| && todo.cur != [] && todo.cur[0] == c.rest[0]
    ensures HeaderAt(todo.cur) == if h.size <= Budget(Consume(c, h.tag)) then Some(h) else None
    ensures InSync(Consume(c, h.tag), c.rest[..h.tag], todo)
  {
    FirstCut(c);
    assert todo.cur == Window(c);
    SyncHeader(c, todo, h.tag);
    ConsumeSound(c, h.tag);
  }

  lemma NoAhead(c: Core, todo: Todo)
    requires InSync(c, [], todo) && TagAt(Window(c)) == None
    ensures HeaderAt(todo.cur) == None
  {
    FirstCut(c);
    assert todo.cur == Window(c);
  }

  /** The header ahead, if what it announces has room. */
  ghost function Announced(c: Core): (h: Option<Header>)
    requires Sound(c)
  {
    var h := TagAt(Window(c));
    if h.Some? && h.value.size <= Budget(Consume(c, h.value.tag)) then h else None
  }

  /** In sync, it is the header of what is to come. */
  lemma AnnouncedIs(c: Core, todo: Todo)
    requires InSync(c, [], todo)
    ensures HeaderAt(todo.cur) == Announced(c)
    ensures Announced(c).Some? ==>
            var tag := Announced(c).value.tag;
            tag <= |c.rest| && todo.cur != [] && todo.cur[0] == c.rest[0] && InSync(Consume(c, tag), c.rest[..tag], todo)
  {
    var h := TagAt(Window(c));
    if h.Some? { AheadSync(c, todo, h.value); } else { NoAhead(c, todo); }
  }

  // what a header says about the byte string at the start of w

  lemma ByteAt(w: bytes, size: nat, tag: nat)
    requires HeaderAt(w) == Some(Header(Byte, tag, size))
    ensures tag == 1 && Parse(w, ByteSlice) == Some(Str([w[0]])) && |Enc(Str([w[0]]))| == 1
  {
  }

  lemma StringAt(w: bytes, size: nat, tag: nat, c: bytes)
    requires HeaderAt(w) == Some(Header(String, tag, size)) && c == w[tag..tag + size]
    ensures |c| == 1 && c[0] < 0x80 ==> Parse(w, ByteSlice) == None
    ensures !(|c| == 1 && c[0] < 0x80) ==> Parse(w, ByteSlice) == Some(Str(c)) && |Enc(Str(c))| == tag + size
  {
    if |c| == 1 && c[0] < 0x80 {
    } else {
      HeadOfHeader(w);
      ParseString(c, w, ByteSlice, tag);
    }
  }

  lemma ListAt(w: bytes, size: nat, tag: nat)
    requires HeaderAt(w) == Some(Header(ListKind, tag, size))
    ensures Parse(w, ByteSlice) == None
  {
  }

  // the same for integers

  lemma UintByteAt(w: bytes, size: nat, tag: nat, width: nat)
    requires HeaderAt(w) == Some(Header(Byte, tag, size)) && width >= 1
    ensures Parse(w, Uint(width)) == if w[0] == 0 then None else Some(Str([w[0]]))
  {
  }

  /** The checks uint makes on the content of a string. */
  predicate GoodNumber(c: bytes, width: nat)
  {
    |c| <= width && (|c| >= 2 ==> c[0] != 0) && (c != [] ==> BE(c) >= 128)
  }

  lemma GoodNumberAt(w: bytes, size: nat, tag: nat, c: bytes, width: nat)
    requires HeaderAt(w) == Some(Header(String, tag, size)) && c == w[tag..tag + size] && GoodNumber(c, width)
    ensures Parse(w, Uint(width)) == Some(Str(c)) && IntBytes(BE(c)) == c
  {
    NumberBytes(c);
    ParseString(c, w, Uint(width), tag);
  }

  lemma StringLength(w: bytes, size: nat, tag: nat, c: bytes)
    requires HeaderAt(w) == Some(Header(String, tag, size)) && c == w[tag..tag + size] && !(|c| == 1 && c[0] < 0x80)
    ensures |Enc(Str(c))| == tag + |c| <= |w|
  {
    StringAt(w, size, tag, c);
  }

  lemma BadNumber(c: bytes, width: nat)
    requires !GoodNumber(c, width)
    ensures !Conforms(Str(c), Uint(width)) || (|c| == 1 && c[0] < 0x80)
  {
    NumberBytes(c);
  }

  lemma BadNumberAt(w: bytes, size: nat, tag: nat, c: bytes, width: nat)
    requires HeaderAt(w) == Some(Header(String, tag, size)) && c == w[tag..tag + size] && !GoodNumber(c, width)
    ensures Parse(w, Uint(width)) == None
  {
    BadNumber(c, width);
    RefusedString(c, w, Uint(width), tag);
  }

  lemma UintListAt(w: bytes, size: nat, tag: nat, width: nat)
    requires HeaderAt(w) == Some(Header(ListKind, tag, size))
    ensures Parse(w, Uint(width)) == None
  {
  }

  lemma OneByteNumber(b: byte)
    requires b != 0
    ensures IntBytes(b) == [b] && BE([b]) == b as int
  {
    IntBytesUnique([b]);
    assert [b][..0] == [];
  }

  /** Numbers of two bytes and more are above 255. */
  lemma LongNumber(c: bytes)
    requires |c| >= 2 && c[0] != 0
    ensures BE(c) >= 256 && IntBytes(BE(c)) == c
  {
    BEPositive(c[..|c| - 1]);
    IntBytesUnique(c);
  }

  /** r is what reading a value for the target from w has to give. */
  predicate Outcome(w: bytes, inList: bool, target: Target, r: Result<Item, Error>)
  {
    match r
    case Ok(t) => Parse(w, target) == Some(t)
    case Err(e) => Parse(w, target) == None && (e == EOL <==> inList && w == [])
  }

  /** What is to come after an item. */
  predicate After(t: Todo, u: Todo, item: Item)
  {
    |Enc(item)| <= |t.cur| && u == t.(cur := t.cur[|Enc(item)|..])
  }

  lemma AfterIs(t: Todo, u: Todo, item: Item, k: nat)
    requires |Enc(item)| == k <= |t.cur| && u == t.(cur := t.cur[k..])
    ensures After(t, u, item)
  {
  }

  function AsItem(r: Result<bytes, Error>): Result<Item, Error>
  {
    match r case Ok(b) => Ok(Str(b)) case Err(e) => Err(e)
  }

  /** The content of the value ahead is the next of the input. */
  lemma ContentAhead(c: Core, taken: bytes, todo: Todo, n: nat)
    requires InSync(c, taken, todo) && n <= Budget(c)
    ensures n <= |c.rest| && |taken| + n <= |todo.cur| && todo.cur[|taken|..|taken| + n] == c.rest[..n]
  {
    FirstCut(c);
  }

  function Skip(t: Todo, n: nat): Todo
    requires n <= |t.cur|
  {
    t.(cur := t.cur[n..])
  }

  lemma AfterSkip(t: Todo, item: Item, k: nat)
    requires |Enc(item)| == k <= |t.cur|
    ensures After(t, Skip(t, k), item)
  {
  }

  /** What reading the content of the string ahead gives. */
  lemma StringTaken(c: Core, taken: bytes, todo: Todo, n: nat)
    requires InSync(c, taken, todo) && n <= Budget(c) && HeaderAt(todo.cur) == Some(Header(String, |taken|, n))
    ensures n <= |c.rest| && |taken| + n <= |todo.cur|
    ensures n == 1 && c.rest[0] < 0x80 ==> Parse(todo.cur, ByteSlice) == None
    ensures !(n == 1 && c.rest[0] < 0x80) ==>
            Parse(todo.cur, ByteSlice) == Some(Str(c.rest[..n])) &&
            After(todo, Skip(todo, |taken| + n), Str(c.rest[..n]))
    ensures InSync(Consume(c, n), [], Skip(todo, |taken| + n))
  {
    ContentAhead(c, taken, todo, n);
    StringAt(todo.cur, n, |taken|, c.rest[..n]);
    SyncConsume(c, taken, todo, n);
  }

  lemma NumberTaken(c: Core, taken: bytes, todo: Todo, n: nat, width: nat)
    requires InSync(c, taken, todo) && n <= Budget(c) && HeaderAt(todo.cur) == Some(Header(String, |taken|, n))
    ensures n <= |c.rest| && |taken| + n <= |todo.cur|
    ensures NumberOutcome(todo, |taken| + n, c.rest[..n], width)
    ensures InSync(Consume(c, n), [], Skip(todo, |taken| + n))
  {
    ContentAhead(c, taken, todo, n);
    NumberRead(todo, |taken|, c.rest[..n], width);
    SyncConsume(c, taken, todo, n);
  }

  predicate NumberOutcome(todo: Todo, k: nat, c: bytes, width: nat)
    requires k <= |todo.cur|
  {
    var item := Str(IntBytes(BE(c)));
    if GoodNumber(c, width) then Parse(todo.cur, Uint(width)) == Some(item) && After(todo, Skip(todo, k), item)
    else Parse(todo.cur, Uint(width)) == None
  }

  lemma NumberRead(todo: Todo, tag: nat, c: bytes, width: nat)
    requires HeaderAt(todo.cur) == Some(Header(String, tag, |c|)) && c == todo.cur[tag..tag + |c|]
    ensures NumberOutcome(todo, tag + |c|, c, width)
  {
    if GoodNumber(c, width) {
      GoodNumberAt(todo.cur, |c|, tag, c, width);
      NumberBytes(c);
      StringLength(todo.cur, |c|, tag, c);
      AfterSkip(todo, Str(c), tag + |c|);
    } else {
      BadNumberAt(todo.cur, |c|, tag, c, width);
    }
  }

  /** b is the next value as it stands, header and content. */
  predicate RawRead(t: Todo, u: Todo, b: bytes)
  {
    && HeaderAt(t.cur).Some? && |b| == HeaderAt(t.cur).value.tag + HeaderAt(t.cur).value.size
    && b <= t.cur && u == Skip(t, |b|)
  }

  lemma RawByte(t: Todo, tag: nat, size: nat)
    requires HeaderAt(t.cur) == Some(Header(Byte, tag, size))
    ensures |Enc(Str([t.cur[0]]))| == 1 && forall u :: After(t, u, Str([t.cur[0]])) ==> RawRead(t, u, [t.cur[0]])
  {
    ByteAt(t.cur, size, tag);
    assert t.cur[..1] == [t.cur[0]];
  }

  lemma RawValue(t: Todo, k: Kind, tag: nat, n: nat)
    requires HeaderAt(t.cur) == Some(Header(k, tag, n)) && k != Byte
    ensures RawRead(t, Skip(t, tag + n), Head(k, n) + t.cur[tag..tag + n])
  {
    RawBytes(t.cur, k, tag, n);
  }

  lemma RawBytes(w: bytes, k: Kind, tag: nat, n: nat)
    requires HeaderAt(w) == Some(Header(k, tag, n)) && k != Byte
    ensures Head(k, n) + w[tag..tag + n] == w[..tag + n]
  {
    HeadOfHeader(w);
    assert w[..tag + n] == w[..tag] + w[tag..tag + n];
  }

  lemma RawTaken(c: Core, taken: bytes, todo: Todo, k: Kind, n: nat)
    requires InSync(c, taken, todo) && n <= Budget(c) && HeaderAt(todo.cur) == Some(Header(k, |taken|, n)) && k != Byte
    ensures n <= |c.rest| && |taken| + n <= |todo.cur|
    ensures RawRead(todo, Skip(todo, |taken| + n), Head(k, n) + c.rest[..n])
    ensures InSync(Consume(c, n), [], Skip(todo, |taken| + n))
  {
    ContentAhead(c, taken, todo, n);
    SyncConsume(c, taken, todo, n);
    RawValue(todo, k, |taken|, n);
  }

  /** The error for a read of n bytes: past the list or the limit, or past the end of the input. */
  function ReadError(c: Core, n: nat): (err: Option<Error>)
    requires Sound(c)
  {
    if n > Budget(c) then Some(if c.stack.InList? then ElemTooLarge else ValueTooLarge)
    else if n > |c.rest| then Some(UnexpectedEOF) else None
  }

  class Stream {
    var rest: bytes              // input not read yet
    var remaining: uint64        // how much of it may still be read
    var limited: bool
    var kind: Option<Kind>       // kind of the value ahead, if its header has been read
    var size: uint64             // size of the value ahead
    var byteval: byte            // value of a single byte in the tag
    var kinderr: Option<Error>   // error from the last readKind
    var stack: Lists
    ghost var taken: bytes       // the header of the value ahead
    ghost var synced: bool       // the limit is the length of the input, and nothing has failed
    ghost var todo: Todo         // then: what is to come, from the value ahead on

    ghost function C(): Core
      reads this
    {
      Core(rest, remaining, limited, stack)
    }

    /**
     * What every operation keeps: lists nest, the bytes owed to the outermost list are within the
     * limit, and the value ahead is within what may be read.
     */
    ghost predicate Valid()
      reads this
    {
      && Sound(C())
      && (kind.Some? && kinderr.None? ==> size as int <= Budget(C()))
      && (kind.None? ==> taken == [])
      && (synced ==> InSync(C(), taken, todo))
      && (synced && kind.Some? ==> kinderr.None? && HeaderAt(todo.cur) == Some(Header(kind.value, |taken|, size as int)))
      && (synced && kind == Some(Byte) ==> todo.cur[0] == byteval)
    }

    /** NewStream and Reset: a stream over the bytes of a reader, with a limit or without. */
    constructor (input: bytes, limit: Option<uint64>)
      ensures Valid() && C() == Core(input, if limit.Some? then limit.value else 0, limit.Some?, NoList) && kind.None?
      ensures synced <==> limit.Some? && limit.value as int == |input|
      ensures synced ==> todo == Last(input)
    {
      rest, stack, size, kind, kinderr, byteval, taken := input, NoList, 0, None, None, 0, [];
      limited := limit.Some?;
      remaining := if limit.Some? then limit.value else 0;
      synced, todo := limit.Some? && limit.value as int == |input|, Last(input);
      new;
      assert [] + input == input;
    }

    /** Nothing is known of the value ahead. */
    ghost predicate Idle()
      reads this
    {
      kind.None? && taken == [] && !synced
    }

    /** Checks a read of n bytes against the list and the limit; inside a list the limit cannot be what stops it. */
    method WillRead(n: uint64) returns (err: Option<Error>)
      requires Sound(C())
      modifies `kind, `stack, `remaining, `taken, `synced
      ensures Sound(C()) && Idle()
      ensures err == if n as int <= Budget(old(C())) then None
                     else if old(stack).InList? then Some(ElemTooLarge) else Some(ValueTooLarge)
      ensures C() == if err.None? then Charge(old(C()), n as int) else old(C())
    {
      ghost var c := C();
      BudgetInLimit(c);
      kind, taken, synced := None, [], false;
      if stack.InList? {
        if n > stack.size - stack.pos { return Some(ElemTooLarge); }
        stack := stack.(pos := stack.pos + n);
      }
      if limited {
        if n > remaining { return Some(ValueTooLarge); }
        remaining := remaining - n;
      }
      err := None;
      assert C() == Charge(c, n as int);
      ChargeSound(c, n as int);
    }

    /** readByte */
    method ReadByte() returns (b: byte, err: Option<Error>)
      requires Sound(C())
      modifies `kind, `stack, `remaining, `taken, `synced, `rest
      ensures Sound(C()) && Idle() && stack.InList? == old(stack).InList? && |rest| <= |old(rest)| && err != Some(EOL)
      ensures err.None? <==> 1 <= Budget(old(C())) && 1 <= |old(rest)|
      ensures err == ReadError(old(C()), 1)
      ensures err.None? ==> C() == Consume(old(C()), 1) && b == old(rest)[0]
    {
      err := WillRead(1);
      b := 0;
      if err.None? {
        if rest == [] {
          err := Some(UnexpectedEOF);
        } else {
          b, rest := rest[0], rest[1..];
        }
      }
    }

    /** readFull, into a buffer of n bytes */
    method ReadFull(n: uint64) returns (buf: bytes, err: Option<Error>)
      requires Sound(C())
      modifies `kind, `stack, `remaining, `taken, `synced, `rest
      ensures Sound(C()) && Idle() && stack.InList? == old(stack).InList? && |rest| <= |old(rest)| && err != Some(EOL)
      ensures err.None? <==> n as int <= Budget(old(C())) && n as int <= |old(rest)|
      ensures err == ReadError(old(C()), n as int)
      ensures err.None? ==> C() == Consume(old(C()), n as int) && buf == old(rest)[..n]
    {
      err := WillRead(n);
      buf := [];
      if err.None? {
        if n as int > |rest| {
          buf, rest := rest, [];
          err := Some(UnexpectedEOF);
        } else {
          buf, rest := rest[..n], rest[n..];
        }
      }
    }

    /** readUint: up to eight bytes, without a leading zero if there are two or more */
    method ReadUint(n: nat) returns (v: uint64, err: Option<Error>)
      requires Sound(C()) && n <= 8
      modifies `kind, `stack, `remaining, `taken, `synced, `rest
      ensures Sound(C()) && Idle() && stack.InList? == old(stack).InList? && |rest| <= |old(rest)| && err != Some(EOL)
      ensures err.None? <==> n <= Budget(old(C())) && n <= |old(rest)| && (n >= 2 ==> old(rest)[0] != 0)
      ensures err.Some? ==> err == if ReadError(old(C()), n).Some? then ReadError(old(C()), n) else Some(CanonSize)
      ensures err.None? ==> C() == Consume(old(C()), n) && v as int == BE(old(rest)[..n])
    {
      v := 0;
      if n == 0 {
        ConsumeNone(C());
        kind, taken, synced, err := None, [], false, None;
      } else if n == 1 {
        var b;
        b, err := ReadByte();
        v := b as uint64;
        assert err.None? ==> old(rest)[..1] == [b];
      } else {
        var buf;
        buf, err := ReadFull(n as uint64);
        if err.None? {
          if buf[0] == 0 {
            err := Some(CanonSize);
          } else {
            EightBytes(buf);
            v := BE(buf) as uint64;
          }
        }
      }
    }

    /** The size of a long header; sizes below 56 have shorter headers. */
    method ReadLong(count: nat) returns (n: uint64, err: Option<Error>)
      requires Sound(C()) && 1 <= count <= 8
      modifies `kind, `stack, `remaining, `taken, `synced, `rest
      ensures Sound(C()) && Idle() && stack.InList? == old(stack).InList? && |rest| <= |old(rest)| && err != Some(EOL)
      ensures err.None? <==>
              count <= Budget(old(C())) && count <= |old(rest)| && old(rest)[0] != 0 &&
              BE(old(rest)[..count]) >= 56
      ensures err.None? ==> C() == Consume(old(C()), count) && n as int == BE(old(rest)[..count])
    {
      n, err := ReadUint(count);
      if count == 1 && count <= |old(rest)| && old(rest)[0] == 0 { OneLeadingZero(old(rest)[..1]); }
      if err.None? && n < 56 { err := Some(CanonSize); }
    }

    /** readKind: the header ahead */
    method ReadKind() returns (k: Kind, n: uint64, err: Option<Error>)
      requires Sound(C())
      modifies `kind, `stack, `remaining, `taken, `synced, `rest, `byteval
      ensures Sound(C()) && Idle() && stack.InList? == old(stack).InList? && |rest| <= |old(rest)| && err != Some(EOL)
      ensures err.None? <==> TagAt(Window(old(C()))).Some?
      ensures err.None? ==> var h := TagAt(Window(old(C()))).value;
              h.kind == k && h.size == n as int &&
              C() == Consume(old(C()), h.tag)
      ensures err.None? && k == Byte ==> byteval == old(rest)[0]
    {
      ghost var c := C();
      var b;
      b, err := ReadByte();
      if err.Some? {
        NoTag(c);
        if stack.NoList? && (err == Some(UnexpectedEOF) || err == Some(ValueTooLarge)) { err := Some(EOF); }
        return Byte, 0, err;
      }
      byteval := 0;
      match TagOf(b)
      case Self =>
        ShortTag(c);
        byteval := b;
        return Byte, 0, None;
      case Short(kk, size) =>
        ShortTag(c);
        return kk, size as uint64, None;
      case Long(kk, count) =>
        LongTag(c, count);
        k := kk;
        n, err := ReadLong(count);
    }

    /** Kind: kind and size of the value ahead; its header is read once and kept */
    method KindAhead() returns (k: Kind, n: uint64, err: Option<Error>)
      requires Valid()
      modifies this
      ensures Valid() && stack.InList? == old(stack).InList? && |rest| <= |old(rest)|
      ensures err.None? ==> kind == Some(k) && size == n && kinderr.None? && (old(kind).Some? || |rest| < |old(rest)|)
      ensures err.Some? && err != Some(EOL) ==> kind.Some? && kinderr == err
      ensures old(kind).Some? ==> err == old(kinderr) && C() == old(C()) && kind == old(kind) && kinderr == old(kinderr)
      ensures old(synced) ==>
              (err.None? <==> HeaderAt(old(todo).cur).Some?) &&
              (err == Some(EOL) <==> old(stack).InList? && old(todo).cur == [])
      ensures old(synced) && (err.None? || err == Some(EOL)) ==> synced && todo == old(todo) && (err.Some? ==> kind.None?)
    {
      if kind.None? {
        kinderr := None;
        if synced { FirstCut(C()); }
        if stack.InList? && stack.pos == stack.size {
          return Byte, 0, Some(EOL);
        }
        ReadAhead();
      }
      return kind.value, size, kinderr;
    }

    /** The header of the value ahead, checked against the list or the limit. */
    method ReadAhead()
      requires Valid() && kind.None? && kinderr.None?
      modifies this
      ensures Valid() && stack.InList? == old(stack).InList? && |rest| <= |old(rest)| && kind.Some? && kinderr != Some(EOL)
      ensures kinderr.None? ==> |rest| < |old(rest)|
      ensures old(synced) ==> (kinderr.None? <==> HeaderAt(old(todo).cur).Some?)
      ensures old(synced) && kinderr.None? ==> synced && todo == old(todo)
    {
      ghost var c, was := C(), synced;
      if was { AnnouncedIs(c, todo); }
      kind, size, kinderr := ReadHeader();
      if kinderr.None? {
        taken, synced := c.rest[..Announced(c).value.tag], was;
      }
    }

    method ReadHeader() returns (k: Option<Kind>, n: uint64, err: Option<Error>)
      requires Sound(C())
      modifies `kind, `stack, `remaining, `taken, `synced, `rest, `byteval
      ensures Sound(C()) && Idle() && stack.InList? == old(stack).InList? && |rest| <= |old(rest)| && err != Some(EOL) && k.Some?
      ensures err.None? <==> Announced(old(C())).Some?
      ensures err.None? ==> var h := Announced(old(C())).value;
                            k == Some(h.kind) && n as int == h.size && h.tag <= |old(rest)| && C() == Consume(old(C()), h.tag)
      ensures err.None? && k == Some(Byte) ==> byteval == old(rest)[0]
    {
      var kk;
      kk, n, err := ReadKind();
      k := Some(kk);
      if err.None? { err := CheckSize(n); }
    }

    method CheckSize(n: uint64) returns (err: Option<Error>)
      requires Sound(C())
      ensures err.None? <==> n as int <= Budget(C())
      ensures err != Some(EOL)
    {
      if stack.NoList? {
        if limited && n > remaining { return Some(ValueTooLarge); }
      } else {
        if n > stack.size - stack.pos { return Some(ElemTooLarge); }
      }
      return None;
    }

    ghost function Measure(): (n: nat)
      reads this
    {
      2 * |rest| + if kind.Some? then 1 else 0
    }

    /** What is to come is known again. */
    ghost method Resync(t: Todo)
      requires Idle() && InSync(C(), [], t)
      modifies `synced, `todo
      ensures Valid() && synced && todo == t
    {
      synced, todo := true, t;
    }

    /** A value that is its own header. */
    method TakeByte() returns (b: byte)
      requires Valid() && kind == Some(Byte) && kinderr.None?
      modifies `kind, `taken, `todo
      ensures Valid() && kind.None? && b == byteval
      ensures synced ==> After(old(todo), todo, Str([b])) && Parse(old(todo).cur, ByteSlice) == Some(Str([b]))
    {
      if synced {
        ByteAt(todo.cur, size as int, |taken|);
        SyncDrop(C(), taken, todo);
        todo := todo.(cur := todo.cur[|taken|..]);
      }
      kind, taken := None, [];
      b := byteval;
    }

    /** The content of a string; one byte below 0x80 has no business in a string of its own. */
    method TakeString() returns (r: Result<bytes, Error>)
      requires Valid() && kind == Some(String) && kinderr.None?
      modifies `kind, `stack, `remaining, `taken, `synced, `rest, `todo
      ensures Valid() && kind.None? && |rest| <= |old(rest)|
      ensures old(synced) && r.Ok? ==>
              synced && After(old(todo), todo, Str(r.value)) &&
              Parse(old(todo).cur, ByteSlice) == Some(Str(r.value))
      ensures old(synced) && r.Err? ==> r.error != EOL && Parse(old(todo).cur, ByteSlice) == None
    {
      ghost var tag, was := |taken|, synced;
      var n := size;
      if was { StringTaken(C(), taken, todo, n as int); }
      r := CheckedString(n);
      if was && r.Ok? { Resync(Skip(todo, tag + n as int)); }
    }

    method CheckedString(n: uint64) returns (r: Result<bytes, Error>)
      requires Sound(C())
      modifies `kind, `stack, `remaining, `taken, `synced, `rest
      ensures Sound(C()) && Idle() && |rest| <= |old(rest)| && (r.Err? ==> r.error != EOL)
      ensures n as int <= Budget(old(C())) && n as int <= |old(rest)| ==> (r.Ok? <==> !(n == 1 && old(rest)[0] < 0x80))
      ensures r.Ok? ==>
              n as int <= Budget(old(C())) && n as int <= |old(rest)| && C() == Consume(old(C()), n as int) &&
              r.value == old(rest)[..n]
    {
      var b, err := ReadFull(n);
      if err.Some? { return Err(err.value); }
      if n == 1 && b[0] < 0x80 { return Err(CanonSize); }
      return Ok(b);
    }

    /** Bytes: the content of a string */
    method Bytes() returns (r: Result<bytes, Error>)
      requires Valid()
      modifies this
      ensures Valid() && |rest| <= |old(rest)| && (r.Ok? ==> Measure() < old(Measure()))
      ensures old(synced) ==> Outcome(old(todo).cur, old(stack).InList?, ByteSlice, AsItem(r))
      ensures old(synced) && r.Ok? ==> synced && kind.None? && After(old(todo), todo, Str(r.value))
      ensures old(synced) && r == Err(EOL) ==> synced && kind.None? && todo == old(todo)
    {
      var k, n, err := KindAhead();
      if err.Some? { return Err(err.value); }
      match k
      case Byte =>
        var b := TakeByte();
        return Ok([b]);
      case String =>
        r := TakeString();
      case ListKind =>
        if synced { ListAt(todo.cur, size as int, |taken|); }
        return Err(ExpectedString);
    }

    /** The content of a string of at most eight bytes, as a number. */
    method TakeUint(width: nat) returns (r: Result<uint64, Error>)
      requires Valid() && kind == Some(String) && kinderr.None? && 1 <= width <= 8
      modifies `kind, `stack, `remaining, `taken, `synced, `rest, `todo
      ensures Valid() && |rest| <= |old(rest)| && (r.Ok? ==> kind.None?)
      ensures old(synced) && r.Ok? ==>
              synced && Parse(old(todo).cur, Uint(width)) == Some(Str(IntBytes(r.value as int))) &&
              After(old(todo), todo, Str(IntBytes(r.value as int)))
      ensures old(synced) && r.Err? ==> r.error != EOL && Parse(old(todo).cur, Uint(width)) == None
    {
      ghost var tag, was := |taken|, synced;
      var n := size;
      if was { NumberTaken(C(), taken, todo, n as int, width); }
      if n as int > width { return Err(UintOverflow); }
      r := CheckedUint(n);
      if was && r.Ok? { Resync(Skip(todo, tag + n as int)); }
    }

    method CheckedUint(n: uint64) returns (r: Result<uint64, Error>)
      requires Sound(C()) && n <= 8
      modifies `kind, `stack, `remaining, `taken, `synced, `rest
      ensures Sound(C()) && Idle() && |rest| <= |old(rest)| && (r.Err? ==> r.error != EOL)
      ensures n as int <= Budget(old(C())) && n as int <= |old(rest)| ==> (r.Ok? <==> GoodNumber(old(rest)[..n], 8))
      ensures r.Ok? ==>
              n as int <= Budget(old(C())) && n as int <= |old(rest)| && C() == Consume(old(C()), n as int) &&
              r.value as int == BE(old(rest)[..n])
    {
      var v, err := ReadUint(n as int);
      if err.Some? { return Err(if err == Some(CanonSize) then CanonInt else err.value); }
      if n > 0 && v < 128 { return Err(CanonSize); }
      return Ok(v);
    }

    /** Uint, or uint(8 * width): a number in as few bytes as it needs */
    method ReadNumber(width: nat) returns (r: Result<uint64, Error>)
      requires Valid() && 1 <= width <= 8
      modifies this
      ensures Valid() && |rest| <= |old(rest)| && (r.Ok? ==> Measure() < old(Measure()))
      ensures old(synced) ==> Outcome(old(todo).cur, old(stack).InList?, Uint(width), NumberItem(r))
      ensures old(synced) && r.Ok? ==> synced && kind.None? && After(old(todo), todo, Str(IntBytes(r.value as int)))
      ensures old(synced) && r == Err(EOL) ==> synced && kind.None? && todo == old(todo)
    {
      var k, n, err := KindAhead();
      if err.Some? { return Err(err.value); }
      match k
      case Byte =>
        if synced { UintByteAt(todo.cur, size as int, |taken|, width); }
        if byteval == 0 { return Err(CanonInt); }
        OneByteNumber(byteval);
        var b := TakeByte();
        return Ok(b as uint64);
      case String =>
        r := TakeUint(width);
      case ListKind =>
        if synced { UintListAt(todo.cur, size as int, |taken|, width); }
        return Err(ExpectedString);
    }

    /** Raw: the next value with a header in front of it, which is the one it had */
    method Raw() returns (r: Result<bytes, Error>)
      requires Valid()
      modifies this
      ensures Valid() && |rest| <= |old(rest)|
      ensures old(synced) && r.Ok? ==> synced && kind.None? && RawRead(old(todo), todo, r.value)
      ensures old(synced) && r.Err? ==>
              HeaderAt(old(todo).cur) == None &&
              (r.error == EOL <==> old(stack).InList? && old(todo).cur == [])
    {
      var k, n, err := KindAhead();
      if err.Some? {
        r := Err(err.value);
      } else if k == Byte {
        if old(synced) { RawByte(todo, |taken|, size as int); }
        var b := TakeByte();
        r := Ok([b]);
      } else {
        r := TakeRaw(k, n);
      }
    }

    method TakeRaw(k: Kind, n: uint64) returns (r: Result<bytes, Error>)
      requires Valid() && kind == Some(k) && k != Byte && size == n && kinderr.None?
      modifies `kind, `stack, `remaining, `taken, `synced, `rest, `todo
      ensures Valid() && |rest| <= |old(rest)| && (r.Err? ==> r.error != EOL)
      ensures old(synced) ==> r.Ok? && synced && kind.None? && RawRead(old(todo), todo, r.value)
    {
      ghost var tag, was := |taken|, synced;
      if was { RawTaken(C(), taken, todo, k, n as int); }
      var b, err := ReadFull(n);
      if err.Some? { return Err(err.value); }
      if was { Resync(Skip(todo, tag + n as int)); }
      return Ok(Head(k, n as int) + b);
    }

    /** List: opens a list */
    method OpenList() returns (r: Result<uint64, Error>)
      requires Valid()
      modifies this
      ensures Valid() && |rest| <= |old(rest)|
      ensures r.Ok? ==> Measure() < old(Measure()) && kind.None? && stack.InList? && stack.pos == 0 && stack.size == r.value
      ensures old(synced) && r.Ok? ==> Opened(old(todo), todo, r.value as int) && synced
      ensures old(synced) && r.Err? ==>
              !ListAhead(old(todo).cur) &&
              (r.error == EOL <==> old(stack).InList? && old(todo).cur == [])
      ensures old(synced) && r == Err(EOL) ==> synced && kind.None? && todo == old(todo)
    {
      var k, n, err := KindAhead();
      if err.Some? { return Err(err.value); }
      if k != ListKind { return Err(ExpectedList); }
      Push();
      return Ok(n);
    }

    method Push()
      requires Valid() && kind == Some(ListKind) && kinderr.None?
      modifies `stack, `kind, `size, `taken, `todo
      ensures Valid() && kind.None? && stack == InList(0, old(size), old(stack))
      ensures synced ==> Opened(old(todo), todo, old(size) as int)
    {
      ghost var c := C();
      PushSound(c, size);
      if synced {
        SyncPush(c, taken, todo, size);
        todo := Then(todo.cur[|taken|..|taken| + size as int], todo.(cur := todo.cur[|taken| + size as int..]));
      }
      stack, kind, size, taken := InList(0, size, stack), None, 0, [];
    }

    /** ListEnd: closes a list that has been read to its end */
    method CloseList() returns (r: Option<Error>)
      requires Valid()
      modifies this
      ensures Valid() && rest == old(rest) && Measure() <= old(Measure())
      ensures r.None? <==> old(stack).InList? && Left(old(stack)) == 0
      ensures r.None? ==> stack == Popped(old(stack)) && kind.None?
      ensures old(synced) && old(kind).None? && old(stack).InList? ==> (r.None? <==> old(todo).cur == [])
      ensures old(synced) && old(kind).None? && r.None? ==> synced && old(todo).Then? && todo == old(todo).outside
    {
      if synced { FirstCut(C()); }
      if stack.NoList? { return Some(NotInList); }
      if stack.pos != stack.size { return Some(NotAtEOL); }
      Pop();
      return None;
    }

    method Pop()
      requires Valid() && stack.InList? && stack.pos == stack.size
      modifies `stack, `kind, `size, `taken, `todo, `synced
      ensures Valid() && kind.None? && stack == Popped(old(stack))
      ensures old(synced) && old(kind).None? ==> synced && old(todo).Then? && todo == old(todo).outside
    {
      ghost var c, known := C(), synced && kind.None?;
      PopSound(c);
      if known { SyncPop(c, todo); }
      stack := if stack.under.InList? then stack.under.(pos := stack.under.pos + stack.size) else NoList;
      kind, size, taken, synced := None, 0, [], false;
      if known { Resync(todo.outside); }
    }
  }

  function NumberItem(r: Result<uint64, Error>): Result<Item, Error>
  {
    match r case Ok(v) => Ok(Str(IntBytes(v as int))) case Err(e) => Err(e)
  }

  /** The number in some bytes, as far as the checks on it need to know. */
  lemma NumberBytes(c: bytes)
    ensures c == [] ==> BE(c) == 0
    ensures |c| == 1 ==> BE(c) == c[0] as int && (c[0] != 0 ==> IntBytes(BE(c)) == c)
    ensures |c| >= 2 && c[0] != 0 ==> BE(c) >= 256 && IntBytes(BE(c)) == c
  {
    if |c| == 1 {
      assert c == [c[0]];
      if c[0] != 0 { OneByteNumber(c[0]); } else { OneLeadingZero(c); }
    } else if |c| >= 2 && c[0] != 0 {
      LongNumber(c);
    }
  }

  predicate ListAhead(w: bytes)
  {
    HeaderAt(w).Some? && HeaderAt(w).value.kind == ListKind
  }

  /** A list of n bytes is open. */
  predicate Opened(t: Todo, u: Todo, n: nat)
  {
    var h := HeaderAt(t.cur);
    && h.Some? && h.value.kind == ListKind && h.value.size == n
    && u == Then(t.cur[h.value.tag..h.value.tag + n], t.(cur := t.cur[h.value.tag + n..]))
  }
}
