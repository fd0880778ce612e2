/** The slice parser of rlp/raw.go, and its agreement with the stream parser. */
module RlpRaw {
  import opened Ints
  import opened Results
  import opened BigEndian
  import opened RlpSpec
  import opened RlpStream

  /** readSize: slen bytes, most significant first */
  function ReadSize(b: bytes, slen: nat): (r: Result<nat, Error>)
    requires 1 <= slen <= 8
  {
    if slen > |b| then Err(UnexpectedEOF)
    else
      var s := BE(b[..slen]);
      if s < 56 || b[0] == 0 then Err(CanonSize) else Ok(s)
  }

  /** Kind, size of the tag and size of the content; a single byte has no tag and is its own content. */
  datatype Tagged = Tagged(kind: Kind, tagsize: nat, contentsize: nat)

  /** readKind */
  function ReadKind(buf: bytes): (r: Result<Tagged, Error>)
    ensures r.Ok? ==> 1 <= r.value.tagsize + r.value.contentsize <= |buf|
  {
    if buf == [] then Err(UnexpectedEOF)
    else
      match TagOf(buf[0])
      case Self => Ok(Tagged(Byte, 0, 1))
      case Short(k, size) =>
        if k == String && size == 1 && |buf| > 1 && buf[1] < 128 then Err(CanonSize) else WithinBuffer(buf, Tagged(k, 1, size))
      case Long(k, count) =>
        match ReadSize(buf[1..], count)
        case Err(e) => Err(e)
        case Ok(size) => WithinBuffer(buf, Tagged(k, 1 + count, size))
  }

  function WithinBuffer(buf: bytes, t: Tagged): (r: Result<Tagged, Error>)
  {
    if t.contentsize > |buf| - t.tagsize then Err(ValueTooLarge) else Ok(t)
  }

  /** Split: kind and content of the first value, and the bytes after it */
  function Split(b: bytes): (r: Result<(Kind, bytes, bytes), Error>)
  {
    match ReadKind(b)
    case Err(e) => Err(e)
    case Ok(Tagged(k, ts, cs)) => Ok((k, b[ts..ts + cs], b[ts + cs..]))
  }

  /** readKind accepts the headers the stream accepts, except strings that should have been single bytes. */
  lemma ReadKindAgrees(b: bytes)
    ensures var h := HeaderAt(b);
            ReadKind(b).Ok? <==> h.Some? && !(h.value.kind == String && h.value.size == 1 && b[h.value.tag] < 0x80)
    ensures ReadKind(b).Ok? ==>
              var h, t := HeaderAt(b).value, ReadKind(b).value;
              t.kind == h.kind && t.tagsize + t.contentsize == h.tag + h.size && (h.kind != Byte ==> t.tagsize == h.tag)
  {
    if b != [] && TagOf(b[0]).Long? {
      var count := TagOf(b[0]).count;
      if 1 + count <= |b| { assert b[1..][..count] == b[1..1 + count]; }
    }
  }

  /** Split succeeds exactly when a stream over b reads the first string, or the header of the first list. */
  lemma SplitAgrees(b: bytes)
    ensures Split(b).Ok? <==> Parse(b, ByteSlice).Some? || ListAhead(b)
    ensures Split(b).Ok? && Split(b).value.0 != ListKind ==>
              var c := Split(b).value.1;
                Parse(b, ByteSlice) == Some(Str(c)) && |Enc(Str(c))| <= |b| &&
                Split(b).value.2 == b[|Enc(Str(c))|..]
    ensures Split(b).Ok? && Split(b).value.0 == ListKind ==>
              var h := HeaderAt(b).value;
                h.kind == ListKind && Split(b).value.1 == b[h.tag..h.tag + h.size] &&
                Split(b).value.2 == b[h.tag + h.size..]
  {
    ReadKindAgrees(b);
    var h := HeaderAt(b);
    if h.Some? {
      match h.value.kind
      case Byte => ByteAt(b, h.value.size, h.value.tag); assert b[0..1] == [b[0]];
      case String => StringAt(b, h.value.size, h.value.tag, b[h.value.tag..h.value.tag + h.value.size]);
      case ListKind => ListAt(b, h.value.size, h.value.tag);
    }
  }

  lemma SplitList(b: bytes)
    requires ListAhead(b)
    ensures var h := HeaderAt(b).value; Split(b) == Ok((ListKind, b[h.tag..h.tag + h.size], b[h.tag + h.size..]))
  {
    ReadKindAgrees(b);
  }

  lemma SplitString(b: bytes, k: Kind, r: Result<(Kind, bytes, bytes), Error>)
    requires HeaderAt(b).Some? && HeaderAt(b).value.kind == k != ListKind
    requires r.Ok? ==>
             var c := r.value.1;
             r.value.0 == k && Parse(b, ByteSlice) == Some(Str(c)) && |Enc(Str(c))| <= |b| &&
             r.value.2 == b[|Enc(Str(c))|..]
    requires r.Err? ==> Parse(b, ByteSlice) == None
    ensures (r.Ok? <==> Split(b).Ok?) && (r.Ok? ==> r == Split(b))
  {
    SplitAgrees(b);
    ReadKindAgrees(b);
  }

  /** A stream over b and Split cut the same first value out of b. */
  method SplitByStream(b: bytes) returns (r: Result<(Kind, bytes, bytes), Error>)
    requires |b| <= MAX_LEN
    ensures r.Ok? <==> Split(b).Ok?
    ensures r.Ok? ==> r == Split(b)
  {
    var s := new Stream(b, Some(|b| as uint64));
    var k, _, err := s.KindAhead();
    if err.Some? {
      ReadKindAgrees(b);
      r := Err(err.value);
    } else if k == ListKind {
      r := ListByStream(s, b);
      SplitList(b);
    } else {
      r := StringByStream(s, b, k);
      SplitString(b, k, r);
    }
  }

  method StringByStream(s: Stream, b: bytes, k: Kind) returns (r: Result<(Kind, bytes, bytes), Error>)
    requires s.Valid() && s.synced && s.todo == Last(b) && s.kind == Some(k) && k != ListKind
    modifies s
    ensures r.Ok? ==> var c := r.value.1;
            r.value.0 == k && Parse(b, ByteSlice) == Some(Str(c)) && |Enc(Str(c))| <= |b| &&
            r.value.2 == b[|Enc(Str(c))|..]
    ensures r.Err? ==> Parse(b, ByteSlice) == None
  {
    var c := s.Bytes();
    if c.Err? { return Err(c.error); }
    WholeInput(s.C(), s.todo);
    r := Ok((k, c.value, s.rest));
  }

  method ListByStream(s: Stream, b: bytes) returns (r: Result<(Kind, bytes, bytes), Error>)
    requires s.Valid() && s.synced && s.todo == Last(b) && s.kind == Some(ListKind)
    modifies s
    ensures r.Ok? && ListAhead(b)
    ensures var h := HeaderAt(b).value; r.value == (ListKind, b[h.tag..h.tag + h.size], b[h.tag + h.size..])
  {
    var size := s.OpenList();
    var n := size.value;
    ListCut(s.C(), s.todo, n as int);
    r := Ok((ListKind, s.rest[..n], s.rest[n..]));
  }

  lemma ListCut(c: Core, todo: Todo, n: nat)
    requires InSync(c, [], todo) && todo.Then? && todo.outside.Last? && c.stack.InList? && Left(c.stack) == n
    ensures n <= |c.rest| && todo.cur == c.rest[..n] && todo.outside.cur == c.rest[n..]
  {
    var more := Cuts(c.rest[n..], c.stack.under, c.stack.size as int);
    assert todo.outside == more;
    assert [] + c.rest[..n] == c.rest[..n];
  }

  // ---------- CountValues

  /** The number of values b is made of, if it is made of values. */
  function Count(b: bytes): (n: Option<nat>)
    decreases |b|
  {
    if b == [] then Some(0)
    else
      match ReadKind(b)
      case Err(_) => None
      case Ok(t) =>
        var rest := Count(b[t.tagsize + t.contentsize..]);
        if rest.None? then None else Some(1 + rest.value)
  }

  method CountValues(b0: bytes) returns (r: Result<nat, Error>)
    ensures r.Ok? ==> Count(b0) == Some(r.value)
    ensures r.Err? ==> Count(b0) == None
  {
    var b, i := b0, 0;
    while |b| > 0
      invariant Count(b0) == if Count(b).None? then None else Some(i + Count(b).value)
      decreases |b|
    {
      var t := ReadKind(b);
      if t.Err? { return Err(t.error); }
      b := b[t.value.tagsize + t.value.contentsize..];
      i := i + 1;
    }
    return Ok(i);
  }

  /** Encodings put one after the other are counted one by one. */
  lemma {:induction false} CountEncodings(items: seq<Item>)
    requires |EncAll(items)| <= MAX_LEN
    ensures Count(EncAll(items)) == Some(|items|)
  {
    if items != [] {
      var w, t := EncAll(items), items[0];
      FirstEncoding(t, w);
      assert w[|Enc(t)|..] == EncAll(items[1..]);
      CountEncodings(items[1..]);
    }
  }

  lemma FirstEncoding(t: Item, w: bytes)
    requires Enc(t) <= w && |w| <= MAX_LEN
    ensures ReadKind(w).Ok? && ReadKind(w).value.tagsize + ReadKind(w).value.contentsize == |Enc(t)|
  {
    ReadKindAgrees(w);
    match t
    case Str(b) =>
      if |b| == 1 && b[0] < 0x80 {
        assert w[0] == b[0];
      } else {
        HeadAndContent(String, b, w);
      }
    case List(items) =>
      HeadAndContent(ListKind, EncAll(items), w);
  }
}
