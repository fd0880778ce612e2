/**
 * Recursive Length Prefix, Appendix B of the Ethereum Yellow Paper: items, their encoding, and the
 * reading of one header.  The codec in rlp/ is proved against these definitions.
 */
module RlpSpec {
  import opened Ints
  import opened Results
  import opened BigEndian

  datatype Item = Str(b: bytes) | List(items: seq<Item>)

  // what Go can hold in a slice
  const MAX_LEN: int := 0x7fff_ffff_ffff_ffff

  // ---------- the first byte of a header

  datatype Kind = Byte | String | ListKind

  /** A first byte is a value itself, holds the size of what follows, or counts the bytes of the size. */
  datatype Tag = Self | Short(kind: Kind, size: nat) | Long(kind: Kind, count: nat)

  predicate ValidTag(t: Tag)
  {
    match t
    case Self => false
    case Short(k, size) => k != Byte && size < 56
    case Long(k, count) => k != Byte && 1 <= count <= 8
  }

  function TagByte(t: Tag): (b: byte)
  {
    match t
    case Self => 0
    case Short(k, size) => ((if k == ListKind then 0xC0 else 0x80) + size) % 256
    case Long(k, count) => ((if k == ListKind then 0xF7 else 0xB7) + count) % 256
  }

  function TagOf(b: byte): (t: Tag)
    ensures t == Self || ValidTag(t)
  {
    if b < 0x80 then Self
    else if b < 0xB8 then Short(String, b as int - 0x80)
    else if b < 0xC0 then Long(String, b as int - 0xB7)
    else if b < 0xF8 then Short(ListKind, b as int - 0xC0)
    else Long(ListKind, b as int - 0xF7)
  }

  lemma TagOfTagByte(t: Tag)
    requires ValidTag(t)
    ensures TagOf(TagByte(t)) == t
  {
  }

  lemma TagByteOfTag(b: byte)
    requires TagOf(b) != Self
    ensures TagByte(TagOf(b)) == b
  {
  }

  // ---------- the encoding

  /** The header of a value: one byte, or a byte that counts the bytes of the size that follow it. */
  function Head(k: Kind, size: nat): (h: bytes)
    ensures |h| >= 1
  {
    if size < 56 then [TagByte(Short(k, size))] else [TagByte(Long(k, |IntBytes(size)|))] + IntBytes(size)
  }

  function EncStr(b: bytes): (e: bytes)
    ensures |e| >= 1
  {
    if |b| == 1 && b[0] < 0x80 then b else Head(String, |b|) + b
  }

  function Enc(t: Item): (e: bytes)
    ensures |e| >= 1
    decreases t, 0
  {
    match t
    case Str(b) => EncStr(b)
    case List(items) => Head(ListKind, |EncAll(items)|) + EncAll(items)
  }

  function EncAll(items: seq<Item>): (e: bytes)
    decreases items, 0
  {
    if items == [] then [] else Enc(items[0]) + EncAll(items[1..])
  }

  // ---------- reading one header

  /** A byte below 0x80 is its own header and has no content after it. */
  datatype Header = Header(kind: Kind, tag: nat, size: nat)

  /** The header at the start of w, if it is all there and in its shortest form. */
  function TagAt(w: bytes): (h: Option<Header>)
    ensures h.Some? ==> 1 <= h.value.tag <= 9 && h.value.tag <= |w|
    ensures h.Some? && h.value.kind == Byte ==> h.value == Header(Byte, 1, 0)
  {
    if w == [] then None
    else
      match TagOf(w[0])
      case Self => Some(Header(Byte, 1, 0))
      case Short(k, size) => Some(Header(k, 1, size))
      case Long(k, count) =>
        if 1 + count > |w| || w[1] == 0 || BE(w[1..1 + count]) < 56 then None else Some(Header(k, 1 + count, BE(w[1..1 + count])))
  }

  /** The same if also the content is inside w. */
  function HeaderAt(w: bytes): (h: Option<Header>)
    ensures h.Some? ==> 1 <= h.value.tag <= 9 && h.value.tag + h.value.size <= |w|
    ensures h.Some? && h.value.kind == Byte ==> h.value == Header(Byte, 1, 0)
  {
    var h := TagAt(w);
    if h.Some? && h.value.tag + h.value.size <= |w| then h else None
  }

  lemma SizeBytes(size: nat)
    requires 56 <= size <= MAX_LEN
    ensures 1 <= |IntBytes(size)| <= 8 && IntBytes(size)[0] != 0 && BE(IntBytes(size)) == size
  {
    IntBytesValue(size);
    Pow256Eight();
    IntBytesLength(size, 8);
  }

  /** A header that was written is read back. */
  lemma HeaderOfHead(k: Kind, size: nat, h: bytes, x: bytes)
    requires k != Byte && size <= |x| && size <= MAX_LEN && h == Head(k, size)
    ensures HeaderAt(h + x) == Some(Header(k, |h|, size))
  {
    var w := h + x;
    if size >= 56 {
      var s := IntBytes(size);
      SizeBytes(size);
      TagOfTagByte(Long(k, |s|));
      assert w[1..1 + |s|] == s;
    } else {
      TagOfTagByte(Short(k, size));
    }
  }

  /** A header that is read is the one that would be written. */
  lemma HeadOfHeader(w: bytes)
    requires HeaderAt(w).Some? && HeaderAt(w).value.kind != Byte
    ensures var h := HeaderAt(w).value; w[..h.tag] == Head(h.kind, h.size)
  {
    TagByteOfTag(w[0]);
    if TagOf(w[0]).Long? {
      var s := w[1..1 + TagOf(w[0]).count];
      IntBytesUnique(s);
      assert w[..1 + |s|] == [w[0]] + s;
    }
  }

  // ---------- parsing into a target

  /** What is decoded into: an interface, a byte slice, an unsigned integer of some bytes, or a slice of targets. */
  datatype Target = AnyItem | ByteSlice | Uint(width: nat) | SliceOf(elem: Target)

  /** The items a target can hold. */
  predicate Conforms(t: Item, target: Target)
    decreases t, 0
  {
    match target
    case AnyItem => true
    case ByteSlice => t.Str?
    case Uint(width) => t.Str? && |t.b| <= width && (t.b == [] || t.b[0] != 0)
    case SliceOf(elem) => t.List? && AllConform(t.items, elem)
  }

  predicate AllConform(items: seq<Item>, target: Target)
    decreases items, 0
  {
    items == [] || (Conforms(items[0], target) && AllConform(items[1..], target))
  }

  /** Targets for lists, and the targets of their elements. */
  predicate TakesLists(target: Target)
  {
    target.AnyItem? || target.SliceOf?
  }

  function ElemOf(target: Target): Target
  {
    if target.SliceOf? then target.elem else AnyItem
  }

  lemma ListConforms(items: seq<Item>, target: Target)
    ensures Conforms(List(items), target) <==> TakesLists(target) && AllConform(items, ElemOf(target))
  {
    AnyConform(items);
  }

  /** The item whose encoding w starts with. */
  function Parse(w: bytes, target: Target): (t: Option<Item>)
    ensures t.Some? ==> HeaderAt(w).Some? && (t.value.List? <==> HeaderAt(w).value.kind == ListKind)
    decreases |w|, 0
  {
    var h := HeaderAt(w);
    if h.None? then None
    else
      var Header(k, tag, size) := h.value;
      if k == ListKind then
        if !TakesLists(target) then None
        else
          var items := ParseAll(w[tag..tag + size], ElemOf(target));
          if items.None? then None else Some(List(items.value))
      else
        var b := if k == Byte then [w[0]] else w[tag..tag + size];
        if (k == String && |b| == 1 && b[0] < 0x80) || !Conforms(Str(b), target) then None else Some(Str(b))
  }

  /** The items whose encodings make up c. */
  function ParseAll(c: bytes, target: Target): (items: Option<seq<Item>>)
    decreases |c|, 1
  {
    if c == [] then Some([])
    else
      var t := Parse(c, target);
      if t.None? || |Enc(t.value)| > |c| then None
      else
        var rest := ParseAll(c[|Enc(t.value)|..], target);
        if rest.None? then None else Some([t.value] + rest.value)
  }

  lemma EncodedList(w: bytes, tag: nat, size: nat, items: seq<Item>)
    requires tag + size <= |w| && w[..tag] == Head(ListKind, size) && EncAll(items) == w[tag..tag + size]
    ensures Enc(List(items)) <= w
  {
    assert w[..tag] + w[tag..tag + size] == w[..tag + size];
  }

  lemma EncodedStr(w: bytes, tag: nat, b: bytes)
    requires tag + |b| <= |w| && w[..tag] == Head(String, |b|) && b == w[tag..tag + |b|] && !(|b| == 1 && b[0] < 0x80)
    ensures Enc(Str(b)) <= w
  {
    assert w[..tag] + w[tag..tag + |b|] == w[..tag + |b|];
  }

  lemma EncodedByte(w: bytes)
    requires w != [] && w[0] < 0x80
    ensures Enc(Str([w[0]])) <= w
  {
    assert w[..1] == [w[0]];
  }

  lemma ParsedStr(w: bytes, target: Target, b: bytes)
    requires Parse(w, target) == Some(Str(b))
    ensures Conforms(Str(b), target) && Enc(Str(b)) <= w
  {
    var h := HeaderAt(w).value;
    if h.kind == String {
      assert b == w[h.tag..h.tag + h.size] && !(|b| == 1 && b[0] < 0x80);
      HeadOfHeader(w);
      EncodedStr(w, h.tag, b);
    } else {
      assert b == [w[0]];
      EncodedByte(w);
    }
  }

  lemma ParsedList(w: bytes, target: Target, items: seq<Item>)
    requires Parse(w, target) == Some(List(items))
    ensures HeaderAt(w).value.kind == ListKind && TakesLists(target)
    ensures var h := HeaderAt(w).value; ParseAll(w[h.tag..h.tag + h.size], ElemOf(target)) == Some(items)
  {
  }

  /** Parsing finds an encoding at the start of w. */
  lemma {:induction false} ParseSound(w: bytes, target: Target)
    requires Parse(w, target).Some?
    ensures var t := Parse(w, target).value; Conforms(t, target) && Enc(t) <= w
    decreases |w|, 0
  {
    match Parse(w, target).value
    case Str(b) =>
      ParsedStr(w, target, b);
    case List(items) =>
      ParsedList(w, target, items);
      ParseAllSound(w[HeaderAt(w).value.tag..HeaderAt(w).value.tag + HeaderAt(w).value.size], ElemOf(target));
      ListSound(w, target, items);
  }

  lemma ListSound(w: bytes, target: Target, items: seq<Item>)
    requires HeaderAt(w).Some? && HeaderAt(w).value.kind == ListKind && TakesLists(target) && AllConform(items, ElemOf(target))
    requires var h := HeaderAt(w).value; EncAll(items) == w[h.tag..h.tag + h.size]
    ensures Conforms(List(items), target) && Enc(List(items)) <= w
  {
    HeadOfHeader(w);
    EncodedList(w, HeaderAt(w).value.tag, HeaderAt(w).value.size, items);
    ListConforms(items, target);
  }

  lemma FirstAndRest(t: Item, rest: seq<Item>, c: bytes, target: Target)
    requires Enc(t) <= c && EncAll(rest) == c[|Enc(t)|..] && Conforms(t, target) && AllConform(rest, target)
    ensures EncAll([t] + rest) == c && AllConform([t] + rest, target)
  {
    assert ([t] + rest)[1..] == rest;
  }

  lemma {:induction false} ParseAllSound(c: bytes, target: Target)
    requires ParseAll(c, target).Some?
    ensures AllConform(ParseAll(c, target).value, target) && EncAll(ParseAll(c, target).value) == c
    decreases |c|, 1
  {
    if c != [] {
      ParseSound(c, target);
      var t := Parse(c, target).value;
      var rest := c[|Enc(t)|..];
      ParseAllSound(rest, target);
      FirstAndRest(t, ParseAll(rest, target).value, c, target);
    }
  }

  /** The header and the content of a value at the start of w. */
  lemma HeadAndContent(k: Kind, c: bytes, w: bytes)
    requires k != Byte && Head(k, |c|) + c <= w && |w| <= MAX_LEN
    ensures var tag := |Head(k, |c|)|; HeaderAt(w) == Some(Header(k, tag, |c|)) && w[tag..tag + |c|] == c
  {
    var h := Head(k, |c|);
    assert (h + c)[..|h|] == h == w[..|h|] && w == h + w[|h|..];
    assert w[|h|..|h| + |c|] == (h + c)[|h|..] == c;
    HeaderOfHead(k, |c|, h, w[|h|..]);
  }

  lemma ParseString(b: bytes, w: bytes, target: Target, tag: nat)
    requires HeaderAt(w) == Some(Header(String, tag, |b|)) && w[tag..tag + |b|] == b
    requires Conforms(Str(b), target) && !(|b| == 1 && b[0] < 0x80)
    ensures Parse(w, target) == Some(Str(b))
  {
  }

  lemma RefusedString(b: bytes, w: bytes, target: Target, tag: nat)
    requires HeaderAt(w) == Some(Header(String, tag, |b|)) && w[tag..tag + |b|] == b
    requires !Conforms(Str(b), target) || (|b| == 1 && b[0] < 0x80)
    ensures Parse(w, target) == None
  {
  }

  lemma ParseByte(b: bytes, w: bytes, target: Target)
    requires b <= w && |b| == 1 && b[0] < 0x80 && Conforms(Str(b), target)
    ensures Parse(w, target) == Some(Str(b))
  {
    assert w[0] == b[0] && b == [b[0]];
  }

  lemma ParseStr(b: bytes, w: bytes, target: Target)
    requires EncStr(b) <= w && Conforms(Str(b), target) && |w| <= MAX_LEN
    ensures Parse(w, target) == Some(Str(b))
  {
    if |b| == 1 && b[0] < 0x80 {
      ParseByte(b, w, target);
    } else {
      HeadAndContent(String, b, w);
      ParseString(b, w, target, |Head(String, |b|)|);
    }
  }

  lemma ParseList(items: seq<Item>, w: bytes, target: Target, tag: nat)
    requires TakesLists(target)
    requires HeaderAt(w).Some? && HeaderAt(w).value.kind == ListKind && HeaderAt(w).value.tag == tag
    requires ParseAll(w[tag..tag + HeaderAt(w).value.size], ElemOf(target)) == Some(items)
    ensures Parse(w, target) == Some(List(items))
  {
  }

  /** Parsing finds every encoding at the start of w. */
  lemma {:induction false} ParseComplete(t: Item, w: bytes, target: Target)
    requires Enc(t) <= w && Conforms(t, target) && |w| <= MAX_LEN
    ensures Parse(w, target) == Some(t)
    decreases t, 0
  {
    if t.Str? {
      ParseStr(t.b, w, target);
    } else {
      ListConforms(t.items, target);
      HeadAndContent(ListKind, EncAll(t.items), w);
      ParseAllComplete(t.items, ElemOf(target));
      ParseList(t.items, w, target, |Head(ListKind, |EncAll(t.items)|)|);
    }
  }

  lemma {:induction false} ParseAllComplete(items: seq<Item>, target: Target)
    requires AllConform(items, target) && |EncAll(items)| <= MAX_LEN
    ensures ParseAll(EncAll(items), target) == Some(items)
    decreases items, 0
  {
    if items != [] {
      var c := EncAll(items);
      ParseComplete(items[0], c, target);
      assert c[|Enc(items[0])|..] == EncAll(items[1..]);
      ParseAllComplete(items[1..], target);
      assert items == [items[0]] + items[1..];
    }
  }

  lemma {:induction false} AnyConform(items: seq<Item>)
    ensures AllConform(items, AnyItem)
  {
    if items != [] { AnyConform(items[1..]); }
  }

  /** No encoding is a prefix of another, so every sequence of bytes has one reading. */
  lemma PrefixFree(t: Item, u: Item, x: bytes, y: bytes)
    requires Enc(t) + x == Enc(u) + y && |Enc(t) + x| <= MAX_LEN
    ensures t == u && x == y
  {
    var w := Enc(t) + x;
    assert Enc(t) <= w && Enc(u) <= w;
    ParseComplete(t, w, AnyItem);
    ParseComplete(u, w, AnyItem);
    assert x == w[|Enc(t)|..] && y == w[|Enc(u)|..];
  }
}
