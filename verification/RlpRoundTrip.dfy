/** rlp/encode.go and rlp/decode.go together: what was encoded is decoded again. */
module RlpRoundTrip {
  import opened Ints
  import opened Results
  import opened RlpSpec
  import opened RlpStream
  import opened RlpEncode
  import opened RlpDecode

  /** DecodeBytes after EncodeToBytes, for every item that the target can hold. */
  method EncodeThenDecode(t: Item, target: Target) returns (r: Result<Item, Error>)
    requires |Enc(t)| <= MAX_LEN && Conforms(t, target) && Widths(target)
    ensures r == Ok(t)
  {
    var b := EncodeToBytes(t);
    r := DecodeBytes(b, target);
    assert IsEncoding(b, target);
    EncInjective(t, r.value);
  }

  /** EncodeToBytes after DecodeBytes: whatever decodes is encoded the same way. */
  method DecodeThenEncode(b: bytes, target: Target) returns (out: Option<bytes>)
    requires |b| <= MAX_LEN && Widths(target)
    ensures out.Some? ==> out.value == b
    ensures out.Some? <==> IsEncoding(b, target)
  {
    var r := DecodeBytes(b, target);
    if r.Err? {
      return None;
    }
    var e := EncodeToBytes(r.value);
    return Some(e);
  }
}
