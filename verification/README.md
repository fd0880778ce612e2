# bclib in Dafny

A model of the parts of bclib that are hardest to get right, and proofs about it:

- **RLP** (`rlp/`, Appendix B of the Ethereum Yellow Paper): a recursive definition of the encoding (`RlpSpec`), its
  bytes in numbers (`RlpBytes`), the two-phase encoder with its three outputs (`RlpEncode`), the stream decoder with its
  stack of open lists and its byte budget (`RlpStream`, `RlpDecode`), the slice parser (`RlpRaw`), and the repository's
  own signed integers and maps (`RlpExt`, `RlpMap`, `RlpMapExact`, `RlpMapBytes`). `RlpRoundTrip` puts encoder and
  decoder together.
- **Ed25519** (`tendermint/ed25519`, section 5.1 of RFC 8032): field elements in radix 2^25.5 (`FieldSpec`,
  `FieldCombine`, `FieldProduct`, `FieldBytes`, `FieldInvert`), scalars mod l (`ScalarSpec`, `ScalarReduce`,
  `ScalarBytes`, `Scalar`), the signed-window recodings (`Recode`, `Radix16`), scalar multiplication over any
  commutative group (`Group`, `ScalarMult`), and keys and signatures (`Ed25519`).
- **Amino** (`tendermint/go-amino`): primitive encodings (`AminoPrim`), the registry of types (`AminoRegistry`), the
  type-directed codec (`AminoCodec`), its round trip with the exact condition under which it holds (`AminoRoundTrip`),
  its bytes in numbers (`AminoWire`), and its loops and entry points (`AminoBinary`).
- **ABCI** (`tendermint/abci`): client and server of the socket pipeline as a step relation (`Abci`).
- **mc and bn**: the transaction cache (`MemCache`, `MemCacheRuns`), the integer square root and the signed byte form
  of numbers (`Number`).

`Ints`, `BigEndian` and `Results` hold machine integers, byte strings and result types.

Code that changes state in place is modelled by classes, arrays and loops, each proved against a function or a
property. Fixed-width arithmetic is checked: `int32`, `int64` and `uint64` are types whose operations must not
overflow, and where the source wraps around the model says so. Runs of equal statements that the source writes out
(carry chains, table lookups) are loops or helper methods here. Hash functions, the encoding of curve points and
whether a Go type implements an interface are parameters. Reflection is replaced by explicit types, targets and
values. Reading `binary.Uvarint`, a run of continuation bytes of any length counts as cut short.

## Model

| member | source | states |
|---|---|---|
| `RlpSpec.ParseSound` | rlp/decode.go:403-445 | What the reference parser accepts starts with the encoding of the item it returns, which the target can hold; the decoding loops are proved to compute this parser. |
| `RlpSpec.ParseComplete` | rlp/decode.go:603-625 | Whatever follows it, the encoding of every item that the target can hold is parsed as that item. |
| `RlpSpec.PrefixFree` | rlp/encode.go:113-121 | No encoding is a prefix of another: items followed by any bytes are equal if the bytes are, and so are the rests. |
| `RlpSpec.HeadOfHeader` | rlp/decode.go:1017-1077 | A header that is accepted is the one the encoder writes for its kind and size, so sizes are in shortest form. |
| `RlpSpec.HeaderOfHead` | rlp/encode.go:166-175 | The header written for a kind and a size is read back as that kind and size. |
| `RlpBytes.StringWritten` | rlp/encode.go:218-226 | A byte below 0x80 is itself; any other string of n bytes follows the byte 0x80 + n, or from 56 bytes on 0xB7 + k and the k bytes that n needs, most significant first. |
| `RlpBytes.ListWritten` | rlp/encode.go:166-175 | A list with n bytes of items is these after the byte 0xC0 + n, or from 56 bytes on after 0xF7 + k and the k bytes that n needs. |
| `RlpBytes.ItemsInTurn` | rlp/encode.go:228-241 | The items of a list are written one after the other, in their order. |
| `RlpBytes.ListOf56` | rlp/encode.go:166-175 | The list of one string of 56 bytes is F8 3A B8 38 and the string. |
| `RlpStream.BudgetInLimit` | rlp/decode.go:1131-1149 | In every sound state what may still be read in the innermost list is not negative and within the input limit. |
| `RlpStream.ConsumeSound` | rlp/decode.go:1131-1149 | Reading within the budget keeps every open list within its size, every child within its parent and the outermost list within the limit. |
| `RlpStream.PushSound` | rlp/decode.go:872-884 | Opening a list whose size is within the budget keeps that soundness. |
| `RlpStream.PopSound` | rlp/decode.go:888-903 | Closing a finished list charges its size to its parent and keeps that soundness. |
| `RlpStream.Stream.constructor` | rlp/decode.go:744-748 | A new stream is valid, and in sync with the input when the limit is its length. |
| `RlpStream.Stream.WillRead` | rlp/decode.go:1131-1149 | Succeeds exactly within the budget; inside a list the input limit is never what stops it; no subtraction wraps. |
| `RlpStream.Stream.ReadByte` | rlp/decode.go:1120-1129 | The next byte, and exactly which error there is if the list, the limit or the input has none. |
| `RlpStream.Stream.ReadFull` | rlp/decode.go:1105-1118 | The next n bytes, and exactly which error there is if the list, the limit or the input does not have them. |
| `RlpStream.Stream.ReadUint` | rlp/decode.go:1079-1103 | The big-endian number in the next n bytes, and exactly which error there is: list or limit exceeded, input at its end, leading zero. |
| `RlpStream.Stream.ReadKind` | rlp/decode.go:1017-1077 | The kind and size in the header ahead, exactly when it is canonical; what it consumes is the header. |
| `RlpStream.Stream.KindAhead` | rlp/decode.go:984-1015 | The kind and size of the value ahead, read once; after an error other than EOL the next call returns the same error and reads nothing, and EOL is reported exactly at the end of a list. |
| `RlpStream.Stream.Bytes` | rlp/decode.go:763-784 | Succeeds exactly when a string is ahead in canonical form, returns its content and moves past it. |
| `RlpStream.Stream.Raw` | rlp/decode.go:787-809 | The bytes of the value ahead, header and content, as they stand in the input. |
| `RlpStream.Stream.ReadNumber` | rlp/decode.go:818-849 | Succeeds exactly when a canonical integer of the width is ahead, and returns it. |
| `RlpStream.Stream.OpenList` | rlp/decode.go:872-884 | Succeeds exactly when a list is ahead; what is to come is then its content. |
| `RlpStream.Stream.CloseList` | rlp/decode.go:888-903 | Succeeds exactly at the end of a list; what is to come is then what follows it. |
| `RlpDecode.DecodeInto` | rlp/decode.go:403-445 | Decoding into a target returns exactly what the reference parser returns, and moves past it. |
| `RlpDecode.DecodeInterface` | rlp/decode.go:603-625 | The same for interface targets: strings become byte slices, lists become slices of items. |
| `RlpDecode.DecodeListSlice` | rlp/decode.go:403-416 | The same for a list read into a slice. |
| `RlpDecode.DecodeSliceElems` | rlp/decode.go:418-445 | The loop reads all elements up to the end of the list, or fails where one of them cannot be read. |
| `RlpDecode.DecodeBytes` | rlp/decode.go:136-146 | Succeeds exactly on encodings of items that the target can hold, with nothing left over, and returns that item; the first byte, size and content of the input are then as in `RlpBytes`. |
| `RlpDecode.EncInjective` | rlp/encode.go:113-121 | Different items have different encodings. |
| `RlpEncode.PutIntIs` | rlp/encode.go:718-773 | `putint` writes the shortest big-endian form of every non-zero 64-bit number. |
| `RlpEncode.IntSize` | rlp/encode.go:776-782 | The loop computes the length of that form. |
| `RlpEncode.PutHeadIs` | rlp/encode.go:166-175 | `puthead` writes the header of the specification for every size. |
| `RlpEncode.PutHeadInNumbers` | rlp/encode.go:166-175 | That is 0x80 or 0xC0 plus the size, or from 56 on plus 0x37 and the number of its bytes, and these bytes. |
| `RlpEncode.HeadSize` | rlp/encode.go:157-162 | The size of that header. |
| `RlpEncode.EmitItem` | rlp/encode.go:218-263 | String data with the recorded headers put in at their offsets is the recursive encoding. |
| `RlpEncode.EncLength` | rlp/encode.go:243-245 | Data plus headers have the length of the encoding. |
| `RlpEncode.EncBuf.EncodeString` | rlp/encode.go:218-226 | Appends the encoding of a string to the data. |
| `RlpEncode.EncBuf.EncodeItem` | rlp/encode.go:228-241 | Appends the data and the headers of an item; the sizes filled in when lists end are those of their payloads. |
| `RlpEncode.EncBuf.ToBytes` | rlp/encode.go:247-263 | Returns data and headers put together. |
| `RlpEncode.EncBuf.ToWriter` | rlp/encode.go:265-287 | Writes the same bytes piece by piece. |
| `RlpEncode.EncReader.Next` | rlp/encode.go:323-355 | The next piece, after which exactly the rest is pending; none when nothing is. |
| `RlpEncode.EncReader.Read` | rlp/encode.go:298-319 | Fills a buffer of any size with the bytes that are pending, and only then reports the end. |
| `RlpEncode.EncodeToBytes` | rlp/encode.go:113-121 | The recursive encoding, and its first byte, size and content in numbers. |
| `RlpEncode.Encode` | rlp/encode.go:96-109 | Writes the recursive encoding. |
| `RlpEncode.EncodeToReader` | rlp/encode.go:128-135 | Returns its exact size and a reader that has all of it pending. |
| `RlpEncode.ReadWith` | rlp/encode.go:298-355 | Any sequence of reads with any buffer sizes yields the encoding, up to the bytes asked for. |
| `RlpRoundTrip.EncodeThenDecode` | rlp/decode.go:136-146 | Decoding what was encoded returns the item, for every target that can hold it. |
| `RlpRoundTrip.DecodeThenEncode` | rlp/encode.go:113-121 | Encoding what was decoded returns the bytes, and decoding succeeds exactly on encodings. |
| `RlpRaw.ReadKindAgrees` | rlp/raw.go:86-125 | The slice parser accepts exactly the headers the stream accepts, with the same kind and sizes. |
| `RlpRaw.SplitAgrees` | rlp/raw.go:39-45 | `Split` succeeds exactly on a canonical first string or list, with its content and the rest. |
| `RlpRaw.SplitByStream` | rlp/raw.go:39-45 | A limited stream accepts the first value exactly when `Split` does, with the same kind, content and rest. |
| `RlpRaw.CountValues` | rlp/raw.go:74-84 | The loop ends for every buffer and counts the values that `Split` finds, or fails where `Split` does. |
| `RlpRaw.CountEncodings` | rlp/raw.go:74-84 | On n encodings in a row the count is n. |
| `RlpExt.UintIsStr` | rlp/encode.go:416-430 | `writeUint` writes the encoding of the shortest form of every 64-bit number. |
| `RlpExt.WrapAround` | rlp/encode.go:432-463 | A signed number wraps into its own width, and `decodeInt` undoes it. |
| `RlpExt.DecodeNumber` | rlp/decode.go:818-849 | Decoding a number of a width succeeds exactly on what `writeUint` writes for such numbers. |
| `RlpExt.DecodeScalar` | rlp/decode.go:258-266 | Decoding a string or an integer of any width succeeds exactly on what was written for one, and returns it. |
| `RlpMap.SortOfKeys` | rlp/encode.go:659-690 | The sorted keys do not depend on the order in which they come. |
| `RlpMap.MapCodeIsUnique` | rlp/encode.go:659-714 | A map has one encoding, whatever order its keys are listed in. |
| `RlpMap.WriteMap` | rlp/encode.go:659-714 | Writes that encoding. |
| `RlpMapBytes.SortAscends` | rlp/encode.go:659-690 | Sorted keys ascend as numbers, or in the first byte that differs. |
| `RlpMapBytes.ScalarWritten` | rlp/encode.go:416-463 | A number is a string of the bytes that it needs, a negative one modulo 256 to its width. |
| `RlpMapBytes.MapWritten` | rlp/encode.go:659-714 | A map is a string with a list of strings in it, each with the list of a key and its value, both encoded apart. |
| `RlpMapBytes.WrittenAscending` | rlp/encode.go:659-714 | The entries in what `WriteMap` writes are all those of the map, once each, and their keys ascend. |
| `RlpMapBytes.TwoEntries` | rlp/encode.go:659-714 | A map of uint8 that takes 1 and 2 to 1 is 89 C8 83 C2 01 01 83 C2 02 01. |
| `RlpMap.MapBack` | rlp/decode.go:268-307 | Decoding it returns the map, for string or integer keys and scalar or byte-slice values. |
| `RlpMap.DecodeMap` | rlp/decode.go:268-307 | The decoder computes the reference reading of maps, errors included. |
| `RlpMapExact.WhatIsRead` | rlp/decode.go:284-305 | Exactly when a map is read without an error, which entries are in it, and that these are all of them exactly when all are pairs. |
| `RlpMapExact.WrittenForIt` | rlp/decode.go:268-307 | Bytes that are read as a map are its encoding exactly when all entries are pairs, in strictly increasing order of keys. |
| `RlpMapExact.HiddenEntry` | rlp/decode.go:288-290 | An empty list in place of the first pair hides the pair behind it without an error. |
| `FieldCombine.FeCombine` | tendermint/ed25519/edwards25519/edwards25519.go:261-348 | The carry chain keeps the value mod 2^255-19 and establishes the documented limb bounds, without overflow. |
| `FieldProduct.FeMul` | tendermint/ed25519/edwards25519/edwards25519.go:350-428 | f*g mod 2^255-19 under the documented bounds, also when the arguments are the same arrays, without overflow. |
| `FieldProduct.FeSquare` | tendermint/ed25519/edwards25519/edwards25519.go:430-479 | f^2 mod 2^255-19, likewise. |
| `FieldProduct.FeSquare2` | tendermint/ed25519/edwards25519/edwards25519.go:430-506 | 2f^2 mod 2^255-19 under its own bounds, likewise. |
| `FieldInvert.FeInvert` | tendermint/ed25519/edwards25519/edwards25519.go:508-561 | The chain of squarings and products computes z^(p-2), p = 2^255-19, for every z that `FeMul` takes. |
| `FieldBytes.FeFromBytes` | tendermint/ed25519/edwards25519/edwards25519.go:95-108 | The limbs have the value of the 32 bytes with the top bit cleared, mod p, within bounds. |
| `FieldBytes.QuotientIsFloor` | tendermint/ed25519/edwards25519/edwards25519.go:133-150 | The estimate q is exactly the quotient of h by p. |
| `FieldBytes.FeToBytes` | tendermint/ed25519/edwards25519/edwards25519.go:110-220 | The 32 bytes are the unique representative of h mod p, little-endian. |
| `FieldBytes.ReadThenWrite` | tendermint/ed25519/edwards25519/edwards25519.go:95-220 | Writing what was read gives the input, top bit cleared, mod p. |
| `Scalar.ScMulAdd` | tendermint/ed25519/edwards25519/edwards25519.go:1026-1449 | For all inputs, aliased or not, the 32 bytes are (ab+c) mod l in [0, l), without int64 overflow. |
| `Scalar.ScReduce` | tendermint/ed25519/edwards25519/edwards25519.go:1457-1773 | For all 64-byte inputs the 32 bytes are s mod l in [0, l), without int64 overflow. |
| `ScalarBytes.LimbsValue` | tendermint/ed25519/edwards25519/edwards25519.go:1026-1066 | The 21-bit limbs cut out of the bytes have the value of the bytes. |
| `ScalarBytes.StoreLimbs` | tendermint/ed25519/edwards25519/edwards25519.go:1416-1449 | The bytes packed from reduced limbs have the value of the limbs. |
| `ScalarReduce.ReduceLimbs` | tendermint/ed25519/edwards25519/edwards25519.go:1483-1739 | Folds and carries keep the value mod l and end in limbs of 21 bits with a value in [0, l). |
| `Recode.Slide` | tendermint/ed25519/edwards25519/edwards25519.go:846-874 | The loops produce, in place, the width-5 signed digits of the scalar. |
| `Recode.Spacing` | tendermint/ed25519/edwards25519/edwards25519.go:846-874 | A digit that is not zero is odd and followed by four zeros. |
| `Recode.SlideValue` | tendermint/ed25519/edwards25519/edwards25519.go:846-874 | The digits spell the scalar exactly when no carry is left over, and always below 2^255. |
| `Recode.LostCarry` | tendermint/ed25519/edwards25519/edwards25519.go:846-874 | For 256-bit scalars, exactly which last digits lose the carry. |
| `Recode.CarryCanBeLost` | tendermint/ed25519/edwards25519/edwards25519.go:846-874 | 17 * 2^251 loses it. |
| `ScalarMult.SlideDigits` | tendermint/ed25519/edwards25519/edwards25519.go:846-874 | Digits are zero or odd within [-15, 15], so they index the table of odd multiples. |
| `ScalarMult.DoubleScalarMult` | tendermint/ed25519/edwards25519/edwards25519.go:880-929 | In any commutative group, a*A + b*B for scalars below 2^255, and for all others the sum of what their digits spell. |
| `ScalarMult.EqualWords` | tendermint/ed25519/edwards25519/edwards25519.go:932-936 | On digits, the bit form of `equal` is 1 exactly for equal arguments. |
| `ScalarMult.DigitWord` | tendermint/ed25519/edwards25519/edwards25519.go:949-952 | The bit forms give the sign and the size of a digit. |
| `ScalarMult.FeCMove` | tendermint/ed25519/edwards25519/edwards25519.go:64-76 | A conditional move takes all limbs for b = 1 and none for b = 0. |
| `ScalarMult.SelectPoint` | tendermint/ed25519/edwards25519/edwards25519.go:949-962 | b * 256^pos * B for digits in [-8, 8], the table being of multiples of B. |
| `Radix16.ToSigned` | tendermint/ed25519/edwards25519/edwards25519.go:970-989 | 64 digits in [-8, 8] with the base-16 value of the scalar, for a[31] <= 127, without int8 overflow. |
| `ScalarMult.PassesValue` | tendermint/ed25519/edwards25519/edwards25519.go:991-1013 | The even digits plus 16 times the odd ones are the scalar. |
| `ScalarMult.ScalarMultBase` | tendermint/ed25519/edwards25519/edwards25519.go:970-1014 | In any commutative group, a*B. |
| `Ed25519.SecretScalar` | tendermint/ed25519/ed25519.go:39-72 | The scalar of a seed is a multiple of 8 from 2^254 to 2^255, and has bits 3 to 253 of the digest. |
| `Ed25519.SecretBytesValue` | tendermint/ed25519/ed25519.go:39-72 | The masked bytes of the digest hold this scalar. |
| `Ed25519.MakePublicKey` | tendermint/ed25519/ed25519.go:39-58 | The encoding of s*B for this scalar s of the seed, also stored in the second half of the private key. |
| `Ed25519.ClampsAgree` | tendermint/ed25519/ed25519.go:39-72 | Key generation and signing mask byte 31 differently and clamp to the same scalar. |
| `Ed25519.Sign` | tendermint/ed25519/ed25519.go:61-101 | R = r*B and S = k*s + r mod l, with nonce and challenge from the hashes the source takes. |
| `Ed25519.Verify` | tendermint/ed25519/ed25519.go:104-134 | Accepts exactly when S is below 2^253, the key decodes and R = S*B - k*A. |
| `Ed25519.SignedIsAccepted` | tendermint/ed25519/ed25519.go:104-134 | Every signature made with the key of a seed meets that condition, for every message and hash. |
| `Ed25519.SignThenVerify` | tendermint/ed25519/ed25519.go:39-134 | Key generation, signing and verification in turn always end in acceptance. |
| `AminoPrim.UvarintBack` | tendermint/go-amino/encoder.go:77-82 | Every 64-bit number is read back from its uvarint, whatever follows. |
| `AminoPrim.NumBack` | tendermint/go-amino/decoder.go:14-136 | Every number of every kind, fixed width or varint, is read back from its encoding, whatever follows. |
| `AminoPrim.BytesBack` | tendermint/go-amino/decoder.go:262-288 | Length-prefixed bytes are read back, whatever follows. |
| `AminoPrim.NoBytesRead` | tendermint/go-amino/decoder.go:64-71 | A signed varint of no bytes is read exactly where every byte says that more follow. |
| `AminoPrim.CutShortRefused` | tendermint/go-amino/decoder.go:14-136 | An encoding that is cut short is refused exactly if it is not a signed varint; that reads as 0. |
| `AminoWire.UvarintWritten` | tendermint/go-amino/encoder.go:77-82 | A uvarint has seven bits of the number per byte, the lowest first, with the top bit set on all bytes but the last, and no more bytes than needed. |
| `AminoWire.UvarintRead` | tendermint/go-amino/decoder.go:129-136 | `DecodeUvarint` reads exactly the numbers below 2^64 that are spelled so in at most ten bytes. |
| `AminoWire.NumWritten` | tendermint/go-amino/encoder.go:13-82 | int32 and uint32 take four bytes, int64 and uint64 without the option eight, big-endian; other signed numbers are uvarints of 2i or -2i - 1, other unsigned ones of i. |
| `AminoRegistry.Codec.CollectImplementers` | tendermint/go-amino/codec.go:463-470 | Exactly the registered types that implement the interface, grouped by prefix. |
| `AminoRegistry.Codec.RegisterInterface` | tendermint/go-amino/codec.go:148-196 | Succeeds exactly for a new interface whose clashing types are all in its priority list; keeps the codec well formed. |
| `AminoRegistry.Codec.RegisterConcrete` | tendermint/go-amino/codec.go:202-235 | Succeeds exactly for a new type with a free disfix that leaves no interface with clashes outside its priority list, and keeps the codec well formed; says exactly what a failure leaves behind. |
| `AminoRegistry.Codec.AddCheckConflicts` | tendermint/go-amino/codec.go:497-520 | The loop adds the type to the interfaces it implements up to the first clash, and only that one is put back. |
| `AminoRegistry.LeftAsItWas` | tendermint/go-amino/codec.go:497-520 | A clash leaves all interfaces as they were exactly when the type implements none before it. |
| `AminoRegistry.RegisteredWellFormed` | tendermint/go-amino/codec.go:239-261 | One more type keeps groups complete, clashes prioritised and disfixes unique. |
| `AminoRegistry.Typ3Back` | tendermint/go-amino/codec.go:39-44 | `SplitTyp3` undoes `WithTyp3`. |
| `AminoRegistry.HeaderResolves` | tendermint/go-amino/binary-encode.go:224-246 | In every well-formed codec the header written for a value is read back and leads to the value's own type. |
| `AminoCodec.DerefType` | tendermint/go-amino/reflect.go:57-88 | A value that is not void is still there, with its type, behind its pointers. |
| `AminoWire.VoidIsEmpty` | tendermint/go-amino/reflect.go:70-88 | A value is void exactly if it is a nil pointer or interface, or an empty string or slice, behind any pointers. |
| `AminoWire.FieldWritten` | tendermint/go-amino/binary-encode.go:361-391 | A field has no bytes exactly if it is empty, and else the uvarint of eight times its number plus its type bits, and its value. |
| `AminoWire.FieldKeys` | tendermint/go-amino/binary-encode.go:407-425 | Field n starts with the uvarint of 8n + 2 for strings and byte strings, 8n + 3 for structs, 8n + 6 for lists, 8n + 7 for interfaces, 8n + 1 and 8n + 5 for fixed 64 and 32 bits, and 8n for booleans and varints. |
| `AminoWire.StructWritten` | tendermint/go-amino/binary-encode.go:350-403 | A struct is its fields, in order and numbered from 1, and a 4. |
| `AminoWire.ListWritten` | tendermint/go-amino/binary-encode.go:271-329 | A list is the type bits of its elements, plus 8 for pointers, their number, and the elements in order. |
| `AminoWire.ElemWritten` | tendermint/go-amino/binary-encode.go:297-326 | An element behind a pointer is 1 if it is empty, and else 0 and its value. |
| `AminoWire.RegisteredWritten` | tendermint/go-amino/binary-encode.go:24-50 | A registered type starts with its prefix, with the type bits in the last three bits. |
| `AminoWire.InterfaceWritten` | tendermint/go-amino/binary-encode.go:187-246 | Nil is two zeros. Else there are a zero and the disambiguation bytes exactly if the interface always wants them or another implementing type has the same prefix, then the prefix with the type bits and the value. |
| `AminoWire.OneString` | tendermint/go-amino/binary-encode.go:350-403 | A struct whose only field is the string "a" is 0A 01 61 04. |
| `AminoWire.RegisteredRead` | tendermint/go-amino/binary-decode.go:39-58 | A registered type is only read behind its prefix with the type bits of the type. |
| `AminoWire.ListRead` | tendermint/go-amino/binary-decode.go:426-615 | A list is only read behind the type bits of its elements and their number, and has that many. |
| `AminoWire.StructRead` | tendermint/go-amino/binary-decode.go:618-707 | A struct is only read up to a 4. |
| `AminoWire.FieldRead` | tendermint/go-amino/binary-decode.go:650-694 | A field is only read behind eight times its number plus its type bits; a larger number leaves it at its zero value. |
| `AminoWire.InterfaceRead` | tendermint/go-amino/binary-decode.go:319-386 | An interface is only read behind the disambiguation bytes and prefix of a registered type, or the prefix alone of its only implementing type with that prefix, and with the type bits of that type. |
| `AminoBinary.EncodeList` | tendermint/go-amino/binary-encode.go:271-329 | Appends the list's encoding: element type, length, elements, nil bytes for pointers. |
| `AminoBinary.EncodeStruct` | tendermint/go-amino/binary-encode.go:350-403 | Appends the encodings of the fields that are not void, each after its key, and the terminator. |
| `AminoBinary.DecodeElems` | tendermint/go-amino/binary-decode.go:580-615 | The loop reads the elements of the recursive definition and stops at the first error. |
| `AminoBinary.DecodeFields` | tendermint/go-amino/binary-decode.go:650-694 | The loop reads the fields of the recursive definition, with zero values for those left out. |
| `AminoRoundTrip.Back` | tendermint/go-amino/binary-decode.go:19-65 | Decoding an encoding, whatever follows it, returns the value up to void pointers and takes exactly its bytes, if and only if the value is readable; otherwise it fails. |
| `AminoRoundTrip.BodyBack` | tendermint/go-amino/binary-decode.go:69-316 | The same below the prefix, for every type. |
| `AminoRoundTrip.FieldsBack` | tendermint/go-amino/binary-decode.go:618-707 | The same for the fields of a struct, those left out included. |
| `AminoRoundTrip.ElemsBack` | tendermint/go-amino/binary-decode.go:531-615 | The same for the elements of a list, nil ones included. |
| `AminoRoundTrip.PlainReadable` | tendermint/go-amino/binary-decode.go:319-386 | Every value is readable where no type has pointers to interfaces or bytes of a named type, and types as registered implement their interfaces. |
| `AminoWire.UnchangedExactly` | tendermint/go-amino/reflect.go:70-88 | A round trip changes nothing exactly in values without pointers to empty values. |
| `AminoWire.PointerBack` | tendermint/go-amino/reflect.go:70-88 | A pointer to an empty value comes back as nil, and any other as a pointer. |
| `AminoBinary.MarshalBinaryBare` | tendermint/go-amino/amino.go:131-156 | Fails exactly on nil pointers; unmarshalling the result takes all bytes and returns the value up to void pointers, exactly if it is readable. |
| `AminoBinary.MarshalBinary` | tendermint/go-amino/amino.go:80-104 | The same with the length in front. |
| `AminoBinary.UnmarshalBinaryBare` | tendermint/go-amino/amino.go:258-280 | Returns what the recursive definition reads if that is all bytes, and fails otherwise, also on no bytes. |
| `AminoBinary.UnmarshalBinary` | tendermint/go-amino/amino.go:170-191 | The same after a length that has to be that of the rest. |
| `AminoBinary.MarshalThenUnmarshal` | tendermint/go-amino/amino.go:131-280 | The two bare entry points in turn: a readable value comes back up to void pointers, and no other. |
| `AminoBinary.InterfacePointerFails` | tendermint/go-amino/binary-decode.go:23-25 | Whatever the bytes, nothing is read through a pointer to an interface. |
| `AminoBinary.InterfacePointerExample` | tendermint/go-amino/binary-decode.go:23-25 | A struct whose field points to an interface value is written, and unmarshalling the bytes fails. |
| `AminoBinary.NotSettableFails` | tendermint/go-amino/binary-decode.go:347-385 | Nothing is read into an interface from the header of a type that, as registered, does not implement it. |
| `AminoBinary.RegisteredByValueExample` | tendermint/go-amino/reflect.go:93-104 | A value in an interface comes back exactly if its type was registered by a pointer or its values implement the interface. |
| `AminoBinary.NamedBytesExample` | tendermint/go-amino/binary-decode.go:499-528 | A slice of bytes of a named type comes back exactly if it is empty. |
| `Abci.HandleMatches` | tendermint/abci/client/socket_client.go:417-451 | The client expects for each request exactly the response the server makes for it. |
| `Abci.SocketClient.QueueRequest` | tendermint/abci/client/socket_client.go:386-401 | Puts one request at the end of the queue. |
| `Abci.SocketClient.WillSendReq` | tendermint/abci/client/socket_client.go:189-193 | Records one request as sent, last. |
| `Abci.SocketClient.DidRecvResponse` | tendermint/abci/client/socket_client.go:195-225 | Refuses a response exactly when nothing is expected or the first request expects another kind, and says which; otherwise stores it for that request, completes it and forgets it, and changes nothing else. |
| `Abci.SocketClient.FlushQueue` | tendermint/abci/client/socket_client.go:403-413 | Completes every request in the queue, in order. |
| `Abci.StepKeeps` | tendermint/abci/server/socket_server.go:205-297 | Every step of every routine keeps the invariant: recorded requests are in order those in flight, buffers hold no flush, every queued request waits or is done once. |
| `Abci.RunKeeps` | tendermint/abci/client/socket_client.go:131-225 | The invariant holds in every state of every run. |
| `Abci.NoMismatch` | tendermint/abci/client/socket_client.go:195-225 | In no run is a response refused: each is of the first recorded request and answers the kind with which that one was queued, is stored for it alone, and completes it. |
| `Abci.EarlierDone` | tendermint/abci/client/socket_client.go:131-225 | When a response arrives, every request queued before its own is done, and without a stop has its response. |
| `Abci.FlushedAll` | tendermint/abci/client/socket_client.go:291-298 | Without a stop, once a flush has its response all requests queued before it have theirs, of the kind that answers them. |
| `Abci.DoneOnce` | tendermint/abci/client/socket_client.go:403-413 | In all runs, also those that stop and drain the queue, no request is completed twice. |
| `MemCache.Cache.Get` | mc/memcache.go:147-154 | The value on top of the stack, nil if there is none. |
| `MemCache.Cache.Set` | mc/memcache.go:156-166 | Replaces the last entry if it is the tx's own, and pushes one otherwise. |
| `MemCache.Cache.Dirty` | mc/memcache.go:124-133 | Drops the last entry if it is the tx's own. |
| `MemCache.UndoPush` | mc/memcache.go:124-166 | Undoing a tx forgets all that it set since the last other entry. |
| `MemCache.UndoRemovesAll` | mc/memcache.go:123-133 | Undoing removes all entries of a tx exactly when none of them is below the last entry. |
| `MemCache.UndoMissesEarlier` | mc/memcache.go:123-133 | Tx 1 stays after tx 2 has set the same key. |
| `MemCache.Instance.NewMc` | mc/memcache.go:39-52 | Opens a key once per transaction, with the committed value at the bottom, and returns its stack. |
| `MemCache.Instance.SetIn` | mc/memcache.go:117-121 | Setting through the stack that `NewMc` returns changes that stack and no other. |
| `MemCache.Instance.DirtyTransTx` | mc/memcache.go:103-110 | Undoes the tx in every stack of the transaction and in no other. |
| `MemCache.Instance.DirtyTrans` | mc/memcache.go:96-101 | Removes the transaction and nothing else. |
| `MemCache.Instance.CommitTrans` | mc/memcache.go:80-94 | Writes the top of every stack of the transaction to the committed cache and removes the transaction. |
| `MemCache.Instance.Dirty` | mc/memcache.go:54-73 | Removes the key from every transaction and from the committed cache. |
| `MemCacheRuns.RunOnly` | mc/memcache.go:39-110 | In every run a transaction's stacks depend on its own operations and the committed cache only. |
| `MemCacheRuns.RunWithout` | mc/memcache.go:39-110 | Other transactions run as if it were not there. |
| `MemCacheRuns.WriteSeen` | mc/memcache.go:117-121 | A write is read under its own key and in its own transaction, and nowhere else; opening a key changes nothing. |
| `MemCacheRuns.DropTransSeen` | mc/memcache.go:96-101 | A transaction that is dropped reads as committed again, and nothing else changes. |
| `MemCacheRuns.CommitSeen` | mc/memcache.go:80-94 | What a transaction reads is what is committed, and others read it under the keys they have not opened. |
| `MemCacheRuns.DropKeySeen` | mc/memcache.go:54-73 | A key that is dropped reads as nil in the committed cache and in every transaction; other keys are as before. |
| `MemCacheRuns.ReadDuringRun` | mc/memcache.go:112-121 | While a tx runs, a key reads as the kept txs and the running one have set it. |
| `MemCacheRuns.CommitIsReplay` | mc/memcache.go:81-145 | After any interleaving, committing serial txs with ids of their own leaves the cache as replaying only the kept ones does; keys not opened and other transactions are untouched. |
| `Number.StepAboveRoot` | bn/bignumber.go:285-297 | No step of the loop falls below the root. |
| `Number.RootUnique` | bn/bignumber.go:282-297 | Only one number is the root. |
| `Number.Number.Sqrt` | bn/bignumber.go:284-297 | Ends for every x, fails exactly on negative ones (and nil), and returns y with y*y <= x < (y+1)*(y+1). |
| `Number.Number.Bytes` | bn/bignumber.go:350-363 | FF before the magnitude of a negative number and 0 before any other, without leading zeros; no bytes for nil. |
| `Number.Number.SetBytes` | bn/bignumber.go:367-380 | The signed value of the bytes; no bytes leave the number as it is and make nil 0. |
| `Number.ValueOfSigned` | bn/bignumber.go:350-380 | `SetBytes` after `Bytes` is the identity on all integers. |
| `Number.SignedOfValue` | bn/bignumber.go:350-380 | `Bytes` after `SetBytes` is the identity exactly on canonical bytes. |
| `Number.Copy` | bn/bignumber.go:350-380 | The same through two objects, whatever the second one held. |

## Findings

Where the code does not do what one would expect, the model follows the code and says exactly when it does.

- **Amino, values that are written and cannot be read.** There are three kinds, and `AminoRoundTrip.Back` shows that, for
  the types of the model, there are no others: a value comes back if and only if it is `Readable`.
  - A field or an element that points to an interface: decoding it panics (`binary-decode.go:23`).
    `AminoBinary.InterfacePointerExample` is such a value.
  - A value in an interface whose type was registered by value while only its pointer implements the interface.
    Registration asks for the pointer (`codec.go:465`, `codec.go:503`), decoding makes a value (`reflect.go:93-104`), and
    setting it panics (`binary-decode.go:384`). `AminoBinary.RegisteredByValueExample` is the smallest case.
  - Bytes whose element type is not `uint8` but a type of that kind: the bytes that were read cannot be set
    (`binary-decode.go:525`, `binary-decode.go:421`). `AminoBinary.NamedBytesExample` says exactly when.
- **Amino, registrations that fail.** A clash in one interface leaves the type in those before it, and a disfix that is
  taken leaves it among the concrete types. `AminoRegistry.Codec.RegisterConcrete` says exactly what is left, and
  `AminoRegistry.LeftAsItWas` when that is nothing.
- **Amino, numbers that are cut short.** A signed varint whose bytes end early decodes as 0 in 0 bytes without an error
  (`decoder.go:64-71` tests for n < 0 only). `AminoPrim.NoBytesRead` says exactly when, and `AminoPrim.CutShortRefused`
  that every other kind of number is refused.
- **RLP, maps.** `decodeMap` returns success at the first entry that is not a pair, and drops what follows
  (`rlp/decode.go:288-290` passes on an error that is nil). `RlpMapExact.HiddenEntry` is such an input;
  `RlpMapExact.WhatIsRead` says exactly which entries are read, and `RlpMapExact.WrittenForIt` exactly which bytes are
  the encoding of the map they are read as.
- **Ed25519, slide.** For scalars of 2^255 and more the last carry can be lost. `Recode.CarryCanBeLost` names one,
  `Recode.LostCarry` says exactly when it happens, in terms of what the digits below leave over; a caller's test is
  a[31] <= 127 (`Recode.SlideValue`). `Verify` never passes such scalars.
- **mc, undoing.** A comment promises that all entries of a tx are deleted; only the last one can be.
  `MemCache.UndoMissesEarlier` is an example and `MemCache.UndoRemovesAll` the exact condition.

## Left out

- RLP: structs, arrays, pointers, booleans, big integers, `bn.Number` and custom encoders; map values whose decoder reuses storage.
- RLP: a stream whose reader fails for other reasons than its end, and readers without a length.
- Ed25519: the addition formulas, point compression and decompression, and the tables of constants; they are the group, the encoding and the tables of a `Curve`.
- FieldInvert.FeInvert: states z^(p-2); that this is the inverse of z needs that p is prime, which is not proved.
- Ed25519: SHA-512 is any function to 64 bytes; key generation from randomness is not modelled.
- Amino: JSON, floats, `time.Time`, `MarshalAmino` hooks, `UnmarshalBinaryReader`, unregistered interfaces, targets that are not fresh, named pointer types, and nil pointers in interfaces, on which encoding panics.
- Amino: fields that are unexported or tagged `json:"-"`, which are not written; whether an interface holds a value or a pointer to it; and byte arrays of a named type that are not addressable, on which already encoding panics.
- AminoCodec.Zero: the zero values of structs and arrays are left as a constant of their type, because the encoder never leaves out a field of such a type.
- AminoBinary.MarshalBinary: the round trip is stated for results that fit a Go slice.
- Abci: liveness (requests that were sent are not released by a stop), callbacks, timers, messages at the level of bytes, requests of unknown kind, and more than one connection.
- MemCache: locks, `Clear` and `pop`; commits of other transactions while one is open, after which its stacks can hold values that are out of date.
- Number: all other arithmetic, which wraps `math/big`.
- Everything else in the repository: wallets, sockets, logging, RPC, storage and the generated protobuf code.
