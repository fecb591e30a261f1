# Verified model of json-gen-c

json-gen-c turns a schema of structs, enums and tagged unions into C code that packs, unpacks,
copies and parses the structs, on top of a small runtime. This project models the behaviour of
the emitted code and of its runtime in Dafny and proves properties of it. The emitted code is
modelled as methods over a schema value: the per-field templates become one interpreter.

Where the source changes things in place the model does too: a string buffer, a reader's cursor,
an object's slots, a hash map's buckets and links, a heap of blocks. Each such method is proved
equal to a specification function, and the promises are proved about those functions.

| file | part of the system |
|---|---|
| `Bytes`, `Floats` | octets, big-endian integers, results, counting; float conversions as parameters |
| `Sstr` | the short/long string buffer |
| `Cbor`, `MsgPack`, `Wire` | what the two binary runtimes write and read, and both behind one dispatch |
| `CborGrammar`, `MsgPackGrammar` | the formats themselves, as trees, independent of the runtimes |
| `Runtime`, `CborRuntime`, `MsgPackRuntime` | the runtimes' writers, readers and skippers |
| `Schema`, `Packing`, `Unpacking` | schemas, objects, and what emitted pack and unpack compute |
| `Encoding`, `RoundTrip`, `PackCorrect`, `SchemaCodec` | when bytes encode an object, and the codec's theorems |
| `Emitted` | emitted pack and unpack as code over buffers, cursors and objects |
| `Ownership` | emitted clear, copy and move over a heap whose allocations may fail |
| `Utf8`, `JsonString`, `JsonLex`, `Decimal` | JSON strings, tokens and integer text |
| `JsonSkip`, `JsonHang`, `JsonGrammar`, `JsonTag` | skipping values, skips that do not end, JSON texts as trees, finding a union's tag |
| `JsonFields`, `JsonReading`, `JsonReader` | what the JSON runtime knows of a struct, what its readers compute, and the readers in place |
| `JsonInside`, `JsonLanding`, `JsonExact`, `JsonWhole`, `JsonCaught` | places inside a text, where a reader stops, and which values are read to their end |
| `JsonSelect`, `JsonWitness` | full against selective reading, and documents on which they part |
| `FieldTable`, `HashMap`, `Ordering` | the field table, the chained hash map, dependency-ordered emission |

## Where the code and its promises part

Each of these is proved, by a lemma that shows the failure and one that says exactly when the
promise is kept, or by an equivalence.

- A failed allocation of a string is written through instead of reported, so `_copy` returns -1
  exactly when the first allocation to fail is an array's (`Ownership.Copy`,
  `Ownership.AlwaysReportsIffNoText`; README.md:402-405 of the repository promises -1 always).
- A struct without fields does not skip the values of unknown entries; it succeeds exactly when
  the values it meets read as keys (`SchemaCodec.ExtensionsOfEmptyStructIff`).
- `\u` with characters that are no hexadecimal digits reads as U+0000 (`JsonString.ReadsAsRfcIffDigits`).
- A 64-bit field takes the nearest value it can hold for a number too wide (`Decimal.WideValuesAreClamped`),
  and the MessagePack integer readers wrap (`MsgPackGrammar.IntegersReadAsMeant`).
- The field table has a free slot for lookups to stop at exactly when there are no more structs
  than counted fields (`FieldTable.RoomFor`).
- The parse errors of arrays of scalars and of nested structs are dropped and reading goes on inside
  the value, so a selective read need not agree with a full one. `JsonWitness.FullReadMissesSelectedField`
  gives a document on which both succeed and a selected field differs. Both succeed, agree and end behind the
  object, under every mask and over every object, if and only if each member that names a field has a value its
  reader takes exactly to the end (`JsonSelect.AgreesIffExact`). Where the cursors end is part of it, though a
  caller of the emitted functions does not see them: for `{"b":5,"x":{}}` with an array `x`, results and fields
  agree under a mask that selects `b` alone, but the full read ends before the last brace
  (`JsonWitness.ReadsEndApart`).
- Which values these are `JsonExact.FieldExact` tells from the tokens. Arrays of scalars are read token by
  token, every second one an element whatever it is, so the condition there (`JsonExact.Steady`) is not the
  grammar's. The last element of a dynamic array of structs may also be left right before its own closing
  brace, because brace and bracket then end the array all the same; `JsonExact.LeftAtBrace` tells from the
  tokens when that happens, and `JsonCaught.StopsIffLeft` proves it equal to what the reader does. The array
  then ends up with an element too many: `JsonWitness.BracketAddsElement` reads `{"x":[{"a":null}]}` into two.
- Where a key of the document names a fixed array of structs the condition is still enough
  (`JsonSelect.SelectiveRefinesFull`) but no longer necessary: such an array takes its own closing bracket for
  one more element and can run on behind it, and in doing so undo an earlier misreading
  (`JsonWitness.OverrunAgrees`).
- On text that is no value the two JSON skippers may differ: they agree if and only if the brackets of
  the other kind balance where those of the opener's kind first do (`JsonSkip.SkipsAgreeIff`).
- The skippers need not end: on `[@` neither does (`JsonHang.SkipsHang`). They do not end exactly where
  the tokens lead, before the counters close, to one that does not move the cursor
  (`JsonHang.CountForeverIff`, `JsonHang.DepthSkipForeverIff`), and those tokens are known (`JsonHang.StuckIff`).

## Model

| member | source | states |
|---|---|---|
| SchemaCodec.PackThenUnpack | src/gencode/gencode_cbor.c:602-1018 | for every schema, every in-range object and any bytes behind it, in either format: unpacking what was packed succeeds into a fresh object that agrees on presence flags and on all present fields |
| SchemaCodec.PackThenUnpackVal | src/gencode/gencode_msgpack.c:602-1019 | the same for one value of any type, nested structs and unions included, with the cursor exactly behind its bytes |
| SchemaCodec.OrderAndExtensionsIgnored | src/gencode/gencode_cbor.c:848-1018 | entries in any order, with complete items under unknown keys in between, at every level, unpack to the same object as the packed bytes |
| SchemaCodec.ExtensionsOfEmptyStructIff | src/gencode/gencode_cbor.c:843-1018 | a struct without fields gets through unknown entries if and only if the bodies it takes for keys are text strings |
| SchemaCodec.OneofRoundTripsIffTagKnown | src/gencode/gencode_cbor.c:1066-1172 | a union packs and unpacks to the same tag and an agreeing payload if and only if its tag names a variant |
| SchemaCodec.UnknownTagIsRejected | src/gencode/gencode_cbor.c:1118-1172 | a union packed with a tag that names no variant is refused on unpacking |
| SchemaCodec.PackArrayThenUnpack | src/gencode/gencode_cbor.c:1022-1062 | an array packed by the wrapper unpacks to as many objects, agreeing one by one |
| RoundTrip.UnpackEncoded | src/gencode/gencode_cbor.c:707-1018 | any bytes that encode a value, whoever wrote them, unpack to it merged into the destination, and the skipper passes over exactly the same bytes |
| RoundTrip.UnpackTagged | src/gencode/gencode_cbor.c:1118-1172 | both passes over an encoded union recover its variant and payload wherever the tag's entry stands |
| RoundTrip.UnpackDoc | src/gencode/gencode_cbor.c:836-1018 | an encoded struct unpacks to the destination with its fields merged in, with the cursor behind it |
| RoundTrip.UnpackNoFields | src/gencode/gencode_cbor.c:843-1018 | how far the loop of a struct without fields gets, for every entry count |
| RoundTrip.TagIsFound | src/gencode/gencode_cbor.c:1118-1150 | the first pass finds the variant whatever entries come before and behind |
| PackCorrect.PackEncodes | src/gencode/gencode_cbor.c:500-703 | packed bytes of an in-range value encode it in the sense of the order-free relation |
| PackCorrect.PackedLayout | src/gencode/gencode_cbor.c:602-703 | the packed entries of a struct are its on-wire fields, each once, under their keys |
| PackCorrect.PackedOneof | src/gencode/gencode_cbor.c:1066-1116 | the spliced map of a union has the tag's entry and exactly the variant's entries, and is a layout of the variant |
| Emitted.PackAndUnpack | src/gencode/gencode_cbor.c:602-1018 | an object packed into a buffer and unpacked into a fresh object: success, agreement, source untouched |
| Emitted.PackValue | src/gencode/gencode_cbor.c:500-556 | appends exactly the specified bytes of a value |
| Emitted.PackStruct | src/gencode/gencode_cbor.c:602-703 | the counted header and the present fields in order: appends exactly the specified bytes |
| Emitted.CountFields | src/gencode/gencode_cbor.c:602-640 | starting from all fields and dropping the absent ones gives the number of fields on the wire |
| Emitted.PackBody | src/gencode/gencode_cbor.c:640-700 | nil, map, array or single value of a field: appends exactly the specified bytes |
| Emitted.PackElements | src/gencode/gencode_cbor.c:668-700 | the element loop appends the elements' bytes in order |
| Emitted.PackMap | src/gencode/gencode_cbor.c:657-667 | the entry loop appends keys and values in order |
| Emitted.PackOneof | src/gencode/gencode_cbor.c:1066-1116 | packing aside, reading the header back and splicing gives the union's specified bytes |
| Emitted.ReadBack | src/gencode/gencode_cbor.c:1090-1113 | the count and the raw entries of a packed variant |
| Emitted.UnpackStruct | src/gencode/gencode_cbor.c:836-1018 | the entry loop succeeds exactly when the specification does and writes the specified fields into the object |
| Emitted.UnpackEntryInto | src/gencode/gencode_cbor.c:843-1018 | one turn: dispatch on the key, read the field in place or skip |
| Emitted.UnpackOne | src/gencode/gencode_cbor.c:859-872 | nil for a nullable field, otherwise its value with the presence flag set |
| Emitted.UnpackInto | src/gencode/gencode_cbor.c:878-1010 | single, fixed, dynamic and map fields |
| Emitted.UnpackElements | src/gencode/gencode_cbor.c:899-1005 | each element is read over its own initial value |
| Emitted.UnpackMap | src/gencode/gencode_cbor.c:815-898 | keys and values of a map field |
| Emitted.SkipSurplus | src/gencode/gencode_cbor.c:980-1005 | elements beyond a fixed array's size are skipped |
| Emitted.UnpackValue | src/gencode/gencode_cbor.c:707-813 | one value; a nested struct or union is read from a sub-slice and the cursor advanced by skipping |
| Emitted.AdvancePast | src/gencode/gencode_cbor.c:788-808 | a second reader over the same bytes moves the first by one item |
| Emitted.ReadEnum | src/gencode/gencode_msgpack.c:765-800 | name, number or nil, told apart by the first octet |
| Emitted.UnpackTaggedUnion | src/gencode/gencode_cbor.c:1118-1172 | two passes over the same bytes |
| Emitted.ScanForTag | src/gencode/gencode_cbor.c:1118-1150 | the last entry under the tag's key that names a variant |
| Emitted.PackObjects | src/gencode/gencode_cbor.c:1022-1031 | the array wrapper appends the header and the objects |
| Emitted.UnpackObjects | src/gencode/gencode_cbor.c:1033-1062 | the array wrapper reads a header and that many initialised objects |
| Cbor.DecodeHeadOfHead | src/gencode/codes/cbor_codec.c:65-91 | a head of any major type and any 64-bit argument decodes to itself under any suffix |
| Cbor.HeadIsShortest | src/gencode/codes/cbor_codec.c:65-91 | no bytes that decode to the same head are shorter than the encoder's (section 4.1 of RFC 8949) |
| Cbor.IntRoundTrip | src/gencode/codes/cbor_codec.c:107-114 | every int64 reads back, and is skipped as one item |
| Cbor.UintRoundTrip | src/gencode/codes/cbor_codec.c:103-105 | every uint64 reads back, and is skipped as one item |
| Cbor.StrRoundTrip | src/gencode/codes/cbor_codec.c:134-141 | every string reads back, and is skipped as one item |
| Cbor.FloatRoundTrip | src/gencode/codes/cbor_codec.c:116-123 | a float's bits read back widened |
| Cbor.DoubleRoundTrip | src/gencode/codes/cbor_codec.c:125-132 | a double's bits read back |
| Cbor.SkipExtends | src/gencode/codes/cbor_codec.c:354-402 | what is skipped does not depend on the bytes behind it |
| Cbor.TextItem | src/gencode/codes/cbor_codec.c:316-328 | whether an item is a text string does not depend on the bytes behind it |
| CborGrammar.SkipIffItem | src/gencode/codes/cbor_codec.c:354-402 | the skipper succeeds and stops at t if and only if the bytes are one definite-length data item of appendix C of RFC 8949 followed by t |
| CborGrammar.NoItemIsAPrefix | src/gencode/codes/cbor_codec.c:354-402 | no data item is a proper prefix of another |
| CborGrammar.DecodeHeadBytes | src/gencode/codes/cbor_codec.c:178-207 | a head written in any width, shortest or not, decodes to its type and argument |
| CborGrammar.HeadOfDecoded | src/gencode/codes/cbor_codec.c:178-207 | only such heads decode |
| CborRuntime.EncodeHead | src/gencode/codes/cbor_codec.c:65-91 | appends the specified head |
| CborRuntime.DecodeHead | src/gencode/codes/cbor_codec.c:178-207 | reads the specified head and moves the cursor behind it |
| CborRuntime.UnpackInt64 | src/gencode/codes/cbor_codec.c:239-258 | signed integers within int64, anything else refused with the cursor put back |
| CborRuntime.UnpackUint64 | src/gencode/codes/cbor_codec.c:225-237 | unsigned integers, anything else refused with the cursor put back |
| CborRuntime.UnpackStr | src/gencode/codes/cbor_codec.c:316-328 | text strings within the buffer, anything else refused with the cursor put back |
| CborRuntime.UnpackDouble | src/gencode/codes/cbor_codec.c:284-314 | floats, doubles and integers as doubles; where a refusal leaves the cursor |
| CborRuntime.Skip | src/gencode/codes/cbor_codec.c:354-402 | the recursive skipper, with its result and the cursor's place also on failure |
| MsgPack.IntRoundTrip | src/gencode/codes/msgpack_codec.c:99-125 | every int64 reads back, and is skipped as one value |
| MsgPack.UintRoundTrip | src/gencode/codes/msgpack_codec.c:75-97 | every uint64 reads back, and is skipped as one value |
| MsgPack.StrRoundTrip | src/gencode/codes/msgpack_codec.c:145-166 | every string reads back, and is skipped as one value |
| MsgPack.ArrayHeaderRoundTrip | src/gencode/codes/msgpack_codec.c:172-186 | an array header reads back; skipping goes on with its elements |
| MsgPack.MapHeaderRoundTrip | src/gencode/codes/msgpack_codec.c:188-202 | a map header reads back; skipping goes on with twice its entries |
| MsgPack.SkipExtends | src/gencode/codes/msgpack_codec.c:468-593 | what is skipped does not depend on the bytes behind it |
| MsgPack.TextItem | src/gencode/codes/msgpack_codec.c:397-422 | whether a value is a string does not depend on the bytes behind it |
| MsgPackGrammar.SkipIffNode | src/gencode/codes/msgpack_codec.c:468-593 | the skipper succeeds and stops at t if and only if the bytes are one value (in any width, no binary or extension) followed by t |
| MsgPackGrammar.NoNodeIsAPrefix | src/gencode/codes/msgpack_codec.c:468-593 | no value is a proper prefix of another |
| MsgPackGrammar.IntegersReadAsMeant | src/gencode/codes/msgpack_codec.c:245-344 | an integer in any of its forms reads as its number; one outside the reader's range wraps; nothing else reads |
| MsgPackGrammar.PackedIntIsShortest | src/gencode/codes/msgpack_codec.c:75-125 | an integer is packed as a leaf that stands for it, and no other such leaf is shorter |
| MsgPackRuntime.PackInt | src/gencode/codes/msgpack_codec.c:99-125 | appends the specified bytes |
| MsgPackRuntime.PackUint | src/gencode/codes/msgpack_codec.c:75-97 | appends the specified bytes |
| MsgPackRuntime.PackStr | src/gencode/codes/msgpack_codec.c:145-166 | appends the specified header and octets |
| MsgPackRuntime.UnpackInt64 | src/gencode/codes/msgpack_codec.c:245-296 | all ten integer markers |
| MsgPackRuntime.UnpackUint64 | src/gencode/codes/msgpack_codec.c:298-344 | the same for an unsigned result |
| MsgPackRuntime.UnpackStr | src/gencode/codes/msgpack_codec.c:397-422 | strings with a length in any width |
| MsgPackRuntime.UnpackDouble | src/gencode/codes/msgpack_codec.c:367-395 | floats, doubles and integers as doubles |
| MsgPackRuntime.Skip | src/gencode/codes/msgpack_codec.c:468-593 | the recursive skipper, with its result and the cursor's place also on failure |
| Ownership.Copy | src/gencode/gencode.c:1495-1534 | null and self arguments; the first failing allocation decides between 0, -1 and undefined; on 0 equal content in new blocks, none shared; on -1 the destination blank; either way each block lost was freed once and the live blocks are exactly accounted for |
| Ownership.Move | src/gencode/gencode.c:1536-1553 | the destination's blocks freed, the source's handed over unchanged, the source blank |
| Ownership.FirstFailureDecides | src/gencode/gencode.c:1495-1534 | a copy's outcome in terms of the first allocation to fail, for every choice of failing allocations |
| Ownership.AlwaysReportsIffNoText | src/gencode/gencode.c:1273-1287 | a failing allocation is reported whatever it is if and only if the copy allocates no string |
| Ownership.StringAllocationFailureIsNotReported | src/utils/sstr.c:58-62 | one string and no memory: undefined behaviour, not -1 |
| Ownership.Clear | src/gencode/gencode.c:1107-1232 | frees all an object owns, each block once, and leaves it blank |
| Ownership.ClearList | src/gencode/gencode.c:1080-1105 | elements or entries first, then their block |
| Ownership.CopyRecord | src/gencode/gencode.c:1495-1534 | clear, members in order, clear again on failure: blocks traded exactly, plan followed exactly |
| Ownership.CopyFields | src/gencode/gencode.c:1507-1523 | what an unset flag hides is not copied; everything else is equal |
| Ownership.CopyInto | src/gencode/gencode.c:1289-1307 | one member by its kind, into storage that was blank |
| Ownership.CopyElements | src/gencode/gencode.c:1354-1462 | the element loop over zeroed storage keeps a half-done array clearable |
| Ownership.CopyList | src/gencode/gencode.c:1354-1436 | a block is made only for a non-empty array, checked before use |
| Ownership.CopyEntry | src/gencode/gencode.c:1309-1352 | a map entry's key, then its value |
| Ownership.CopyUnion | src/gencode/gencode.c:1680-1718 | clear, tag, the variant's copy; blank again on failure |
| Ownership.Dup | src/utils/sstr.c:75-90 | one unchecked allocation, or two beyond the inline capacity |
| Sstr.Run | src/utils/sstr.c:143-262 | any run of appends, zero fills and clears leaves what it leaves of a byte sequence, across short, promoted, reallocated and cleared states |
| Sstr.Buffer.Of | src/utils/sstr.c:75-90 | a new string holds its octets and a NUL |
| Sstr.Buffer.AppendOf | src/utils/sstr.c:180-219 | appends concatenate, writes stay inside the allocation, a NUL follows |
| Sstr.Buffer.AppendZero | src/utils/sstr.c:143-178 | the same for zero octets |
| Sstr.Buffer.Clear | src/utils/sstr.c:243-262 | empty afterwards |
| Sstr.Buffer.ClearFast | src/gencode/codes/json_parse.c:105-118 | empty afterwards with the buffer kept |
| Sstr.Compare | src/utils/sstr.c:104-126 | the sign orders contents lexicographically; null first |
| Sstr.LessIsTotal | src/utils/sstr.c:104-126 | exactly one of less, equal and greater |
| Sstr.LessIsTransitive | src/utils/sstr.c:104-126 | the order is transitive |
| JsonString.QuotedRoundTrips | src/utils/sstr.c:818-888 | every octet string, quoted and parsed, comes back with the cursor behind the closing quote |
| JsonString.AppendEscaped | src/utils/sstr.c:818-888 | the escaper that appends clean runs whole equals the octet-by-octet one |
| JsonString.ParseStringToken | src/gencode/codes/json_parse.c:464-601 | text and cursor of a string token, and where a failure leaves the cursor |
| JsonString.ReadEscape | src/gencode/codes/json_parse.c:501-580 | one escape, simple or `\u` |
| JsonString.Utf16LiteralToUtf8 | src/gencode/codes/json_parse.c:353-455 | one unit or a surrogate pair to UTF-8, with the cursor on success and failure |
| JsonString.ParseHex4 | src/gencode/codes/json_parse.c:326-350 | four digits in either case, or zero |
| JsonString.EscapeOfUnit | src/gencode/codes/json_parse.c:353-455 | a code point of the basic plane decodes to its UTF-8 form |
| JsonString.EscapeOfPair | src/gencode/codes/json_parse.c:382-412 | a surrogate pair decodes to the UTF-8 form of its code point |
| JsonString.PairNamesCodePoint | src/gencode/codes/json_parse.c:404-409 | the pair of section 7 of RFC 8259 is the only one that stands for its code point |
| JsonString.EscapeAcceptedIff | src/gencode/codes/json_parse.c:353-455 | accepted if and only if no surrogate stands alone, and then as the code point it names |
| JsonString.BadDigitsReadAsNul | src/gencode/codes/json_parse.c:326-350 | other characters read as U+0000 |
| JsonString.ReadsAsRfcIffDigits | src/gencode/codes/json_parse.c:326-455 | the decoder follows RFC 8259 if and only if the first four characters are digits |
| Utf8.DecodesExactlyEncodings | src/gencode/codes/json_parse.c:413-452 | the encoding is that of section 3 of RFC 3629: a strict decoder accepts it and nothing else |
| Utf8.EncodeInto | src/gencode/codes/json_parse.c:413-452 | the backward loop writes that encoding |
| JsonLex.NextToken | src/gencode/codes/json_parse.c:671-782 | kind, text and cursor of the next token |
| JsonLex.SkipSpaceComments | src/gencode/codes/json_parse.c:603-654 | white space and both kinds of comment |
| JsonLex.ScanNumber | src/gencode/codes/json_parse.c:708-744 | whole part, fraction, exponent, and which make a float |
| Decimal.AppendIntStr | src/utils/sstr.c:656-677 | every int, the least included, prints as its decimal text and fits its buffer |
| Decimal.AppendLongStr | src/utils/sstr.c:712-731 | the same for long |
| Decimal.AppendUint32Str | src/utils/sstr.c:733-740 | the same for uint32 |
| Decimal.AppendUint64Str | src/utils/sstr.c:742-749 | the same for uint64 |
| Decimal.FormatSigned | src/utils/sstr.c:425-441 | `%d` and `%l` print the same text as the scalar printers |
| Decimal.SprintfNum | src/utils/sstr.c:591-643 | padded digits, cut to the formatter's buffer |
| Decimal.WriteBackwards | src/utils/sstr.c:656-677 | the digit loop stays inside the buffer and writes the digits |
| Decimal.TextIsOneToken | src/gencode/codes/json_parse.c:706-744 | the tokenizer takes the whole text for one integer |
| Decimal.ReadsBack | src/gencode/codes/json_parse.c:789-824 | every value of a field's width reads back from its text |
| Decimal.WideValuesAreClamped | src/gencode/codes/json_parse.c:789-824 | which wider values are refused, and what a 64-bit field makes of the rest |
| JsonSkip.CountersFollowGrammar | src/gencode/codes/json_parse.c:1016-1042 | started at a value, the loop with two independent counters stops right behind it |
| JsonSkip.DepthFollowsGrammar | src/gencode/gencode.c:1842-1856 | so does the emitted loop that counts one kind of bracket |
| JsonSkip.SkipsAgreeIff | src/gencode/gencode.c:1842-1856 | on any text: from an opening bracket the two skips agree if and only if the other kind of bracket is balanced where this kind first is, or this kind never is; elsewhere if and only if there is a token and it closes nothing |
| JsonSkip.SkipsDifferOffGrammar | src/gencode/gencode.c:1842-1856 | a lone closing brace ends one skip and not the other |
| JsonHang.StuckIff | src/gencode/codes/json_parse.c:671-782 | a token, not the end, leaves the cursor where it is exactly if no gap comes before it and it is an octet that starts no token, or a string that goes wrong before its first four-digit escape |
| JsonHang.CountForeverIff | src/gencode/codes/json_parse.c:1016-1042 | on any text and from any counts the loop with two counters never ends if and only if some run of tokens leads to one that does not move the cursor, both counters never being zero behind a token of the run |
| JsonHang.DepthForeverIff | src/gencode/gencode.c:1842-1856 | the same for the emitted loop, whose one counter must stay above zero |
| JsonHang.DepthSkipForeverIff | src/gencode/gencode.c:1842-1856 | so the emitted skip never ends if and only if it starts at an opening bracket and does so behind it |
| JsonHang.SkipsHang | src/gencode/codes/json_parse.c:771-782 | on `[@` neither skip ends |
| JsonSkip.IgnoreValue | src/gencode/codes/json_parse.c:1016-1042 | result and cursor on any text, non-termination included |
| JsonSkip.SkipValueByDepth | src/gencode/gencode.c:1842-1856 | result and cursor on any text, non-termination included |
| JsonTag.ScanSeesOwnMembers | src/gencode/codes/json_parse.c:1286-1343 | on a well-formed object both tag scans see its own members only and find the first named so |
| JsonTag.ScanAndRestore | src/gencode/codes/json_parse.c:1286-1343 | the runtime's scan, cursor put back |
| JsonTag.ScanTagValue | src/gencode/gencode.c:1808-1856 | the scan loop with either skipper, on any text |
| JsonGrammar.TextIsValue | src/gencode/codes/json_parse.c:671-782 | every text of sections 2 to 7 of RFC 8259, white space, escapes with paired surrogates and numbers included, is one value to the tokenizer |
| JsonGrammar.TextIsSkipped | src/gencode/codes/json_parse.c:1016-1042 | so both skippers pass over it and nothing more |
| JsonGrammar.KeysAreMeant | src/gencode/codes/json_parse.c:1286-1343 | the members found in an object are those written, in order, under the keys their escapes mean |
| JsonGrammar.BodyReads | src/gencode/codes/json_parse.c:464-601 | a string of any well-formed pieces reads to the octets it means |
| JsonGrammar.NumeralIsToken | src/gencode/codes/json_parse.c:706-744 | every number of section 6 of RFC 8259 is one token |
| JsonSelect.AgreesIffExact | src/gencode/codes/json_parse.c:2092-2788 | on a well-formed object that names each field once and in which no key, at any depth, names a fixed array of structs, under any mask with any nested masks and over any object: both reads succeed and end behind the object, a selected field that is present gets what a full read into a cleared object gives it (projected by the masks of nested structs), and all others stay, if and only if every member that names a field is read exactly |
| JsonSelect.SelectiveRefinesFull | src/gencode/codes/json_parse.c:2092-2788 | the "if" for every schema, fixed arrays of structs included |
| JsonSelect.ObjectProjects | src/gencode/codes/json_parse.c:1063-1072 | a read under a mask with nested masks leaves, recursively, the projection of what a full read leaves |
| JsonSelect.UnselectedUntouched | src/gencode/codes/json_parse.c:1044-1059 | on any text whatever, a field that is not selected is not touched |
| JsonSelect.ObjectForArrayEndsTheStruct | src/gencode/codes/json_parse.c:2509-2583 | an empty object where an array of scalars is expected ends a full read of the struct with success; an unselecting read goes on behind it |
| JsonSelect.MembersApplied | src/gencode/codes/json_parse.c:2133-2235 | over members read exactly the loop is the members applied in order |
| JsonSelect.ApplyEffect | src/gencode/codes/json_parse.c:1139-1253 | a selected field holds what its one member leaves in a cleared field |
| JsonWitness.FullReadMissesSelectedField | src/gencode/codes/json_parse.c:2509-2583 | `{"x":{},"b":5}`: the full read leaves `b` cleared, the read of `b` alone gives 5, both report success |
| JsonWitness.ReadsEndApart | src/gencode/codes/json_parse.c:2509-2583 | `{"b":5,"x":{}}`: results and fields of the full read and of the read of `b` alone agree, only the second ends behind the object |
| JsonWitness.OverrunAgrees | src/gencode/codes/json_parse.c:2420-2474 | `{"x":[[{"y":999,"f":[{"a":[1]}]}]]}`: both reads agree although `x` is not read to its end |
| JsonWitness.BracketCounts | src/gencode/codes/json_parse.c:2420-2474 | in a fixed array of structs a closing bracket at an element's place counts as an element |
| JsonCaught.MembersCaught | src/gencode/codes/json_parse.c:2133-2212 | if the member loop ends with 0 behind the object, every value was read exactly |
| JsonCaught.FieldCaught | src/gencode/codes/json_parse.c:2213-2788 | a reader of any field kind that ends with 0 behind its value had a value of the exact form |
| JsonWitness.BracketAddsElement | src/gencode/codes/json_parse.c:1815-1922 | `{"x":[{"a":null}]}`, with a number `a` and a dynamic array `x` of such structs: read exactly and with success, and `x` holds a second, blank element |
| JsonCaught.StopsIffLeft | src/gencode/codes/json_parse.c:1840-1922 | whether the reader of an array's element stops right before the element's closing brace, with a result that is no error to the loop, is told by the element's tokens alone, for structs of any shape |
| JsonCaught.LeftCaught | src/gencode/codes/json_parse.c:2133-2788 | a member loop left right behind a member, whoever goes on there, was left so by a token of another kind, or by an object for that member the rest of which read as members of this struct |
| JsonWhole.LeftIsLeft | src/gencode/codes/json_parse.c:2133-2788 | such tokens leave it there, with a result that is no error to who goes on |
| JsonCaught.StructsCaught | src/gencode/codes/json_parse.c:1815-1922 | the same for dynamic arrays of structs, with the one exception at the last element |
| JsonCaught.UnionsCaught | src/gencode/codes/json_parse.c:1470-1554 | the same for dynamic arrays of unions |
| JsonCaught.UnionCaught | src/gencode/codes/json_parse.c:1368-1444 | the same for a union: an object whose first tag member names a variant, which is read exactly |
| JsonWhole.FieldIsWhole | src/gencode/codes/json_parse.c:2213-2788 | a value of the exact form is read with 0 to its end, whatever the mask and the object, for every field kind |
| JsonWhole.MembersAreWhole | src/gencode/codes/json_parse.c:2133-2212 | so is an object of such values |
| JsonWhole.StructsAreWhole | src/gencode/codes/json_parse.c:1815-1922 | so is an array of structs, dynamic or fixed, with room for it |
| JsonWhole.ScalarArrayIff | src/gencode/codes/json_parse.c:1559-1672 | a dynamic array of scalars or enums is left behind its value if and only if the value is one token or its tokens are steady |
| JsonExact.PairsIff | src/gencode/codes/json_parse.c:1559-1606 | the loop that takes every second token for an element ends at the array's own bracket if and only if no bracket is opened, no element refused, and a fixed array has room |
| JsonExact.EnumsIff | src/gencode/codes/json_parse.c:959-1010 | the enum loop, commas optional, ends at its bracket if and only if every element is a name or number it takes |
| JsonExact.MapIff | src/gencode/codes/json_parse.c:1931-2090 | a map is read to its end if and only if it is null or each value is one token that is not refused |
| JsonExact.MapsIff | src/gencode/codes/json_parse.c:2227-2310 | an array of maps likewise, map by map |
| JsonExact.ScalarOutcome | src/gencode/codes/json_parse.c:789-956 | 0 exactly for a fitting token, -1 exactly for one of the right kind that does not fit |
| JsonLanding.MembersLand | src/gencode/codes/json_parse.c:2133-2212 | on a well-formed object the member loop ends fatally, inside it, or with 0 at its end, never behind it |
| JsonLanding.PairsLand | src/gencode/codes/json_parse.c:1559-1606 | from any place in an array the element loops end no later than the array does |
| JsonInside.RunOverValue | src/gencode/codes/json_parse.c:671-782 | the places before and behind a value have the same brackets open, closed by the same tokens |
| JsonInside.RunSplits | src/gencode/codes/json_parse.c:671-782 | inner brackets close before outer ones |
| JsonReader.UnmarshalSelected | src/gencode/codes/json_parse.c:2092-2788 | the reader over a cursor and an object in place: what is not selected is not touched on any text, and on objects read exactly the refinement holds |
| JsonReader.UnmarshalStruct | src/gencode/codes/json_parse.c:2092-2128 | depth, the end of the text and the bracket an array element may meet, then the members |
| JsonReader.UnmarshalMembers | src/gencode/codes/json_parse.c:2133-2212 | result, slots and cursor of the member loop, on any text |
| JsonReader.UnmarshalMember | src/gencode/codes/json_parse.c:2166-2225 | lookup, selection, clearing, null, value |
| JsonReader.UnmarshalSingle | src/gencode/codes/json_parse.c:2617-2785 | scalar, nested struct under its nested mask, union or map; of a nested struct's results only -1 counts |
| JsonReader.UnmarshalFixed | src/gencode/codes/json_parse.c:2227-2476 | the empty array that changes nothing, the bound, the flag; maps fail before anything is read, their length field missing |
| JsonReader.UnmarshalDynamic | src/gencode/codes/json_parse.c:2478-2616 | which results of array readers are dropped and which are passed up |
| JsonReader.UnmarshalPairs | src/gencode/codes/json_parse.c:1559-1922 | the element loops of scalars, structs and fixed arrays, odd separators and all |
| JsonReader.UnmarshalEnums | src/gencode/codes/json_parse.c:959-1010 | the enum loop, its lost elements and its endless one included |
| JsonReader.UnmarshalUnion | src/gencode/codes/json_parse.c:1368-1444 | two passes over the same object |
| JsonReader.UnmarshalUnions | src/gencode/codes/json_parse.c:1470-1554 | the loop over unions, whose separator is put back unless it is a comma |
| JsonReader.UnmarshalMap | src/gencode/codes/json_parse.c:1931-2090 | the entry loop; a value of another kind leaves its entry's storage unwritten |
| JsonReader.UnmarshalMaps | src/gencode/codes/json_parse.c:2228-2310 | the loop over maps |
| JsonReader.UnmarshalScalar | src/gencode/codes/json_parse.c:789-956 | integers, floats as text, strings and enums, and which token number a mismatch returns |
| FieldTable.GenCodeOffsetMap | src/gencode/gencode.c:2339-2396 | the finished table: every item on its probe path, with earlier items on the steps before |
| FieldTable.GenHashArr | src/gencode/gencode.c:2038-2050 | the next item goes to the first free slot from its home on |
| FieldTable.RoomFor | src/gencode/gencode.c:2011-2027 | every insertion finds a slot iff structs exceed the counted fields by one at most; a slot stays free iff they do not exceed them |
| FieldTable.SlotsTaken | src/gencode/gencode.c:2038-2050 | as many slots are taken as items were inserted, so a free one is left unless the table is full |
| FieldTable.OneEmptyStructFillsTheTable | src/gencode/gencode.c:2378-2382 | a schema of one empty struct leaves no slot for a failing lookup to stop at |
| FieldTable.ItemFind | src/gencode/codes/json_parse.c:218-243 | probing returns the first inserted item of that struct and key, or none |
| FieldTable.ItemFindPrehashed | src/gencode/codes/json_parse.c:247-274 | so does the lookup with the struct's hash computed beforehand, for keys without a NUL; otherwise it finds nothing or an item of that C name |
| FieldTable.LinearFindsFirst | src/gencode/codes/json_parse.c:218-243 | the linear search both are compared with finds the first item, and none exactly when there is none |
| HashMap.Run | src/utils/hash_map.c:128-196 | any run of inserts and deletes leaves what it leaves of a finite map, whatever the hashes |
| HashMap.Table.Insert | src/utils/hash_map.c:128-162 | a new key is bound, a duplicate or failed allocation changes no binding, and the load bound holds |
| HashMap.Table.ResizeIfNeeded | src/utils/hash_map.c:75-119 | doubling keeps every binding and makes room |
| HashMap.Table.RehashBucket | src/utils/hash_map.c:96-112 | one bucket's entries, each relinked to the front of its new chain |
| HashMap.MoveChain | src/utils/hash_map.c:98-111 | every entry of an old chain is in the new chain its key hashes to, once |
| HashMap.Table.Find | src/utils/hash_map.c:164-175 | the binding, or not found |
| HashMap.Table.Delete | src/utils/hash_map.c:177-196 | unlinks the key's entry wherever it is in its chain and no other |
| HashMap.Table.ForEach | src/utils/hash_map.c:198-208 | visits each binding once; the size is their number |
| HashMap.Walk | src/utils/hash_map.c:136-146 | the first entry of a chain with a key, and the one before it |
| Ordering.AcceptsIffAcyclic | src/gencode/gencode.c:2848-2868 | the bounded passes emit every type if and only if every dependency is declared and none is circular, in whatever order the types are visited |
| Ordering.EmittedIsSound | src/gencode/gencode.c:2407-2453 | accepted or not, each emitted type is emitted once and after all it waits for |
| Ordering.EarlyExitIsHarmless | src/gencode/gencode_rust.c:526-538 | giving up after a pass that emits nothing changes nothing |
| Ordering.EnumsMatterIffWaitedFor | src/gencode/gencode_rust.c:519-523 | marking enums emitted changes acceptance exactly when a type waits for an enum |
| Ordering.GeneratorsAgree | src/gencode/gencode_rust.c:422-446 | on a parsed and validated schema both generators see the same dependencies and accept alike |
| Ordering.GencodeSource | src/gencode/gencode.c:2848-2868 | the C loop: its output, and its verdict if and only if closed and acyclic |
| Ordering.GencodeRust | src/gencode/gencode_rust.c:497-549 | the Rust loop with its early exit: the same |
| Ordering.RegisteredApart | src/struct/struct_parse.c:694-738 | a list of types registers if and only if no two share a name; then the three tables are disjoint |

## Left out

- SchemaCodec.PackThenUnpack: float fields take narrowing after widening to be the identity on the value, because float conversions are parameters; strings and key counts are below 2^31.
- SchemaCodec.OrderAndExtensionsIgnored: a struct without fields is covered only when the bodies it meets read as keys, which is exactly when the code manages (ExtensionsOfEmptyStructIff).
- Emitted.UnpackStruct: after a failure only the object's shape is promised, not which fields were already written; embedded structs are values inside their parent, so aliasing inside one object is not modelled.
- Emitted.UnpackObjects: the clean-up of the elements read before a failure is not modelled.
- Ownership.Copy: an embedded struct is a value inside its parent; addresses inside one object are not modelled. Strings that only refer to foreign memory are left out.
- JsonSelect.AgreesIffExact: not for objects one of whose keys names a fixed array of structs, where the condition is sufficient (SelectiveRefinesFull) but not necessary (JsonWitness.OverrunAgrees).
- JsonReader.UnmarshalScalar: a float is held as the text of its token; conversion and range are the C library's.
- JsonReader.UnmarshalMap: struct-valued maps, whose entries the code does not initialise (src/gencode/codes/json_parse.c:2057-2071).
- Fixed arrays of maps: the table generator writes the entry of a single map for them (src/gencode/gencode.c:2120-2143), which is the field this model then has.
- JsonReader.UnmarshalUnion: a union that already holds another variant is read over as if cleared; the code reads over that variant's bytes.
- JsonReader.UnmarshalMember: a key that holds a NUL is looked up as its C string; the code hashes the whole text (src/gencode/codes/json_parse.c:247-274), so such a key is in general not found.
- JSON reading: the separate `_len` keys, what a field holds after a failed read of its value, cleaning up after failures, and failing allocations.
- FieldTable.ItemFindPrehashed: for keys that hold a NUL only that an item found bears the C string as its name; the hash covers the whole text.
- CborRuntime.Skip: the bounds test at src/gencode/codes/cbor_codec.c:366 is read over unbounded integers, so a length near 2^64 does not wrap.
- MsgPackRuntime.Skip: recursion depth of the C stack is not modelled, here or elsewhere.
- Binary arrays of maps and struct-valued maps: the templates do not write the first (src/gencode/gencode_cbor.c:552) and do not initialise the second (src/gencode/gencode_cbor.c:883).
- The MessagePack number readers and the enum readers of both formats (src/gencode/gencode_cbor.c:770-771) look at the next octet without a bounds test at the end of the input; the model reads that as failure.
- Bit operations on disjoint bits are written as sums, masks and shifts as remainders and quotients.
- JSON marshalling of whole documents: a map field can produce two commas (src/gencode/gencode.c:781-784) and an indented union a trailing one (src/gencode/gencode.c:1778-1781).
- Error message texts, line and column counts, float text, `sstr_parse_long`, appending a buffer to itself, lengths beyond 31 bits.
- The hash function's body: hashes are arbitrary.
- The compatibility checker, the language server, diagnostics, the C, C++, Rust and Go text of the generators.
