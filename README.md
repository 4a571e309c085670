# eipp in Dafny

eipp is a header-only C++ wrapper around erl_interface. It decodes and encodes
Erlang External Term Format buffers. This project models its core, `eipp.h`.

**Decoding.** A C++ type list describes what to decode: `Long`, `Double`,
`String`, `Binary`, `Tuple<...>`, `MultiTypeList<...>`, `List<T>` and `Map<K, V>`.
Here that type list is a `Schema` value.

- A fresh node of the schema's class decodes itself at a cursor.
- A compound reads its header, then pushes one child per slot onto its owner
  vector. A sole type gives `arity` slots; several types give one slot per type.
  The first child that returns -1 ends the decode.
- A map reads its header, then `arity` rounds of a key and a value. A pair is
  pushed onto the owner vector and recorded in the projection (`add_to_value`)
  only when both its key and its value decoded.
- An `EIDecoder` session reads the version byte once. Each `parse<T>()` decodes
  one root at the cursor and keeps it. The session's result code is overwritten
  by every step, so `is_valid()` only describes the latest step.

The decode is given twice:

- `DecodeSpec` states it as pure functions;
- `Decoder` runs it as the C++ code does, with loops, an owner vector and a
  projection map. Its methods are proved to compute those functions.

The typed accessors `get<i>()` and the `List<T>` iterator are functions on a
decoded node. `DecodeShaped` proves that their `dynamic_cast`s always succeed.

**Encoding.** An `EIEncoder` keeps a stack of growable buffers. The bottom one
is the base buffer and starts with the version byte.

- `encode` picks its overload from the C++ type of the value. That type is the
  constructor of `Host`.
- A list, tuple or map opens a scratch buffer (`CompoundEncoder`) and encodes
  its members into it. When the scratch buffer goes out of scope, it writes the
  header into the buffer below, followed by the scratch bytes.
- Every `encode` call appends exactly `Encoding(h)` to the buffer on top and
  leaves the stack as deep as it found it.

**Round trip.** `RoundTrip.Decoded` proves the decoder rebuilds the host's node
from what the encoder wrote. It needs the host to match the schema (`Matches`):
a list matches `List<T>` or `MultiTypeList<...>`, and a tuple matches `Tuple<...>`.
A schema with a sole type T, such as `Tuple<T>`, takes any number of members of
type T. A schema with several types takes exactly one member per type.

The decoder never reads the NIL terminator that the list overload writes after
a list's elements: `CompoundType::decode` reads a list header and then exactly
`arity` children. So a decode stops `Trailer(h)` bytes before the end of the
encoding. A list followed by a sibling sends the sibling's decoder onto that
terminator. The round trip is therefore proved for hosts in which no list is
followed by a sibling (`ListsLast`). Two concrete lemmas show what goes wrong
otherwise:

- `ListThenLongFails`: a tuple of a list and an integer returns -1;
- `ListOfListsMisread`: a list of two lists returns 0 and turns `{2}` into `{}`.

**Primitive codec.** erl_interface's `ei.h` is not part of this model. `Etf`
stands in for the `ei_decode_*` and `ei_x_encode_*` functions it uses. It keeps
the real tag values and the widths of the length and arity fields:

- `SMALL_INTEGER_EXT`, `INTEGER_EXT` and `SMALL_BIG_EXT` for integers;
- `NEW_FLOAT_EXT` with eight opaque bytes for doubles;
- `STRING_EXT` for strings; `NIL_EXT` also decodes as the empty string and as
  the empty list header;
- `BINARY_EXT` for binaries;
- small and large tuple headers, `LIST_EXT` and `MAP_EXT`.

Header arities are read as a C `int`, so a negative arity gives no rounds.
Each primitive encoder, the version byte included, has a round-trip lemma with its decoder.

## Model

| member | source | states |
|---|---|---|
| Etf.ToLong | eipp.h:570-575 | `(long)arg` wraps modulo 2^64: the result fits a `long`, is congruent to the argument, and equals it when the argument already fits |
| Etf.DecodeVersion | eipp.h:443-446 | the version read succeeds exactly on a leading version byte, yields that byte and moves the cursor past it |
| Etf.VersionRoundTrip | eipp.h:497-501 | the version byte a fresh encoder writes is accepted by the version read of `EIDecoder`, which moves past it |
| Etf.LongRoundTrip | eipp.h:100-104 | `LongDecoder` reads back any `long` the integral overloads wrote, and moves past exactly its bytes |
| Etf.Int32RoundTrip | eipp.h:100-104 | an INTEGER_EXT term reads back the 32-bit `int` it holds, negative ones included |
| Etf.BigRoundTrip | eipp.h:100-104 | a SMALL_BIG_EXT term reads back the sign and the magnitude of a `long` outside the `int` range |
| Etf.DoubleRoundTrip | eipp.h:106-110 | `DoubleDecoder` reads back the bits of the double the floating overload wrote |
| Etf.StringRoundTrip | eipp.h:112-126 | `StringDecoder` reads back the bytes the string overload wrote, and their length |
| Etf.BinaryRoundTrip | eipp.h:128-142 | `BinaryDecoder` reads back the bytes a binary encode wrote |
| Etf.TupleHeaderRoundTrip | eipp.h:535-548 | the tuple header the tuple overload writes decodes to its field count, small or large form |
| Etf.ListHeaderRoundTrip | eipp.h:515-532 | the list header the list overload writes decodes to the element count |
| Etf.MapHeaderRoundTrip | eipp.h:551-568 | the map header the map overload writes decodes to the entry count |
| Terms.Default | eipp.h:179 | a freshly constructed node (`value(T())`, `arity(0)`) already has its schema's class |
| Terms.ProjectAppend | eipp.h:342-344 | recording one more pair changes the projection by exactly one insert of that pair |
| Terms.ProjectKeys | eipp.h:355-380 | the projection's keys are exactly the keys of the recorded pairs: a leaf key by its value, a compound key by its node |
| Terms.ProjectLastWins | eipp.h:355-380 | a key maps to the value of the last recorded pair that carries it |
| Terms.GetValue | eipp.h:202-206 | `get<i>()` on a leaf slot returns the value of child i, of slot i's type |
| Terms.GetNode | eipp.h:208-212 | `get<i>()` on a compound slot returns child i itself, of slot i's class |
| Terms.Iterate | eipp.h:238-293 | iterating a `List<T>` yields its children in decode order, each of class T |
| DecodeSpec.Decode | eipp.h:87-89 | every decode returns 0 or -1 |
| DecodeSpec.Run | eipp.h:145-169 | the child run pushes at most one child per slot, and one for every slot when it returns 0 |
| DecodeSpec.Pairs | eipp.h:333-347 | the pair loop pushes at most two nodes per round, and exactly two per round when it returns 0 |
| DecodeSpec.RunTrace | eipp.h:148-159 | child m of a run is the decode of slot m at the cursor where child m-1 stopped |
| DecodeSpec.RunEnd | eipp.h:148-159 | a run leaves the cursor where its last child stopped |
| DecodeSpec.RunStatus | eipp.h:148-159 | a run stops at its first failure: all children but the last succeeded, and the last failed exactly when the run returns -1 |
| DecodeSpec.RunBounds | eipp.h:148-159 | a run moves the cursor forward and stays inside the buffer when every child's decode does |
| DecodeSpec.PairsTrace | eipp.h:333-345 | every recorded pair is a key and then a value, both successful, each read where the previous one stopped; after -1 the pair that failed is recorded nowhere |
| DecodeSpec.PairsEven | eipp.h:342-343 | pairs are pushed whole, so the owner vector of a map has even length |
| DecodeSpec.PairsBounds | eipp.h:333-345 | the pair loop moves the cursor forward and stays inside the buffer when the key and value decodes do |
| DecodeSpec.HeaderFailurePropagates | eipp.h:214-229 | a failed header returns -1 at once, leaves the cursor and keeps no child |
| DecodeSpec.CompoundTrace | eipp.h:214-229 | after a header with arity a, a sole type is decoded a times and several types once each; child m is slot m decoded where child m-1 stopped; the decode stops at its first failing child and returns -1 exactly then |
| DecodeSpec.EntryDecodes | eipp.h:333-340 | pair p's key is a fresh key decoded where pair p-1 ended, and its value a fresh value decoded right after the key |
| DecodeSpec.MapTrace | eipp.h:328-348 | after a header with arity a, at most a pairs are kept, all a exactly when the decode returns 0, each with a successful key and value; the projection holds the inserts of the kept pairs |
| DecodeSpec.DecodeAdvances | eipp.h:87-89 | every decode moves the cursor forward and, started inside the buffer, stays inside it |
| DecodeSpec.DecodeShaped | eipp.h:202-212 | every decode, failed or not, builds nodes of its schema's classes all the way down, so every accessor's `dynamic_cast` succeeds |
| Decoder.DecodeNode | eipp.h:150-151 | `new T()` and then `decode` computes `Decode` |
| Decoder.CompoundDecoder | eipp.h:145-169 | `compound_decoder<Ts...>` pushes the run of the remaining types onto the vector it is given |
| Decoder.SoleTypeLoop | eipp.h:218-222 | the sole-type loop computes the run of `arity` slots, none for a negative arity |
| Decoder.CompoundTypeDecode | eipp.h:214-229 | `CompoundType::decode` computes `DecodeCompound` |
| Decoder.AddToValue | eipp.h:355-380 | `add_to_value` adds the pair's key, maps it to the pair's value and leaves every other key alone |
| Decoder.MapTypeDecode | eipp.h:328-348 | `MapType::decode` computes `DecodeMap` |
| Decoder.PairLoop | eipp.h:333-347 | the loop of `MapType::decode` computes `Pairs`, and its projection is the projection of its owner vector |
| Session.EIDecoder.constructor | eipp.h:443-446 | the session starts with no roots and records the version read: code 0, version and cursor after it, or -1 with both left at 0 |
| Session.EIDecoder.IsValid | eipp.h:458-460 | the session is valid exactly when the last result code is 0 |
| Session.EIDecoder.ParseNode | eipp.h:463-482 | a parse decodes one root at the cursor, keeps it after the earlier roots, overwrites the result code, moves the cursor forward and leaves the version |
| Session.EIDecoder.ParseValue | eipp.h:463-471 | `parse<T>()` of a leaf returns the root's value, the default one with the cursor unmoved when the decode failed |
| Session.EIDecoder.ParseCompound | eipp.h:474-482 | `parse<T>()` of a compound or map returns the root node itself, of the schema's class |
| Hosts.CStr | eipp.h:589-597 | a C string's contents are its longest prefix without NUL, ended by a NUL or by the end of the buffer |
| Hosts.CStrNoNul | eipp.h:589-597 | bytes without a NUL are their own C-string contents |
| Hosts.EncodingTag | eipp.h:515-606 | every overload's bytes start with the tag of its term |
| Encoder.EIEncoder.constructor | eipp.h:497-501 | a fresh encoder has only the base buffer, holding the version byte |
| Encoder.EIEncoder.GetData | eipp.h:609-612 | `get_data()` returns the base buffer, which starts with the version byte |
| Encoder.EIEncoder.Write | eipp.h:661-663 | a primitive encode appends to the buffer on top of the stack and to no other |
| Encoder.EIEncoder.EncodeIntegral | eipp.h:570-581 | the integral overloads append the `long` encoding of the wrapped value |
| Encoder.EIEncoder.EncodeFloating | eipp.h:583-587 | the floating overload appends the double's encoding |
| Encoder.EIEncoder.EncodeCString | eipp.h:589-597 | the `char*` overload appends a string, or a binary for another type tag, of the bytes before the first NUL |
| Encoder.EIEncoder.EncodeStdString | eipp.h:599-606 | the `std::string` overload appends a string by default and a binary for another type tag |
| Encoder.EIEncoder.Encode | eipp.h:515-606 | every overload appends exactly the host's encoding to the buffer on top and leaves the stack as deep as it was |
| Encoder.EIEncoder.EncodeList | eipp.h:515-532 | the list overload appends the list header, the elements in list order and the NIL terminator |
| Encoder.EIEncoder.EncodeTuple | eipp.h:535-548 | the tuple overload appends the tuple header and the fields in index order |
| Encoder.EIEncoder.TupleEncoderHelper | eipp.h:639-656 | `TupleEncoderHelper<N>` appends the last N fields in index order, and nothing for N = 0 |
| Encoder.EIEncoder.EncodeEntry | eipp.h:564-567 | one round of the map overload appends the key's encoding and then the value's |
| Encoder.EIEncoder.EncodeMap | eipp.h:551-568 | the map overload appends the map header and every entry's key and value in iteration order |
| Encoder.CompoundEncoder.constructor | eipp.h:619-623 | pushes an empty scratch buffer and changes nothing below it |
| Encoder.CompoundEncoder.Finish | eipp.h:625-634 | pops the scratch buffer and appends the header and then the scratch bytes to the buffer now on top |
| RoundTrip.Decoded | eipp.h:214-229 | decoding a matching host's encoding succeeds, rebuilds the host's node and stops right before the trailing list terminators |
| RoundTrip.CompoundDecoded | eipp.h:214-229 | the same for a list or a tuple: its header and then its members |
| RoundTrip.MapDecoded | eipp.h:328-348 | the same for a map: its header and then its entries |
| RoundTrip.RunReadsBack | eipp.h:148-159 | a run over consecutive member encodings rebuilds every member node when each slot reads back its own member |
| RoundTrip.PairsReadBack | eipp.h:333-345 | the pair loop over consecutive key and value encodings rebuilds every key and value node |
| Scenarios.ParseCase1 | test.cpp:37-55 | `parse<Long>()` on the version byte and SMALL_INTEGER_EXT 101 is valid and yields 101 |
| Scenarios.Case2Decodes | test.cpp:57-98 | the 4-tuple of case 2 decodes into its string, binary, 222 and 1.23, and the decode ends at the end of the buffer |
| Scenarios.ParseCase2 | test.cpp:57-98 | `parse<Tuple<String, Binary, Long, Double>>()` on case 2 is valid and `get<0>()` .. `get<3>()` yield "v1string", "v2binary", 222 and 1.23 |
| Scenarios.ResultNotSticky | eipp.h:463-471 | a failed `parse<Long>()` makes the session invalid, and a following successful `parse<String>()` at the unmoved cursor makes it valid again |
| Scenarios.EncodeTerm | eipp.h:609-612 | after `encode(h)` on a fresh encoder, `get_data()` is the version byte followed by the host's encoding |
| Scenarios.EncodeThenParse | eipp.h:463-482 | parsing the encoder's data with a matching schema, by the leaf or the compound `parse<T>()`, is valid and yields the host's node |
| Scenarios.PairAsSoleTuple | eipp.h:217-222 | a two-field tuple encoded and parsed as the sole-type `Tuple<Long>` is valid and yields both fields: the loop runs the header's arity |
| Scenarios.ListAsMultiTypeList | eipp.h:223-225 | a two-element list encoded and parsed as `MultiTypeList<Long, Long>` is valid and yields both elements, one per type |
| Scenarios.Case4Node | eipp.h:355-380 | a map whose two entries carry the same key keeps both pairs among its children, and its projection binds the key once, to the second entry's tuple |
| Scenarios.ParseCase4 | test.cpp:128-156 | `parse<Map<Long, Tuple<Long, Long, String>>>()` over encoded data with a repeated key is valid, keeps both pairs and binds the key to the last tuple |
| Scenarios.ListThenLongFails | eipp.h:218-222 | the encoding of a tuple of a one-element list and an integer, decoded with its own schema, returns -1 |
| Scenarios.ListOfListsMisread | eipp.h:218-222 | the encoding of a list of two lists, decoded with its own schema, returns 0 but turns the second list into an empty one |

## Left out

- The `ei.h` byte layouts are simplified as described above. Only the forms the encoder writes and a few alternatives are decoded. Atoms, references, ATOM_EXT and LIST_EXT strings, LARGE_BIG_EXT and the old float format are not modelled.
- Hosts.WellFormed: excludes strings of 65536 bytes or more. The string overloads accept them and `ei` writes them as LIST_EXT strings, which this codec has no form for, so such strings are left out of both encoding and decoding.
- A primitive read past the end of the buffer fails in the model. In C it reads out of bounds.
- Terms.KeyOf, Terms.Project, Decoder.AddToValue: a `Double` map key is compared by its eight bytes. `std::map<double, ...>` compares keys with `<`, so +0.0 and -0.0 are one key there and two here, and NaN keys, which break `std::map`'s ordering, are ordinary keys here.
- Doubles are eight opaque bytes. No floating-point arithmetic is modelled, so the `v4 - 1.23 > 0.01` comparison of test.cpp becomes equality of the bits.
- `StringDecoder` and `BinaryDecoder` first call `ei_get_type` to size their buffer. The model folds that call into the string and binary reads.
- Nodes are values, not heap objects. Aliasing, ownership, the destructors and the pairs the map loop allocates and never frees when it returns -1 are not modelled.
- `std::map`'s ordering of keys is not modelled: a projection is a Dafny `map`, and a compound key is identified by its slot in the owner vector, which stands for its pointer.
- The map overload takes the entries in the order given, which stands for the map's iteration order.
- The `std::cout` lines of the list, tuple and map overloads are left out, because they do not affect the bytes.
- `Atom` is not defined in `eipp.h`. Test case 3 and the encode example of `test.cpp` use it, so they are left out.
- Test case 4 only prints the map it decodes, and its data file is not available. `Scenarios.ParseCase4` decodes its schema over data the encoder wrote instead, with one key repeated.
- The `long long` overload is folded into `Integral`, because both write the same bytes for a 64-bit value.
- `std::vector` fails eipp's `is_list`, so it selects no overload. The model has no vector host.
- A tuple with no fields selects no overload (`tuple_size` is 0), so `WellFormed` excludes it.
- `get<i>()` on a `List<T>` is not modelled. `List<T>` has the one type T, so only `get<0>()` compiles; the iterator is the access to a list that is modelled.
- RoundTrip.Decoded: holds only for hosts where no list is followed by a sibling (`ListsLast`). The decoder leaves the list terminator unread, and `ListThenLongFails` and `ListOfListsMisread` show the other cases.
- Scenarios.EncodeThenParse: requires `ListsLast` for the same reason.
- Compile-time overload selection and the template metaprogramming behind it are represented by the `Host` and `Schema` constructors. They are not modelled separately.
