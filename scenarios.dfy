/** Whole sessions over concrete buffers and hosts: the decode cases of the
    repository's test program, the result code that follows only the latest
    parse, an encode followed by a parse of the encoder's data, and the two
    shapes the round trip does not survive because the decoder leaves a
    list's terminator unread. */
module Scenarios {
  import opened Etf
  import opened Terms
  import opened DecodeSpec
  import opened Hosts
  import opened Session
  import opened Encoder
  import opened RoundTrip

  // ---------------------------------------------------------------------
  // The decode cases of test.cpp

  /** Case 1: a version byte and SMALL_INTEGER_EXT 101. */
  function Case1(): seq<byte> { [VERSION_MAGIC, SMALL_INTEGER_EXT, 101] }

  /** `parse<Long>()` on case 1 is valid and yields 101. */
  method ParseCase1() returns (v: Value, valid: bool)
    ensures valid && v == IntegerValue(101)
  {
    var d := new EIDecoder(Case1());
    v := d.ParseValue(Long);
    valid := d.IsValid();
  }

  /** The bytes of "v1string" and "v2binary". */
  const V1STRING: seq<byte> := [118, 49, 115, 116, 114, 105, 110, 103]
  const V2BINARY: seq<byte> := [118, 50, 98, 105, 110, 97, 114, 121]
  /** The bits of the double nearest to 1.23, most significant byte first. */
  const ONE_POINT_23: float64 := [63, 243, 174, 20, 122, 225, 71, 174]

  /** The schema of case 2: `Tuple<String, Binary, Long, Double>`. */
  function Case2Schema(): Schema { Tuple([String, Binary, Long, Double]) }

  /** Case 2: a 4-tuple of a string, a binary, 222 and 1.23. */
  function Case2(): seq<byte>
  {
    [VERSION_MAGIC, SMALL_TUPLE_EXT, 4]
    + [STRING_EXT, 0, 8] + V1STRING
    + [BINARY_EXT, 0, 0, 0, 8] + V2BINARY
    + [SMALL_INTEGER_EXT, 222]
    + [NEW_FLOAT_EXT] + ONE_POINT_23
  }

  /** The children case 2 decodes to, in order. */
  function Case2Children(): seq<Node>
  {
    [Single(StringValue(V1STRING)), Single(BinaryValue(V2BINARY)), Single(IntegerValue(222)),
     Single(FloatValue(ONE_POINT_23))]
  }

  /** Decoding case 2 after its version byte fills all four slots and ends at the buffer's end. */
  lemma Case2Decodes()
    ensures Decode(Case2Schema(), Case2(), 1) == Outcome(0, Compound(4, Case2Children()), |Case2()|)
  {
    assert At(Case2(), 1, EncodeTupleHeader(4));
    TupleHeaderRoundTrip(Case2(), 1, 4);
    Case2Run();
    CompoundClosed(Case2Schema(), Case2(), 1, 4, 3);
  }

  /** The four field slots of case 2, from behind the tuple header to the end of the buffer. */
  lemma Case2Run()
    ensures Run(SlotDecoder(Case2Schema().Types(), Case2()), 0, 4, 3) == Children(0, Case2Children(), 38)
  {
    var f := SlotDecoder(Case2Schema().Types(), Case2());
    Case2String();
    Case2Binary();
    Case2Long();
    Case2Double();
    assert Run(f, 4, 4, 38) == Children(0, [], 38);
    assert Run(f, 3, 4, 29) == Children(0, [Single(FloatValue(ONE_POINT_23))], 38);
  }

  /** Slot 0 of case 2 reads STRING_EXT "v1string". */
  lemma Case2String()
    ensures SlotDecoder(Case2Schema().Types(), Case2())(0, 3) == Outcome(0, Single(StringValue(V1STRING)), 14)
  {
    assert At(Case2(), 3, EncodeString(V1STRING));
    StringRoundTrip(Case2(), 3, V1STRING);
    SlotDecoderIs(Case2Schema().Types(), Case2(), 0, 3);
  }

  /** Slot 1 of case 2 reads BINARY_EXT "v2binary". */
  lemma Case2Binary()
    ensures SlotDecoder(Case2Schema().Types(), Case2())(1, 14) == Outcome(0, Single(BinaryValue(V2BINARY)), 27)
  {
    assert EncodeBinary(V2BINARY) == [BINARY_EXT, 0, 0, 0, 8] + V2BINARY by {
      assert ToBigEndian(8, 4) == [0, 0, 0, 8];
    }
    assert Case2()[14..27] == [BINARY_EXT, 0, 0, 0, 8] + V2BINARY;
    BinaryRoundTrip(Case2(), 14, V2BINARY);
    SlotDecoderIs(Case2Schema().Types(), Case2(), 1, 14);
  }

  /** Slot 2 of case 2 reads SMALL_INTEGER_EXT 222. */
  lemma Case2Long()
    ensures SlotDecoder(Case2Schema().Types(), Case2())(2, 27) == Outcome(0, Single(IntegerValue(222)), 29)
  {
    assert At(Case2(), 27, EncodeLong(222));
    LongRoundTrip(Case2(), 27, 222);
    SlotDecoderIs(Case2Schema().Types(), Case2(), 2, 27);
  }

  /** Slot 3 of case 2 reads NEW_FLOAT_EXT 1.23. */
  lemma Case2Double()
    ensures SlotDecoder(Case2Schema().Types(), Case2())(3, 29) == Outcome(0, Single(FloatValue(ONE_POINT_23)), 38)
  {
    assert At(Case2(), 29, EncodeDouble(ONE_POINT_23));
    DoubleRoundTrip(Case2(), 29, ONE_POINT_23);
    SlotDecoderIs(Case2Schema().Types(), Case2(), 3, 29);
  }

  /** `parse<T>()` on case 2 is valid, and `get<0>()` .. `get<3>()` yield its four values. */
  method ParseCase2() returns (v1: Value, v2: Value, v3: Value, v4: Value, valid: bool)
    ensures valid
    ensures v1 == StringValue(V1STRING) && v2 == BinaryValue(V2BINARY)
    ensures v3 == IntegerValue(222) && v4 == FloatValue(ONE_POINT_23)
  {
    var s := Case2Schema();
    var d := new EIDecoder(Case2());
    Case2Decodes();
    var n := d.ParseCompound(s);
    valid := d.IsValid();
    v1 := GetValue(n, s, 0);
    v2 := GetValue(n, s, 1);
    v3 := GetValue(n, s, 2);
    v4 := GetValue(n, s, 3);
  }

  // ---------------------------------------------------------------------
  // The result code follows the latest parse only

  /** On a version byte and NIL_EXT, `parse<Long>()` fails and leaves the cursor; a following
      `parse<String>()` reads the empty string there, and `is_valid()` is true again. */
  method ResultNotSticky() returns (first: bool, second: bool, v: Value)
    ensures !first && second && v == StringValue([])
  {
    var d := new EIDecoder([VERSION_MAGIC, NIL_EXT]);
    var a := d.ParseValue(Long);
    first := d.IsValid();
    v := d.ParseValue(String);
    second := d.IsValid();
  }

  // ---------------------------------------------------------------------
  // Encoding, then decoding

  /** A fresh encoder's data after `encode(h)`: the version byte, then the host's encoding. */
  method EncodeTerm(h: Host) returns (data: seq<byte>)
    requires WellFormed(h)
    ensures data == EncodeVersion() + Encoding(h)
  {
    var en := new EIEncoder();
    en.Encode(h);
    data := en.GetData();
  }

  /** A session over the encoder's data parses a matching host back into the host's node, and is
      valid, when no list of the host is followed by a sibling. */
  method EncodeThenParse(h: Host, s: Schema) returns (n: Node, valid: bool)
    requires WellFormed(h) && Matches(h, s) && ListsLast(h)
    ensures valid && n == NodeOf(h)
  {
    var data := EncodeTerm(h);
    assert data[1..1 + |Encoding(h)|] == Encoding(h);
    Decoded(h, s, data, 1);
    var d := new EIDecoder(data);
    if s.IsSingle() {
      var v := d.ParseValue(s);
      n := Single(v);
    } else {
      n := d.ParseCompound(s);
    }
    valid := d.IsValid();
  }

  // ---------------------------------------------------------------------
  // The two shapes without a round trip

  /** `std::tuple<std::list<int>, int>{{1}, 2}` as `Tuple<List<Long>, Long>`. */
  function ListThenLong(): Host { StdTuple([StdList([Integral(1)]), Integral(2)]) }

  /** The bytes `encode(ListThenLong())` appends: the inner list's NIL_EXT tail sits in front of
      the second field. */
  function ListThenLongBytes(): seq<byte>
  {
    [SMALL_TUPLE_EXT, 2, LIST_EXT, 0, 0, 0, 1, SMALL_INTEGER_EXT, 1, NIL_EXT, SMALL_INTEGER_EXT, 2]
  }

  lemma ListThenLongEncoding()
    ensures WellFormed(ListThenLong()) && Matches(ListThenLong(), Tuple([List(Long), Long]))
    ensures Encoding(ListThenLong()) == ListThenLongBytes()
  {
    var h := ListThenLong();
    SingletonEncoding(1);
    assert Encoding(Integral(2)) == [SMALL_INTEGER_EXT, 2];
    assert MembersFrom(h, 2) == [];
    assert MembersFrom(h, 1) == Encoding(Integral(2));
    assert MembersFrom(h, 0) == Encoding(StdList([Integral(1)])) + Encoding(Integral(2));
    SingletonThenLong(1, 2);
  }

  /** A pair of a one-element list and a small integer, spelt out byte by byte. */
  lemma SingletonThenLong(x: int, y: int)
    requires 0 <= x < 256 && 0 <= y < 256
    ensures EncodeTupleHeader(2)
            + ([LIST_EXT, 0, 0, 0, 1, SMALL_INTEGER_EXT, x as byte, NIL_EXT] + [SMALL_INTEGER_EXT, y as byte])
            == [SMALL_TUPLE_EXT, 2, LIST_EXT, 0, 0, 0, 1, SMALL_INTEGER_EXT, x as byte, NIL_EXT,
                SMALL_INTEGER_EXT, y as byte]
  {
  }

  /** A short list header's count sits in its last byte. */
  lemma ShortListHeader(n: nat)
    requires n < 256
    ensures EncodeListHeader(n) == [LIST_EXT, 0, 0, 0, n as byte]
  {
    assert ToBigEndian(n / 256, 3) == [0, 0, 0];
  }

  /** The encoding of `std::list<int>{x}` for a small `x`. */
  lemma SingletonEncoding(x: int)
    requires 0 <= x < 256
    ensures WellFormed(StdList([Integral(x)]))
    ensures Encoding(StdList([Integral(x)])) == [LIST_EXT, 0, 0, 0, 1, SMALL_INTEGER_EXT, x as byte, NIL_EXT]
  {
    var l := StdList([Integral(x)]);
    assert WellFormed(Integral(x));
    ShortListHeader(1);
    assert MembersFrom(l, 1) == [];
    assert MembersFrom(l, 0) == [SMALL_INTEGER_EXT, x as byte];
  }

  /** A one-element `List<Long>` whose header and element are at `i` decodes to that element,
      leaving the cursor in front of the list's tail. */
  lemma SingletonList(buf: seq<byte>, i: nat, x: int)
    requires 0 <= x < 256 && At(buf, i, [LIST_EXT, 0, 0, 0, 1, SMALL_INTEGER_EXT, x as byte])
    ensures Decode(List(Long), buf, i) == Outcome(0, Compound(1, [Single(IntegerValue(x))]), i + 7)
  {
    var f := SlotDecoder([Long], buf);
    ShortListHeader(1);
    assert [LIST_EXT, 0, 0, 0, 1, SMALL_INTEGER_EXT, x as byte] == EncodeListHeader(1) + EncodeLong(x);
    AtConcat(buf, i, EncodeListHeader(1), EncodeLong(x));
    ListHeaderRoundTrip(buf, i, 1);
    LongRoundTrip(buf, i + 5, x);
    SlotDecoderIs([Long], buf, 0, i + 5);
    assert f(0, i + 5) == Outcome(0, Single(IntegerValue(x)), i + 7);
    assert Run(f, 1, 1, i + 7) == Children(0, [], i + 7);
    assert Run(f, 0, 1, i + 5) == Children(0, [Single(IntegerValue(x))], i + 7);
    CompoundClosed(List(Long), buf, i, 1, i + 5);
  }

  /** A `List<Long>` decoder that starts on a NIL_EXT reads an empty list. */
  lemma NilIsEmptyList(buf: seq<byte>, i: nat)
    requires i < |buf| && buf[i] == NIL_EXT
    ensures Decode(List(Long), buf, i) == Outcome(0, Compound(0, []), i + 1)
  {
    assert Run(SlotDecoder([Long], buf), 0, 0, i + 1) == Children(0, [], i + 1);
  }

  /** A `Long` decoder that starts on a NIL_EXT fails. */
  lemma NilIsNoLong(buf: seq<byte>, i: nat)
    requires i < |buf| && buf[i] == NIL_EXT
    ensures Decode(Long, buf, i).ret == -1
  {
  }

  /** The first field of `ListThenLongBytes()` decodes as the one-element list. */
  lemma ListThenLongFirst()
    ensures SlotDecoder([List(Long), Long], ListThenLongBytes())(0, 2)
            == Outcome(0, Compound(1, [Single(IntegerValue(1))]), 9)
  {
    var buf := ListThenLongBytes();
    assert At(buf, 2, [LIST_EXT, 0, 0, 0, 1, SMALL_INTEGER_EXT, 1]);
    SingletonList(buf, 2, 1);
    SlotDecoderIs([List(Long), Long], buf, 0, 2);
  }

  /** The second field's decoder of `ListThenLongBytes()` starts on the list's tail and fails. */
  lemma ListThenLongSecond()
    ensures SlotDecoder([List(Long), Long], ListThenLongBytes())(1, 9).ret == -1
  {
    NilIsNoLong(ListThenLongBytes(), 9);
    SlotDecoderIs([List(Long), Long], ListThenLongBytes(), 1, 9);
  }

  /** Decoding `ListThenLong()`'s encoding as `Tuple<List<Long>, Long>` returns -1: the second
      field's decoder starts on the list's tail. */
  lemma ListThenLongFails()
    ensures WellFormed(ListThenLong()) && Matches(ListThenLong(), Tuple([List(Long), Long]))
    ensures Decode(Tuple([List(Long), Long]), Encoding(ListThenLong()), 0).ret == -1
  {
    ListThenLongEncoding();
    var buf, ts := ListThenLongBytes(), [List(Long), Long];
    var f := SlotDecoder(ts, buf);
    assert At(buf, 0, EncodeTupleHeader(2));
    TupleHeaderRoundTrip(buf, 0, 2);
    ListThenLongFirst();
    ListThenLongSecond();
    assert Run(f, 1, 2, 9).ret == -1;
    assert Run(f, 0, 2, 2).ret == -1;
    CompoundClosed(Tuple(ts), buf, 0, 2, 2);
  }

  /** `std::list<std::list<int>>{{1}, {2}}` as `List<List<Long>>`. */
  function ListOfLists(): Host { StdList([StdList([Integral(1)]), StdList([Integral(2)])]) }

  function ListOfListsBytes(): seq<byte>
  {
    [LIST_EXT, 0, 0, 0, 2,
     LIST_EXT, 0, 0, 0, 1, SMALL_INTEGER_EXT, 1, NIL_EXT,
     LIST_EXT, 0, 0, 0, 1, SMALL_INTEGER_EXT, 2, NIL_EXT,
     NIL_EXT]
  }

  lemma ListOfListsEncoding()
    ensures WellFormed(ListOfLists()) && Matches(ListOfLists(), List(List(Long)))
    ensures Encoding(ListOfLists()) == ListOfListsBytes()
  {
    var h, one, two := ListOfLists(), StdList([Integral(1)]), StdList([Integral(2)]);
    SingletonEncoding(1);
    SingletonEncoding(2);
    assert Matches(one, List(Long)) && Matches(two, List(Long));
    ShortListHeader(2);
    assert MembersFrom(h, 2) == [];
    assert MembersFrom(h, 1) == Encoding(two);
    assert MembersFrom(h, 0) == Encoding(one) + Encoding(two);
    TwoSingletons(1, 2);
  }

  /** The list of two one-element lists, spelt out byte by byte. */
  lemma TwoSingletons(x: int, y: int)
    requires 0 <= x < 256 && 0 <= y < 256
    ensures [LIST_EXT, 0, 0, 0, 2]
            + ([LIST_EXT, 0, 0, 0, 1, SMALL_INTEGER_EXT, x as byte, NIL_EXT]
               + [LIST_EXT, 0, 0, 0, 1, SMALL_INTEGER_EXT, y as byte, NIL_EXT])
            + [NIL_EXT]
            == [LIST_EXT, 0, 0, 0, 2,
                LIST_EXT, 0, 0, 0, 1, SMALL_INTEGER_EXT, x as byte, NIL_EXT,
                LIST_EXT, 0, 0, 0, 1, SMALL_INTEGER_EXT, y as byte, NIL_EXT,
                NIL_EXT]
  {
  }

  /** The first element of `ListOfListsBytes()` decodes as `{1}`. */
  lemma ListOfListsFirst()
    ensures SlotDecoder([List(Long)], ListOfListsBytes())(0, 5)
            == Outcome(0, Compound(1, [Single(IntegerValue(1))]), 12)
  {
    var buf := ListOfListsBytes();
    assert At(buf, 5, [LIST_EXT, 0, 0, 0, 1, SMALL_INTEGER_EXT, 1]);
    SingletonList(buf, 5, 1);
    SlotDecoderIs([List(Long)], buf, 0, 5);
  }

  /** The second element's decoder of `ListOfListsBytes()` starts on the first element's tail and
      reads an empty list. */
  lemma ListOfListsSecond()
    ensures SlotDecoder([List(Long)], ListOfListsBytes())(1, 12) == Outcome(0, Compound(0, []), 13)
  {
    NilIsEmptyList(ListOfListsBytes(), 12);
    SlotDecoderIs([List(Long)], ListOfListsBytes(), 1, 12);
  }

  /** `ListOfListsBytes()` decoded as `List<List<Long>>`: `{1}` and then `{}`, and the cursor stops
      in front of the second element's contents. */
  lemma ListOfListsDecodes()
    ensures Decode(List(List(Long)), ListOfListsBytes(), 0)
            == Outcome(0, Compound(2, [Compound(1, [Single(IntegerValue(1))]), Compound(0, [])]), 13)
  {
    var buf := ListOfListsBytes();
    ShortListHeader(2);
    assert At(buf, 0, EncodeListHeader(2));
    ListHeaderRoundTrip(buf, 0, 2);
    ListOfListsRun();
    CompoundClosed(List(List(Long)), buf, 0, 2, 5);
  }

  /** The two element slots of `ListOfListsBytes()`, from behind the outer header. */
  lemma ListOfListsRun()
    ensures Run(SlotDecoder([List(Long)], ListOfListsBytes()), 0, 2, 5)
            == Children(0, [Compound(1, [Single(IntegerValue(1))]), Compound(0, [])], 13)
  {
    var f := SlotDecoder([List(Long)], ListOfListsBytes());
    ListOfListsFirst();
    ListOfListsSecond();
    assert Run(f, 2, 2, 13) == Children(0, [], 13);
    assert Run(f, 1, 2, 12) == Children(0, [Compound(0, [])], 13);
  }

  /** Decoding `ListOfLists()`'s encoding as `List<List<Long>>` returns 0, but the second
      element's decoder starts on the first element's tail and reads it as an empty list: the
      node differs from the host's. */
  lemma ListOfListsMisread()
    ensures WellFormed(ListOfLists()) && Matches(ListOfLists(), List(List(Long)))
    ensures var o := Decode(List(List(Long)), Encoding(ListOfLists()), 0);
            o.ret == 0 && o.node == Compound(2, [Compound(1, [Single(IntegerValue(1))]), Compound(0, [])])
            && o.node != NodeOf(ListOfLists())
  {
    ListOfListsEncoding();
    ListOfListsDecodes();
    var two := StdList([Integral(2)]);
    assert MemberNodes(ListOfLists())[1] == NodeOf(two);
    assert NodeOf(two).arity == 1;
  }

  // ---------------------------------------------------------------------
  // Schemas with a sole type, and a map read back

  /** `std::tuple<int, int>{1, 2}`, encoded and parsed as the sole-type `Tuple<Long>`: the
      header's arity 2 runs the loop twice. */
  method PairAsSoleTuple() returns (n: Node, valid: bool)
    ensures valid && n == Compound(2, [Single(IntegerValue(1)), Single(IntegerValue(2))])
  {
    n, valid := EncodeThenParse(StdTuple([Integral(1), Integral(2)]), Tuple([Long]));
  }

  /** `std::list<int>{1, 2}`, encoded and parsed as `MultiTypeList<Long, Long>`: one slot per type. */
  method ListAsMultiTypeList() returns (n: Node, valid: bool)
    ensures valid && n == Compound(2, [Single(IntegerValue(1)), Single(IntegerValue(2))])
  {
    n, valid := EncodeThenParse(StdList([Integral(1), Integral(2)]), MultiTypeList([Long, Long]));
  }

  /** The schema of test case 4: `Map<Long, Tuple<Long, Long, String>>`. */
  function Case4Schema(): Schema { Map(Long, Tuple([Long, Long, String])) }

  /** A map of that schema whose two entries carry the same key 7, one after the other. */
  function Case4Host(): Host
  {
    StdMap([Entry(Integral(7), Case4Tuple(1, 2, V1STRING)), Entry(Integral(7), Case4Tuple(3, 4, []))])
  }

  /** The node of the second entry's tuple. */
  function Case4Second(): Node
  {
    Compound(3, [Single(IntegerValue(3)), Single(IntegerValue(4)), Single(StringValue([]))])
  }

  /** The tuple `{a, b, str}` of an entry of case 4. */
  function Case4Tuple(a: int, b: int, str: seq<byte>): Host
  {
    StdTuple([Integral(a), Integral(b), StdString(str)])
  }

  /** An entry tuple of case 4 is taken by the encoder, read back by `Tuple<Long, Long, String>`,
      ends with no list terminator, and reads back to the node of its three values. */
  lemma Case4TupleFacts(a: int, b: int, str: seq<byte>)
    requires IsLong(a) && IsLong(b) && |str| < 0x1_0000
    ensures WellFormed(Case4Tuple(a, b, str)) && Matches(Case4Tuple(a, b, str), Tuple([Long, Long, String]))
    ensures ListsLast(Case4Tuple(a, b, str)) && Trailer(Case4Tuple(a, b, str)) == 0
    ensures NodeOf(Case4Tuple(a, b, str))
            == Compound(3, [Single(IntegerValue(a)), Single(IntegerValue(b)), Single(StringValue(str))])
  {
    var h := Case4Tuple(a, b, str);
    assert ListsLast(h.fields[0]) && ListsLast(h.fields[1]) && ListsLast(h.fields[2]);
    assert Trailer(h.fields[0]) == 0 && Trailer(h.fields[1]) == 0;
    assert MemberNodes(h) == [Single(IntegerValue(a)), Single(IntegerValue(b)), Single(StringValue(str))];
  }

  /** A two-entry map with integer keys and values of type `v` is taken by the encoder and read
      back by `Map<Long, v>` when its values are. */
  lemma TwoEntryMatches(k1: int, v1: Host, k2: int, v2: Host, v: Schema)
    requires IsLong(k1) && IsLong(k2)
    requires WellFormed(v1) && Matches(v1, v) && ListsLast(v1) && Trailer(v1) == 0
    requires WellFormed(v2) && Matches(v2, v) && ListsLast(v2)
    ensures var h := StdMap([Entry(Integral(k1), v1), Entry(Integral(k2), v2)]);
            WellFormed(h) && Matches(h, Map(Long, v)) && ListsLast(h)
  {
    var es := [Entry(Integral(k1), v1), Entry(Integral(k2), v2)];
    forall p | 0 <= p < |es|
      ensures WellFormed(es[p].key) && WellFormed(es[p].value)
      ensures Matches(es[p].key, Long) && Matches(es[p].value, v)
      ensures ListsLast(es[p].key) && Trailer(es[p].key) == 0 && ListsLast(es[p].value)
      ensures p < |es| - 1 ==> Trailer(es[p].value) == 0
    {
      if p == 0 {
        assert es[p] == Entry(Integral(k1), v1);
      } else {
        assert es[p] == Entry(Integral(k2), v2);
      }
    }
  }

  /** `Case4Host()` is a host the encoder takes and the schema of case 4 reads back. */
  lemma Case4Matches()
    ensures WellFormed(Case4Host()) && Matches(Case4Host(), Case4Schema()) && ListsLast(Case4Host())
  {
    Case4TupleFacts(1, 2, V1STRING);
    Case4TupleFacts(3, 4, []);
    TwoEntryMatches(7, Case4Tuple(1, 2, V1STRING), 7, Case4Tuple(3, 4, []), Tuple([Long, Long, String]));
  }

  /** The node `Case4Host()` reads back to: both pairs stay in the owner vector, and the
      projection keeps the key once, bound to the second entry's tuple. */
  lemma Case4Node()
    requires WellFormed(Case4Host())
    ensures var n := NodeOf(Case4Host());
            && n.MapNode? && n.arity == 2 && |n.children| == 4
            && n.projection == map[ScalarKey(IntegerValue(7)) := Case4Second()]
  {
    var h := Case4Host();
    var key := Single(IntegerValue(7));
    var first := Compound(3, [Single(IntegerValue(1)), Single(IntegerValue(2)), Single(StringValue(V1STRING))]);
    Case4TupleFacts(1, 2, V1STRING);
    Case4TupleFacts(3, 4, []);
    var ks, vs := KeyNodes(h), ValueNodes(h);
    assert ks == [key, key] && vs == [first, Case4Second()];
    assert Interleaved(ks, vs, 1) == [key, Case4Second()] + Interleaved(ks, vs, 2);
    var c := Interleaved(ks, vs, 0);
    assert c == [key, first, key, Case4Second()];
    assert c[..2] == [key, first];
    assert Project(c[..2]) == map[ScalarKey(IntegerValue(7)) := first];
  }

  /** `parse<Map<Long, Tuple<Long, Long, String>>>()` over the encoder's data of `Case4Host()`: the
      session is valid, and the map iterates over one key, bound to the tuple of the last entry
      that carries it. */
  method ParseCase4() returns (n: Node, valid: bool)
    ensures valid && n.MapNode? && n.arity == 2 && |n.children| == 4
    ensures n.projection == map[ScalarKey(IntegerValue(7)) := Case4Second()]
  {
    Case4Matches();
    Case4Node();
    n, valid := EncodeThenParse(Case4Host(), Case4Schema());
  }
}
