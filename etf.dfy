/** The primitive codec underneath eipp: a simplified Erlang External Term
    Format (ERTS User's Guide, "External Term Format").  The real library,
    erl_interface's ei.h, is not part of this model; its byte layouts are
    replaced by the small tag + length codec below, which keeps the real tag
    values and the widths of the length and arity fields.

    Every decoder is a pure function of the buffer and the cursor.  It either
    returns `Done(value, next)` (the C function returned 0 and moved
    `*index` to `next`) or `Failed` (the C function returned -1 and left
    `*index` where it was). */
module Etf {

  type byte = x: int | 0 <= x < 256

  /** The eight bytes of an IEEE double, kept opaque. */
  type float64 = s: seq<byte> | |s| == 8 witness [0, 0, 0, 0, 0, 0, 0, 0]

  const VERSION_MAGIC: byte := 131
  const NEW_FLOAT_EXT: byte := 70
  const SMALL_INTEGER_EXT: byte := 97
  const INTEGER_EXT: byte := 98
  const SMALL_TUPLE_EXT: byte := 104
  const LARGE_TUPLE_EXT: byte := 105
  const NIL_EXT: byte := 106
  const STRING_EXT: byte := 107
  const LIST_EXT: byte := 108
  const BINARY_EXT: byte := 109
  const SMALL_BIG_EXT: byte := 110
  const MAP_EXT: byte := 116

  const TWO_31: int := 0x8000_0000
  const TWO_32: int := 0x1_0000_0000
  const TWO_63: int := 0x8000_0000_0000_0000
  const TWO_64: int := 0x1_0000_0000_0000_0000

  predicate IsInt32(x: int) { -TWO_31 <= x < TWO_31 }

  /** The range of a C `long` on the 64-bit platforms eipp targets. */
  predicate IsLong(x: int) { -TWO_63 <= x < TWO_63 }

  /** The result of one primitive decode step. */
  datatype Step<T> = Done(value: T, next: nat) | Failed

  /** A successful step consumed at least one byte and stayed inside the buffer. */
  predicate Advances<T>(r: Step<T>, buf: seq<byte>, i: nat)
  {
    r.Done? ==> i < r.next <= |buf|
  }

  /** The bytes `e` stand in `buf` at position `i`. */
  predicate At(buf: seq<byte>, i: nat, e: seq<byte>)
  {
    i + |e| <= |buf| && buf[i..i + |e|] == e
  }

  lemma AtConcat(buf: seq<byte>, i: nat, a: seq<byte>, b: seq<byte>)
    ensures At(buf, i, a + b) <==> At(buf, i, a) && At(buf, i + |a|, b)
  {
    if At(buf, i, a + b) {
      assert buf[i..i + |a|] == buf[i..i + |a + b|][..|a|];
      assert buf[i + |a|..i + |a| + |b|] == buf[i..i + |a + b|][|a|..];
    }
    if At(buf, i, a) && At(buf, i + |a|, b) {
      assert buf[i..i + |a + b|] == buf[i..i + |a|] + buf[i + |a|..i + |a| + |b|];
    }
  }

  // ---------------------------------------------------------------------
  // Fixed-width integers

  function Pow256(k: nat): (p: nat)
    ensures p >= 1
  {
    if k == 0 then 1 else 256 * Pow256(k - 1)
  }

  /** Unsigned big-endian value of a byte string. */
  function FromBigEndian(s: seq<byte>): nat
  {
    if s == [] then 0 else FromBigEndian(s[..|s| - 1]) * 256 + s[|s| - 1]
  }

  /** The `width` low-order bytes of `n`, most significant first. */
  function ToBigEndian(n: nat, width: nat): (r: seq<byte>)
    ensures |r| == width
  {
    if width == 0 then [] else ToBigEndian(n / 256, width - 1) + [n % 256]
  }

  lemma {:induction false} FromBigEndianBound(s: seq<byte>)
    ensures FromBigEndian(s) < Pow256(|s|)
  {
    if s != [] {
      FromBigEndianBound(s[..|s| - 1]);
    }
  }

  lemma {:induction false} BigEndianRoundTrip(n: nat, width: nat)
    requires n < Pow256(width)
    ensures FromBigEndian(ToBigEndian(n, width)) == n
  {
    if width > 0 {
      var r := ToBigEndian(n, width);
      assert r[..|r| - 1] == ToBigEndian(n / 256, width - 1);
      BigEndianRoundTrip(n / 256, width - 1);
    }
  }

  /** Unsigned little-endian value of a byte string (the digits of SMALL_BIG_EXT). */
  function FromLittleEndian(s: seq<byte>): nat
  {
    if s == [] then 0 else s[0] + 256 * FromLittleEndian(s[1..])
  }

  /** The base-256 digits of `m`, least significant first, with no leading zero digit. */
  function Digits(m: nat): seq<byte>
  {
    if m == 0 then [] else [m % 256] + Digits(m / 256)
  }

  lemma {:induction false} DigitsRoundTrip(m: nat)
    ensures FromLittleEndian(Digits(m)) == m
  {
    if m > 0 {
      DigitsRoundTrip(m / 256);
      assert Digits(m)[1..] == Digits(m / 256);
    }
  }

  lemma {:induction false} DigitsLength(m: nat, k: nat)
    requires m < Pow256(k)
    ensures |Digits(m)| <= k
  {
    if m > 0 {
      DigitsLength(m / 256, k - 1);
    }
  }

  /** C's reading of a 32-bit word as a signed `int`. */
  function Int32(u: nat): int
  {
    if u >= TWO_31 then u - TWO_32 else u
  }

  /** The 32-bit word that holds the `int` x. */
  function Word32(x: int): nat
    requires IsInt32(x)
  {
    if x >= 0 then x else x + TWO_32
  }

  /** C's conversion `(long)arg` of an integral value: wrap-around modulo 2^64. */
  function ToLong(v: int): (r: int)
    ensures IsLong(r)
    ensures (r - v) % TWO_64 == 0
    ensures IsLong(v) ==> r == v
  {
    (v + TWO_63) % TWO_64 - TWO_63
  }

  /** Reads a `width`-byte big-endian word at `i`. */
  function ReadWord(buf: seq<byte>, i: nat, width: nat): (r: Step<nat>)
    ensures r.Done? <==> i + width <= |buf|
    ensures r.Done? ==> r.next == i + width && r.value < Pow256(width)
  {
    if i + width <= |buf| then
      FromBigEndianBound(buf[i..i + width]);
      Done(FromBigEndian(buf[i..i + width]), i + width)
    else Failed
  }

  // ---------------------------------------------------------------------
  // Decoders (ei_decode_*)

  /** ei_decode_version */
  function DecodeVersion(buf: seq<byte>, i: nat): (r: Step<int>)
    ensures Advances(r, buf, i)
    ensures r.Done? <==> i < |buf| && buf[i] == VERSION_MAGIC
    ensures r.Done? ==> r.value == VERSION_MAGIC as int
  {
    if i < |buf| && buf[i] == VERSION_MAGIC then Done(buf[i], i + 1) else Failed
  }

  /** ei_decode_long: SMALL_INTEGER_EXT, INTEGER_EXT or SMALL_BIG_EXT with at most eight digits
      whose value fits a `long`. */
  function DecodeLong(buf: seq<byte>, i: nat): (r: Step<int>)
    ensures Advances(r, buf, i)
    ensures r.Done? ==> IsLong(r.value)
  {
    if i >= |buf| then Failed
    else if buf[i] == SMALL_INTEGER_EXT then
      if i + 2 <= |buf| then Done(buf[i + 1], i + 2) else Failed
    else if buf[i] == INTEGER_EXT then
      match ReadWord(buf, i + 1, 4)
      case Done(u, j) => Done(Int32(u), j)
      case Failed => Failed
    else if buf[i] == SMALL_BIG_EXT && i + 3 <= |buf| then
      var n, sign := buf[i + 1], buf[i + 2];
      if n > 8 || i + 3 + n > |buf| then Failed
      else
        var m := FromLittleEndian(buf[i + 3..i + 3 + n]);
        if sign == 0 && m < TWO_63 then Done(m as int, i + 3 + n)
        else if sign != 0 && m <= TWO_63 then Done(-(m as int), i + 3 + n)
        else Failed
    else Failed
  }

  /** ei_decode_double: NEW_FLOAT_EXT followed by eight opaque bytes. */
  function DecodeDouble(buf: seq<byte>, i: nat): (r: Step<float64>)
    ensures Advances(r, buf, i)
  {
    if i + 9 <= |buf| && buf[i] == NEW_FLOAT_EXT then
      var bits: float64 := buf[i + 1..i + 9];
      Done(bits, i + 9)
    else Failed
  }

  /** ei_get_type followed by ei_decode_string: STRING_EXT with a 2-byte length, or NIL_EXT
      for the empty string. */
  function DecodeString(buf: seq<byte>, i: nat): (r: Step<seq<byte>>)
    ensures Advances(r, buf, i)
    ensures r.Done? ==> |r.value| < 0x1_0000
  {
    if i >= |buf| then Failed
    else if buf[i] == NIL_EXT then Done([], i + 1)
    else if buf[i] == STRING_EXT then
      match ReadWord(buf, i + 1, 2)
      case Done(len, j) => if j + len <= |buf| then Done(buf[j..j + len], j + len) else Failed
      case Failed => Failed
    else Failed
  }

  /** ei_get_type followed by ei_decode_binary: BINARY_EXT with a 4-byte length. */
  function DecodeBinary(buf: seq<byte>, i: nat): (r: Step<seq<byte>>)
    ensures Advances(r, buf, i)
  {
    if i < |buf| && buf[i] == BINARY_EXT then
      match ReadWord(buf, i + 1, 4)
      case Done(len, j) => if j + len <= |buf| then Done(buf[j..j + len], j + len) else Failed
      case Failed => Failed
    else Failed
  }

  /** ei_decode_tuple_header: SMALL_TUPLE_EXT (1-byte arity) or LARGE_TUPLE_EXT (4-byte arity). */
  function DecodeTupleHeader(buf: seq<byte>, i: nat): (r: Step<int>)
    ensures Advances(r, buf, i)
  {
    if i >= |buf| then Failed
    else if buf[i] == SMALL_TUPLE_EXT then
      if i + 2 <= |buf| then Done(buf[i + 1], i + 2) else Failed
    else if buf[i] == LARGE_TUPLE_EXT then
      match ReadWord(buf, i + 1, 4)
      case Done(u, j) => Done(Int32(u), j)
      case Failed => Failed
    else Failed
  }

  /** ei_decode_list_header: LIST_EXT (4-byte arity) or NIL_EXT (arity 0).  The tail that
      follows a list's elements is not part of the header. */
  function DecodeListHeader(buf: seq<byte>, i: nat): (r: Step<int>)
    ensures Advances(r, buf, i)
  {
    if i >= |buf| then Failed
    else if buf[i] == NIL_EXT then Done(0, i + 1)
    else if buf[i] == LIST_EXT then
      match ReadWord(buf, i + 1, 4)
      case Done(u, j) => Done(Int32(u), j)
      case Failed => Failed
    else Failed
  }

  /** ei_decode_map_header: MAP_EXT (4-byte arity). */
  function DecodeMapHeader(buf: seq<byte>, i: nat): (r: Step<int>)
    ensures Advances(r, buf, i)
  {
    if i < |buf| && buf[i] == MAP_EXT then
      match ReadWord(buf, i + 1, 4)
      case Done(u, j) => Done(Int32(u), j)
      case Failed => Failed
    else Failed
  }

  // ---------------------------------------------------------------------
  // Encoders (ei_x_encode_*): the bytes each one appends to its buffer

  /** ei_x_new_with_version */
  function EncodeVersion(): seq<byte> { [VERSION_MAGIC] }

  /** ei_x_encode_long and ei_x_encode_longlong (identical bytes for a 64-bit value). */
  function EncodeLong(x: int): seq<byte>
    requires IsLong(x)
  {
    if 0 <= x < 256 then [SMALL_INTEGER_EXT, x]
    else if IsInt32(x) then [INTEGER_EXT] + ToBigEndian(Word32(x), 4)
    else
      var m := if x < 0 then -x else x;
      DigitsLength(m, 8);
      [SMALL_BIG_EXT, |Digits(m)|, if x < 0 then 1 else 0] + Digits(m)
  }

  /** ei_x_encode_double */
  function EncodeDouble(bits: float64): seq<byte> { [NEW_FLOAT_EXT] + bits }

  /** ei_x_encode_string_len */
  function EncodeString(s: seq<byte>): seq<byte>
    requires |s| < 0x1_0000
  {
    [STRING_EXT] + ToBigEndian(|s|, 2) + s
  }

  /** ei_x_encode_binary */
  function EncodeBinary(s: seq<byte>): seq<byte>
    requires |s| < TWO_31
  {
    [BINARY_EXT] + ToBigEndian(|s|, 4) + s
  }

  /** ei_x_encode_tuple_header */
  function EncodeTupleHeader(n: nat): seq<byte>
    requires n < TWO_31
  {
    if n < 256 then [SMALL_TUPLE_EXT, n] else [LARGE_TUPLE_EXT] + ToBigEndian(n, 4)
  }

  /** ei_x_encode_list_header */
  function EncodeListHeader(n: nat): seq<byte>
    requires n < TWO_31
  {
    [LIST_EXT] + ToBigEndian(n, 4)
  }

  /** ei_x_encode_empty_list: the terminator written after a list's elements. */
  function EncodeEmptyList(): seq<byte> { [NIL_EXT] }

  /** ei_x_encode_map_header */
  function EncodeMapHeader(n: nat): seq<byte>
    requires n < TWO_31
  {
    [MAP_EXT] + ToBigEndian(n, 4)
  }

  // ---------------------------------------------------------------------
  // Each decoder reads back exactly what its encoder wrote.

  /** The version byte `ei_x_new_with_version` writes is the one `ei_decode_version` accepts. */
  lemma VersionRoundTrip(buf: seq<byte>, i: nat)
    requires At(buf, i, EncodeVersion())
    ensures DecodeVersion(buf, i) == Done(VERSION_MAGIC as int, i + |EncodeVersion()|)
  {
    assert buf[i] == EncodeVersion()[0];
  }

  lemma WordRoundTrip(buf: seq<byte>, i: nat, n: nat, width: nat)
    requires n < Pow256(width)
    requires At(buf, i, ToBigEndian(n, width))
    ensures ReadWord(buf, i, width) == Done(n, i + width)
  {
    BigEndianRoundTrip(n, width);
  }

  lemma LongRoundTrip(buf: seq<byte>, i: nat, x: int)
    requires IsLong(x)
    requires At(buf, i, EncodeLong(x))
    ensures DecodeLong(buf, i) == Done(x, i + |EncodeLong(x)|)
  {
    if 0 <= x < 256 {
      assert buf[i] == EncodeLong(x)[0];
      assert buf[i + 1] == EncodeLong(x)[1];
    } else if IsInt32(x) {
      Int32RoundTrip(buf, i, x);
    } else {
      BigRoundTrip(buf, i, x);
    }
  }

  /** INTEGER_EXT reads back the `int` it holds. */
  lemma Int32RoundTrip(buf: seq<byte>, i: nat, x: int)
    requires IsInt32(x) && !(0 <= x < 256)
    requires At(buf, i, [INTEGER_EXT] + ToBigEndian(Word32(x), 4))
    ensures DecodeLong(buf, i) == Done(x, i + 5)
  {
    assert buf[i] == INTEGER_EXT;
    AtConcat(buf, i, [INTEGER_EXT], ToBigEndian(Word32(x), 4));
    WordRoundTrip(buf, i + 1, Word32(x), 4);
  }

  /** SMALL_BIG_EXT reads back the `long` its sign byte and digits hold. */
  lemma BigRoundTrip(buf: seq<byte>, i: nat, x: int)
    requires IsLong(x) && !IsInt32(x)
    requires At(buf, i, EncodeLong(x))
    ensures DecodeLong(buf, i) == Done(x, i + |EncodeLong(x)|)
  {
    var e := EncodeLong(x);
    var m := if x < 0 then -x else x;
    DigitsLength(m, 8);
    DigitsRoundTrip(m);
    var d := Digits(m);
    assert e == [SMALL_BIG_EXT, |d|, if x < 0 then 1 else 0] + d;
    assert buf[i] == e[0];
    assert buf[i + 1] == e[1] == |d|;
    assert buf[i + 2] == e[2];
    AtConcat(buf, i, [SMALL_BIG_EXT, |d|, if x < 0 then 1 else 0], d);
  }

  lemma DoubleRoundTrip(buf: seq<byte>, i: nat, bits: float64)
    requires At(buf, i, EncodeDouble(bits))
    ensures DecodeDouble(buf, i) == Done(bits, i + |EncodeDouble(bits)|)
  {
    assert buf[i] == EncodeDouble(bits)[0];
    AtConcat(buf, i, [NEW_FLOAT_EXT], bits);
  }

  lemma StringRoundTrip(buf: seq<byte>, i: nat, s: seq<byte>)
    requires |s| < 0x1_0000
    requires At(buf, i, EncodeString(s))
    ensures DecodeString(buf, i) == Done(s, i + |EncodeString(s)|)
  {
    assert buf[i] == EncodeString(s)[0];
    AtConcat(buf, i, [STRING_EXT] + ToBigEndian(|s|, 2), s);
    AtConcat(buf, i, [STRING_EXT], ToBigEndian(|s|, 2));
    WordRoundTrip(buf, i + 1, |s|, 2);
  }

  lemma BinaryRoundTrip(buf: seq<byte>, i: nat, s: seq<byte>)
    requires |s| < TWO_31
    requires At(buf, i, EncodeBinary(s))
    ensures DecodeBinary(buf, i) == Done(s, i + |EncodeBinary(s)|)
  {
    assert buf[i] == EncodeBinary(s)[0];
    AtConcat(buf, i, [BINARY_EXT] + ToBigEndian(|s|, 4), s);
    AtConcat(buf, i, [BINARY_EXT], ToBigEndian(|s|, 4));
    WordRoundTrip(buf, i + 1, |s|, 4);
  }

  lemma TupleHeaderRoundTrip(buf: seq<byte>, i: nat, n: nat)
    requires n < TWO_31
    requires At(buf, i, EncodeTupleHeader(n))
    ensures DecodeTupleHeader(buf, i) == Done(n, i + |EncodeTupleHeader(n)|)
  {
    var e := EncodeTupleHeader(n);
    assert buf[i] == e[0];
    if n < 256 {
      assert buf[i + 1] == e[1];
    } else {
      AtConcat(buf, i, [LARGE_TUPLE_EXT], ToBigEndian(n, 4));
      WordRoundTrip(buf, i + 1, n, 4);
    }
  }

  lemma ListHeaderRoundTrip(buf: seq<byte>, i: nat, n: nat)
    requires n < TWO_31
    requires At(buf, i, EncodeListHeader(n))
    ensures DecodeListHeader(buf, i) == Done(n, i + |EncodeListHeader(n)|)
  {
    assert buf[i] == EncodeListHeader(n)[0];
    AtConcat(buf, i, [LIST_EXT], ToBigEndian(n, 4));
    WordRoundTrip(buf, i + 1, n, 4);
  }

  lemma MapHeaderRoundTrip(buf: seq<byte>, i: nat, n: nat)
    requires n < TWO_31
    requires At(buf, i, EncodeMapHeader(n))
    ensures DecodeMapHeader(buf, i) == Done(n, i + |EncodeMapHeader(n)|)
  {
    assert buf[i] == EncodeMapHeader(n)[0];
    AtConcat(buf, i, [MAP_EXT], ToBigEndian(n, 4));
    WordRoundTrip(buf, i + 1, n, 4);
  }
}
