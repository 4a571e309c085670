/** `EIEncoder`: encoding into a stack of growable buffers.  The bottom
    buffer is the base buffer, opened with the version byte; a compound value
    opens a scratch buffer (`CompoundEncoder`), encodes its members into it,
    and on scope exit prepends its header to the scratch bytes in the buffer
    below.  Every `encode` call leaves the stack as deep as it found it and
    appends exactly `Encoding(h)` to the buffer on top. */
module Encoder {
  import opened Etf
  import opened Hosts

  /** The stack `s` with `bytes` appended to the buffer on top. */
  ghost function Appended(s: seq<seq<byte>>, bytes: seq<byte>): (r: seq<seq<byte>>)
    requires |s| >= 1
    ensures |r| == |s| && r[..|s| - 1] == s[..|s| - 1]
    ensures r[|s| - 1] == s[|s| - 1] + bytes
  {
    s[..|s| - 1] + [s[|s| - 1] + bytes]
  }

  /** Appending in two steps is appending the concatenation. */
  lemma AppendedTwice(s: seq<seq<byte>>, a: seq<byte>, b: seq<byte>)
    requires |s| >= 1
    ensures Appended(Appended(s, a), b) == Appended(s, a + b)
  {
    assert s[|s| - 1] + a + b == s[|s| - 1] + (a + b);
  }

  lemma AppendedNothing(s: seq<seq<byte>>)
    requires |s| >= 1
    ensures Appended(s, []) == s
  {
    assert s[|s| - 1] + [] == s[|s| - 1];
  }

  /** Appending on top of a stack whose top is `x`. */
  lemma AppendedOnto(below: seq<seq<byte>>, x: seq<byte>, bytes: seq<byte>)
    ensures Appended(below + [x], bytes) == below + [x + bytes]
  {
    assert (below + [x])[..|below|] == below;
  }

  /** One more member encoded: the scratch bytes grow by that member's encoding. */
  lemma MemberStep(h: Host, j: nat, scratch: seq<byte>)
    requires (h.StdList? || h.StdTuple?) && WellFormed(h) && j < |Members(h)|
    requires scratch + MembersFrom(h, j) == MembersFrom(h, 0)
    ensures (scratch + Encoding(Members(h)[j])) + MembersFrom(h, j + 1) == MembersFrom(h, 0)
  {
    var piece, rest := Encoding(Members(h)[j]), MembersFrom(h, j + 1);
    assert MembersFrom(h, j) == piece + rest;
    assert scratch + (piece + rest) == (scratch + piece) + rest;
  }

  /** One more entry encoded: the scratch bytes grow by that entry's key and value encodings. */
  lemma EntryStep(h: Host, j: nat, scratch: seq<byte>)
    requires h.StdMap? && WellFormed(h) && j < |h.entries|
    requires scratch + EntriesFrom(h, j) == EntriesFrom(h, 0)
    ensures (scratch + (Encoding(h.entries[j].key) + Encoding(h.entries[j].value))) + EntriesFrom(h, j + 1)
            == EntriesFrom(h, 0)
  {
    assert EntriesFrom(h, j) == (Encoding(h.entries[j].key) + Encoding(h.entries[j].value)) + EntriesFrom(h, j + 1);
  }

  class EIEncoder {
    /** `x_buff_stack_`, bottom first; its bottom is `base_buff_`. */
    var stack: seq<seq<byte>>

    /** The base buffer stays at the bottom and starts with the version byte. */
    ghost predicate Valid()
      reads this
    {
      |stack| >= 1 && |stack[0]| >= 1 && stack[0][0] == VERSION_MAGIC
    }

    /** `EIEncoder()`: a base buffer holding only the version, alone on the stack. */
    constructor()
      ensures Valid()
      ensures stack == [EncodeVersion()]
    {
      stack := [EncodeVersion()];
    }

    /** `get_data()`: the bytes of the base buffer, whatever is stacked above it. */
    method GetData() returns (data: seq<byte>)
      requires Valid()
      ensures data == stack[0]
      ensures |data| >= 1 && data[0] == VERSION_MAGIC
    {
      data := stack[0];
    }

    /** One `ei_x_encode_*` call on `current_buff()`, the buffer on top. */
    method Write(bytes: seq<byte>)
      requires Valid()
      modifies this
      ensures Valid()
      ensures stack == Appended(old(stack), bytes)
    {
      stack := stack[..|stack| - 1] + [stack[|stack| - 1] + bytes];
    }

    /** The integral overloads: `ei_x_encode_long((long)arg)` or `ei_x_encode_longlong`. */
    method EncodeIntegral(x: int)
      requires Valid() && -TWO_63 <= x < TWO_64
      modifies this
      ensures Valid()
      ensures stack == Appended(old(stack), Encoding(Integral(x)))
    {
      Write(EncodeLong(ToLong(x)));
    }

    /** The floating-point overload: `ei_x_encode_double((double)arg)`. */
    method EncodeFloating(bits: float64)
      requires Valid()
      modifies this
      ensures Valid()
      ensures stack == Appended(old(stack), Encoding(Floating(bits)))
    {
      Write(EncodeDouble(bits));
    }

    /** `encode(const std::string&, TYPE tp = TYPE::String)`: a string by default, a binary
        for any other type tag. */
    method EncodeStdString(s: seq<byte>, tp: TypeTag)
      requires Valid() && |s| < TWO_31 && (tp == StringTag ==> |s| < 0x1_0000)
      modifies this
      ensures Valid()
      ensures stack == Appended(old(stack), TextEncoding(s, tp))
      ensures tp == StringTag ==> stack == Appended(old(stack), Encoding(StdString(s)))
    {
      if tp == StringTag {
        Write(EncodeString(s));
      } else {
        Write(EncodeBinary(s));
      }
    }

    /** `encode(char*, TYPE tp = TYPE::String)`: the same for the bytes before the first NUL. */
    method EncodeCString(s: seq<byte>, tp: TypeTag)
      requires Valid() && |CStr(s)| < TWO_31 && (tp == StringTag ==> |CStr(s)| < 0x1_0000)
      modifies this
      ensures Valid()
      ensures stack == Appended(old(stack), TextEncoding(CStr(s), tp))
      ensures tp == StringTag ==> stack == Appended(old(stack), Encoding(CString(s)))
    {
      EncodeStdString(CStr(s), tp);
    }

    /** `encode(arg)` with the overload `arg`'s type selects; strings take `TYPE::String`. */
    method Encode(h: Host)
      requires Valid() && WellFormed(h)
      modifies this
      decreases h, 2
      ensures Valid()
      ensures stack == Appended(old(stack), Encoding(h))
    {
      match h
      case Integral(x) => EncodeIntegral(x);
      case Floating(b) => EncodeFloating(b);
      case StdString(s) => EncodeStdString(s, StringTag);
      case CString(s) => EncodeCString(s, StringTag);
      case StdList(_) => EncodeList(h);
      case StdTuple(_) => EncodeTuple(h);
      case StdMap(_) => EncodeMap(h);
    }

    /** The list overload: a scratch buffer for the elements, in list order, and the empty-list
        terminator, then the list header with `size()` in front of them. */
    method EncodeList(h: Host)
      requires Valid() && h.StdList? && WellFormed(h)
      modifies this
      decreases h, 1
      ensures Valid()
      ensures stack == Appended(old(stack), Encoding(h))
    {
      var es := h.elements;
      var en := new CompoundEncoder(this, EncodeListHeader(|es|));
      ghost var below, scratch := old(stack), [];
      assert stack == below + [scratch];
      for j := 0 to |es|
        invariant Valid() && en.encoder == this
        invariant stack == below + [scratch]
        invariant scratch + MembersFrom(h, j) == MembersFrom(h, 0)
      {
        Encode(es[j]);
        AppendedOnto(below, scratch, Encoding(es[j]));
        MemberStep(h, j, scratch);
        scratch := scratch + Encoding(es[j]);
      }
      assert scratch == MembersFrom(h, 0);
      Write(EncodeEmptyList());
      AppendedOnto(below, scratch, EncodeEmptyList());
      ghost var body := scratch + EncodeEmptyList();
      assert stack == below + [body];
      en.Finish();
      assert (below + [body])[..|below|] == below;
      assert stack == Appended(below, en.header + body);
      assert en.header + body == Encoding(h);
    }

    /** The tuple overload: a scratch buffer for the fields, then the tuple header with
        `tuple_size` in front of them. */
    method EncodeTuple(h: Host)
      requires Valid() && h.StdTuple? && WellFormed(h)
      modifies this
      decreases h, 1
      ensures Valid()
      ensures stack == Appended(old(stack), Encoding(h))
    {
      var fs := h.fields;
      var en := new CompoundEncoder(this, EncodeTupleHeader(|fs|));
      ghost var below := old(stack);
      assert stack == below + [[]];
      TupleEncoderHelper(h, |fs|);
      AppendedOnto(below, [], MembersFrom(h, 0));
      assert [] + MembersFrom(h, 0) == MembersFrom(h, 0);
      assert stack == below + [MembersFrom(h, 0)];
      en.Finish();
      assert (below + [MembersFrom(h, 0)])[..|below|] == below;
      assert stack == Appended(below, en.header + MembersFrom(h, 0));
    }

    /** `TupleEncoderHelper<N, T>::encode`: field `tuple_size - N`, then the helper for N - 1;
        N = 0 encodes nothing.  So the last N fields are encoded, in index order. */
    method TupleEncoderHelper(h: Host, n: nat)
      requires Valid() && h.StdTuple? && WellFormed(h) && n <= |h.fields|
      modifies this
      decreases h, 0, n
      ensures Valid()
      ensures stack == Appended(old(stack), MembersFrom(h, |h.fields| - n))
    {
      var fs := h.fields;
      var index := |fs| - n;
      if n == 0 {
        AppendedNothing(old(stack));
        return;
      }
      Encode(fs[index]);
      TupleEncoderHelper(h, n - 1);
      AppendedTwice(old(stack), Encoding(fs[index]), MembersFrom(h, index + 1));
    }

    /** One round of the map overload's loop: the entry's key, then its value. */
    method EncodeEntry(h: Host, j: nat)
      requires Valid() && h.StdMap? && WellFormed(h) && j < |h.entries|
      modifies this
      decreases h, 0
      ensures Valid()
      ensures stack == Appended(old(stack), Encoding(h.entries[j].key) + Encoding(h.entries[j].value))
    {
      Encode(h.entries[j].key);
      Encode(h.entries[j].value);
      AppendedTwice(old(stack), Encoding(h.entries[j].key), Encoding(h.entries[j].value));
    }

    /** The map overload: a scratch buffer for each entry's key and then value, in iteration
        order, then the map header with `size()` in front of them. */
    method EncodeMap(h: Host)
      requires Valid() && h.StdMap? && WellFormed(h)
      modifies this
      decreases h, 1
      ensures Valid()
      ensures stack == Appended(old(stack), Encoding(h))
    {
      var es := h.entries;
      var en := new CompoundEncoder(this, EncodeMapHeader(|es|));
      ghost var below, scratch := old(stack), [];
      assert stack == below + [scratch];
      for j := 0 to |es|
        invariant Valid() && en.encoder == this
        invariant stack == below + [scratch]
        invariant scratch + EntriesFrom(h, j) == EntriesFrom(h, 0)
      {
        ghost var pair := Encoding(es[j].key) + Encoding(es[j].value);
        EncodeEntry(h, j);
        AppendedOnto(below, scratch, pair);
        EntryStep(h, j, scratch);
        scratch := scratch + pair;
      }
      assert scratch == EntriesFrom(h, 0);
      en.Finish();
      assert (below + [scratch])[..|below|] == below;
      assert stack == Appended(below, en.header + scratch);
    }
  }

  /** `CompoundEncoder`: constructed, it pushes an empty scratch buffer; destroyed, it pops it,
      writes its header into the buffer now on top and appends the scratch bytes after it. */
  class CompoundEncoder {
    const encoder: EIEncoder
    /** What `header_func` writes: the header for the count it captured. */
    const header: seq<byte>

    constructor(en: EIEncoder, header: seq<byte>)
      requires en.Valid()
      modifies en
      ensures encoder == en && this.header == header
      ensures en.Valid()
      ensures en.stack == old(en.stack) + [[]]
    {
      encoder := en;
      this.header := header;
      en.stack := en.stack + [[]];
    }

    /** `~CompoundEncoder()`: pop the scratch buffer, `header_func` on the buffer now on top,
        then `ei_x_append` of the scratch bytes. */
    method Finish()
      requires encoder.Valid() && |encoder.stack| >= 2
      modifies encoder
      ensures encoder.Valid()
      ensures var s := old(encoder.stack);
              encoder.stack == Appended(s[..|s| - 1], header + s[|s| - 1])
    {
      var s := encoder.stack;
      var sub := s[|s| - 1];
      encoder.stack := s[..|s| - 1];
      assert encoder.stack[0] == s[0];
      encoder.Write(header);
      encoder.Write(sub);
      AppendedTwice(s[..|s| - 1], header, sub);
    }
  }
}
