/** `EIDecoder`: a decode session over one buffer.  The constructor reads the
    version byte; every `parse<T>()` decodes one root node at the cursor,
    keeps it among the session's roots and overwrites the last result code,
    so `is_valid()` speaks only of the most recent step. */
module Session {
  import opened Etf
  import opened Terms
  import opened DecodeSpec
  import opened Decoder

  class EIDecoder {
    /** `buf_`: the bytes being decoded (never written). */
    const buf: seq<byte>
    /** `index_`: the cursor. */
    var index: nat
    /** `version_`: the version byte, 0 until one was read. */
    var version: int
    /** `ret_`: the result code of the latest step. */
    var ret: int
    /** `value_ptrs_`: the root nodes, in parse order. */
    var roots: seq<Node>

    /** The cursor stays inside the buffer, and the result code is one the decoders return. */
    ghost predicate Valid()
      reads this
    {
      index <= |buf| && IsRet(ret) && (version == 0 || version == VERSION_MAGIC as int)
    }

    /** `EIDecoder(char* buf)`: cursor and version start at 0, then the version is read. */
    constructor(bytes: seq<byte>)
      ensures Valid()
      ensures buf == bytes && roots == []
      ensures match DecodeVersion(bytes, 0)
              case Done(v, j) => ret == 0 && version == v && index == j
              case Failed => ret == -1 && version == 0 && index == 0
    {
      buf := bytes;
      roots := [];
      match DecodeVersion(bytes, 0)
      case Done(v, j) =>
        ret, version, index := 0, v, j;
      case Failed =>
        ret, version, index := -1, 0, 0;
    }

    /** `is_valid()`. */
    function IsValid(): (b: bool)
      reads this
      ensures b <==> ret == 0
    {
      ret == 0
    }

    /** The part shared by both `parse<T>()` overloads: decode a fresh root of type `s` at the
        cursor, keep it, and record its result code, whatever it is. */
    method ParseNode(s: Schema) returns (n: Node)
      requires Valid()
      modifies this
      ensures Valid()
      ensures var o := Decode(s, buf, old(index));
              && n == o.node && ret == o.ret && index == o.next
              && roots == old(roots) + [o.node]
      ensures version == old(version)
      ensures old(index) <= index
      ensures Shaped(n, s)
    {
      var o := DecodeNode(s, buf, index);
      DecodeAdvances(s, buf, index);
      DecodeShaped(s, buf, index);
      ret := o.ret;
      index := o.next;
      roots := roots + [o.node];
      n := o.node;
    }

    /** `parse<T>()` for a leaf type: the leaf's value (the default one when the decode failed). */
    method ParseValue(s: Schema) returns (v: Value)
      requires Valid() && s.IsSingle()
      modifies this
      ensures Valid()
      ensures var o := Decode(s, buf, old(index));
              && Single(v) == o.node && ret == o.ret && index == o.next
              && roots == old(roots) + [o.node]
      ensures version == old(version)
      ensures old(index) <= index
      ensures ret == -1 ==> Single(v) == Default(s) && index == old(index)
    {
      var n := ParseNode(s);
      v := n.value;
    }

    /** `parse<T>()` for a compound or map type: the root node itself. */
    method ParseCompound(s: Schema) returns (n: Node)
      requires Valid() && !s.IsSingle()
      modifies this
      ensures Valid()
      ensures var o := Decode(s, buf, old(index));
              && n == o.node && ret == o.ret && index == o.next
              && roots == old(roots) + [o.node]
      ensures version == old(version)
      ensures old(index) <= index
      ensures Shaped(n, s)
    {
      n := ParseNode(s);
    }
  }
}
