/** The C++ values `EIEncoder::encode` accepts, as a datatype, and the bytes
    each overload appends to the current buffer.  Which overload a value
    selects (`enable_if` on `is_integral`, `is_floating_point`, `is_list`,
    `tuple_size`, a `value_type` that is a key/mapped pair, `char*`,
    `std::string`) is the constructor of `Host`. */
module Hosts {
  import opened Etf

  /** eipp's `TYPE` enumeration; the string overloads take one to choose String or Binary. */
  datatype TypeTag = IntegerTag | FloatTag | StringTag | BinaryTag | ListTag | MultiTypeListTag | TupleTag | MapTag

  /** One key/mapped pair of a `std::map`. */
  datatype Entry = Entry(key: Host, value: Host)

  datatype Host =
    /** any integral type; `x` is its mathematical value */
    | Integral(x: int)
    /** `float` or `double`, as the bits of the `double` it is converted to */
    | Floating(bits: float64)
    /** `std::string` */
    | StdString(bytes: seq<byte>)
    /** `char*` / `unsigned char*`: the bytes up to the first NUL are its contents */
    | CString(bytes: seq<byte>)
    /** `std::list<T>`, in list order */
    | StdList(elements: seq<Host>)
    /** `std::tuple<...>` (or any type with a `tuple_size`), its fields in index order */
    | StdTuple(fields: seq<Host>)
    /** `std::map<K, V>`, its entries in the map's iteration order */
    | StdMap(entries: seq<Entry>)

  /** The contents of a C string: everything before the first NUL byte. */
  function CStr(s: seq<byte>): (r: seq<byte>)
    ensures |r| <= |s| && r == s[..|r|]
    ensures 0 !in r
    ensures |r| < |s| ==> s[|r|] == 0
  {
    if s == [] || s[0] == 0 then [] else [s[0]] + CStr(s[1..])
  }

  /** The values the model's encoder handles: every integral value fits `unsigned long long` or
      `long long`; strings stay below the 65536-byte STRING_EXT limit; every container count fits
      the `int` the header functions take; a tuple has at least one field (`tuple_size` 0 selects
      no overload). */
  ghost predicate WellFormed(h: Host)
    decreases h, 1
  {
    match h
    case Integral(x) => -TWO_63 <= x < TWO_64
    case Floating(_) => true
    case StdString(s) => |s| < 0x1_0000
    case CString(s) => |CStr(s)| < 0x1_0000
    case StdList(es) => |es| < TWO_31 && forall j :: 0 <= j < |es| ==> WellFormed(es[j])
    case StdTuple(fs) => 1 <= |fs| < TWO_31 && forall j :: 0 <= j < |fs| ==> WellFormed(fs[j])
    case StdMap(es) =>
      && |es| < TWO_31
      && forall p :: 0 <= p < |es| ==> WellFormed(es[p].key) && WellFormed(es[p].value)
  }

  /** The members of a list or a tuple, in order. */
  function Members(h: Host): seq<Host>
    requires h.StdList? || h.StdTuple?
  {
    if h.StdList? then h.elements else h.fields
  }

  /** The bytes `encode(h)` appends to the current buffer.  Strings nested in containers always
      take the default `TYPE::String`. */
  function Encoding(h: Host): seq<byte>
    requires WellFormed(h)
    decreases h, 1
  {
    match h
    case Integral(x) => EncodeLong(ToLong(x))
    case Floating(b) => EncodeDouble(b)
    case StdString(s) => EncodeString(s)
    case CString(s) => EncodeString(CStr(s))
    case StdList(es) => EncodeListHeader(|es|) + MembersFrom(h, 0) + EncodeEmptyList()
    case StdTuple(fs) => EncodeTupleHeader(|fs|) + MembersFrom(h, 0)
    case StdMap(es) => EncodeMapHeader(|es|) + EntriesFrom(h, 0)
  }

  /** The encodings of the members `k..` of a list or a tuple, one after the other. */
  function MembersFrom(h: Host, k: nat): seq<byte>
    requires (h.StdList? || h.StdTuple?) && WellFormed(h) && k <= |Members(h)|
    decreases h, 0, |Members(h)| - k
  {
    if k == |Members(h)| then [] else Encoding(Members(h)[k]) + MembersFrom(h, k + 1)
  }

  /** The encodings of the entries `k..` of a map, each its key's and then its value's. */
  function EntriesFrom(h: Host, k: nat): seq<byte>
    requires h.StdMap? && WellFormed(h) && k <= |h.entries|
    decreases h, 0, |h.entries| - k
  {
    if k == |h.entries| then []
    else Encoding(h.entries[k].key) + Encoding(h.entries[k].value) + EntriesFrom(h, k + 1)
  }

  /** The top-level string overloads: `tp == TYPE::String` selects a string, anything else a
      binary.  `(int)length()` is the binary's length, so it has to fit an `int`. */
  function TextEncoding(s: seq<byte>, tp: TypeTag): seq<byte>
    requires tp == StringTag ==> |s| < 0x1_0000
    requires |s| < TWO_31
  {
    if tp == StringTag then EncodeString(s) else EncodeBinary(s)
  }

  // ---------------------------------------------------------------------
  // Facts about the encodings

  /** Every encoding starts with the tag of its overload's term. */
  lemma EncodingTag(h: Host)
    requires WellFormed(h)
    ensures |Encoding(h)| >= 2
    ensures Encoding(h)[0] ==
      match h
      case Integral(x) => (if 0 <= ToLong(x) < 256 then SMALL_INTEGER_EXT
                           else if IsInt32(ToLong(x)) then INTEGER_EXT else SMALL_BIG_EXT)
      case Floating(_) => NEW_FLOAT_EXT
      case StdString(_) => STRING_EXT
      case CString(_) => STRING_EXT
      case StdList(_) => LIST_EXT
      case StdTuple(fs) => if |fs| < 256 then SMALL_TUPLE_EXT else LARGE_TUPLE_EXT
      case StdMap(_) => MAP_EXT
  {
  }

  /** A C string holding no NUL is its own contents. */
  lemma {:induction false} CStrNoNul(s: seq<byte>)
    requires 0 !in s
    ensures CStr(s) == s
  {
    if s != [] {
      assert 0 !in s[1..];
      CStrNoNul(s[1..]);
    }
  }
}
