/** What the decoder makes of what the encoder wrote.  A host value matches a
    schema when every member has the schema's type; decoding its encoding
    then rebuilds the host's node.  The decoder never reads the empty-list
    terminator the encoder writes after a list's elements, so it stops
    `Trailer(h)` bytes short of the end, and a list followed by a sibling
    misleads the sibling's decoder: the round trip holds for hosts where
    every list is the last member of its container. */
module RoundTrip {
  import opened Etf
  import opened Terms
  import opened DecodeSpec
  import opened Hosts

  /** The compound schema `s` decodes `n` members: a sole type any number of them, several types
      exactly one each. */
  predicate SlotsFit(s: Schema, n: nat)
    requires s.IsCompound()
  {
    |s.Types()| == 1 || n == |s.Types()|
  }

  /** The host's members have the types the schema's slots name.  A list matches `List<T>` or
      `MultiTypeList<Ts...>`, a tuple matches `Tuple<Ts...>`; a schema with a sole type T, such as
      `Tuple<T>`, matches any number of members of type T, one with several types exactly one
      member per type.  Strings match `String`. */
  ghost predicate Matches(h: Host, s: Schema)
    decreases h
  {
    match h
    case Integral(_) => s == Long
    case Floating(_) => s == Double
    case StdString(_) => s == String
    case CString(_) => s == String
    case StdList(es) =>
      && (s.List? || s.MultiTypeList?) && SlotsFit(s, |es|)
      && forall j :: 0 <= j < |es| ==> Matches(es[j], SlotType(s.Types(), j))
    case StdTuple(fs) =>
      && s.Tuple? && SlotsFit(s, |fs|)
      && forall j :: 0 <= j < |fs| ==> Matches(fs[j], SlotType(s.Types(), j))
    case StdMap(es) =>
      && s.Map?
      && forall j :: 0 <= j < |es| ==> Matches(es[j].key, s.key) && Matches(es[j].value, s.value)
  }

  /** The node a decode of the host's encoding should build. */
  function NodeOf(h: Host): Node
    requires WellFormed(h)
    decreases h, 1
  {
    match h
    case Integral(x) => Single(IntegerValue(ToLong(x)))
    case Floating(b) => Single(FloatValue(b))
    case StdString(s) => Single(StringValue(s))
    case CString(s) => Single(StringValue(CStr(s)))
    case StdList(es) => Compound(|es|, MemberNodes(h))
    case StdTuple(fs) => Compound(|fs|, MemberNodes(h))
    case StdMap(es) =>
      var c := Interleaved(KeyNodes(h), ValueNodes(h), 0);
      MapNode(|es|, c, Project(c))
  }

  /** The nodes of the members of a list or a tuple. */
  function MemberNodes(h: Host): (r: seq<Node>)
    requires (h.StdList? || h.StdTuple?) && WellFormed(h)
    decreases h, 0
    ensures |r| == |Members(h)| && forall p :: 0 <= p < |r| ==> r[p] == NodeOf(Members(h)[p])
  {
    var ms := Members(h);
    seq(|ms|, p requires 0 <= p < |ms| => NodeOf(ms[p]))
  }

  /** The nodes of the keys of a map, in iteration order. */
  function KeyNodes(h: Host): (r: seq<Node>)
    requires h.StdMap? && WellFormed(h)
    decreases h, 0
    ensures |r| == |h.entries| && forall p :: 0 <= p < |r| ==> r[p] == NodeOf(h.entries[p].key)
  {
    var es := h.entries;
    seq(|es|, p requires 0 <= p < |es| => NodeOf(es[p].key))
  }

  /** The nodes of the values of a map, in iteration order. */
  function ValueNodes(h: Host): (r: seq<Node>)
    requires h.StdMap? && WellFormed(h)
    decreases h, 0
    ensures |r| == |h.entries| && forall p :: 0 <= p < |r| ==> r[p] == NodeOf(h.entries[p].value)
  {
    var es := h.entries;
    seq(|es|, p requires 0 <= p < |es| => NodeOf(es[p].value))
  }

  /** The encodings of the members of a list or a tuple. */
  function MemberEncodings(h: Host): (r: seq<seq<byte>>)
    requires (h.StdList? || h.StdTuple?) && WellFormed(h)
    ensures |r| == |Members(h)| && forall p :: 0 <= p < |r| ==> r[p] == Encoding(Members(h)[p])
  {
    var ms := Members(h);
    seq(|ms|, p requires 0 <= p < |ms| => Encoding(ms[p]))
  }

  /** The encodings of the keys of a map. */
  function KeyEncodings(h: Host): (r: seq<seq<byte>>)
    requires h.StdMap? && WellFormed(h)
    ensures |r| == |h.entries| && forall p :: 0 <= p < |r| ==> r[p] == Encoding(h.entries[p].key)
  {
    var es := h.entries;
    seq(|es|, p requires 0 <= p < |es| => Encoding(es[p].key))
  }

  /** The encodings of the values of a map. */
  function ValueEncodings(h: Host): (r: seq<seq<byte>>)
    requires h.StdMap? && WellFormed(h)
    ensures |r| == |h.entries| && forall p :: 0 <= p < |r| ==> r[p] == Encoding(h.entries[p].value)
  {
    var es := h.entries;
    seq(|es|, p requires 0 <= p < |es| => Encoding(es[p].value))
  }

  /** The pieces `xs[k..]`, one after the other. */
  function Joined(xs: seq<seq<byte>>, k: nat): seq<byte>
    requires k <= |xs|
    decreases |xs| - k
  {
    if k == |xs| then [] else xs[k] + Joined(xs, k + 1)
  }

  /** The pieces `a[k..]` and `b[k..]`, alternately. */
  function Paired(a: seq<seq<byte>>, b: seq<seq<byte>>, k: nat): seq<byte>
    requires |a| == |b| && k <= |a|
    decreases |a| - k
  {
    if k == |a| then [] else a[k] + b[k] + Paired(a, b, k + 1)
  }

  /** The nodes `a[k..]` and `b[k..]`, alternately. */
  function Interleaved(a: seq<Node>, b: seq<Node>, k: nat): seq<Node>
    requires |a| == |b| && k <= |a|
    decreases |a| - k
  {
    if k == |a| then [] else [a[k], b[k]] + Interleaved(a, b, k + 1)
  }

  /** A list's or a tuple's member encodings, as the encoder writes them, are its pieces joined. */
  lemma {:induction false} MembersJoined(h: Host, k: nat)
    requires (h.StdList? || h.StdTuple?) && WellFormed(h) && k <= |Members(h)|
    decreases |Members(h)| - k
    ensures MembersFrom(h, k) == Joined(MemberEncodings(h), k)
  {
    if k < |Members(h)| {
      MembersJoined(h, k + 1);
    }
  }

  /** A map's entry encodings, as the encoder writes them, are its key and value pieces paired. */
  lemma {:induction false} EntriesPaired(h: Host, k: nat)
    requires h.StdMap? && WellFormed(h) && k <= |h.entries|
    decreases |h.entries| - k
    ensures EntriesFrom(h, k) == Paired(KeyEncodings(h), ValueEncodings(h), k)
  {
    if k < |h.entries| {
      EntriesPaired(h, k + 1);
    }
  }

  /** The empty-list terminators at the very end of the encoding: the decoder leaves them unread. */
  function Trailer(h: Host): nat
    decreases h
  {
    match h
    case StdList(es) => 1 + (if es == [] then 0 else Trailer(es[|es| - 1]))
    case StdTuple(fs) => if fs == [] then 0 else Trailer(fs[|fs| - 1])
    case StdMap(es) => if es == [] then 0 else Trailer(es[|es| - 1].value)
    case _ => 0
  }

  /** The trailer of the last member of a list or a tuple, or of the last value of a map. */
  function LastTrailer(h: Host): nat
    requires h.StdList? || h.StdTuple? || h.StdMap?
  {
    if h.StdMap? then (if h.entries == [] then 0 else Trailer(h.entries[|h.entries| - 1].value))
    else if Members(h) == [] then 0 else Trailer(Members(h)[|Members(h)| - 1])
  }

  /** No member that is followed by another ends with a list, all the way down. */
  ghost predicate ListsLast(h: Host)
    decreases h
  {
    match h
    case StdList(es) =>
      forall j :: 0 <= j < |es| ==> ListsLast(es[j]) && (j < |es| - 1 ==> Trailer(es[j]) == 0)
    case StdTuple(fs) =>
      forall j :: 0 <= j < |fs| ==> ListsLast(fs[j]) && (j < |fs| - 1 ==> Trailer(fs[j]) == 0)
    case StdMap(es) =>
      forall j :: 0 <= j < |es| ==>
        && ListsLast(es[j].key) && Trailer(es[j].key) == 0
        && ListsLast(es[j].value) && (j < |es| - 1 ==> Trailer(es[j].value) == 0)
    case _ => true
  }

  // ---------------------------------------------------------------------
  // The round trip

  /** Decoding the encoding of a matching host at `i` succeeds, rebuilds the host's node and
      stops right before the trailing empty-list terminators. */
  lemma {:induction false} Decoded(h: Host, s: Schema, buf: seq<byte>, i: nat)
    requires WellFormed(h) && Matches(h, s) && ListsLast(h)
    requires At(buf, i, Encoding(h))
    decreases h, 4
    ensures var o := Decode(s, buf, i);
            o.ret == 0 && o.node == NodeOf(h) && o.next + Trailer(h) == i + |Encoding(h)|
  {
    match h
    case Integral(x) => LongRoundTrip(buf, i, ToLong(x));
    case Floating(b) => DoubleRoundTrip(buf, i, b);
    case StdString(t) => StringRoundTrip(buf, i, t);
    case CString(t) => StringRoundTrip(buf, i, CStr(t));
    case StdList(_) => CompoundDecoded(h, s, buf, i);
    case StdTuple(_) => CompoundDecoded(h, s, buf, i);
    case StdMap(_) => MapDecoded(h, s, buf, i);
  }

  /** The header a list or a tuple is encoded with. */
  function CompoundHeader(h: Host): seq<byte>
    requires (h.StdList? || h.StdTuple?) && WellFormed(h)
  {
    if h.StdList? then EncodeListHeader(|h.elements|) else EncodeTupleHeader(|h.fields|)
  }

  /** A list or a tuple: its header, then its members. */
  lemma CompoundDecoded(h: Host, s: Schema, buf: seq<byte>, i: nat)
    requires (h.StdList? || h.StdTuple?) && WellFormed(h) && Matches(h, s) && ListsLast(h)
    requires At(buf, i, Encoding(h))
    decreases h, 3
    ensures var o := DecodeCompound(s, buf, i);
            o.ret == 0 && o.node == NodeOf(h) && o.next + Trailer(h) == i + |Encoding(h)|
  {
    var n, j := |Members(h)|, i + |CompoundHeader(h)|;
    CompoundLayout(h, s, buf, i);
    MembersRun(h, s, buf, j);
    CompoundClosed(s, buf, i, n, j);
    CompoundNode(h);
    CompoundTrailer(h);
  }

  /** A list's or a tuple's node holds its member nodes. */
  lemma CompoundNode(h: Host)
    requires (h.StdList? || h.StdTuple?) && WellFormed(h)
    ensures NodeOf(h) == Compound(|Members(h)|, MemberNodes(h))
  {
  }

  /** A list's or a tuple's trailer is its last member's, plus a list's own terminator. */
  lemma CompoundTrailer(h: Host)
    requires h.StdList? || h.StdTuple?
    ensures Trailer(h) == (if h.StdList? then 1 else 0) + (if Members(h) == [] then 0 else LastTrailer(h))
  {
  }

  /** The slot run of a matching list or tuple over its member pieces at `j` rebuilds the member
      nodes and stops the last member's trailer short of the pieces' end. */
  lemma MembersRun(h: Host, s: Schema, buf: seq<byte>, j: nat)
    requires (h.StdList? || h.StdTuple?) && WellFormed(h) && Matches(h, s) && ListsLast(h)
    requires At(buf, j, Joined(MemberEncodings(h), 0))
    decreases h, 2
    ensures s.IsCompound() && (|s.Types()| == 1 || |Members(h)| <= |s.Types()|)
    ensures var c := Run(SlotDecoder(s.Types(), buf), 0, |Members(h)|, j);
            && c.ret == 0 && c.nodes == MemberNodes(h)
            && c.next + (if Members(h) == [] then 0 else LastTrailer(h)) == j + |Joined(MemberEncodings(h), 0)|
  {
    MembersReadBack(h, s, buf);
    RunReadsBack(SlotDecoder(s.Types(), buf), MemberEncodings(h), MemberNodes(h), LastTrailer(h), 0, buf, j);
    assert MemberNodes(h)[0..] == MemberNodes(h);
  }

  /** A compound whose header decoded to n slots ends where its slot run ends. */
  lemma CompoundClosed(s: Schema, buf: seq<byte>, i: nat, n: nat, j: nat)
    requires s.IsCompound() && Header(s, buf, i) == Done(n, j) && Slots(s.Types(), n) == n
    requires |s.Types()| == 1 || n <= |s.Types()|
    ensures var c := Run(SlotDecoder(s.Types(), buf), 0, n, j);
            DecodeCompound(s, buf, i) == Outcome(c.ret, Compound(n, c.nodes), c.next)
  {
    CompoundOutcome(s, buf, i, Run(SlotDecoder(s.Types(), buf), 0, n, j));
  }

  /** The encoding of a list or a tuple at `i`: a header that decodes to the member count, the
      member pieces right after it, and for a list the terminator after those. */
  lemma CompoundLayout(h: Host, s: Schema, buf: seq<byte>, i: nat)
    requires (h.StdList? || h.StdTuple?) && WellFormed(h) && Matches(h, s)
    requires At(buf, i, Encoding(h))
    ensures s.IsCompound() && Slots(s.Types(), |Members(h)|) == |Members(h)|
    ensures |s.Types()| == 1 || |Members(h)| <= |s.Types()|
    ensures Header(s, buf, i) == Done(|Members(h)|, i + |CompoundHeader(h)|)
    ensures At(buf, i + |CompoundHeader(h)|, Joined(MemberEncodings(h), 0))
    ensures |Encoding(h)| == |CompoundHeader(h)| + |Joined(MemberEncodings(h), 0)| + (if h.StdList? then 1 else 0)
  {
    var n, body := |Members(h)|, Joined(MemberEncodings(h), 0);
    var header := CompoundHeader(h);
    var tail := if h.StdList? then EncodeEmptyList() else [];
    MembersJoined(h, 0);
    assert Encoding(h) == header + (body + tail);
    AtConcat(buf, i, header, body + tail);
    AtConcat(buf, i + |header|, body, tail);
    if h.StdList? {
      ListHeaderRoundTrip(buf, i, n);
    } else {
      TupleHeaderRoundTrip(buf, i, n);
    }
  }

  /** Each slot decoder of a matching compound reads back its member's encoding wherever it
      stands; only the last member may stop short of its end, by its trailer. */
  lemma MembersReadBack(h: Host, s: Schema, buf: seq<byte>)
    requires (h.StdList? || h.StdTuple?) && WellFormed(h) && Matches(h, s) && ListsLast(h)
    decreases h, 1
    ensures s.IsCompound() && (|s.Types()| == 1 || |Members(h)| <= |s.Types()|)
    ensures forall p: nat, q: nat {:trigger At(buf, q, MemberEncodings(h)[p])} ::
              p < |MemberEncodings(h)| && At(buf, q, MemberEncodings(h)[p]) ==>
              && SlotDecoder(s.Types(), buf)(p, q).ret == 0
              && SlotDecoder(s.Types(), buf)(p, q).node == MemberNodes(h)[p]
              && SlotDecoder(s.Types(), buf)(p, q).next + (if p + 1 == |MemberEncodings(h)| then LastTrailer(h) else 0)
                 == q + |MemberEncodings(h)[p]|
  {
    var encs := MemberEncodings(h);
    TypesSmaller(s);
    var f := SlotDecoder(s.Types(), buf);
    forall p: nat, q: nat | p < |encs| && At(buf, q, encs[p])
      ensures f(p, q).ret == 0 && f(p, q).node == MemberNodes(h)[p]
      ensures f(p, q).next + (if p + 1 == |encs| then LastTrailer(h) else 0) == q + |encs[p]|
    {
      MemberReadBack(h, s, buf, p, q);
    }
  }

  /** Slot p's decoder of a matching compound reads back member p's encoding at q. */
  lemma MemberReadBack(h: Host, s: Schema, buf: seq<byte>, p: nat, q: nat)
    requires (h.StdList? || h.StdTuple?) && WellFormed(h) && Matches(h, s) && ListsLast(h)
    requires p < |Members(h)| && At(buf, q, Encoding(Members(h)[p]))
    decreases h, 0
    ensures s.IsCompound() && (|s.Types()| == 1 || p < |s.Types()|)
    ensures var o := SlotDecoder(s.Types(), buf)(p, q);
            && o.ret == 0 && o.node == NodeOf(Members(h)[p])
            && o.next + (if p + 1 == |Members(h)| then LastTrailer(h) else 0) == q + |Encoding(Members(h)[p])|
  {
    var m := Members(h)[p];
    MemberMatches(h, s, p);
    Decoded(m, SlotType(s.Types(), p), buf, q);
    SlotDecoderIs(s.Types(), buf, p, q);
    if p + 1 == |Members(h)| {
      MemberTrailer(h, p);
    }
  }

  /** The last member's trailer is the compound's last trailer. */
  lemma MemberTrailer(h: Host, p: nat)
    requires (h.StdList? || h.StdTuple?) && p + 1 == |Members(h)|
    ensures LastTrailer(h) == Trailer(Members(h)[p])
  {
  }

  /** Member k of a list or tuple has the type of the compound's slot k, and ends with no
      terminator unless it is the last member. */
  lemma MemberMatches(h: Host, s: Schema, k: nat)
    requires (h.StdList? || h.StdTuple?) && Matches(h, s) && ListsLast(h) && k < |Members(h)|
    ensures s.IsCompound() && (|s.Types()| == 1 || k < |s.Types()|)
    ensures Matches(Members(h)[k], SlotType(s.Types(), k)) && ListsLast(Members(h)[k])
    ensures k + 1 < |Members(h)| ==> Trailer(Members(h)[k]) == 0
  {
  }

  /** Slots k.. of a run read back their pieces one after the other, when each slot's decoder
      reads back its own piece wherever it stands; only the last piece may stop `last` bytes
      short of its end. */
  lemma {:induction false} RunReadsBack(step: (nat, nat) --> Outcome, encs: seq<seq<byte>>, nodes: seq<Node>,
                                        last: nat, k: nat, buf: seq<byte>, pos: nat)
    requires |nodes| == |encs| && k <= |encs|
    requires forall p: nat, q: nat :: p < |encs| ==> step.requires(p, q)
    requires forall p: nat, q: nat {:trigger At(buf, q, encs[p])} :: p < |encs| && At(buf, q, encs[p]) ==>
      && step(p, q).ret == 0 && step(p, q).node == nodes[p]
      && step(p, q).next + (if p + 1 == |encs| then last else 0) == q + |encs[p]|
    requires At(buf, pos, Joined(encs, k))
    decreases |encs| - k
    ensures var c := Run(step, k, |encs|, pos);
            && c.ret == 0 && c.nodes == nodes[k..]
            && c.next + (if k < |encs| then last else 0) == pos + |Joined(encs, k)|
  {
    if k < |encs| {
      AtConcat(buf, pos, encs[k], Joined(encs, k + 1));
      var o := step(k, pos);
      var rest := Run(step, k + 1, |encs|, o.next);
      assert Run(step, k, |encs|, pos) == Children(rest.ret, [o.node] + rest.nodes, rest.next);
      if k + 1 < |encs| {
        RunReadsBack(step, encs, nodes, last, k + 1, buf, o.next);
      }
      assert nodes[k..] == [nodes[k]] + nodes[k + 1..];
    }
  }

  /** A map: its header, then its entries. */
  lemma MapDecoded(h: Host, s: Schema, buf: seq<byte>, i: nat)
    requires h.StdMap? && WellFormed(h) && Matches(h, s) && ListsLast(h)
    requires At(buf, i, Encoding(h))
    decreases h, 3
    ensures var o := DecodeMap(s, buf, i);
            o.ret == 0 && o.node == NodeOf(h) && o.next + Trailer(h) == i + |Encoding(h)|
  {
    var n := |h.entries|;
    var j := i + |EncodeMapHeader(n)|;
    MapLayout(h, buf, i);
    EntriesRun(h, s, buf, j);
    MapClosed(s, buf, i, n, j);
  }

  /** The encoding of a map at `i`: a header that decodes to the entry count, then the entry
      pieces right after it. */
  lemma MapLayout(h: Host, buf: seq<byte>, i: nat)
    requires h.StdMap? && WellFormed(h)
    requires At(buf, i, Encoding(h))
    ensures DecodeMapHeader(buf, i) == Done(|h.entries|, i + |EncodeMapHeader(|h.entries|)|)
    ensures At(buf, i + |EncodeMapHeader(|h.entries|)|, Paired(KeyEncodings(h), ValueEncodings(h), 0))
    ensures |Encoding(h)| == |EncodeMapHeader(|h.entries|)| + |Paired(KeyEncodings(h), ValueEncodings(h), 0)|
  {
    var n := |h.entries|;
    EntriesPaired(h, 0);
    AtConcat(buf, i, EncodeMapHeader(n), Paired(KeyEncodings(h), ValueEncodings(h), 0));
    MapHeaderRoundTrip(buf, i, n);
  }

  /** A map whose header decoded to n entries ends where its pair loop ends. */
  lemma MapClosed(s: Schema, buf: seq<byte>, i: nat, n: nat, j: nat)
    requires s.Map? && DecodeMapHeader(buf, i) == Done(n, j)
    ensures var c := Pairs(NodeDecoder(s.key, buf), NodeDecoder(s.value, buf), n, j);
            DecodeMap(s, buf, i) == Outcome(c.ret, MapNode(n, c.nodes, Project(c.nodes)), c.next)
  {
    assert Count(n) == n;
    MapOutcome(s, buf, i, Pairs(NodeDecoder(s.key, buf), NodeDecoder(s.value, buf), n, j));
  }

  /** The pair loop of a matching map over its entry pieces at `j` rebuilds the key and value
      nodes, alternately, and stops the last value's trailer short of the pieces' end. */
  lemma EntriesRun(h: Host, s: Schema, buf: seq<byte>, j: nat)
    requires h.StdMap? && WellFormed(h) && Matches(h, s) && ListsLast(h)
    requires At(buf, j, Paired(KeyEncodings(h), ValueEncodings(h), 0))
    decreases h, 2
    ensures s.Map?
    ensures var c := Pairs(NodeDecoder(s.key, buf), NodeDecoder(s.value, buf), |h.entries|, j);
            && c.ret == 0 && c.nodes == Interleaved(KeyNodes(h), ValueNodes(h), 0)
            && c.next + (if h.entries == [] then 0 else LastTrailer(h))
               == j + |Paired(KeyEncodings(h), ValueEncodings(h), 0)|
  {
    KeysReadBack(h, s, buf);
    ValuesReadBack(h, s, buf);
    PairsReadBack(NodeDecoder(s.key, buf), NodeDecoder(s.value, buf), KeyEncodings(h), ValueEncodings(h),
                  KeyNodes(h), ValueNodes(h), LastTrailer(h), 0, buf, j);
  }

  /** The key decoder of a matching map reads back each key's encoding wherever it stands. */
  lemma KeysReadBack(h: Host, s: Schema, buf: seq<byte>)
    requires h.StdMap? && WellFormed(h) && Matches(h, s) && ListsLast(h)
    decreases h, 1
    ensures s.Map?
    ensures forall p: nat, q: nat {:trigger At(buf, q, KeyEncodings(h)[p])} ::
              p < |KeyEncodings(h)| && At(buf, q, KeyEncodings(h)[p]) ==>
              && NodeDecoder(s.key, buf)(q).ret == 0 && NodeDecoder(s.key, buf)(q).node == KeyNodes(h)[p]
              && NodeDecoder(s.key, buf)(q).next == q + |KeyEncodings(h)[p]|
  {
    var kencs := KeyEncodings(h);
    var key := NodeDecoder(s.key, buf);
    forall p: nat, q: nat | p < |kencs| && At(buf, q, kencs[p])
      ensures key(q).ret == 0 && key(q).node == KeyNodes(h)[p] && key(q).next == q + |kencs[p]|
    {
      KeyReadBack(h, s, buf, p, q);
    }
  }

  /** The key decoder of a matching map reads back key p's encoding at q. */
  lemma KeyReadBack(h: Host, s: Schema, buf: seq<byte>, p: nat, q: nat)
    requires h.StdMap? && WellFormed(h) && Matches(h, s) && ListsLast(h)
    requires p < |h.entries| && At(buf, q, Encoding(h.entries[p].key))
    decreases h, 0
    ensures s.Map?
    ensures var o := Decode(s.key, buf, q);
            o.ret == 0 && o.node == NodeOf(h.entries[p].key) && o.next == q + |Encoding(h.entries[p].key)|
  {
    EntryMatches(h, s, p);
    Decoded(h.entries[p].key, s.key, buf, q);
  }

  /** The value decoder of a matching map reads back each value's encoding wherever it stands;
      only the last value may stop short of its end, by its trailer. */
  lemma ValuesReadBack(h: Host, s: Schema, buf: seq<byte>)
    requires h.StdMap? && WellFormed(h) && Matches(h, s) && ListsLast(h)
    decreases h, 1
    ensures s.Map?
    ensures forall p: nat, q: nat {:trigger At(buf, q, ValueEncodings(h)[p])} ::
              p < |KeyEncodings(h)| && At(buf, q, ValueEncodings(h)[p]) ==>
              && NodeDecoder(s.value, buf)(q).ret == 0 && NodeDecoder(s.value, buf)(q).node == ValueNodes(h)[p]
              && NodeDecoder(s.value, buf)(q).next + (if p + 1 == |KeyEncodings(h)| then LastTrailer(h) else 0)
                 == q + |ValueEncodings(h)[p]|
  {
    var kencs, vencs := KeyEncodings(h), ValueEncodings(h);
    var val := NodeDecoder(s.value, buf);
    forall p: nat, q: nat | p < |kencs| && At(buf, q, vencs[p])
      ensures val(q).ret == 0 && val(q).node == ValueNodes(h)[p]
      ensures val(q).next + (if p + 1 == |kencs| then LastTrailer(h) else 0) == q + |vencs[p]|
    {
      ValueReadBack(h, s, buf, p, q);
    }
  }

  /** The value decoder of a matching map reads back value p's encoding at q; only the last
      value may stop short of its end, by its trailer. */
  lemma ValueReadBack(h: Host, s: Schema, buf: seq<byte>, p: nat, q: nat)
    requires h.StdMap? && WellFormed(h) && Matches(h, s) && ListsLast(h)
    requires p < |h.entries| && At(buf, q, Encoding(h.entries[p].value))
    decreases h, 0
    ensures s.Map?
    ensures var o := Decode(s.value, buf, q);
            && o.ret == 0 && o.node == NodeOf(h.entries[p].value)
            && o.next + (if p + 1 == |h.entries| then LastTrailer(h) else 0) == q + |Encoding(h.entries[p].value)|
  {
    EntryMatches(h, s, p);
    Decoded(h.entries[p].value, s.value, buf, q);
  }

  /** Entry k of a map has the key and value types of the map schema; its key never ends with a
      terminator, its value only when it is the last entry's. */
  lemma EntryMatches(h: Host, s: Schema, k: nat)
    requires h.StdMap? && Matches(h, s) && ListsLast(h) && k < |h.entries|
    ensures s.Map? && Matches(h.entries[k].key, s.key) && Matches(h.entries[k].value, s.value)
    ensures ListsLast(h.entries[k].key) && Trailer(h.entries[k].key) == 0
    ensures ListsLast(h.entries[k].value)
    ensures k + 1 < |h.entries| ==> Trailer(h.entries[k].value) == 0
    ensures h.entries[k].key < h && h.entries[k].value < h
  {
    assert h.entries[k] in h.entries;
  }

  /** Rounds k.. of a map's loop read back the key and value pieces one after the other, when
      the key and value decoders read back their pieces wherever they stand; only the last
      value may stop `last` bytes short of its end. */
  lemma {:induction false} PairsReadBack(key: nat -> Outcome, val: nat -> Outcome,
                                         kencs: seq<seq<byte>>, vencs: seq<seq<byte>>,
                                         knodes: seq<Node>, vnodes: seq<Node>,
                                         last: nat, k: nat, buf: seq<byte>, pos: nat)
    requires |vencs| == |kencs| && |knodes| == |kencs| && |vnodes| == |kencs| && k <= |kencs|
    requires forall p: nat, q: nat {:trigger At(buf, q, kencs[p])} :: p < |kencs| && At(buf, q, kencs[p]) ==>
      key(q).ret == 0 && key(q).node == knodes[p] && key(q).next == q + |kencs[p]|
    requires forall p: nat, q: nat {:trigger At(buf, q, vencs[p])} :: p < |kencs| && At(buf, q, vencs[p]) ==>
      && val(q).ret == 0 && val(q).node == vnodes[p]
      && val(q).next + (if p + 1 == |kencs| then last else 0) == q + |vencs[p]|
    requires At(buf, pos, Paired(kencs, vencs, k))
    decreases |kencs| - k
    ensures var c := Pairs(key, val, |kencs| - k, pos);
            && c.ret == 0 && c.nodes == Interleaved(knodes, vnodes, k)
            && c.next + (if k < |kencs| then last else 0) == pos + |Paired(kencs, vencs, k)|
  {
    if k < |kencs| {
      AtConcat(buf, pos, kencs[k] + vencs[k], Paired(kencs, vencs, k + 1));
      AtConcat(buf, pos, kencs[k], vencs[k]);
      var ko := key(pos);
      var vo := val(ko.next);
      if k + 1 < |kencs| {
        PairsReadBack(key, val, kencs, vencs, knodes, vnodes, last, k + 1, buf, vo.next);
        var rest := Pairs(key, val, |kencs| - k - 1, vo.next);
        assert Pairs(key, val, |kencs| - k, pos) == Children(rest.ret, [ko.node, vo.node] + rest.nodes, rest.next);
      } else {
        assert Pairs(key, val, 0, vo.next) == Children(0, [], vo.next);
      }
    }
  }
}
