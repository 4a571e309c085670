/** What a decode of eipp does, as pure functions: `SingleType::decode`,
    `CompoundType::decode` with `compound_decoder(_helper)`, and
    `MapType::decode` with `add_to_value` (eipp.h:87-229, 328-380).

    A decode returns the C return code (0 or -1), the node it built (complete
    or, after a failure, partially built) and the cursor `*index` after it.
    The imperative decoder in decoder.dfy is proved to compute exactly these
    functions. */
module DecodeSpec {
  import opened Etf
  import opened Terms

  datatype Outcome = Outcome(ret: int, node: Node, next: nat)

  /** The return code, the children pushed onto an owner vector, and the cursor. */
  datatype Children = Children(ret: int, nodes: seq<Node>, next: nat)

  /** eipp's return codes. */
  predicate IsRet(r: int) { r == 0 || r == -1 }

  /** The number of rounds of `for (int i = 0; i < arity; i++)`. */
  function Count(arity: int): nat { if arity > 0 then arity else 0 }

  /** The number of child slots a compound decode runs: `arity` rounds for a sole type, one slot
      per type otherwise. */
  function Slots(ts: seq<Schema>, arity: int): nat
  {
    if |ts| == 1 then Count(arity) else |ts|
  }

  /** The header decoder the schema's class is instantiated with. */
  function Header(s: Schema, buf: seq<byte>, i: nat): (r: Step<int>)
    requires !s.IsSingle()
    ensures Advances(r, buf, i)
  {
    match s
    case Tuple(_) => DecodeTupleHeader(buf, i)
    case Map(_, _) => DecodeMapHeader(buf, i)
    case _ => DecodeListHeader(buf, i)
  }

  /** `SingleType::decode` with `LongDecoder`, `DoubleDecoder`, `StringDecoder` or `BinaryDecoder`:
      on failure the node keeps the default value it was constructed with. */
  function DecodeSingle(s: Schema, buf: seq<byte>, i: nat): Outcome
    requires s.IsSingle()
  {
    match s
    case Long =>
      (match DecodeLong(buf, i)
       case Done(v, j) => Outcome(0, Single(IntegerValue(v)), j)
       case Failed => Outcome(-1, Default(s), i))
    case Double =>
      (match DecodeDouble(buf, i)
       case Done(v, j) => Outcome(0, Single(FloatValue(v)), j)
       case Failed => Outcome(-1, Default(s), i))
    case String =>
      (match DecodeString(buf, i)
       case Done(v, j) => Outcome(0, Single(StringValue(v)), j)
       case Failed => Outcome(-1, Default(s), i))
    case Binary =>
      (match DecodeBinary(buf, i)
       case Done(v, j) => Outcome(0, Single(BinaryValue(v)), j)
       case Failed => Outcome(-1, Default(s), i))
  }

  /** `decode` on a freshly constructed node of schema `s`, at cursor `i`. */
  function Decode(s: Schema, buf: seq<byte>, i: nat): (o: Outcome)
    decreases Size(s), 2
    ensures IsRet(o.ret)
  {
    if s.IsSingle() then DecodeSingle(s, buf, i)
    else if s.Map? then DecodeMap(s, buf, i)
    else DecodeCompound(s, buf, i)
  }

  /** `CompoundType::decode`: the header, then the child slots. */
  function DecodeCompound(s: Schema, buf: seq<byte>, i: nat): (o: Outcome)
    requires s.IsCompound()
    decreases Size(s), 1
    ensures IsRet(o.ret)
  {
    match Header(s, buf, i)
    case Failed => Outcome(-1, Default(s), i)
    case Done(arity, j) =>
      TypesSmaller(s);
      var ts := s.Types();
      var c := Run(SlotDecoder(ts, buf), 0, Slots(ts, arity), j);
      Outcome(c.ret, Compound(arity, c.nodes), c.next)
  }

  /** `MapType::decode`: the header, then the pairs. */
  function DecodeMap(s: Schema, buf: seq<byte>, i: nat): (o: Outcome)
    requires s.Map?
    decreases Size(s), 1
    ensures IsRet(o.ret)
  {
    match DecodeMapHeader(buf, i)
    case Failed => Outcome(-1, Default(s), i)
    case Done(arity, j) =>
      var c := Pairs(NodeDecoder(s.key, buf), NodeDecoder(s.value, buf), Count(arity), j);
      Outcome(c.ret, MapNode(arity, c.nodes, Project(c.nodes)), c.next)
  }

  /** A fresh node of schema `s` decoding itself, as a function of the cursor. */
  function NodeDecoder(s: Schema, buf: seq<byte>): (f: nat -> Outcome)
    decreases Size(s), 3
    ensures forall q: nat :: f(q) == Decode(s, buf, q)
  {
    (q: nat) => Decode(s, buf, q)
  }

  /** The fresh child for slot k of a compound of type list `ts`, decoding itself. */
  function SlotDecoder(ts: seq<Schema>, buf: seq<byte>): (f: (nat, nat) --> Outcome)
    decreases SizeAll(ts), 3
    ensures forall k: nat, q: nat :: (|ts| == 1 || k < |ts|) ==> f.requires(k, q)
  {
    (k: nat, q: nat) requires |ts| == 1 || k < |ts| =>
      SlotBound(ts, k);
      Decode(SlotType(ts, k), buf, q)
  }

  /** Slots k .. n-1 of a compound, as `compound_decoder` runs them: each child is decoded from
      where the previous one stopped and pushed onto the owner vector, and the run stops after
      the first child that returns -1. */
  function Run(step: (nat, nat) --> Outcome, k: nat, n: nat, i: nat): (c: Children)
    requires k <= n && forall p: nat, q: nat :: k <= p < n ==> step.requires(p, q)
    decreases n - k
    ensures IsRet(c.ret)
    ensures |c.nodes| <= n - k && (c.ret == 0 ==> |c.nodes| == n - k)
  {
    if k == n then Children(0, [], i)
    else
      var o := step(k, i);
      if o.ret == -1 then Children(-1, [o.node], o.next)
      else
        var rest := Run(step, k + 1, n, o.next);
        Children(rest.ret, [o.node] + rest.nodes, rest.next)
  }

  /** `count` rounds of the loop of `MapType::decode`: a fresh key, then a fresh value, and only a
      pair whose key and value both decoded is pushed. */
  function Pairs(key: nat -> Outcome, value: nat -> Outcome, count: nat, i: nat): (c: Children)
    ensures IsRet(c.ret)
    ensures |c.nodes| <= 2 * count
    ensures c.ret == 0 ==> |c.nodes| == 2 * count
  {
    if count == 0 then Children(0, [], i)
    else
      var ko := key(i);
      if ko.ret == -1 then Children(-1, [], ko.next)
      else
        var vo := value(ko.next);
        if vo.ret == -1 then Children(-1, [], vo.next)
        else
          var rest := Pairs(key, value, count - 1, vo.next);
          Children(rest.ret, [ko.node, vo.node] + rest.nodes, rest.next)
  }

  // ---------------------------------------------------------------------
  // Where each child starts

  /** The cursor before slot q of a run that started slot k at cursor i. */
  ghost function RunAt(step: (nat, nat) --> Outcome, k: nat, q: nat, i: nat): nat
    requires forall p: nat, j: nat :: k <= p < q ==> step.requires(p, j)
    decreases q
  {
    if q <= k then i else step(q - 1, RunAt(step, k, q - 1, i)).next
  }

  lemma {:induction false} RunAtShift(step: (nat, nat) --> Outcome, k: nat, q: nat, i: nat)
    requires k < q && forall p: nat, j: nat :: k <= p < q ==> step.requires(p, j)
    ensures RunAt(step, k, q, i) == RunAt(step, k + 1, q, step(k, i).next)
  {
    if q > k + 1 {
      RunAtShift(step, k, q - 1, i);
    }
  }

  /** The cursor before pair p of a map loop that started at cursor i. */
  ghost function PairAt(key: nat -> Outcome, value: nat -> Outcome, p: nat, i: nat): nat
  {
    if p == 0 then i else value(key(PairAt(key, value, p - 1, i)).next).next
  }

  lemma {:induction false} PairAtShift(key: nat -> Outcome, value: nat -> Outcome, p: nat, i: nat)
    ensures PairAt(key, value, p + 1, i) == PairAt(key, value, p, value(key(i).next).next)
  {
    if p > 0 {
      PairAtShift(key, value, p - 1, i);
    }
  }

  /** The outcome of slot k+m of a run that started slot k at cursor i. */
  ghost function SlotOutcome(step: (nat, nat) --> Outcome, k: nat, m: nat, i: nat): Outcome
    requires forall p: nat, j: nat :: k <= p <= k + m ==> step.requires(p, j)
  {
    step(k + m, RunAt(step, k, k + m, i))
  }

  /** The outcome of the key of pair p of a map loop that started at cursor i. */
  ghost function KeyOutcome(key: nat -> Outcome, value: nat -> Outcome, p: nat, i: nat): Outcome
  {
    key(PairAt(key, value, p, i))
  }

  /** The outcome of the value of pair p. */
  ghost function ValueOutcome(key: nat -> Outcome, value: nat -> Outcome, p: nat, i: nat): Outcome
  {
    value(KeyOutcome(key, value, p, i).next)
  }

  /** The key node of pair p of an owner vector that alternates key, value. */
  function KeyNode(c: seq<Node>, p: nat): Node
    requires 2 * p + 1 < |c|
  {
    c[2 * p]
  }

  // ---------------------------------------------------------------------
  // The loops

  /** A run decodes its slots in order: child m is the outcome of slot k+m decoded where child
      m-1 stopped. */
  lemma {:induction false} RunTrace(step: (nat, nat) --> Outcome, k: nat, n: nat, i: nat)
    requires k <= n && forall p: nat, q: nat :: k <= p < n ==> step.requires(p, q)
    decreases n - k
    ensures var c := Run(step, k, n, i);
      forall m :: 0 <= m < |c.nodes| ==> c.nodes[m] == SlotOutcome(step, k, m, i).node
  {
    var c := Run(step, k, n, i);
    if k < n {
      var o := step(k, i);
      if o.ret != -1 {
        var rest := Run(step, k + 1, n, o.next);
        RunTrace(step, k + 1, n, o.next);
        RunShift(step, k, n, i);
        forall m | 1 <= m < |c.nodes|
          ensures c.nodes[m] == SlotOutcome(step, k, m, i).node
        {
          assert c.nodes[m] == rest.nodes[m - 1];
        }
      }
    }
  }

  /** The run stops at the cursor after its last child. */
  lemma {:induction false} RunEnd(step: (nat, nat) --> Outcome, k: nat, n: nat, i: nat)
    requires k <= n && forall p: nat, q: nat :: k <= p < n ==> step.requires(p, q)
    decreases n - k
    ensures Run(step, k, n, i).next == RunAt(step, k, k + |Run(step, k, n, i).nodes|, i)
  {
    if k < n && step(k, i).ret != -1 {
      RunEnd(step, k + 1, n, step(k, i).next);
      RunShift(step, k, n, i);
    }
  }

  /** A run stops at its first failure: every child but the last succeeded, and the last one
      failed exactly when the run did. */
  lemma {:induction false} RunStatus(step: (nat, nat) --> Outcome, k: nat, n: nat, i: nat)
    requires k <= n && forall p: nat, q: nat :: k <= p < n ==> step.requires(p, q)
    decreases n - k
    ensures var c := Run(step, k, n, i);
      && (forall m :: 0 <= m < |c.nodes| - 1 ==> SlotOutcome(step, k, m, i).ret != -1)
      && (c.ret == -1 <==> |c.nodes| > 0 && SlotOutcome(step, k, |c.nodes| - 1, i).ret == -1)
  {
    var c := Run(step, k, n, i);
    if k < n {
      var o := step(k, i);
      if o.ret != -1 {
        RunStatus(step, k + 1, n, o.next);
        RunShift(step, k, n, i);
      }
    }
  }

  /** After a first slot that did not fail, the run is the first child followed by the run of
      the remaining slots, and their positions shift by one. */
  lemma RunShift(step: (nat, nat) --> Outcome, k: nat, n: nat, i: nat)
    requires k < n && forall p: nat, q: nat :: k <= p < n ==> step.requires(p, q)
    requires step(k, i).ret != -1
    ensures var rest := Run(step, k + 1, n, step(k, i).next);
      && Run(step, k, n, i) == Children(rest.ret, [step(k, i).node] + rest.nodes, rest.next)
      && (forall q :: k + 1 <= q <= n ==> RunAt(step, k, q, i) == RunAt(step, k + 1, q, step(k, i).next))
      && (forall m :: 1 <= m < n - k ==> SlotOutcome(step, k, m, i) == SlotOutcome(step, k + 1, m - 1, step(k, i).next))
  {
    forall q | k + 1 <= q <= n
      ensures RunAt(step, k, q, i) == RunAt(step, k + 1, q, step(k, i).next)
    {
      RunAtShift(step, k, q, i);
    }
    forall m | 1 <= m < n - k
      ensures SlotOutcome(step, k, m, i) == SlotOutcome(step, k + 1, m - 1, step(k, i).next)
    {
      assert RunAt(step, k, k + m, i) == RunAt(step, k + 1, k + m, step(k, i).next);
    }
  }

  /** The cursor only moves forward, and stays inside `lim`, when every slot's decode does. */
  lemma {:induction false} RunBounds(step: (nat, nat) --> Outcome, k: nat, n: nat, i: nat, lim: nat)
    requires k <= n && forall p: nat, q: nat :: k <= p < n ==> step.requires(p, q)
    requires forall p: nat, q: nat :: k <= p < n ==> q <= step(p, q).next && (q <= lim ==> step(p, q).next <= lim)
    decreases n - k
    ensures i <= Run(step, k, n, i).next && (i <= lim ==> Run(step, k, n, i).next <= lim)
  {
    if k < n && step(k, i).ret != -1 {
      RunBounds(step, k + 1, n, step(k, i).next, lim);
    }
  }

  /** The map loop records completed pairs only: pair p is the key decoded where pair p-1 ended
      and the value decoded after it, both successful; after a failure, the pair that failed is
      recorded in neither the owner vector nor the projection. */
  lemma {:induction false} PairsTrace(key: nat -> Outcome, value: nat -> Outcome, n: nat, i: nat)
    ensures var c := Pairs(key, value, n, i);
      && (forall p :: 0 <= p < |c.nodes| / 2 ==>
            && KeyNode(c.nodes, p) == KeyOutcome(key, value, p, i).node
            && PairValue(c.nodes, p) == ValueOutcome(key, value, p, i).node
            && KeyOutcome(key, value, p, i).ret != -1
            && ValueOutcome(key, value, p, i).ret != -1)
      && (c.ret == -1 ==>
            var m := |c.nodes| / 2;
            m < n && (KeyOutcome(key, value, m, i).ret == -1 || ValueOutcome(key, value, m, i).ret == -1))
      && (c.ret == 0 ==> c.next == PairAt(key, value, n, i))
  {
    var c := Pairs(key, value, n, i);
    if n > 0 {
      var ko := key(i);
      if ko.ret != -1 {
        var vo := value(ko.next);
        if vo.ret != -1 {
          var rest := Pairs(key, value, n - 1, vo.next);
          PairsTrace(key, value, n - 1, vo.next);
          assert c.nodes == [ko.node, vo.node] + rest.nodes;
          forall p | 1 <= p <= n
            ensures PairAt(key, value, p, i) == PairAt(key, value, p - 1, vo.next)
          {
            PairAtShift(key, value, p - 1, i);
          }
          forall p | 1 <= p < |c.nodes| / 2
            ensures KeyNode(c.nodes, p) == KeyNode(rest.nodes, p - 1)
            ensures PairValue(c.nodes, p) == PairValue(rest.nodes, p - 1)
            ensures KeyOutcome(key, value, p, i) == KeyOutcome(key, value, p - 1, vo.next)
            ensures ValueOutcome(key, value, p, i) == ValueOutcome(key, value, p - 1, vo.next)
          {
          }
          if c.ret == -1 {
            var m := |c.nodes| / 2;
            assert KeyOutcome(key, value, m, i) == KeyOutcome(key, value, m - 1, vo.next);
          }
        }
      }
    }
  }

  /** Pairs are recorded whole: the owner vector has even length. */
  lemma {:induction false} PairsEven(key: nat -> Outcome, value: nat -> Outcome, n: nat, i: nat)
    ensures |Pairs(key, value, n, i).nodes| % 2 == 0
  {
    if n > 0 && key(i).ret != -1 && value(key(i).next).ret != -1 {
      PairsEven(key, value, n - 1, value(key(i).next).next);
    }
  }

  lemma {:induction false} PairsBounds(key: nat -> Outcome, value: nat -> Outcome, n: nat, i: nat, lim: nat)
    requires forall q: nat :: q <= key(q).next && (q <= lim ==> key(q).next <= lim)
    requires forall q: nat :: q <= value(q).next && (q <= lim ==> value(q).next <= lim)
    ensures i <= Pairs(key, value, n, i).next && (i <= lim ==> Pairs(key, value, n, i).next <= lim)
  {
    if n > 0 && key(i).ret != -1 && value(key(i).next).ret != -1 {
      PairsBounds(key, value, n - 1, value(key(i).next).next, lim);
    }
  }

  // ---------------------------------------------------------------------
  // The decode engine

  lemma SlotDecoderIs(ts: seq<Schema>, buf: seq<byte>, k: nat, q: nat)
    requires |ts| == 1 || k < |ts|
    ensures SlotDecoder(ts, buf)(k, q) == Decode(SlotType(ts, k), buf, q)
  {
  }

  /** A compound whose header decoded and whose slot run ended in `c`. */
  lemma CompoundOutcome(s: Schema, buf: seq<byte>, index: nat, c: Children)
    requires s.IsCompound() && Header(s, buf, index).Done?
    requires c == Run(SlotDecoder(s.Types(), buf), 0, Slots(s.Types(), Header(s, buf, index).value),
                      Header(s, buf, index).next)
    ensures DecodeCompound(s, buf, index) == Outcome(c.ret, Compound(Header(s, buf, index).value, c.nodes), c.next)
  {
  }

  /** A map whose header decoded and whose pair run ended in `c`. */
  lemma MapOutcome(s: Schema, buf: seq<byte>, index: nat, c: Children)
    requires s.Map? && DecodeMapHeader(buf, index).Done?
    requires c == Pairs(NodeDecoder(s.key, buf), NodeDecoder(s.value, buf),
                        Count(DecodeMapHeader(buf, index).value), DecodeMapHeader(buf, index).next)
    ensures DecodeMap(s, buf, index)
            == Outcome(c.ret, MapNode(DecodeMapHeader(buf, index).value, c.nodes, Project(c.nodes)), c.next)
  {
  }

  /** The cursor before child m of a compound whose header decoded. */
  ghost function ChildAt(s: Schema, buf: seq<byte>, i: nat, m: nat): nat
    requires s.IsCompound() && Header(s, buf, i).Done?
    requires m <= Slots(s.Types(), Header(s, buf, i).value)
  {
    RunAt(SlotDecoder(s.Types(), buf), 0, m, Header(s, buf, i).next)
  }

  /** The cursor before pair p of a map whose header decoded. */
  ghost function EntryAt(s: Schema, buf: seq<byte>, i: nat, p: nat): nat
    requires s.Map? && Header(s, buf, i).Done?
  {
    PairAt(NodeDecoder(s.key, buf), NodeDecoder(s.value, buf), p, Header(s, buf, i).next)
  }

  /** A failed header read returns -1 at once: the cursor does not move and the node keeps no
      child. */
  lemma HeaderFailurePropagates(s: Schema, buf: seq<byte>, i: nat)
    requires !s.IsSingle() && Header(s, buf, i).Failed?
    ensures Decode(s, buf, i) == Outcome(-1, Default(s), i)
    ensures Decode(s, buf, i).node.children == []
  {
  }

  /** `CompoundType::decode` after a header with arity `a`: a sole type is decoded `a` times
      (none when `a` is negative), several types once each whatever `a` says; child m is the
      decode of its slot type where child m-1 stopped; the decode stops at the first child that
      fails, which is then the last child, and returns -1 exactly then. */
  lemma {:induction false} CompoundTrace(s: Schema, buf: seq<byte>, i: nat)
    requires s.IsCompound() && Header(s, buf, i).Done?
    ensures var o, a, ts := DecodeCompound(s, buf, i), Header(s, buf, i).value, s.Types();
      var n := |o.node.children|;
      && o.node.Compound? && o.node.arity == a
      && n <= Slots(ts, a) && (o.ret == 0 ==> n == Slots(ts, a))
      && (forall m :: 0 <= m < n ==>
            o.node.children[m] == Decode(SlotType(ts, m), buf, ChildAt(s, buf, i, m)).node)
      && (forall m :: 0 <= m < n - 1 ==> Decode(SlotType(ts, m), buf, ChildAt(s, buf, i, m)).ret == 0)
      && (o.ret == -1 <==> n > 0 && Decode(SlotType(ts, n - 1), buf, ChildAt(s, buf, i, n - 1)).ret == -1)
      && o.next == ChildAt(s, buf, i, n)
  {
    var ts, h := s.Types(), Header(s, buf, i);
    var f := SlotDecoder(ts, buf);
    var c := Run(f, 0, Slots(ts, h.value), h.next);
    CompoundOutcome(s, buf, i, c);
    RunTrace(f, 0, Slots(ts, h.value), h.next);
    RunEnd(f, 0, Slots(ts, h.value), h.next);
    RunStatus(f, 0, Slots(ts, h.value), h.next);
    SlotsDecode(s, buf, i);
  }

  /** Slot m of a compound whose header decoded is a fresh node of the slot's type decoding
      itself where child m-1 stopped. */
  lemma SlotsDecode(s: Schema, buf: seq<byte>, i: nat)
    requires s.IsCompound() && Header(s, buf, i).Done?
    ensures forall m :: 0 <= m < Slots(s.Types(), Header(s, buf, i).value) ==>
      SlotOutcome(SlotDecoder(s.Types(), buf), 0, m, Header(s, buf, i).next)
      == Decode(SlotType(s.Types(), m), buf, ChildAt(s, buf, i, m))
  {
    var ts, h := s.Types(), Header(s, buf, i);
    forall m | 0 <= m < Slots(ts, h.value)
      ensures SlotOutcome(SlotDecoder(ts, buf), 0, m, h.next) == Decode(SlotType(ts, m), buf, ChildAt(s, buf, i, m))
    {
      SlotDecoderIs(ts, buf, m, ChildAt(s, buf, i, m));
    }
  }

  /** The outcome of the key of pair p of a map whose header decoded. */
  ghost function EntryKey(s: Schema, buf: seq<byte>, i: nat, p: nat): Outcome
    requires s.Map? && Header(s, buf, i).Done?
  {
    KeyOutcome(NodeDecoder(s.key, buf), NodeDecoder(s.value, buf), p, Header(s, buf, i).next)
  }

  /** The outcome of the value of pair p of a map whose header decoded. */
  ghost function EntryValue(s: Schema, buf: seq<byte>, i: nat, p: nat): Outcome
    requires s.Map? && Header(s, buf, i).Done?
  {
    ValueOutcome(NodeDecoder(s.key, buf), NodeDecoder(s.value, buf), p, Header(s, buf, i).next)
  }

  /** Pair p's key is a fresh key node decoded where pair p-1 ended, its value a fresh value node
      decoded right after the key. */
  lemma EntryDecodes(s: Schema, buf: seq<byte>, i: nat, p: nat)
    requires s.Map? && Header(s, buf, i).Done?
    ensures EntryKey(s, buf, i, p) == Decode(s.key, buf, EntryAt(s, buf, i, p))
    ensures EntryValue(s, buf, i, p) == Decode(s.value, buf, EntryKey(s, buf, i, p).next)
  {
  }

  /** `MapType::decode` after a header with arity `a`: at most `a` pairs, each decoded where the
      previous one ended (see EntryDecodes); a pair is kept only when its key and its value both
      decoded; without a failure all `a` pairs are kept; the projection holds the inserts of the
      kept pairs, in order. */
  lemma {:induction false} MapTrace(s: Schema, buf: seq<byte>, i: nat)
    requires s.Map? && Header(s, buf, i).Done?
    ensures var o, a := DecodeMap(s, buf, i), Header(s, buf, i).value;
      var c := o.node.children;
      && o.node.MapNode? && o.node.arity == a
      && |c| % 2 == 0 && |c| <= 2 * Count(a)
      && (o.ret == 0 <==> |c| == 2 * Count(a))
      && o.node.projection == Project(c)
      && (forall p :: 0 <= p < |c| / 2 ==>
            && EntryKey(s, buf, i, p).ret == 0 && KeyNode(c, p) == EntryKey(s, buf, i, p).node
            && EntryValue(s, buf, i, p).ret == 0 && PairValue(c, p) == EntryValue(s, buf, i, p).node)
      && (o.ret == -1 ==> EntryKey(s, buf, i, |c| / 2).ret == -1 || EntryValue(s, buf, i, |c| / 2).ret == -1)
  {
    var h := Header(s, buf, i);
    PairsTrace(NodeDecoder(s.key, buf), NodeDecoder(s.value, buf), Count(h.value), h.next);
    PairsEven(NodeDecoder(s.key, buf), NodeDecoder(s.value, buf), Count(h.value), h.next);
  }

  /** Every decode moves the cursor forward and, started inside the buffer, stays inside it. */
  lemma {:induction false} DecodeAdvances(s: Schema, buf: seq<byte>, i: nat)
    decreases Size(s)
    ensures i <= Decode(s, buf, i).next
    ensures i <= |buf| ==> Decode(s, buf, i).next <= |buf|
  {
    if !s.IsSingle() && Header(s, buf, i).Done? {
      var h := Header(s, buf, i);
      if s.Map? {
        var key, value := NodeDecoder(s.key, buf), NodeDecoder(s.value, buf);
        forall q: nat
          ensures q <= key(q).next && (q <= |buf| ==> key(q).next <= |buf|)
          ensures q <= value(q).next && (q <= |buf| ==> value(q).next <= |buf|)
        {
          DecodeAdvances(s.key, buf, q);
          DecodeAdvances(s.value, buf, q);
        }
        PairsBounds(key, value, Count(h.value), h.next, |buf|);
      } else {
        var ts := s.Types();
        var f := SlotDecoder(ts, buf);
        forall p: nat, q: nat | 0 <= p < Slots(ts, h.value)
          ensures q <= f(p, q).next && (q <= |buf| ==> f(p, q).next <= |buf|)
        {
          TypesSmaller(s);
          SlotBound(ts, p);
          SlotDecoderIs(ts, buf, p, q);
          DecodeAdvances(SlotType(ts, p), buf, q);
        }
        RunBounds(f, 0, Slots(ts, h.value), h.next, |buf|);
      }
    }
  }

  /** Every decode, successful or not, builds a node of the schema's class all the way down, so
      the typed accessors apply to it. */
  lemma {:induction false} DecodeShaped(s: Schema, buf: seq<byte>, i: nat)
    decreases Size(s), 2
    ensures Shaped(Decode(s, buf, i).node, s)
  {
    if !s.IsSingle() && Header(s, buf, i).Done? {
      if s.Map? {
        MapShaped(s, buf, i);
      } else {
        CompoundShapedDecode(s, buf, i);
      }
    }
  }

  lemma {:induction false} MapShaped(s: Schema, buf: seq<byte>, i: nat)
    requires s.Map? && Header(s, buf, i).Done?
    decreases Size(s), 1
    ensures Shaped(DecodeMap(s, buf, i).node, s)
  {
    MapTrace(s, buf, i);
    var c := DecodeMap(s, buf, i).node.children;
    forall p | 0 <= p < |c| / 2
      ensures Shaped(c[2 * p], s.key) && Shaped(c[2 * p + 1], s.value)
    {
      EntryShaped(s, buf, i, p);
      assert c[2 * p] == KeyNode(c, p);
    }
    forall j | 0 <= j < |c|
      ensures Shaped(c[j], if j % 2 == 0 then s.key else s.value)
    {
      var p := j / 2;
      if j % 2 == 0 {
        assert j == 2 * p;
      } else {
        assert j == 2 * p + 1;
      }
    }
  }

  lemma {:induction false} EntryShaped(s: Schema, buf: seq<byte>, i: nat, p: nat)
    requires s.Map? && Header(s, buf, i).Done?
    decreases Size(s), 0
    ensures Shaped(EntryKey(s, buf, i, p).node, s.key)
    ensures Shaped(EntryValue(s, buf, i, p).node, s.value)
  {
    EntryDecodes(s, buf, i, p);
    DecodeShaped(s.key, buf, EntryAt(s, buf, i, p));
    DecodeShaped(s.value, buf, EntryKey(s, buf, i, p).next);
  }

  lemma {:induction false} CompoundShapedDecode(s: Schema, buf: seq<byte>, i: nat)
    requires s.IsCompound() && Header(s, buf, i).Done?
    decreases Size(s), 1
    ensures Shaped(DecodeCompound(s, buf, i).node, s)
  {
    var o := DecodeCompound(s, buf, i);
    CompoundTrace(s, buf, i);
    var ts := s.Types();
    forall m | 0 <= m < |o.node.children|
      ensures Shaped(o.node.children[m], SlotType(ts, m))
    {
      TypesSmaller(s);
      SlotBound(ts, m);
      DecodeShaped(SlotType(ts, m), buf, ChildAt(s, buf, i, m));
    }
    assert CompoundShaped(o.node, ts);
  }
}
