/** The decode engine as the C++ code runs it: a fresh node decodes itself,
    a compound loops over its arity or walks its type list pushing each
    child onto its owner vector, and a map loops over its pairs filling its
    owner vector and its projection.  Each method is proved to compute the
    functions of DecodeSpec. */
module Decoder {
  import opened Etf
  import opened Terms
  import opened DecodeSpec

  /** The children already pushed, followed by what the rest of the loop pushes. */
  ghost function Glue(vec: seq<Node>, c: Children): Children
  {
    Children(c.ret, vec + c.nodes, c.next)
  }

  /** Gluing in two steps is gluing the concatenation. */
  lemma GlueGlue(a: seq<Node>, b: seq<Node>, c: Children)
    ensures Glue(a, Glue(b, c)) == Glue(a + b, c)
  {
    assert a + (b + c.nodes) == (a + b) + c.nodes;
  }

  /** Rounds k .. n-1 of the sole-type loop over the one type of ts, from cursor i. */
  ghost function Rounds(ts: seq<Schema>, buf: seq<byte>, k: nat, n: nat, i: nat): Children
    requires |ts| == 1 && k <= n
  {
    Run(SlotDecoder(ts, buf), k, n, i)
  }

  /** Round k of the sole-type loop runs the one-slot decoder: when that fails, the rounds
      from k on end with it; otherwise they are its child followed by the rounds from k + 1. */
  lemma SoleRound(ts: seq<Schema>, buf: seq<byte>, k: nat, n: nat, i: nat)
    requires |ts| == 1 && k < n
    ensures var one := Rounds(ts, buf, 0, 1, i);
            && (one.ret == -1 ==> Rounds(ts, buf, k, n, i) == one)
            && (one.ret != -1 ==> Rounds(ts, buf, k, n, i) == Glue(one.nodes, Rounds(ts, buf, k + 1, n, one.next)))
  {
    var f := SlotDecoder(ts, buf);
    SlotDecoderIs(ts, buf, 0, i);
    SlotDecoderIs(ts, buf, k, i);
    var c := f(0, i);
    assert f(k, i) == c;
    assert Run(f, 1, 1, c.next) == Children(0, [], c.next);
  }

  /** One round of the sole-type loop: `c` is what `compound_decoder<T>` returned after being handed
      the vector `pushed` at `before`, where the run from `index` still has rounds `k..n` to go. */
  lemma SoleStep(ts: seq<Schema>, buf: seq<byte>, index: nat, n: nat, k: nat, before: nat,
                 pushed: seq<Node>, c: Children)
    requires |ts| == 1 && k < n
    requires Rounds(ts, buf, 0, n, index) == Glue(pushed, Rounds(ts, buf, k, n, before))
    requires c == Glue(pushed, Rounds(ts, buf, 0, 1, before))
    ensures c.ret == -1 ==> c == Rounds(ts, buf, 0, n, index)
    ensures c.ret != -1 ==> Rounds(ts, buf, 0, n, index) == Glue(c.nodes, Rounds(ts, buf, k + 1, n, c.next))
  {
    SoleRound(ts, buf, k, n, before);
    var one := Rounds(ts, buf, 0, 1, before);
    if one.ret != -1 {
      GlueGlue(pushed, one.nodes, Rounds(ts, buf, k + 1, n, one.next));
    }
  }

  /** One round of the map loop, when the run from `start` still has `n - k` pairs to go from
      `idx` after pushing `vec`: a key that fails, or a value that fails, ends the run with what
      was pushed before the round; otherwise the round pushes the pair. */
  lemma PairRound(key: nat -> Outcome, val: nat -> Outcome, n: nat, k: nat, start: nat,
                  vec: seq<Node>, idx: nat)
    requires k < n
    requires Pairs(key, val, n, start) == Glue(vec, Pairs(key, val, n - k, idx))
    ensures key(idx).ret == -1 ==> Pairs(key, val, n, start) == Children(-1, vec, key(idx).next)
    ensures key(idx).ret != -1 && val(key(idx).next).ret == -1 ==>
      Pairs(key, val, n, start) == Children(-1, vec, val(key(idx).next).next)
    ensures key(idx).ret != -1 && val(key(idx).next).ret != -1 ==>
      Pairs(key, val, n, start)
      == Glue(vec + [key(idx).node, val(key(idx).next).node], Pairs(key, val, n - k - 1, val(key(idx).next).next))
  {
    var ko := key(idx);
    var vo := val(ko.next);
    if ko.ret == -1 || vo.ret == -1 {
      assert vec + [] == vec;
    } else {
      GlueGlue(vec, [ko.node, vo.node], Pairs(key, val, n - k - 1, vo.next));
    }
  }

  /** `new T()` followed by `T::decode(buf, index)`. */
  method DecodeNode(s: Schema, buf: seq<byte>, index: nat) returns (o: Outcome)
    decreases Size(s), 2
    ensures o == Decode(s, buf, index)
  {
    if s.IsSingle() {
      o := DecodeSingle(s, buf, index);
    } else if s.Map? {
      o := MapTypeDecode(s, buf, index);
    } else {
      o := CompoundTypeDecode(s, buf, index);
    }
  }

  /** `compound_decoder<Ts...>` for the types ts[k..]: decode a fresh node of type ts[k], push it,
      and go on with the remaining types unless it returned -1; no type left returns 0. */
  method CompoundDecoder(ts: seq<Schema>, k: nat, buf: seq<byte>, index: nat, vec: seq<Node>)
    returns (ret: int, vec': seq<Node>, next: nat)
    requires k <= |ts|
    decreases SizeAll(ts), 3, |ts| - k
    ensures Children(ret, vec', next) == Glue(vec, Run(SlotDecoder(ts, buf), k, |ts|, index))
  {
    if k == |ts| {
      return 0, vec, index;
    }
    SizeAllBound(ts, k);
    assert SlotType(ts, k) == ts[k];
    var o := DecodeNode(ts[k], buf, index);
    SlotDecoderIs(ts, buf, k, index);
    if o.ret == -1 {
      return -1, vec + [o.node], o.next;
    }
    ret, vec', next := CompoundDecoder(ts, k + 1, buf, o.next, vec + [o.node]);
  }

  /** The sole-type loop of `CompoundType::decode`: `arity` rounds of `compound_decoder<T>`, each
      pushing one child of type T, stopping at the first round that returned -1. */
  method SoleTypeLoop(ts: seq<Schema>, buf: seq<byte>, arity: int, index: nat)
    returns (ret: int, vec: seq<Node>, next: nat)
    requires |ts| == 1
    decreases SizeAll(ts), 4
    ensures Children(ret, vec, next) == Run(SlotDecoder(ts, buf), 0, Count(arity), index)
  {
    ghost var n := Count(arity);
    vec, next := [], index;
    var k: nat := 0;
    while k < arity
      invariant k <= n
      invariant Rounds(ts, buf, 0, n, index) == Glue(vec, Rounds(ts, buf, k, n, next))
    {
      ghost var before, pushed := next, vec;
      ret, vec, next := CompoundDecoder(ts, 0, buf, next, vec);
      SoleStep(ts, buf, index, n, k, before, pushed, Children(ret, vec, next));
      if ret == -1 {
        return;
      }
      k := k + 1;
    }
    assert Run(SlotDecoder(ts, buf), k, n, next) == Children(0, [], next);
    assert vec + [] == vec;
    ret := 0;
  }

  /** `CompoundType::decode`: the header, then `arity` rounds of `compound_decoder<T>` for a sole
      type, or one `compound_decoder<T, Types...>` for several. */
  method CompoundTypeDecode(s: Schema, buf: seq<byte>, index: nat) returns (o: Outcome)
    requires s.IsCompound()
    decreases Size(s), 1
    ensures o == DecodeCompound(s, buf, index)
  {
    var h := Header(s, buf, index);
    if h.Failed? {
      return Outcome(-1, Default(s), index);
    }
    var arity := h.value;
    var ts := s.Types();
    TypesSmaller(s);
    var ret, vec, next;
    if |ts| == 1 {
      ret, vec, next := SoleTypeLoop(ts, buf, arity, h.next);
      assert Slots(ts, arity) == Count(arity);
    } else {
      ret, vec, next := CompoundDecoder(ts, 0, buf, h.next, []);
      assert Slots(ts, arity) == |ts|;
      assert [] + vec == vec;
    }
    CompoundOutcome(s, buf, index, Children(ret, vec, next));
    o := Outcome(ret, Compound(arity, vec), next);
  }

  /** `MapType::add_to_value`: the projection after the pair (k, v) whose key sits in slot `slot`
      of the owner vector; a leaf key is the key's value, any other key the key node itself. */
  function AddToValue(value: map<MapKey, Node>, k: Node, slot: nat, v: Node): (r: map<MapKey, Node>)
    ensures r.Keys == value.Keys + {KeyOf(k, slot)}
    ensures r[KeyOf(k, slot)] == v
    ensures forall key :: key in value && key != KeyOf(k, slot) ==> r[key] == value[key]
  {
    value[KeyOf(k, slot) := v]
  }

  /** `MapType::decode`: the header, then the pair loop. */
  method MapTypeDecode(s: Schema, buf: seq<byte>, index: nat) returns (o: Outcome)
    requires s.Map?
    decreases Size(s), 1
    ensures o == DecodeMap(s, buf, index)
  {
    var h := DecodeMapHeader(buf, index);
    if h.Failed? {
      return Outcome(-1, MapNode(0, [], map[]), index);
    }
    var ret, vec, value, next := PairLoop(s, buf, h.value, h.next);
    MapOutcome(s, buf, index, Children(ret, vec, next));
    o := Outcome(ret, MapNode(h.value, vec, value), next);
  }

  /** The loop of `MapType::decode`: `arity` rounds of a fresh key and a fresh value, each pair
      pushed onto the owner vector and recorded by `add_to_value`; a round whose key or value
      returned -1 returns at once, before anything is pushed or recorded. */
  method PairLoop(s: Schema, buf: seq<byte>, arity: int, index: nat)
    returns (ret: int, vec: seq<Node>, value: map<MapKey, Node>, next: nat)
    requires s.Map?
    decreases Size(s), 0
    ensures Children(ret, vec, next) == Pairs(NodeDecoder(s.key, buf), NodeDecoder(s.value, buf), Count(arity), index)
    ensures value == Project(vec)
  {
    ghost var key, val := NodeDecoder(s.key, buf), NodeDecoder(s.value, buf);
    ghost var n := Count(arity);
    vec, value, next := [], map[], index;
    var k: nat := 0;
    while k < arity
      invariant k <= n
      invariant value == Project(vec)
      invariant Pairs(key, val, n, index) == Glue(vec, Pairs(key, val, n - k, next))
    {
      PairRound(key, val, n, k, index, vec, next);
      var kn := DecodeNode(s.key, buf, next);
      if kn.ret == -1 {
        return -1, vec, value, kn.next;
      }
      var vn := DecodeNode(s.value, buf, kn.next);
      if vn.ret == -1 {
        return -1, vec, value, vn.next;
      }
      ProjectAppend(vec, kn.node, vn.node);
      value := AddToValue(value, kn.node, |vec|, vn.node);
      vec := vec + [kn.node, vn.node];
      next := vn.next;
      k := k + 1;
    }
    assert Pairs(key, val, n - k, next) == Children(0, [], next);
    assert vec + [] == vec;
    ret := 0;
  }
}
