/** The node category model of eipp: the schema a decode is given (the C++
    type list `Long`, `Tuple<...>`, `List<T>`, `Map<K, V>` ...) as a value,
    and the tree of nodes a decode builds.  A node in the C++ code is a heap
    object owned through `value_ptr_vec`; here it is a value, and the owner
    vector is `children`. */
module Terms {
  import opened Etf

  /** The schema: eipp's `Long`, `Double`, `String`, `Binary`, `Tuple<Ts...>`,
      `MultiTypeList<Ts...>`, `List<T>` and `Map<K, V>`. */
  datatype Schema =
    | Long
    | Double
    | String
    | Binary
    | Tuple(types: seq<Schema>)
    | MultiTypeList(types: seq<Schema>)
    | List(element: Schema)
    | Map(key: Schema, value: Schema)
  {
    /** `is_single`: a leaf (`SingleType`) rather than a compound. */
    predicate IsSingle() { Long? || Double? || String? || Binary? }

    /** A `CompoundType`: decoded by a header and a children loop. */
    predicate IsCompound() { Tuple? || MultiTypeList? || List? }

    /** The type list `T, Types...` of a `CompoundType`; `List<T>` is a compound of the one type T. */
    function Types(): seq<Schema>
      requires IsCompound()
    {
      if List? then [element] else types
    }
  }

  /** A termination measure: the number of schema constructors. */
  function Size(s: Schema): (n: nat)
    ensures n >= 1
  {
    match s
    case Tuple(ts) => 1 + SizeAll(ts)
    case MultiTypeList(ts) => 1 + SizeAll(ts)
    case List(e) => 1 + Size(e)
    case Map(k, v) => 1 + Size(k) + Size(v)
    case _ => 1
  }

  function SizeAll(ts: seq<Schema>): nat
  {
    if ts == [] then 0 else Size(ts[0]) + SizeAll(ts[1..])
  }

  lemma {:induction false} SizeAllBound(ts: seq<Schema>, j: nat)
    requires j < |ts|
    ensures Size(ts[j]) <= SizeAll(ts)
  {
    if j > 0 {
      SizeAllBound(ts[1..], j - 1);
      assert ts[1..][j - 1] == ts[j];
    }
  }

  /** A compound's type list is smaller than the compound. */
  lemma TypesSmaller(s: Schema)
    requires s.IsCompound()
    ensures SizeAll(s.Types()) < Size(s)
  {
    if s.List? {
      assert s.Types()[1..] == [];
    }
  }

  /** The value a leaf holds: `long`, `double` (opaque bits), or the bytes of a `std::string`. */
  datatype Value =
    | IntegerValue(i: int)
    | FloatValue(bits: float64)
    | StringValue(bytes: seq<byte>)
    | BinaryValue(bytes: seq<byte>)

  /** A key of a map's projection: a leaf key by its value, a compound key by the identity of its
      node, which is its slot in the map's owner vector. */
  datatype MapKey = ScalarKey(v: Value) | NodeKey(slot: nat)

  /** A decoded node: a `SingleType` holding its value, a `CompoundType` with its header arity and
      its owner vector, or a `MapType` with its arity, owner vector and projection. */
  datatype Node =
    | Single(value: Value)
    | Compound(arity: int, children: seq<Node>)
    | MapNode(arity: int, children: seq<Node>, projection: map<MapKey, Node>)

  /** The node the default constructor of the schema's class creates: `value(T())` or `arity(0)`. */
  function Default(s: Schema): (n: Node)
    ensures Shaped(n, s)
  {
    match s
    case Long => Single(IntegerValue(0))
    case Double => Single(FloatValue([0, 0, 0, 0, 0, 0, 0, 0]))
    case String => Single(StringValue([]))
    case Binary => Single(BinaryValue([]))
    case Map(_, _) => MapNode(0, [], map[])
    case _ => Compound(0, [])
  }

  /** The schema of child `j` of a compound of type list `ts`: the sole type when there is one,
      otherwise the j-th type. */
  function SlotType(ts: seq<Schema>, j: nat): Schema
    requires |ts| == 1 || j < |ts|
  {
    if |ts| == 1 then ts[0] else ts[j]
  }

  lemma SlotBound(ts: seq<Schema>, j: nat)
    requires |ts| == 1 || j < |ts|
    ensures Size(SlotType(ts, j)) <= SizeAll(ts)
  {
    SizeAllBound(ts, if |ts| == 1 then 0 else j);
  }

  /** The node has the class the schema names, all the way down: every `dynamic_cast` that an
      accessor performs on it succeeds. */
  predicate Shaped(n: Node, s: Schema)
    decreases n, 1
  {
    match s
    case Long => n.Single? && n.value.IntegerValue?
    case Double => n.Single? && n.value.FloatValue?
    case String => n.Single? && n.value.StringValue?
    case Binary => n.Single? && n.value.BinaryValue?
    case Tuple(_) => CompoundShaped(n, s.Types())
    case MultiTypeList(_) => CompoundShaped(n, s.Types())
    case List(_) => CompoundShaped(n, s.Types())
    case Map(k, v) =>
      && n.MapNode?
      && |n.children| % 2 == 0
      && forall j :: 0 <= j < |n.children| ==> Shaped(n.children[j], if j % 2 == 0 then k else v)
  }

  /** A `CompoundType` node of type list `ts`: a sole type shapes every child, several types
      shape one child each. */
  predicate CompoundShaped(n: Node, ts: seq<Schema>)
    decreases n, 0
  {
    && n.Compound?
    && (|ts| != 1 ==> |n.children| <= |ts|)
    && forall j :: 0 <= j < |n.children| ==> Shaped(n.children[j], SlotType(ts, j))
  }

  // ---------------------------------------------------------------------
  // The map projection (MapType::value and add_to_value)

  /** The key `add_to_value` inserts for the key node in slot `slot`. */
  function KeyOf(k: Node, slot: nat): MapKey
  {
    if k.Single? then ScalarKey(k.value) else NodeKey(slot)
  }

  /** The key of pair `p` of an owner vector that alternates key, value. */
  function PairKey(c: seq<Node>, p: nat): MapKey
    requires 2 * p + 1 < |c|
  {
    KeyOf(c[2 * p], 2 * p)
  }

  function PairValue(c: seq<Node>, p: nat): Node
    requires 2 * p + 1 < |c|
  {
    c[2 * p + 1]
  }

  /** The projection after every pair of `c` was inserted in order, each insert overwriting
      (owner vectors of maps have even length; an odd one would leave its first node out). */
  function Project(c: seq<Node>): map<MapKey, Node>
  {
    if |c| < 2 then map[] else Project(c[..|c| - 2])[KeyOf(c[|c| - 2], |c| - 2) := c[|c| - 1]]
  }

  /** Recording one more pair adds exactly one insert to the projection. */
  lemma ProjectAppend(c: seq<Node>, k: Node, v: Node)
    ensures Project(c + [k, v]) == Project(c)[KeyOf(k, |c|) := v]
  {
    assert (c + [k, v])[..|c|] == c;
  }

  /** The projection's keys are exactly the keys of the recorded pairs. */
  lemma {:induction false} ProjectKeys(c: seq<Node>, key: MapKey)
    requires |c| % 2 == 0
    ensures key in Project(c) <==> exists p :: 0 <= p < |c| / 2 && PairKey(c, p) == key
  {
    if c != [] {
      var c' := c[..|c| - 2];
      var last := |c'| / 2;
      ProjectKeys(c', key);
      assert PairKey(c, last) == KeyOf(c[|c| - 2], |c| - 2);
      forall p | 0 <= p < last
        ensures PairKey(c', p) == PairKey(c, p)
      {
      }
      if key in Project(c) {
        if key != PairKey(c, last) {
          var p :| 0 <= p < last && PairKey(c', p) == key;
          assert PairKey(c, p) == key;
        }
      } else {
        forall p | 0 <= p < |c| / 2
          ensures PairKey(c, p) != key
        {
          if p < last {
            assert PairKey(c', p) == PairKey(c, p);
          }
        }
      }
    }
  }

  /** Last write wins: a key maps to the value of the last pair that carries it. */
  lemma {:induction false} ProjectLastWins(c: seq<Node>, p: nat)
    requires |c| % 2 == 0 && p < |c| / 2
    requires forall q :: p < q < |c| / 2 ==> PairKey(c, q) != PairKey(c, p)
    ensures PairKey(c, p) in Project(c) && Project(c)[PairKey(c, p)] == PairValue(c, p)
  {
    var c' := c[..|c| - 2];
    if p < |c'| / 2 {
      assert PairKey(c', p) == PairKey(c, p);
      forall q | p < q < |c'| / 2
        ensures PairKey(c', q) != PairKey(c', p)
      {
        assert PairKey(c', q) == PairKey(c, q);
      }
      ProjectLastWins(c', p);
      assert PairKey(c, |c'| / 2) != PairKey(c, p);
    }
  }

  // ---------------------------------------------------------------------
  // Typed accessors

  /** Child j of a shaped compound is shaped by its slot type. */
  lemma ShapedChild(n: Node, s: Schema, j: nat)
    requires s.IsCompound() && Shaped(n, s) && n.Compound? && j < |n.children|
    ensures |s.Types()| == 1 || j < |s.Types()|
    ensures Shaped(n.children[j], SlotType(s.Types(), j))
  {
    assert CompoundShaped(n, s.Types());
  }

  /** `CompoundType::get<i>()` when type i is a leaf: the value of child i. */
  function GetValue(n: Node, s: Schema, i: nat): (v: Value)
    requires s.Tuple? || s.MultiTypeList?
    requires i < |s.Types()| && s.Types()[i].IsSingle()
    requires Shaped(n, s) && n.Compound? && i < |n.children|
    ensures Shaped(Single(v), s.Types()[i])
    ensures Single(v) == n.children[i]
  {
    ShapedChild(n, s, i);
    assert SlotType(s.Types(), i) == s.Types()[i];
    n.children[i].value
  }

  /** `CompoundType::get<i>()` when type i is a compound: the child node itself. */
  function GetNode(n: Node, s: Schema, i: nat): (c: Node)
    requires s.Tuple? || s.MultiTypeList?
    requires i < |s.Types()| && !s.Types()[i].IsSingle()
    requires Shaped(n, s) && n.Compound? && i < |n.children|
    ensures Shaped(c, s.Types()[i]) && !c.Single?
    ensures c == n.children[i]
  {
    ShapedChild(n, s, i);
    assert SlotType(s.Types(), i) == s.Types()[i];
    n.children[i]
  }

  /** `SoleTypeListType::begin()` .. `end()`: the children of a `List<T>` in decode order; every
      step's `operator*` is a node of class T. */
  function Iterate(n: Node, s: Schema): (r: seq<Node>)
    requires s.List? && Shaped(n, s) && n.Compound?
    ensures |r| == |n.children|
    ensures forall j :: 0 <= j < |r| ==> r[j] == n.children[j] && Shaped(r[j], s.element)
  {
    forall j | 0 <= j < |n.children|
      ensures Shaped(n.children[j], s.element)
    {
      ShapedChild(n, s, j);
    }
    n.children
  }
}
