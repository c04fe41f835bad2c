/**
 * The objects and arrays the observer watches, kept in an arena of nodes.
 *
 * A JavaScript object or array is a `Node` stored under a `NodeId`; a field
 * holding an object holds a reference to that id. A reference is either raw
 * (`Ref`, writes through it are not intercepted) or a surrogate (`Proxy`,
 * whose set and delete traps run the `Handler` it carries).
 */
module Arena {
  import opened Json

  type NodeId = nat

  datatype Kind = ObjectKind | ArrayKind

  datatype Value =
    | Undefined
    | Null
    | Bool(b: bool)
    | Num(n: int)
    | Str(s: string)
    | Ref(id: NodeId)
    | Proxy(id: NodeId, handler: Handler)

  /** An object or array: its kind and its own properties. An array's
      length is its `length` property. */
  datatype Node = Node(kind: Kind, fields: map<Prop, Value>)

  type Nodes = map<NodeId, Node>

  /** The per-node interception state: the shallow copy taken when the node
      was wrapped and the cached `changed` flag. */
  class Handler {
    const target: NodeId
    const original: map<Prop, Value>
    var changed: bool

    constructor (target: NodeId, original: map<Prop, Value>)
      ensures this.target == target && this.original == original && !changed
    {
      this.target := target;
      this.original := original;
      changed := false;
    }
  }

  /** The store of all nodes. Ids are handed out in increasing order. */
  class Heap {
    var nodes: Nodes
    var next: nat

    ghost predicate Valid()
      reads this
    {
      forall id :: id in nodes ==> id < next
    }

    constructor ()
      ensures Valid() && nodes == map[] && next == 0
    {
      nodes := map[];
      next := 0;
    }

    method Alloc(node: Node) returns (id: NodeId)
      requires Valid()
      modifies this
      ensures Valid()
      ensures id == old(next) && next == old(next) + 1
      ensures id !in old(nodes) && nodes == old(nodes)[id := node]
    {
      id := next;
      nodes := nodes[id := node];
      next := next + 1;
    }
  }

  /** `fields[p]` as JavaScript reads it: an absent property reads as undefined. */
  function Field(fields: map<Prop, Value>, p: Prop): Value
  {
    if p in fields then fields[p] else Undefined
  }

  /** `target[prop]` for the node `id`. */
  function Read(nodes: Nodes, id: NodeId, p: Prop): Value
    requires id in nodes
  {
    Field(nodes[id].fields, p)
  }

  /** `b` differs from `a` at most in property `p` of node `id`. */
  ghost predicate AgreeExcept(a: Nodes, b: Nodes, id: NodeId, p: Prop)
    requires id in a
  {
    && (forall o :: o in a <==> o in b)
    && (forall o :: o in a && o != id ==> b[o] == a[o])
    && b[id].kind == a[id].kind
    && (forall q :: q != p ==> (q in b[id].fields <==> q in a[id].fields))
    && (forall q :: q != p && q in a[id].fields ==> b[id].fields[q] == a[id].fields[q])
  }

  /** Every node of `a` is in `b`, unchanged. */
  ghost predicate Extends(a: Nodes, b: Nodes)
  {
    forall id :: id in a ==> id in b && b[id] == a[id]
  }

  /** The write a trap forwards to the raw target: an undefined value deletes
      the property, any other value assigns it. */
  function Write(nodes: Nodes, id: NodeId, p: Prop, v: Value): (r: Nodes)
    requires id in nodes
    ensures AgreeExcept(nodes, r, id, p)
    ensures p in r[id].fields <==> v != Undefined
    ensures Read(r, id, p) == v
  {
    var n := nodes[id];
    if v != Undefined then nodes[id := Node(n.kind, n.fields[p := v])]
    else nodes[id := Node(n.kind, n.fields - {p})]
  }

  /** A plain assignment `target[prop] = v`, which leaves the property
      present even when `v` is undefined. */
  function Assign(nodes: Nodes, id: NodeId, p: Prop, v: Value): (r: Nodes)
    requires id in nodes
    ensures AgreeExcept(nodes, r, id, p)
    ensures p in r[id].fields && r[id].fields[p] == v
  {
    nodes[id := Node(nodes[id].kind, nodes[id].fields[p := v])]
  }

  /** Writing a present property back to the value it held undoes the first
      write, whatever that was. */
  lemma WriteBack(nodes: Nodes, id: NodeId, p: Prop, v: Value)
    requires id in nodes && p in nodes[id].fields && nodes[id].fields[p] != Undefined
    ensures Write(Write(nodes, id, p, v), id, p, nodes[id].fields[p]) == nodes
  {
    var r := Write(Write(nodes, id, p, v), id, p, nodes[id].fields[p]);
    assert r[id].fields == nodes[id].fields;
  }

  /** The same write on an arena and on an extension of it keeps the
      extension. */
  lemma WriteExtends(a: Nodes, b: Nodes, id: NodeId, p: Prop, v: Value)
    requires Extends(a, b) && id in a
    ensures Extends(Write(a, id, p, v), Write(b, id, p, v))
  {
  }

  /** The length JSON.stringify uses for an array node. */
  function ArrayLength(fields: map<Prop, Value>): nat
  {
    if LengthProp in fields && fields[LengthProp].Num? && fields[LengthProp].n >= 0
    then fields[LengthProp].n else 0
  }

  /** JSON.stringify of a value, as a JSON tree. References are followed
      through the arena for at most `fuel` levels; an undefined value becomes
      null (inside an array) and an undefined member of an object is
      dropped. */
  function Ser(v: Value, nodes: Nodes, fuel: nat): (r: Json)
    ensures !(v.Ref? || v.Proxy?) ==> !r.IsContainer()
    decreases fuel, 0
  {
    match v
    case Undefined => JNull
    case Null => JNull
    case Bool(b) => JBool(b)
    case Num(n) => JNum(n)
    case Str(s) => JStr(s)
    case Ref(id) => if fuel == 0 || id !in nodes then JNull else SerNode(nodes[id], nodes, fuel - 1)
    case Proxy(id, _) => if fuel == 0 || id !in nodes then JNull else SerNode(nodes[id], nodes, fuel - 1)
  }

  /** JSON.stringify of one node: an array lists its elements up to its
      length, an object lists its members that are not undefined. */
  function SerNode(node: Node, nodes: Nodes, fuel: nat): (r: Json)
    ensures node.kind == ArrayKind ==> r.JArray? && |r.items| == ArrayLength(node.fields)
    ensures node.kind == ObjectKind ==>
      r.JObject? && forall k :: k in r.members <==> k in node.fields && node.fields[k] != Undefined
    decreases fuel, 1
  {
    match node.kind
    case ArrayKind =>
      var len := ArrayLength(node.fields);
      JArray(seq(len, i requires 0 <= i < len => Ser(Field(node.fields, Index(i)), nodes, fuel)))
    case ObjectKind =>
      JObject(map k | k in node.fields && node.fields[k] != Undefined :: Ser(node.fields[k], nodes, fuel))
  }

  /** The spread copy `{...object}`: the own enumerable properties, which for
      an array are its elements but not its `length`. */
  function SpreadCopy(node: Node): (r: map<Prop, Value>)
    ensures forall p :: p in r <==> p in node.fields && !(node.kind == ArrayKind && p == LengthProp)
    ensures forall p :: p in r ==> r[p] == node.fields[p]
  {
    if node.kind == ArrayKind then node.fields - {LengthProp} else node.fields
  }

  /** The dirtiness test: the serialised saved copy (an object literal)
      differs from the serialised node. The saved copy of an array is an
      object literal, so an array node never compares equal to it. */
  function Differs(original: map<Prop, Value>, node: Node, nodes: Nodes, fuel: nat): (r: bool)
    ensures node.kind == ArrayKind ==> r
  {
    SerNode(Node(ObjectKind, original), nodes, fuel) != SerNode(node, nodes, fuel)
  }

  /** An object node whose members are those of its saved copy, up to members
      holding undefined (which JSON drops), compares equal to it. */
  lemma {:induction false} SameDefinedMembersIsClean(original: map<Prop, Value>, node: Node, nodes: Nodes, fuel: nat)
    requires node.kind == ObjectKind
    requires forall k :: Field(node.fields, k) == Field(original, k)
    ensures !Differs(original, node, nodes, fuel)
  {
    var a := SerNode(Node(ObjectKind, original), nodes, fuel);
    var b := SerNode(node, nodes, fuel);
    forall k ensures k in a.members <==> k in b.members {
      assert Field(node.fields, k) == Field(original, k);
    }
    forall k | k in a.members ensures a.members[k] == b.members[k] {
      assert Field(node.fields, k) == Field(original, k);
    }
  }

  /** `v` stands, in `nodes`, for the JSON value `j`, its surrogates carrying
      handlers of `hs`: leaves are the same leaves, and every array or object
      is a surrogate over a node of the same kind, whose handler is one of
      `hs` and governs that node, with exactly the members of `j`, each
      standing for the corresponding member. */
  ghost predicate Denotes(v: Value, nodes: Nodes, hs: set<Handler>, j: Json)
    decreases j
  {
    match j
    case JNull => v == Null
    case JBool(b) => v == Bool(b)
    case JNum(n) => v == Num(n)
    case JStr(s) => v == Str(s)
    case JArray(items) =>
      && v.Proxy? && v.handler in hs && v.handler.target == v.id && v.id in nodes
      && nodes[v.id].kind == ArrayKind
      && (forall p :: p in nodes[v.id].fields <==> p == LengthProp || (p.Index? && p.i < |items|))
      && nodes[v.id].fields[LengthProp] == Num(|items|)
      && (forall i :: 0 <= i < |items| ==> Denotes(nodes[v.id].fields[Index(i)], nodes, hs, items[i]))
    case JObject(m) =>
      && v.Proxy? && v.handler in hs && v.handler.target == v.id && v.id in nodes
      && nodes[v.id].kind == ObjectKind
      && nodes[v.id].fields.Keys == m.Keys
      && (forall k :: k in m ==> Denotes(nodes[v.id].fields[k], nodes, hs, m[k]))
  }

  /** A value that stands for some JSON value is never undefined. */
  lemma DenotedIsDefined(v: Value, nodes: Nodes, hs: set<Handler>, j: Json)
    requires Denotes(v, nodes, hs, j)
    ensures v != Undefined
  {
  }

  /** Adding nodes to the arena and handlers to the set does not change
      what a value stands for. */
  lemma {:induction false} DenotesExtends(v: Value, a: Nodes, b: Nodes, hs: set<Handler>, gs: set<Handler>, j: Json)
    requires Denotes(v, a, hs, j) && Extends(a, b) && hs <= gs
    ensures Denotes(v, b, gs, j)
    decreases j
  {
    match j
    case JArray(items) =>
      forall i | 0 <= i < |items| ensures Denotes(b[v.id].fields[Index(i)], b, gs, items[i]) {
        DenotesExtends(a[v.id].fields[Index(i)], a, b, hs, gs, items[i]);
      }
    case JObject(m) =>
      forall k | k in m ensures Denotes(b[v.id].fields[k], b, gs, m[k]) {
        DenotesExtends(a[v.id].fields[k], a, b, hs, gs, m[k]);
      }
    case _ =>
  }

  /** Serialising a surrogate tree gives back exactly the JSON value it stands
      for, once the fuel covers the nesting depth. */
  lemma {:induction false} SerOfDenoted(v: Value, nodes: Nodes, hs: set<Handler>, j: Json, fuel: nat)
    requires Denotes(v, nodes, hs, j) && FuelEnough(j, fuel)
    ensures Ser(v, nodes, fuel) == j
    decreases j, 2
  {
    match j
    case JArray(items) => SerOfDenotedArray(v, nodes, hs, items, fuel);
    case JObject(m) => SerOfDenotedObject(v, nodes, hs, m, fuel);
    case _ =>
  }

  /** The array case of `SerOfDenoted`. */
  lemma {:induction false} SerOfDenotedArray(v: Value, nodes: Nodes, hs: set<Handler>, items: seq<Json>, fuel: nat)
    requires Denotes(v, nodes, hs, JArray(items)) && FuelEnough(JArray(items), fuel)
    ensures Ser(v, nodes, fuel) == JArray(items)
    decreases JArray(items), 1
  {
    SerOfDenotedItems(v, nodes, hs, items, fuel);
    assert ArrayLength(nodes[v.id].fields) == |items|;
    SerArrayNode(nodes[v.id], nodes, items, fuel - 1);
  }

  /** The elements of a surrogate array serialise to the items it stands
      for. */
  lemma {:induction false} SerOfDenotedItems(v: Value, nodes: Nodes, hs: set<Handler>, items: seq<Json>, fuel: nat)
    requires Denotes(v, nodes, hs, JArray(items)) && FuelEnough(JArray(items), fuel)
    ensures forall i :: 0 <= i < |items| ==> Ser(Field(nodes[v.id].fields, Index(i)), nodes, fuel - 1) == items[i]
    decreases JArray(items), 0
  {
    var fields := nodes[v.id].fields;
    forall i | 0 <= i < |items| ensures Ser(Field(fields, Index(i)), nodes, fuel - 1) == items[i] {
      SerOfDenoted(fields[Index(i)], nodes, hs, items[i], fuel - 1);
    }
  }

  /** An array node whose length and elements serialise to `items`
      serialises to the array of them. */
  lemma SerArrayNode(node: Node, nodes: Nodes, items: seq<Json>, fuel: nat)
    requires node.kind == ArrayKind && ArrayLength(node.fields) == |items|
    requires forall i :: 0 <= i < |items| ==> Ser(Field(node.fields, Index(i)), nodes, fuel) == items[i]
    ensures SerNode(node, nodes, fuel) == JArray(items)
  {
    assert SerNode(node, nodes, fuel).items == items;
  }

  /** The object case of `SerOfDenoted`. */
  lemma {:induction false} SerOfDenotedObject(v: Value, nodes: Nodes, hs: set<Handler>, m: map<Prop, Json>, fuel: nat)
    requires Denotes(v, nodes, hs, JObject(m)) && FuelEnough(JObject(m), fuel)
    ensures Ser(v, nodes, fuel) == JObject(m)
    decreases JObject(m), 1
  {
    var fields := nodes[v.id].fields;
    forall k | k in m ensures fields[k] != Undefined && Ser(fields[k], nodes, fuel - 1) == m[k] {
      DenotedIsDefined(fields[k], nodes, hs, m[k]);
      SerOfDenoted(fields[k], nodes, hs, m[k], fuel - 1);
    }
    var s := SerNode(nodes[v.id], nodes, fuel - 1);
    assert s.members.Keys == m.Keys;
    assert s.members == m;
  }
}
