/**
 * One reversible write (the `Changes` class): the constructor remembers what
 * the property held and performs the write; `Cancel` puts the remembered
 * value back.
 */
module ChangeRecords {
  import opened Json
  import opened Arena
  import opened Journal

  class Changes {
    const heap: Heap
    const target: NodeId
    const prop: Prop
    const before: Value

    /** Reads `target[prop]` into `before`, then assigns `value`, or deletes
        the property when `value` is undefined. */
    constructor (heap: Heap, target: NodeId, prop: Prop, value: Value)
      requires target in heap.nodes
      modifies heap
      ensures this.heap == heap && this.target == target && this.prop == prop
      ensures before == Read(old(heap.nodes), target, prop)
      ensures heap.nodes == Write(old(heap.nodes), target, prop, value)
      ensures heap.next == old(heap.next)
    {
      this.heap := heap;
      this.target := target;
      this.prop := prop;
      before := Read(heap.nodes, target, prop);
      new;
      var node := heap.nodes[target];
      if value != Undefined {
        heap.nodes := heap.nodes[target := Node(node.kind, node.fields[prop := value])];
      } else {
        heap.nodes := heap.nodes[target := Node(node.kind, node.fields - {prop})];
      }
    }

    /** What the record holds. */
    function Model(): Record
    {
      Record(target, prop, before)
    }

    /** `target[prop] = before`: an assignment, also when `before` is
        undefined. */
    method Cancel()
      requires target in heap.nodes
      modifies heap
      ensures heap.nodes == Undo(old(heap.nodes), Model())
      ensures heap.next == old(heap.next)
    {
      var node := heap.nodes[target];
      heap.nodes := heap.nodes[target := Node(node.kind, node.fields[prop := before])];
    }
  }

  /** Constructing a record and cancelling it gives `target[prop]` back its
      value as read; the node is exactly as before precisely when the property
      was present, and otherwise it gains the property with value undefined. */
  lemma ConstructThenCancel(nodes: Nodes, id: NodeId, p: Prop, v: Value)
    requires id in nodes
    ensures var after := Undo(Write(nodes, id, p, v), Record(id, p, Read(nodes, id, p)));
      && Read(after, id, p) == Read(nodes, id, p)
      && (after == nodes <==> p in nodes[id].fields)
      && (p !in nodes[id].fields ==> after[id].fields == nodes[id].fields[p := Undefined])
  {
    var after := Undo(Write(nodes, id, p, v), Record(id, p, Read(nodes, id, p)));
    if p in nodes[id].fields {
      assert after[id].fields == nodes[id].fields;
      assert after[id] == nodes[id];
    } else {
      assert p in after[id].fields;
      assert after[id].fields == nodes[id].fields[p := Undefined];
    }
  }

  /** Cancelling twice is cancelling once. */
  lemma CancelIdempotent(nodes: Nodes, r: Record)
    requires r.target in nodes
    ensures Undo(Undo(nodes, r), r) == Undo(nodes, r)
  {
    var once := Undo(nodes, r);
    assert Undo(once, r)[r.target].fields == once[r.target].fields;
  }
}
