/**
 * The journal of reversible writes and why reversing it restores the arena.
 *
 * Each record names a node, a property and the value the property held just
 * before the write. `cancelChanges` reverses the records newest first; the
 * lemmas here show that this gives back every node as it was when the journal
 * was started, except that a property that was absent then and was written
 * since comes back present with the value undefined.
 */
module Journal {
  import opened Json
  import opened Arena

  /** The content of one `Changes` record. */
  datatype Record = Record(target: NodeId, prop: Prop, before: Value)

  /** Reversing one record: `target[prop] = before`. */
  function Undo(nodes: Nodes, r: Record): (u: Nodes)
    requires r.target in nodes
    ensures AgreeExcept(nodes, u, r.target, r.prop)
    ensures Read(u, r.target, r.prop) == r.before && r.prop in u[r.target].fields
  {
    Assign(nodes, r.target, r.prop, r.before)
  }

  /** Every record names a node of `nodes`. */
  ghost predicate Targets(nodes: Nodes, J: seq<Record>)
  {
    forall i :: 0 <= i < |J| ==> J[i].target in nodes
  }

  /** The arena after performing the journal's writes on `s`, record `i`
      writing `W[i]`. */
  ghost function Replay(s: Nodes, J: seq<Record>, W: seq<Value>): (r: Nodes)
    requires |W| == |J| && Targets(s, J)
    ensures forall id :: id in r <==> id in s
    decreases |J|
  {
    if J == [] then s
    else
      var n := |J| - 1;
      Write(Replay(s, J[..n], W[..n]), J[n].target, J[n].prop, W[n])
  }

  /** Each record's `before` is what its property held just before its own
      write, starting from `s`. */
  ghost predicate Consistent(s: Nodes, J: seq<Record>, W: seq<Value>)
    requires |W| == |J| && Targets(s, J)
    decreases |J|
  {
    J == [] ||
    var n := |J| - 1;
    && Consistent(s, J[..n], W[..n])
    && J[n].before == Read(Replay(s, J[..n], W[..n]), J[n].target, J[n].prop)
  }

  /** Reversing a journal, newest record first. */
  function UndoAll(nodes: Nodes, J: seq<Record>): (r: Nodes)
    requires Targets(nodes, J)
    ensures forall id :: id in r <==> id in nodes
    decreases |J|
  {
    if J == [] then nodes else Undo(UndoAll(nodes, J[1..]), J[0])
  }

  /** The (node, property) pairs the journal wrote. */
  ghost function Touched(J: seq<Record>): set<(NodeId, Prop)>
  {
    set i | 0 <= i < |J| :: (J[i].target, J[i].prop)
  }

  /** `r` holds every node of `s` as it was, except that a property in `T`
      that the node lacked is now present with the value undefined. */
  ghost predicate Restores(r: Nodes, s: Nodes, T: set<(NodeId, Prop)>)
  {
    forall id :: id in s ==>
      && id in r
      && r[id].kind == s[id].kind
      && (forall p :: p in r[id].fields <==> p in s[id].fields || (id, p) in T)
      && (forall p :: p in r[id].fields ==> r[id].fields[p] == Field(s[id].fields, p))
  }

  /** Reversing a journal with one more record reverses that record first. */
  lemma {:induction false} UndoAllLast(x: Nodes, J: seq<Record>, r: Record)
    requires Targets(x, J + [r])
    ensures r.target in x && Targets(Undo(x, r), J)
    ensures UndoAll(x, J + [r]) == UndoAll(Undo(x, r), J)
    decreases |J|
  {
    assert (J + [r])[|J|] == r;
    forall i | 0 <= i < |J| ensures J[i].target in Undo(x, r) {
      assert (J + [r])[i] == J[i];
    }
    if J == [] {
      assert (J + [r])[1..] == [];
    } else {
      assert (J + [r])[1..] == J[1..] + [r];
      UndoAllLast(x, J[1..], r);
    }
  }

  /** One step of the reversal: undoing the newest write of a journal whose
      `before` was read just before that write takes a state restoring the
      arena after the write to one restoring the arena before it, with the
      written property added to the touched ones. */
  lemma UndoStep(x: Nodes, prev: Nodes, r: Record, w: Value, T: set<(NodeId, Prop)>)
    requires r.target in prev
    requires r.before == Read(prev, r.target, r.prop)
    requires Restores(x, Write(prev, r.target, r.prop, w), T)
    ensures r.target in x
    ensures Restores(Undo(x, r), prev, T + {(r.target, r.prop)})
  {
    var after := Write(prev, r.target, r.prop, w);
    var u := Undo(x, r);
    var T' := T + {(r.target, r.prop)};
    forall id | id in prev
      ensures u[id].kind == prev[id].kind
      ensures forall p :: p in u[id].fields <==> p in prev[id].fields || (id, p) in T'
      ensures forall p :: p in u[id].fields ==> u[id].fields[p] == Field(prev[id].fields, p)
    {
      if id != r.target {
        assert u[id] == x[id] && after[id] == prev[id];
      } else {
        forall p ensures p in u[id].fields <==> p in prev[id].fields || (id, p) in T' {
          if p != r.prop {
            assert (p in u[id].fields) == (p in x[id].fields);
            assert (p in after[id].fields) == (p in prev[id].fields);
          }
        }
        forall p | p in u[id].fields ensures u[id].fields[p] == Field(prev[id].fields, p) {
          if p != r.prop {
            assert u[id].fields[p] == x[id].fields[p];
            assert Field(after[id].fields, p) == Field(prev[id].fields, p);
          }
        }
      }
    }
  }

  /** Reversing the whole journal from any state that restores the replayed
      arena gives a state that restores the arena the journal started from. */
  lemma {:induction false} UndoReplay(s: Nodes, J: seq<Record>, W: seq<Value>, x: Nodes, T: set<(NodeId, Prop)>)
    requires |W| == |J| && Targets(s, J) && Consistent(s, J, W)
    requires Restores(x, Replay(s, J, W), T)
    ensures Targets(x, J)
    ensures Restores(UndoAll(x, J), s, T + Touched(J))
    decreases |J|
  {
    if J == [] {
      assert Touched(J) == {};
    } else {
      var n := |J| - 1;
      var r := J[n];
      var prev := Replay(s, J[..n], W[..n]);
      assert J == J[..n] + [r];
      assert Replay(s, J, W) == Write(prev, r.target, r.prop, W[n]);
      assert r.before == Read(prev, r.target, r.prop);
      UndoStep(x, prev, r, W[n], T);
      UndoReplay(s, J[..n], W[..n], Undo(x, r), T + {(r.target, r.prop)});
      UndoAllLast(x, J[..n], r);
      TouchedLast(J[..n], r);
    }
  }

  /** The journal `J`, record `i` having written `W[i]`, was started on the
      arena `s` and describes the arena `x`: every record names a node of
      `s`, remembers what its property held just before its own write, and
      `x` holds the nodes of `s` as the writes left them (and possibly nodes
      created since, which the journal does not cover). */
  ghost predicate Describes(s: Nodes, J: seq<Record>, W: seq<Value>, x: Nodes)
  {
    && |W| == |J| && Targets(s, J) && Consistent(s, J, W)
    && Extends(Replay(s, J, W), x)
  }

  /** Journaling one more write to a node of the starting arena, whose
      `before` is read from the arena just before it, keeps the journal
      describing the arena. */
  lemma {:induction false} JournalAppend(s: Nodes, J: seq<Record>, W: seq<Value>, x: Nodes, r: Record, v: Value)
    requires Describes(s, J, W, x)
    requires r.target in s && r.target in x && r.before == Read(x, r.target, r.prop)
    ensures Describes(s, J + [r], W + [v], Write(x, r.target, r.prop, v))
  {
    var J' := J + [r];
    var W' := W + [v];
    assert J'[..|J|] == J && W'[..|W|] == W;
    assert J'[|J|] == r && W'[|W|] == v;
    forall i | 0 <= i < |J'| ensures J'[i].target in s {
      if i < |J| { assert J'[i] == J[i]; }
    }
    var prev := Replay(s, J, W);
    assert Read(prev, r.target, r.prop) == Read(x, r.target, r.prop);
    assert Replay(s, J', W') == Write(prev, r.target, r.prop, v);
    WriteExtends(prev, x, r.target, r.prop, v);
  }

  /** A journal describing `x` names nodes of `x`, and `x` keeps every
      node of the arena the journal was started on. */
  lemma DescribedNodes(s: Nodes, J: seq<Record>, W: seq<Value>, x: Nodes)
    requires Describes(s, J, W, x)
    ensures Targets(x, J) && forall id :: id in s ==> id in x
  {
  }

  /** Creating a node keeps the journal describing the arena. */
  lemma DescribesAlloc(s: Nodes, J: seq<Record>, W: seq<Value>, x: Nodes, id: NodeId, node: Node)
    requires Describes(s, J, W, x) && id !in x
    ensures Describes(s, J, W, x[id := node])
  {
  }

  /** A write that is not journaled keeps the journal describing the arena
      exactly when it hits a node created after the journal was started. */
  lemma DescribesUnjournaled(s: Nodes, J: seq<Record>, W: seq<Value>, x: Nodes, id: NodeId, p: Prop, v: Value)
    requires Describes(s, J, W, x) && id in x && id !in s
    ensures Describes(s, J, W, Assign(x, id, p, v))
  {
  }

  /** The empty journal describes the arena it was started on. */
  lemma EmptyJournal(s: Nodes)
    ensures Describes(s, [], [], s)
  {
  }

  /** The pairs a journal with one more record touched. */
  lemma TouchedLast(J: seq<Record>, r: Record)
    ensures Touched(J + [r]) == Touched(J) + {(r.target, r.prop)}
  {
    var K := J + [r];
    forall t | t in Touched(K) ensures t in Touched(J) + {(r.target, r.prop)} {
      var i :| 0 <= i < |K| && t == (K[i].target, K[i].prop);
      if i < |J| { assert K[i] == J[i]; }
    }
    forall t | t in Touched(J) ensures t in Touched(K) {
      var i :| 0 <= i < |J| && t == (J[i].target, J[i].prop);
      assert K[i] == J[i];
    }
    assert K[|J|] == r;
  }

  /** The correctness of cancel: if the arena holds (at least) the result of
      the journal's writes, reversing the journal newest first gives back
      every node of the starting arena, each property with its old value and
      each touched property that was absent now present as undefined. */
  lemma CancelRestores(s: Nodes, J: seq<Record>, W: seq<Value>, x: Nodes)
    requires Describes(s, J, W, x)
    ensures Targets(x, J)
    ensures Restores(UndoAll(x, J), s, Touched(J))
  {
    ExtendsRestores(Replay(s, J, W), x);
    UndoReplay(s, J, W, x, {});
    assert {} + Touched(J) == Touched(J);
  }

  /** An arena that keeps every node of another restores it, touching
      nothing. */
  lemma ExtendsRestores(a: Nodes, b: Nodes)
    requires Extends(a, b)
    ensures Restores(b, a, {})
  {
    forall id | id in a ensures b[id] == a[id] && forall p :: p in b[id].fields ==> b[id].fields[p] == Field(a[id].fields, p) {
    }
  }

  /** After a restoring reversal every property of the starting arena reads
      as it did: JavaScript cannot tell an absent property from an undefined
      one by reading it. */
  lemma RestoredReadsBack(r: Nodes, s: Nodes, T: set<(NodeId, Prop)>, id: NodeId, p: Prop)
    requires Restores(r, s, T) && id in s
    ensures Read(r, id, p) == Read(s, id, p)
  {
  }

  /** Restoring is exact, property for property, exactly where no absent
      property was touched. */
  lemma RestoresExactly(r: Nodes, s: Nodes, T: set<(NodeId, Prop)>, id: NodeId)
    requires Restores(r, s, T) && id in s
    ensures r[id] == s[id] <==> forall p :: (id, p) in T ==> p in s[id].fields
  {
    if forall p :: (id, p) in T ==> p in s[id].fields {
      assert r[id].fields.Keys == s[id].fields.Keys;
    }
  }
}
