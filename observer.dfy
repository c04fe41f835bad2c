/**
 * The observation session (`ChangesObserver`): wraps a value so that every
 * set or delete on any of its objects or arrays is intercepted, journaled
 * and classified as dirty or clean; counts changes under one of two
 * strategies; cancels by reversing the journal; applies by taking the
 * current state as the new baseline.
 */
module Observer {
  import opened Json
  import opened Arena
  import opened Journal
  import opened ChangeRecords

  /** How `countChanges` counts: dirty nodes, or raw journal entries. */
  datatype CountChangesStrategy = CountFields | CountAllChanges

  datatype Option<T> = None | Some(value: T)

  /** The mutation a change event reports. */
  datatype Mutation = Mutation(changedObject: NodeId, property: Prop, value: Value)

  /** What the `onChanges`, `onCanceled` and `onApplied` subjects publish.
      Each operation returns the events it published, in publication order
      across the three subjects. */
  datatype Event =
    | ValueChanged(id: string, changesCount: nat, mutation: Option<Mutation>)
    | ChangesCancelled(id: string)
    | ChangesApplied(id: string, target: Json, proxy: Value)

  /** The number of set flags, counted front to back as the loop of
      `countChanges` does. */
  function CountTrue(flags: seq<bool>): nat
  {
    if flags == [] then 0
    else CountTrue(flags[..|flags| - 1]) + (if flags[|flags| - 1] then 1 else 0)
  }

  /** The count is the number of positions holding a set flag. */
  lemma {:induction false} CountTrueIsCardinality(flags: seq<bool>)
    ensures CountTrue(flags) == |set i | 0 <= i < |flags| && flags[i]|
  {
    if flags != [] {
      var n := |flags| - 1;
      CountTrueIsCardinality(flags[..n]);
      var before := set i | 0 <= i < n && flags[..n][i];
      var all := set i | 0 <= i < |flags| && flags[i];
      if flags[n] {
        assert all == before + {n};
      } else {
        assert all == before;
      }
    }
  }

  /** The count is zero exactly when no flag is set. */
  lemma {:induction false} CountTrueZero(flags: seq<bool>)
    ensures CountTrue(flags) == 0 <==> forall i :: 0 <= i < |flags| ==> !flags[i]
  {
    if flags != [] {
      var n := |flags| - 1;
      CountTrueZero(flags[..n]);
      assert forall i :: 0 <= i < n ==> flags[..n][i] == flags[i];
    }
  }

  /** Changing one flag moves the count by at most one, and only when the
      flag actually flips. */
  lemma {:induction false} CountTrueUpdate(flags: seq<bool>, i: nat, b: bool)
    requires i < |flags|
    ensures CountTrue(flags[i := b]) + (if flags[i] then 1 else 0) == CountTrue(flags) + (if b then 1 else 0)
  {
    var n := |flags| - 1;
    if i == n {
      assert flags[i := b][..n] == flags[..n];
    } else {
      assert flags[i := b][..n] == flags[..n][i := b];
      CountTrueUpdate(flags[..n], i, b);
    }
  }

  /** The handlers' `changed` flags, in order. */
  function Flags(hs: seq<Handler>): (r: seq<bool>)
    reads hs
    ensures |r| == |hs| && forall i :: 0 <= i < |hs| ==> r[i] == hs[i].changed
  {
    seq(|hs|, i requires 0 <= i < |hs| reads hs => hs[i].changed)
  }

  /** `hs` are the handlers created while wrapping, which took the arena from
      `before` to `after`: each is clean and governs a node that did not
      exist before, with the spread copy of that node as its saved shape;
      no two govern the same node, and every node created is governed by
      one of them. */
  ghost predicate Wrapped(hs: seq<Handler>, before: Nodes, after: Nodes)
    reads hs
  {
    && (forall i :: 0 <= i < |hs| ==>
          && !hs[i].changed
          && hs[i].target in after && hs[i].target !in before
          && hs[i].original == SpreadCopy(after[hs[i].target]))
    && (forall i, k :: 0 <= i < k < |hs| ==> hs[i].target != hs[k].target)
    && (forall id :: id in after && id !in before ==> exists i :: 0 <= i < |hs| && hs[i].target == id)
  }

  /** Two wrapping phases, one after the other, make one. */
  lemma WrappedAppend(a: seq<Handler>, b: seq<Handler>, n0: Nodes, n1: Nodes, n2: Nodes)
    requires Wrapped(a, n0, n1) && Wrapped(b, n1, n2) && Extends(n0, n1) && Extends(n1, n2)
    ensures Wrapped(a + b, n0, n2)
  {
    var ab := a + b;
    forall i | 0 <= i < |ab|
      ensures !ab[i].changed && ab[i].target in n2 && ab[i].target !in n0
      ensures ab[i].original == SpreadCopy(n2[ab[i].target])
    {
      if i < |a| {
        assert ab[i] == a[i];
      } else {
        assert ab[i] == b[i - |a|];
      }
    }
    forall id | id in n2 && id !in n0 ensures exists i :: 0 <= i < |ab| && ab[i].target == id {
      if id in n1 {
        var i :| 0 <= i < |a| && a[i].target == id;
        assert ab[i] == a[i];
      } else {
        var i :| 0 <= i < |b| && b[i].target == id;
        assert ab[|a| + i] == b[i];
      }
    }
    forall i, k | 0 <= i < k < |ab| ensures ab[i].target != ab[k].target {
      if k < |a| {
        assert ab[i] == a[i] && ab[k] == a[k];
      } else if i < |a| {
        assert ab[i] == a[i] && ab[k] == b[k - |a|];
      } else {
        assert ab[i] == b[i - |a|] && ab[k] == b[k - |a|];
      }
    }
  }

  /** The handler created for a freshly allocated node. */
  lemma WrappedOne(h: Handler, n0: Nodes, id: NodeId, node: Node)
    requires id !in n0 && !h.changed && h.target == id && h.original == SpreadCopy(node)
    ensures Wrapped([h], n0, n0[id := node]) && Extends(n0, n0[id := node])
  {
    assert [h][0].target == id;
  }

  /** Wrapping took the handlers from `hs0` to `hs` and the arena from `n0`
      to `nodes`: the old handlers are kept in front, no node changed, and
      the new handlers are `Wrapped`. */
  ghost predicate Grown(hs0: seq<Handler>, hs: seq<Handler>, n0: Nodes, nodes: Nodes)
    reads hs
  {
    |hs| >= |hs0| && hs[..|hs0|] == hs0 && Extends(n0, nodes) && Wrapped(hs[|hs0|..], n0, nodes)
  }

  /** Two wrapping phases, one after the other, make one. */
  lemma GrownTrans(hs0: seq<Handler>, hs1: seq<Handler>, hs2: seq<Handler>, n0: Nodes, n1: Nodes, n2: Nodes)
    requires Grown(hs0, hs1, n0, n1) && Grown(hs1, hs2, n1, n2)
    ensures Grown(hs0, hs2, n0, n2)
  {
    assert hs2[|hs0|..] == hs1[|hs0|..] + hs2[|hs1|..];
    WrappedAppend(hs1[|hs0|..], hs2[|hs1|..], n0, n1, n2);
  }

  /** The handlers of a list, as a set. */
  ghost function SetOf(hs: seq<Handler>): set<Handler>
  {
    set h | h in hs
  }

  /** A list that keeps `hs` in front has all of its handlers. */
  lemma SetOfPrefix(hs: seq<Handler>, gs: seq<Handler>)
    requires |gs| >= |hs| && gs[..|hs|] == hs
    ensures SetOf(hs) <= SetOf(gs)
  {
    forall h | h in hs ensures h in gs {
      var i :| 0 <= i < |hs| && hs[i] == h;
      assert gs[..|hs|][i] == gs[i];
    }
  }

  /** The members wrapped so far: each stands for the member of `m` under
      the same key, with enough fuel to be written out. */
  ghost predicate MembersDenote(fields: map<Prop, Value>, m: map<Prop, Json>, nodes: Nodes, hs: set<Handler>, fuel: nat)
  {
    fields.Keys <= m.Keys &&
    forall k :: k in fields ==> Denotes(fields[k], nodes, hs, m[k]) && FuelEnough(m[k], fuel)
  }

  /** Wrapping one more member keeps the members wrapped before. */
  lemma MembersDenoteAdd(fields: map<Prop, Value>, m: map<Prop, Json>, key: Prop, c: Value,
                         a: Nodes, b: Nodes, hs: set<Handler>, gs: set<Handler>, fa: nat, fb: nat)
    requires MembersDenote(fields, m, a, hs, fa) && Extends(a, b) && fa <= fb && hs <= gs
    requires key in m && Denotes(c, b, gs, m[key]) && FuelEnough(m[key], fb)
    ensures MembersDenote(fields[key := c], m, b, gs, fb)
  {
    forall k | k in fields
      ensures Denotes(fields[k], b, gs, m[k]) && FuelEnough(m[k], fb)
    {
      DenotesExtends(fields[k], a, b, hs, gs, m[k]);
      FuelEnoughMono(m[k], fa, fb);
    }
  }

  /** The first `n` elements wrapped so far: element `k` stands for
      `items[k]`, with enough fuel to be written out. */
  ghost predicate ItemsDenote(fields: map<Prop, Value>, items: seq<Json>, n: nat, nodes: Nodes, hs: set<Handler>, fuel: nat)
    requires n <= |items|
  {
    forall k :: 0 <= k < n ==>
      Index(k) in fields && Denotes(fields[Index(k)], nodes, hs, items[k]) && FuelEnough(items[k], fuel)
  }

  /** Wrapping element `n` keeps the elements wrapped before. */
  lemma ItemsDenoteAdd(fields: map<Prop, Value>, items: seq<Json>, n: nat, c: Value,
                       a: Nodes, b: Nodes, hs: set<Handler>, gs: set<Handler>, fa: nat, fb: nat)
    requires n < |items| && ItemsDenote(fields, items, n, a, hs, fa) && Extends(a, b) && fa <= fb && hs <= gs
    requires Denotes(c, b, gs, items[n]) && FuelEnough(items[n], fb)
    ensures ItemsDenote(fields[Index(n) := c], items, n + 1, b, gs, fb)
  {
    forall k | 0 <= k < n
      ensures Denotes(fields[Index(k)], b, gs, items[k]) && FuelEnough(items[k], fb)
    {
      DenotesExtends(fields[Index(k)], a, b, hs, gs, items[k]);
      FuelEnoughMono(items[k], fa, fb);
    }
  }

  /** The container itself is wrapped last: its handler joins the others,
      and what its members stand for is unaffected by its allocation. */
  lemma WrapLast(hs0: seq<Handler>, hs1: seq<Handler>, n0: Nodes, n1: Nodes, r: Value, node: Node)
    requires Grown(hs0, hs1, n0, n1) && r.Proxy? && r.id !in n1 && !r.handler.changed
    requires r.handler.target == r.id && r.handler.original == SpreadCopy(node)
    ensures Grown(hs0, hs1 + [r.handler], n0, n1[r.id := node])
    ensures r.id !in n0
  {
    WrappedOne(r.handler, n1, r.id, node);
    assert Grown(hs1, hs1 + [r.handler], n1, n1[r.id := node]) by {
      assert (hs1 + [r.handler])[|hs1|..] == [r.handler];
    }
    GrownTrans(hs0, hs1, hs1 + [r.handler], n0, n1, n1[r.id := node]);
  }

  /** A freshly allocated object node whose members stand for those of `m`
      stands for `JObject(m)`. */
  lemma ObjectDenotes(r: Value, n1: Nodes, hs: set<Handler>, fields: map<Prop, Value>, m: map<Prop, Json>, fuel: nat)
    requires r.Proxy? && r.handler.target == r.id && r.id !in n1
    requires fields.Keys == m.Keys && MembersDenote(fields, m, n1, hs, fuel)
    ensures Denotes(r, n1[r.id := Node(ObjectKind, fields)], hs + {r.handler}, JObject(m))
    ensures FuelEnough(JObject(m), fuel + 1)
  {
    var n2 := n1[r.id := Node(ObjectKind, fields)];
    var gs := hs + {r.handler};
    forall k | k in m ensures Denotes(n2[r.id].fields[k], n2, gs, m[k]) {
      DenotesExtends(fields[k], n1, n2, hs, gs, m[k]);
    }
  }

  /** A freshly allocated array node whose elements stand for `items` and
      whose length is their number stands for `JArray(items)`. */
  lemma ArrayDenotes(r: Value, n1: Nodes, hs: set<Handler>, fields: map<Prop, Value>, items: seq<Json>, fuel: nat)
    requires r.Proxy? && r.handler.target == r.id && r.id !in n1
    requires forall p :: p in fields <==> p == LengthProp || (p.Index? && p.i < |items|)
    requires fields[LengthProp] == Num(|items|)
    requires ItemsDenote(fields, items, |items|, n1, hs, fuel)
    ensures Denotes(r, n1[r.id := Node(ArrayKind, fields)], hs + {r.handler}, JArray(items))
    ensures FuelEnough(JArray(items), fuel + 1)
  {
    var n2 := n1[r.id := Node(ArrayKind, fields)];
    var gs := hs + {r.handler};
    forall k | 0 <= k < |items| ensures Denotes(n2[r.id].fields[Index(k)], n2, gs, items[k]) {
      DenotesExtends(fields[Index(k)], n1, n2, hs, gs, items[k]);
    }
  }

  class ChangesObserver {
    const id: string
    const heap: Heap
    const countStrategy: CountChangesStrategy
    var proxy: Value
    var handlers: seq<Handler>
    var changes: seq<Changes>
    var original: Json
    /** The arena when the journal was last started (construction, cancel
        or apply). */
    ghost var baseline: Nodes
    /** The value each journal record wrote (undefined for a delete). */
    ghost var written: seq<Value>

    /** The journal's contents. */
    ghost function Records(): seq<Record>
      reads this`changes
    {
      var cs := changes;
      seq(|cs|, i requires 0 <= i < |cs| => cs[i].Model())
    }

    /** The journal part of the session invariant: the handlers govern
        distinct nodes of the baseline, the journal's records write in this
        session's arena and were read just before their writes, and the
        arena holds the baseline with the journal's writes performed and no
        other node. It does not depend on the handlers' flags. */
    ghost predicate Journaled()
      reads this`handlers, this`changes, this`written, this`baseline, heap
    {
      && heap.Valid()
      && (forall i :: 0 <= i < |handlers| ==> handlers[i].target in baseline)
      && (forall i, k :: 0 <= i < k < |handlers| ==> handlers[i].target != handlers[k].target)
      && (forall i :: 0 <= i < |changes| ==> changes[i].heap == heap)
      && Describes(baseline, Records(), written, heap.nodes)
    }

    /** The session invariant: the journal invariant, and with an empty
        journal no handler is dirty. */
    ghost predicate Valid()
      reads this`handlers, this`changes, this`written, this`baseline, heap, handlers
    {
      Journaled() && (changes == [] ==> forall i :: 0 <= i < |handlers| ==> !handlers[i].changed)
    }

    /** What `countChanges` reports: the number of dirty handlers under
        CountFields, the number of journal records under CountAllChanges. */
    function ChangeCount(): (r: nat)
      reads this`handlers, this`changes, handlers
      ensures countStrategy == CountFields ==> r == |set i | 0 <= i < |handlers| && handlers[i].changed|
      ensures countStrategy == CountAllChanges ==> r == |changes|
    {
      CountTrueIsCardinality(Flags(handlers));
      assert (set i | 0 <= i < |handlers| && handlers[i].changed) == (set i | 0 <= i < |Flags(handlers)| && Flags(handlers)[i]);
      if countStrategy == CountFields then CountTrue(Flags(handlers)) else |changes|
    }

    /** `new ChangesObserver(o, strategy)`. The input must be an object, an
        array or null: `Object.create` throws a TypeError on anything else
        before the session exists. */
    constructor (heap: Heap, o: Json, id: string, strategy: Option<CountChangesStrategy>)
      requires heap.Valid()
      requires o.IsContainer() || o.JNull?
      modifies heap
      ensures Valid() && baseline == heap.nodes
      ensures this.heap == heap && this.id == id
      ensures countStrategy == (if strategy.Some? then strategy.value else CountFields)
      ensures original == o && changes == []
      ensures Denotes(proxy, heap.nodes, SetOf(handlers), o) && FuelEnough(o, heap.next)
      ensures o.IsContainer() ==> proxy.Proxy? && proxy.id !in old(heap.nodes)
      ensures Grown([], handlers, old(heap.nodes), heap.nodes)
      ensures forall i :: 0 <= i < |handlers| ==> fresh(handlers[i])
      ensures ChangeCount() == 0
    {
      this.id := id;
      this.heap := heap;
      countStrategy := if strategy.Some? then strategy.value else CountFields;
      new;
      original := o;
      ghost var n0 := heap.nodes;
      Observe(o);
      StartValid(n0);
    }

    /** What the constructor and `applyChanges` share: the journal and the
        handlers start empty and the value is wrapped into a fresh
        surrogate. */
    method Observe(o: Json)
      requires heap.Valid()
      modifies this`changes, this`written, this`handlers, this`proxy, this`baseline, heap
      ensures heap.Valid() && changes == [] && written == [] && baseline == heap.nodes
      ensures Denotes(proxy, heap.nodes, SetOf(handlers), o) && FuelEnough(o, heap.next)
      ensures Ser(proxy, heap.nodes, heap.next) == o
      ensures o.IsContainer() ==> proxy.Proxy? && proxy.id !in old(heap.nodes)
      ensures Grown([], handlers, old(heap.nodes), heap.nodes)
      ensures forall i :: 0 <= i < |handlers| ==> fresh(handlers[i])
    {
      changes, written, handlers := [], [], [];
      proxy := CreateProxy(o);
      baseline := heap.nodes;
      SerOfDenoted(proxy, heap.nodes, SetOf(handlers), o, heap.next);
    }

    /** A session whose journal is empty over the arena as it now is, with
        handlers just created by wrapping, is valid and counts no change. */
    lemma StartValid(n0: Nodes)
      requires heap.Valid() && changes == [] && written == [] && baseline == heap.nodes
      requires Grown([], handlers, n0, heap.nodes)
      ensures Valid() && ChangeCount() == 0
    {
      assert handlers[0..] == handlers;
      CountTrueZero(Flags(handlers));
      assert Records() == [];
      EmptyJournal(baseline);
    }

    /** `countChanges`: the loop over the handlers under CountFields, the
        journal's length otherwise. */
    method CountChanges() returns (count: nat)
      ensures count == ChangeCount()
    {
      count := 0;
      if countStrategy == CountFields {
        var i := 0;
        while i < |handlers|
          invariant 0 <= i <= |handlers|
          invariant count == CountTrue(Flags(handlers)[..i])
        {
          assert Flags(handlers)[..i + 1][..i] == Flags(handlers)[..i];
          if handlers[i].changed {
            count := count + 1;
          }
          i := i + 1;
        }
        assert Flags(handlers)[..i] == Flags(handlers);
      } else {
        count := |changes|;
      }
    }

    /** The `set` and `deleteProperty` traps of the handler `h` (a delete
        passes no value, that is undefined): the write is journaled and
        performed on the raw target; unless the property is the private
        `__id`, the handler's flag becomes whether the serialised target now
        differs from its saved shape, and a change event carrying the new
        count is published under CountAllChanges always, under CountFields
        when the count moved. */
    method HandleChange(h: Handler, prop: Prop, value: Value) returns (published: seq<Event>)
      requires Valid() && h.target in baseline && h.target in heap.nodes
      modifies this`changes, this`written, heap, h
      ensures Valid()
      ensures heap.nodes == Write(old(heap.nodes), h.target, prop, value) && heap.next == old(heap.next)
      ensures Records() == old(Records()) + [Record(h.target, prop, Read(old(heap.nodes), h.target, prop))]
      ensures prop == IdProp ==> h.changed == old(h.changed)
      ensures prop != IdProp ==> h.changed == Differs(h.original, heap.nodes[h.target], heap.nodes, heap.next)
      ensures countStrategy == CountAllChanges ==> ChangeCount() == old(ChangeCount()) + 1
      ensures countStrategy == CountFields && h in handlers ==>
        ChangeCount() + (if old(h.changed) then 1 else 0) == old(ChangeCount()) + (if h.changed then 1 else 0)
      ensures countStrategy == CountFields && h !in handlers ==> ChangeCount() == old(ChangeCount())
      ensures published ==
        (if prop != IdProp && (countStrategy == CountAllChanges || ChangeCount() != old(ChangeCount()))
         then [ValueChanged(id, ChangeCount(), Some(Mutation(h.target, prop, value)))]
         else [])
    {
      ghost var c0 := ChangeCount();
      AppendChange(h.target, prop, value);
      assert ChangeCount() == c0 + (if countStrategy == CountAllChanges then 1 else 0);
      published := [];
      if prop != IdProp {
        published := Reclassify(h, prop, value);
      }
      assert Journaled() && changes != [];
    }

    /** The rest of the trap once the write is journaled: the flag is
        recomputed and the change event published as the strategy says. */
    method Reclassify(h: Handler, prop: Prop, value: Value) returns (published: seq<Event>)
      requires h.target in heap.nodes
      requires forall i, k :: 0 <= i < k < |handlers| ==> handlers[i].target != handlers[k].target
      modifies h
      ensures h.changed == Differs(h.original, heap.nodes[h.target], heap.nodes, heap.next)
      ensures countStrategy == CountAllChanges ==> ChangeCount() == old(ChangeCount())
      ensures countStrategy == CountFields && h in handlers ==>
        ChangeCount() + (if old(h.changed) then 1 else 0) == old(ChangeCount()) + (if h.changed then 1 else 0)
      ensures countStrategy == CountFields && h !in handlers ==> ChangeCount() == old(ChangeCount())
      ensures published ==
        (if countStrategy == CountAllChanges || ChangeCount() != old(ChangeCount())
         then [ValueChanged(id, ChangeCount(), Some(Mutation(h.target, prop, value)))]
         else [])
    {
      var dirty := Differs(h.original, heap.nodes[h.target], heap.nodes, heap.next);
      var prevCount, count := SetFlag(h, dirty);
      published := [];
      if countStrategy == CountAllChanges || (countStrategy == CountFields && prevCount != count) {
        published := [ValueChanged(id, count, Some(Mutation(h.target, prop, value)))];
      }
    }

    /** `handler.changed = …` between two readings of `countChanges`. */
    method SetFlag(h: Handler, dirty: bool) returns (prevCount: nat, count: nat)
      requires forall i, k :: 0 <= i < k < |handlers| ==> handlers[i].target != handlers[k].target
      modifies h
      ensures h.changed == dirty
      ensures prevCount == old(ChangeCount()) && count == ChangeCount()
      ensures countStrategy == CountAllChanges ==> count == prevCount
      ensures countStrategy == CountFields && h in handlers ==>
        count + (if old(h.changed) then 1 else 0) == prevCount + (if dirty then 1 else 0)
      ensures countStrategy == CountFields && h !in handlers ==> count == prevCount
    {
      ghost var flags := Flags(handlers);
      ghost var was := h.changed;
      prevCount := CountChanges();
      h.changed := dirty;
      CountAfterSet(flags, h, was);
      ghost var now := CountTrue(Flags(handlers));
      count := CountChanges();
      if countStrategy == CountFields {
        assert prevCount == CountTrue(flags);
        assert count == now;
      }
    }

    /** `this.changes.push(new Changes(obj, prop, value))`: the write is
        performed and journaled. */
    method AppendChange(target: NodeId, prop: Prop, value: Value)
      requires Journaled() && target in baseline && target in heap.nodes
      modifies this`changes, this`written, heap
      ensures Journaled() && changes != []
      ensures heap.nodes == Write(old(heap.nodes), target, prop, value) && heap.next == old(heap.next)
      ensures Records() == old(Records()) + [Record(target, prop, Read(old(heap.nodes), target, prop))]
      ensures ChangeCount() == old(ChangeCount()) + (if countStrategy == CountAllChanges then 1 else 0)
    {
      ghost var J := Records();
      ghost var W := written;
      ghost var x := heap.nodes;
      ghost var r := Push(target, prop, value);
      JournalAppend(baseline, J, W, x, r, value);
    }

    /** The record is made, which performs the write, and appended. */
    method Push(target: NodeId, prop: Prop, value: Value) returns (ghost r: Record)
      requires target in heap.nodes
      requires forall i :: 0 <= i < |changes| ==> changes[i].heap == heap
      modifies this`changes, this`written, heap
      ensures r == Record(target, prop, Read(old(heap.nodes), target, prop))
      ensures heap.nodes == Write(old(heap.nodes), target, prop, value) && heap.next == old(heap.next)
      ensures Records() == old(Records()) + [r] && written == old(written) + [value]
      ensures ChangeCount() == old(ChangeCount()) + (if countStrategy == CountAllChanges then 1 else 0)
      ensures forall i :: 0 <= i < |changes| ==> changes[i].heap == heap
    {
      ghost var J := Records();
      ghost var flags := Flags(handlers);
      var c := new Changes(heap, target, prop, value);
      r := c.Model();
      changes := changes + [c];
      written := written + [value];
      assert Records() == J + [r] by {
        forall i | 0 <= i < |changes| ensures Records()[i] == (J + [r])[i] {
        }
      }
      assert Flags(handlers) == flags;
    }

    /** After `h`'s flag was set, with `flags` the flags before and `was`
        its flag before, the count of set flags moved by the flip of `h`'s
        flag, or not at all when `h` is not a handler of this session. */
    lemma CountAfterSet(flags: seq<bool>, h: Handler, was: bool)
      requires |flags| == |handlers|
      requires forall i, k :: 0 <= i < k < |handlers| ==> handlers[i].target != handlers[k].target
      requires forall i :: 0 <= i < |handlers| ==> flags[i] == if handlers[i] == h then was else handlers[i].changed
      ensures h !in handlers ==> CountTrue(Flags(handlers)) == CountTrue(flags)
      ensures h in handlers ==>
        CountTrue(Flags(handlers)) + (if was then 1 else 0) == CountTrue(flags) + (if h.changed then 1 else 0)
    {
      if h in handlers {
        var k :| 0 <= k < |handlers| && handlers[k] == h;
        assert Flags(handlers) == flags[k := h.changed];
        CountTrueUpdate(flags, k, h.changed);
      } else {
        assert Flags(handlers) == flags;
      }
    }

    /** Evaluating an object literal in the program, such as the `{a: 1}` of
        `proxy.x = {a: 1}`: a new raw node, which the observer neither wraps
        nor journals. */
    method CreateObject(node: Node) returns (v: Value)
      requires Valid()
      modifies heap
      ensures Valid()
      ensures v.Ref? && v.id !in old(heap.nodes) && heap.nodes == old(heap.nodes)[v.id := node]
      ensures Records() == old(Records()) && ChangeCount() == old(ChangeCount())
    {
      ghost var x := heap.nodes;
      var nid := heap.Alloc(node);
      DescribesAlloc(baseline, Records(), written, x, nid, node);
      v := Ref(nid);
    }

    /** An assignment through a raw reference to an object created since
        the journal was started (an object literal assigned through a
        surrogate, say): no trap runs, so nothing is journaled, no flag
        changes and nothing is published. */
    method SetRaw(target: NodeId, prop: Prop, value: Value)
      requires Valid() && target in heap.nodes && target !in baseline
      modifies heap
      ensures Valid()
      ensures heap.nodes == Assign(old(heap.nodes), target, prop, value) && heap.next == old(heap.next)
      ensures Records() == old(Records()) && ChangeCount() == old(ChangeCount())
    {
      ghost var x := heap.nodes;
      heap.nodes := Assign(heap.nodes, target, prop, value);
      DescribesUnjournaled(baseline, Records(), written, x, target, prop, value);
    }

    /** The `deleteProperty` trap: the same as a set with no value. The
        property is removed and the removal journaled; the flag, the count
        and the event follow the rules of the set trap. */
    method DeleteProperty(h: Handler, prop: Prop) returns (published: seq<Event>)
      requires Valid() && h.target in baseline && h.target in heap.nodes
      modifies this`changes, this`written, heap, h
      ensures Valid()
      ensures h.target in heap.nodes && heap.next == old(heap.next)
      ensures prop !in heap.nodes[h.target].fields && Read(heap.nodes, h.target, prop) == Undefined
      ensures AgreeExcept(old(heap.nodes), heap.nodes, h.target, prop)
      ensures Records() == old(Records()) + [Record(h.target, prop, Read(old(heap.nodes), h.target, prop))]
      ensures prop == IdProp ==> h.changed == old(h.changed)
      ensures prop != IdProp ==> h.changed == Differs(h.original, heap.nodes[h.target], heap.nodes, heap.next)
      ensures countStrategy == CountAllChanges ==> ChangeCount() == old(ChangeCount()) + 1
      ensures countStrategy == CountFields && h in handlers ==>
        ChangeCount() + (if old(h.changed) then 1 else 0) == old(ChangeCount()) + (if h.changed then 1 else 0)
      ensures countStrategy == CountFields && h !in handlers ==> ChangeCount() == old(ChangeCount())
      ensures published ==
        (if prop != IdProp && (countStrategy == CountAllChanges || ChangeCount() != old(ChangeCount()))
         then [ValueChanged(id, ChangeCount(), Some(Mutation(h.target, prop, Undefined)))]
         else [])
    {
      published := HandleChange(h, prop, Undefined);
    }

    /** `cancelChanges`: the journal is reversed newest first, every handler
        is made clean, the journal is emptied, and a change event with the
        count (now zero) is published, then a cancel event. */
    method CancelChanges() returns (published: seq<Event>)
      requires Valid()
      modifies this`changes, this`written, this`baseline, heap, handlers
      ensures Valid() && changes == [] && baseline == heap.nodes
      ensures heap.nodes == UndoAll(old(heap.nodes), old(Records())) && heap.next == old(heap.next)
      ensures old(changes) == [] ==> heap.nodes == old(heap.nodes)
      ensures ChangeCount() == 0
      ensures published == [ValueChanged(id, 0, None), ChangesCancelled(id)]
    {
      Rewind();
      ClearFlags();
      var count := StartJournal();
      published := [ValueChanged(id, count, None), ChangesCancelled(id)];
    }

    /** What `cancelChanges` leaves in the arena: reversing the journal of a
        session gives back every node as it was when the journal was started,
        each property with its value then, a touched property that was absent
        being now present and undefined. */
    lemma CancelledIsBaseline()
      requires Journaled()
      ensures Targets(heap.nodes, Records())
      ensures Restores(UndoAll(heap.nodes, Records()), baseline, Touched(Records()))
    {
      CancelRestores(baseline, Records(), written, heap.nodes);
    }

    /** The journal reversed over the arena, which keeps its nodes. */
    method Rewind()
      requires Journaled()
      modifies heap
      ensures heap.nodes == UndoAll(old(heap.nodes), Records()) && heap.next == old(heap.next)
      ensures heap.Valid() && forall i :: 0 <= i < |handlers| ==> handlers[i].target in heap.nodes
    {
      DescribedNodes(baseline, Records(), written, heap.nodes);
      UndoChanges();
    }

    /** `this.changes.reverse().forEach((change) => change.cancel())`. */
    method UndoChanges()
      requires forall i :: 0 <= i < |changes| ==> changes[i].heap == heap
      requires Targets(heap.nodes, Records())
      modifies heap
      ensures heap.nodes == UndoAll(old(heap.nodes), Records()) && heap.next == old(heap.next)
    {
      ghost var J := Records();
      ghost var x := heap.nodes;
      var i := |changes|;
      while i > 0
        invariant 0 <= i <= |changes|
        invariant Targets(x, J[i..]) && heap.nodes == UndoAll(x, J[i..])
        invariant heap.next == old(heap.next)
      {
        assert J[i - 1..][1..] == J[i..] && J[i - 1..][0] == changes[i - 1].Model();
        changes[i - 1].Cancel();
        i := i - 1;
      }
      assert J[0..] == J;
    }

    /** `this.handlers.forEach((h) => { h.changed = false; })`. */
    method ClearFlags()
      modifies handlers
      ensures forall i :: 0 <= i < |handlers| ==> !handlers[i].changed
    {
      for k := 0 to |handlers|
        invariant forall q :: 0 <= q < k ==> !handlers[q].changed
      {
        handlers[k].changed := false;
      }
    }

    /** `this.changes = []` once the handlers are clean: an empty journal
        over the arena as it now is, with clean handlers governing distinct
        nodes of it, is valid and counts no change. */
    method StartJournal() returns (count: nat)
      requires heap.Valid()
      requires forall i :: 0 <= i < |handlers| ==> handlers[i].target in heap.nodes && !handlers[i].changed
      requires forall i, k :: 0 <= i < k < |handlers| ==> handlers[i].target != handlers[k].target
      modifies this`changes, this`written, this`baseline
      ensures Valid() && changes == [] && baseline == heap.nodes && ChangeCount() == 0 && count == 0
    {
      changes := [];
      written := [];
      baseline := heap.nodes;
      CountTrueZero(Flags(handlers));
      assert Records() == [];
      EmptyJournal(baseline);
      count := CountChanges();
    }

    /** `applyChanges`: the journal and the handlers are dropped, the current
        state, serialised, becomes the new original, a copy of it is wrapped
        into a new surrogate, and a change event with the count (zero) is
        published, then an applied event with the original and the
        surrogate. */
    method ApplyChanges() returns (published: seq<Event>)
      requires Valid()
      modifies this`changes, this`written, this`handlers, this`proxy, this`baseline, this`original, heap
      ensures Valid() && changes == [] && ChangeCount() == 0 && baseline == heap.nodes
      ensures original == old(Ser(proxy, heap.nodes, heap.next))
      ensures Denotes(proxy, heap.nodes, SetOf(handlers), original) && FuelEnough(original, heap.next)
      ensures Ser(proxy, heap.nodes, heap.next) == original
      ensures original.IsContainer() ==> proxy.Proxy? && proxy.id !in old(heap.nodes)
      ensures Grown([], handlers, old(heap.nodes), heap.nodes)
      ensures forall i :: 0 <= i < |handlers| ==> fresh(handlers[i])
      ensures published == [ValueChanged(id, 0, None), ChangesApplied(id, original, proxy)]
    {
      var snapshot := Ser(proxy, heap.nodes, heap.next);
      original := snapshot;
      ghost var n0 := heap.nodes;
      Observe(snapshot);
      StartValid(n0);
      var count := CountChanges();
      published := [ValueChanged(id, count, None), ChangesApplied(id, original, proxy)];
    }

    /** `createProxy`: a leaf is returned as it is; an array or an object is
        rebuilt from its wrapped members and gets one new handler. */
    method CreateProxy(j: Json) returns (r: Value)
      requires heap.Valid()
      modifies this`handlers, heap
      ensures heap.Valid() && heap.next >= old(heap.next)
      ensures Denotes(r, heap.nodes, SetOf(handlers), j) && FuelEnough(j, heap.next)
      ensures Grown(old(handlers), handlers, old(heap.nodes), heap.nodes)
      ensures forall i :: |old(handlers)| <= i < |handlers| ==> fresh(handlers[i])
      ensures j.IsContainer() ==> (r.Proxy? && r.id !in old(heap.nodes) &&
        |handlers| > |old(handlers)| && r.handler == handlers[|handlers| - 1])
      ensures !j.IsContainer() ==> handlers == old(handlers) && heap.nodes == old(heap.nodes)
      decreases j, 2
    {
      match j
      case JNull => r := Null;
      case JBool(b) => r := Bool(b);
      case JNum(n) => r := Num(n);
      case JStr(s) => r := Str(s);
      case JArray(items) =>
        r := ProxyArray(items);
      case JObject(m) =>
        r := ProxyObject(m);
    }

    /** The array branch of `createProxy`: the elements wrapped in turn,
        then the array itself. */
    method ProxyArray(items: seq<Json>) returns (r: Value)
      requires heap.Valid()
      modifies this`handlers, heap
      ensures heap.Valid() && heap.next >= old(heap.next)
      ensures Denotes(r, heap.nodes, SetOf(handlers), JArray(items)) && FuelEnough(JArray(items), heap.next)
      ensures Grown(old(handlers), handlers, old(heap.nodes), heap.nodes)
      ensures forall i :: |old(handlers)| <= i < |handlers| ==> fresh(handlers[i])
      ensures r.Proxy? && r.id !in old(heap.nodes) &&
        |handlers| > |old(handlers)| && r.handler == handlers[|handlers| - 1]
      decreases JArray(items), 1
    {
      var fields := WrapItems(items);
      ghost var n1 := heap.nodes;
      ghost var hs1 := handlers;
      r := Wrap(ArrayKind, fields);
      WrapLast(old(handlers), hs1, old(heap.nodes), n1, r, Node(ArrayKind, fields));
      ArrayDenotes(r, n1, SetOf(hs1), fields, items, heap.next - 1);
      assert SetOf(handlers) == SetOf(hs1) + {r.handler};
    }

    /** The loop of the array branch: element `i` of the new array is the
        wrapped `items[i]`, and `length` is the number of items. */
    method WrapItems(items: seq<Json>) returns (fields: map<Prop, Value>)
      requires heap.Valid()
      modifies this`handlers, heap
      ensures heap.Valid() && heap.next >= old(heap.next)
      ensures forall p :: p in fields <==> p == LengthProp || (p.Index? && p.i < |items|)
      ensures fields[LengthProp] == Num(|items|)
      ensures ItemsDenote(fields, items, |items|, heap.nodes, SetOf(handlers), heap.next)
      ensures Grown(old(handlers), handlers, old(heap.nodes), heap.nodes)
      ensures forall i :: |old(handlers)| <= i < |handlers| ==> fresh(handlers[i])
      decreases JArray(items), 0
    {
      fields := map[LengthProp := Num(|items|)];
      assert handlers[|handlers|..] == [];
      var i := 0;
      while i < |items|
        invariant 0 <= i <= |items|
        invariant heap.Valid() && heap.next >= old(heap.next)
        invariant forall p :: p in fields <==> p == LengthProp || (p.Index? && p.i < i)
        invariant fields[LengthProp] == Num(|items|)
        invariant ItemsDenote(fields, items, i, heap.nodes, SetOf(handlers), heap.next)
        invariant Grown(old(handlers), handlers, old(heap.nodes), heap.nodes)
        invariant forall k :: |old(handlers)| <= k < |handlers| ==> fresh(handlers[k])
      {
        ghost var n1 := heap.nodes;
        ghost var hs1 := handlers;
        ghost var next1 := heap.next;
        var c := CreateProxy(items[i]);
        SetOfPrefix(hs1, handlers);
        ItemsDenoteAdd(fields, items, i, c, n1, heap.nodes, SetOf(hs1), SetOf(handlers), next1, heap.next);
        GrownTrans(old(handlers), hs1, handlers, old(heap.nodes), n1, heap.nodes);
        forall k | |old(handlers)| <= k < |hs1| ensures fresh(handlers[k]) {
          assert handlers[..|hs1|][k] == hs1[k];
        }
        fields := fields[Index(i) := c];
        i := i + 1;
      }
    }

    /** The object branch of `createProxy`: the members wrapped in turn,
        then the object itself. */
    method ProxyObject(m: map<Prop, Json>) returns (r: Value)
      requires heap.Valid()
      modifies this`handlers, heap
      ensures heap.Valid() && heap.next >= old(heap.next)
      ensures Denotes(r, heap.nodes, SetOf(handlers), JObject(m)) && FuelEnough(JObject(m), heap.next)
      ensures Grown(old(handlers), handlers, old(heap.nodes), heap.nodes)
      ensures forall i :: |old(handlers)| <= i < |handlers| ==> fresh(handlers[i])
      ensures r.Proxy? && r.id !in old(heap.nodes) &&
        |handlers| > |old(handlers)| && r.handler == handlers[|handlers| - 1]
      decreases JObject(m), 1
    {
      var fields := WrapMembers(m);
      ghost var n1 := heap.nodes;
      ghost var hs1 := handlers;
      r := Wrap(ObjectKind, fields);
      WrapLast(old(handlers), hs1, old(heap.nodes), n1, r, Node(ObjectKind, fields));
      ObjectDenotes(r, n1, SetOf(hs1), fields, m, heap.next - 1);
      assert SetOf(handlers) == SetOf(hs1) + {r.handler};
    }

    /** The loop of the object branch: member `k` of the new object is the
        wrapped `m[k]`. */
    method WrapMembers(m: map<Prop, Json>) returns (fields: map<Prop, Value>)
      requires heap.Valid()
      modifies this`handlers, heap
      ensures heap.Valid() && heap.next >= old(heap.next)
      ensures fields.Keys == m.Keys && MembersDenote(fields, m, heap.nodes, SetOf(handlers), heap.next)
      ensures Grown(old(handlers), handlers, old(heap.nodes), heap.nodes)
      ensures forall i :: |old(handlers)| <= i < |handlers| ==> fresh(handlers[i])
      decreases JObject(m), 0
    {
      fields := map[];
      assert handlers[|handlers|..] == [];
      var keys := m.Keys;
      while keys != {}
        invariant keys <= m.Keys && fields.Keys == m.Keys - keys
        invariant heap.Valid() && heap.next >= old(heap.next)
        invariant MembersDenote(fields, m, heap.nodes, SetOf(handlers), heap.next)
        invariant Grown(old(handlers), handlers, old(heap.nodes), heap.nodes)
        invariant forall k :: |old(handlers)| <= k < |handlers| ==> fresh(handlers[k])
        decreases keys
      {
        var key :| key in keys;
        ghost var n1 := heap.nodes;
        ghost var hs1 := handlers;
        ghost var next1 := heap.next;
        var c := CreateProxy(m[key]);
        SetOfPrefix(hs1, handlers);
        MembersDenoteAdd(fields, m, key, c, n1, heap.nodes, SetOf(hs1), SetOf(handlers), next1, heap.next);
        GrownTrans(old(handlers), hs1, handlers, old(heap.nodes), n1, heap.nodes);
        forall k | |old(handlers)| <= k < |hs1| ensures fresh(handlers[k]) {
          assert handlers[..|hs1|][k] == hs1[k];
        }
        fields := fields[key := c];
        keys := keys - {key};
      }
    }

    /** The end of `createProxy` for an array or object whose members are
        already wrapped: the node gets a handler with `changed = false` and
        its spread copy as saved shape, the handler is pushed, and the
        surrogate is returned. */
    method Wrap(kind: Kind, fields: map<Prop, Value>) returns (r: Value)
      requires heap.Valid()
      modifies this`handlers, heap
      ensures heap.Valid() && heap.next == old(heap.next) + 1
      ensures r.Proxy? && r.id !in old(heap.nodes)
      ensures heap.nodes == old(heap.nodes)[r.id := Node(kind, fields)]
      ensures fresh(r.handler) && r.handler.target == r.id && !r.handler.changed
      ensures r.handler.original == SpreadCopy(Node(kind, fields))
      ensures handlers == old(handlers) + [r.handler]
    {
      var nid := heap.Alloc(Node(kind, fields));
      var handler := new Handler(nid, SpreadCopy(heap.nodes[nid]));
      handlers := handlers + [handler];
      r := Proxy(nid, handler);
    }
  }
}
