/**
 * The C heap that the header's functions and macros update in place. Each
 * method changes the fields step by step as the C code does, and is proved
 * to leave the heap in the state the corresponding function of RefCount,
 * Registry or Scope computes from the old one; what those functions
 * guarantee is proved there.
 */
module Cpmu {
  import opened RefCount
  import opened Registry
  import opened Scope

  class Heap {
    var cells: map<CellId, Cell>
    var blocks: map<BlockId, seq<bv8>>
    var nodes: map<NodeId, Node>
    var log: seq<Event>
    var next: nat

    /** The heap as a value. */
    function Snapshot(): (m: Mem)
      reads this
      ensures m.cells == cells && m.blocks == blocks && m.nodes == nodes
      ensures m.log == log && m.next == next
    {
      Mem(cells, blocks, nodes, log, next)
    }

    ghost predicate Valid()
      reads this
    {
      RefCount.Valid(Snapshot())
    }

    /** A heap on which nothing has been allocated yet. */
    constructor ()
      ensures Valid()
      ensures cells == map[] && blocks == map[] && nodes == map[] && log == [] && next == 0
    {
      cells := map[];
      blocks := map[];
      nodes := map[];
      log := [];
      next := 0;
    }

    /**
     * CMPUDecreaseReferenceCount: decrement the count in place; at zero call
     * the destructor (if any) on the payload, free the payload, free the cell.
     */
    method DecreaseReferenceCount(c: CellId)
      requires Valid() && c in cells
      modifies this
      ensures Valid()
      ensures Snapshot() == Release(old(Snapshot()), c)
    {
      ghost var m := Snapshot();
      var cell := cells[c];
      cell := cell.(refCount := cell.refCount - 1);
      cells := cells[c := cell];
      if cell.refCount == 0 {
        ghost var before := log;
        if cell.destructor.Some? {
          log := log + [DestructorCalled(c, cell.destructor.value, cell.payload)];
        }
        blocks := blocks - {cell.payload};
        log := log + [PayloadFreed(cell.payload)];
        cells := cells - {c};
        log := log + [CellFreed(c)];
        assert log == before + Teardown(c, m.cells[c]);
        assert cells == m.cells - {c};
      }
      assert Snapshot() == Release(m, c);
      ReleaseValid(m, c);
    }

    /**
     * CMPULocalCleanup: walk the registry from `scope`, releasing each
     * node's cell and then freeing the node. `ns` is the registry's node
     * sequence; it exists only for the proof.
     */
    method LocalCleanup(scope: Option<NodeId>, ghost ns: seq<NodeId>)
      requires Valid() && Chain(nodes, scope, ns)
      requires Releasable(cells, Registrations(Snapshot(), ns))
      modifies this
      ensures Valid()
      ensures Snapshot() == Cleanup(old(Snapshot()), ns)
    {
      ghost var target := Cleanup(Snapshot(), ns);
      var cursor := scope;
      ghost var rest := ns;
      WalkStart(Snapshot(), scope, ns);
      while cursor.Some?
        invariant Walking(Snapshot(), cursor, rest, target)
        decreases |rest|
      {
        ghost var m := Snapshot();
        WalkStep(m, cursor, rest, target);
        DecreaseReferenceCount(nodes[cursor.value].cell);
        var oldAllocated := cursor.value;
        cursor := nodes[oldAllocated].next;
        FreeNode(oldAllocated);
        assert Snapshot() == Step(m, rest);
        rest := rest[1..];
      }
      WalkDone(Snapshot(), rest, target);
    }

    /** free() of a registry node. */
    method FreeNode(n: NodeId)
      requires Valid()
      modifies this
      ensures Valid()
      ensures Snapshot() == Registry.FreeNode(old(Snapshot()), n)
    {
      nodes := nodes - {n};
      log := log + [NodeFreed(n)];
    }

    /**
     * createdynamic: calloc the payload, malloc the cell and fill it in, then
     * prepend a registry node to the scope's list whose head is `head`.
     * `payloadOk` and `cellOk` are the outcomes of the two checked
     * allocations; on a failure the method stops where the C code exits.
     */
    method CreateDynamic(head: Option<NodeId>, size: nat, payloadOk: bool, cellOk: bool)
      returns (res: Created, newHead: Option<NodeId>)
      requires Valid()
      modifies this
      ensures Valid()
      ensures (res, Snapshot()) == Create(old(Snapshot()), head, size, payloadOk, cellOk)
      ensures newHead == if res.Created? then Some(res.node) else head
    {
      ghost var m := Snapshot();
      CreateFresh(m, head, size, payloadOk, cellOk);
      res, newHead := OutOfMemory, head;
      if payloadOk {
        var payload := next;
        blocks := blocks[payload := Zeroed(size)];
        next := next + 1;
        if cellOk {
          var ref := next;
          cells := cells[ref := Cell(payload, None, 1)];
          next := next + 1;
          var node := next;
          nodes := nodes[node := Node(ref, newHead)];
          next := next + 1;
          newHead := Some(node);
          res := Created(payload, ref, node);
        }
      }
      assert Snapshot() == Create(m, head, size, payloadOk, cellOk).1;
    }

    /** Client code writing a live cell's `refCount` field one higher. */
    method IncreaseReferenceCount(c: CellId)
      requires Valid() && c in cells && cells[c].refCount < INT_MAX
      modifies this
      ensures Valid()
      ensures Snapshot() == Retain(old(Snapshot()), c)
    {
      RetainValid(Snapshot(), c);
      cells := cells[c := cells[c].(refCount := cells[c].refCount + 1)];
    }

    /** Client code storing a destructor into a cell's destructor field. */
    method SetDestructor(c: CellId, d: Option<DestructorId>)
      requires Valid() && c in cells
      modifies this
      ensures Valid()
      ensures Snapshot() == RefCount.SetDestructor(old(Snapshot()), c, d)
    {
      SetDestructorValid(Snapshot(), c, d);
      cells := cells[c := cells[c].(destructor := d)];
    }
  }
}
