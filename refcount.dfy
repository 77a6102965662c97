/**
 * The reference-counted cell of CPMU (struct cmpu_reference_counted) and the
 * release operation CMPUDecreaseReferenceCount, over an abstract C heap.
 *
 * The heap is a value: live cells, live payload blocks and live registry nodes
 * are maps from allocation ids, and every destructor call and every free is
 * appended to an event log. Allocation hands out ids from a counter that only
 * grows, so an id is never live twice; freeing removes the id from its map.
 */
module RefCount {

  type CellId = nat
  type BlockId = nat
  type NodeId = nat
  /** Identity of a destructor function pointer; its body is not modelled. */
  type DestructorId = nat

  /** Largest value of the C `int` that holds the count. */
  const INT_MAX: int := 0x7FFF_FFFF

  datatype Option<T> = None | Some(value: T)

  /** struct cmpu_reference_counted: payload pointer, optional destructor, count. */
  datatype Cell = Cell(payload: BlockId, destructor: Option<DestructorId>, refCount: int)

  /** struct cmpu_allocated_pointers: the registered cell and the older entry. */
  datatype Node = Node(cell: CellId, next: Option<NodeId>)

  /** What the release protocol does to the outside world, in order. */
  datatype Event =
    | DestructorCalled(cell: CellId, destructor: DestructorId, payload: BlockId)
    | PayloadFreed(payload: BlockId)
    | CellFreed(cell: CellId)
    | NodeFreed(node: NodeId)

  /** The abstract heap: what is live, what has happened, the next fresh id. */
  datatype Mem = Mem(
    cells: map<CellId, Cell>,
    blocks: map<BlockId, seq<bv8>>,
    nodes: map<NodeId, Node>,
    log: seq<Event>,
    next: nat)

  /**
   * Well-formedness of a heap reached by the protocol: every live id was
   * handed out already, and a live cell is owned at least once and its count
   * fits in a C int.
   */
  ghost predicate Valid(m: Mem)
  {
    && (forall c :: c in m.cells ==> c < m.next && 1 <= m.cells[c].refCount <= INT_MAX)
    && (forall b :: b in m.blocks ==> b < m.next)
    && (forall n :: n in m.nodes ==> n < m.next)
  }

  /** The events of destroying cell `c`: destructor (if any), then payload, then cell. */
  function Teardown(c: CellId, cell: Cell): (t: seq<Event>)
  {
    (match cell.destructor
     case Some(d) => [DestructorCalled(c, d, cell.payload)]
     case None => [])
    + [PayloadFreed(cell.payload), CellFreed(c)]
  }

  /**
   * CMPUDecreaseReferenceCount: decrement the count; when the decremented
   * count is zero, call the destructor on the payload if there is one, free
   * the payload, then free the cell. The destructor's body is not part of
   * the header: its call is logged and changes nothing else in the heap.
   */
  function Release(m: Mem, c: CellId): (r: Mem)
    requires c in m.cells
    ensures r.nodes == m.nodes && r.next == m.next
    ensures c in r.cells <==> m.cells[c].refCount - 1 != 0
    ensures r.cells.Keys == if c in r.cells then m.cells.Keys else m.cells.Keys - {c}
    ensures forall d :: d in r.cells && d != c ==> r.cells[d] == m.cells[d]
    ensures c in r.cells ==>
      && r.cells[c].refCount == m.cells[c].refCount - 1
      && r.cells[c].payload == m.cells[c].payload
      && r.cells[c].destructor == m.cells[c].destructor
    ensures c in r.cells ==> r.blocks == m.blocks && r.log == m.log
    ensures c !in r.cells ==>
      && r.blocks == m.blocks - {m.cells[c].payload}
      && r.log == m.log + Teardown(c, m.cells[c])
  {
    var cell := m.cells[c];
    var count := cell.refCount - 1;
    if count != 0 then
      m.(cells := m.cells[c := cell.(refCount := count)])
    else
      m.(cells := m.cells - {c},
         blocks := m.blocks - {cell.payload},
         log := m.log + Teardown(c, cell))
  }

  /**
   * Client code writing the cell's `refCount` field one higher, so that the
   * scope's cleanup decrement does not destroy the cell; the header itself
   * has no call for it.
   */
  function Retain(m: Mem, c: CellId): (r: Mem)
    requires c in m.cells && m.cells[c].refCount < INT_MAX
    ensures r.blocks == m.blocks && r.nodes == m.nodes && r.log == m.log && r.next == m.next
    ensures r.cells.Keys == m.cells.Keys
    ensures forall d :: d in r.cells && d != c ==> r.cells[d] == m.cells[d]
    ensures r.cells[c].refCount == m.cells[c].refCount + 1
    ensures r.cells[c].payload == m.cells[c].payload
    ensures r.cells[c].destructor == m.cells[c].destructor
  {
    m.(cells := m.cells[c := m.cells[c].(refCount := m.cells[c].refCount + 1)])
  }

  /** Client code storing a function pointer into the cell's destructor field. */
  function SetDestructor(m: Mem, c: CellId, d: Option<DestructorId>): (r: Mem)
    requires c in m.cells
    ensures r.blocks == m.blocks && r.nodes == m.nodes && r.log == m.log && r.next == m.next
    ensures r.cells.Keys == m.cells.Keys
    ensures forall e :: e in r.cells && e != c ==> r.cells[e] == m.cells[e]
    ensures r.cells[c].destructor == d
    ensures r.cells[c].refCount == m.cells[c].refCount
    ensures r.cells[c].payload == m.cells[c].payload
  {
    m.(cells := m.cells[c := m.cells[c].(destructor := d)])
  }

  lemma ReleaseValid(m: Mem, c: CellId)
    requires Valid(m) && c in m.cells
    ensures Valid(Release(m, c))
  {
  }

  lemma RetainValid(m: Mem, c: CellId)
    requires Valid(m) && c in m.cells && m.cells[c].refCount < INT_MAX
    ensures Valid(Retain(m, c))
  {
  }

  lemma SetDestructorValid(m: Mem, c: CellId, d: Option<DestructorId>)
    requires Valid(m) && c in m.cells
    ensures Valid(SetDestructor(m, c, d))
  {
  }

  /** Release undoes Retain exactly: the increment compensates the decrement. */
  lemma RetainThenRelease(m: Mem, c: CellId)
    requires c in m.cells && 1 <= m.cells[c].refCount < INT_MAX
    ensures Release(Retain(m, c), c) == m
  {
    var cell := m.cells[c];
    assert cell.(refCount := cell.refCount + 1).(refCount := cell.refCount) == cell;
    assert m.cells[c := cell] == m.cells;
  }

  /**
   * A cell with two owners survives the first release untouched except for
   * its count, and is destroyed by the second, destructor first.
   */
  lemma SharedCellReleasedTwice(m: Mem, c: CellId)
    requires c in m.cells && m.cells[c].refCount == 2
    ensures c in Release(m, c).cells
    ensures Release(m, c).blocks == m.blocks && Release(m, c).log == m.log
    ensures c !in Release(Release(m, c), c).cells
    ensures Release(Release(m, c), c).log == m.log + Teardown(c, m.cells[c])
    ensures Release(Release(m, c), c).blocks == m.blocks - {m.cells[c].payload}
  {
  }

  /** A destructor runs only as the first event of its cell's destruction. */
  lemma TeardownOrder(c: CellId, cell: Cell)
    ensures |Teardown(c, cell)| == if cell.destructor.Some? then 3 else 2
    ensures cell.destructor.Some? ==>
      Teardown(c, cell)[0] == DestructorCalled(c, cell.destructor.value, cell.payload)
    ensures Teardown(c, cell)[|Teardown(c, cell)| - 2] == PayloadFreed(cell.payload)
    ensures Teardown(c, cell)[|Teardown(c, cell)| - 1] == CellFreed(c)
  {
  }
}
