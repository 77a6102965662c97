/**
 * The scope registry (a singly linked list of struct cmpu_allocated_pointers,
 * newest first) and its cleanup walk, CMPULocalCleanup.
 *
 * A registry is given by its head pointer and, as a ghost witness, the
 * sequence of its node ids from head to tail. Cleanup is specified here as a
 * function of the heap and that sequence; the lemmas say which cells it
 * destroys, what it frees and in which order.
 */
module Registry {
  import opened RefCount

  ghost predicate Distinct<T>(s: seq<T>)
  {
    forall i, j :: 0 <= i < j < |s| ==> s[i] != s[j]
  }

  /** Dropping the first element of a sequence without repeats. */
  lemma DistinctTail<T>(s: seq<T>)
    requires s != [] && Distinct(s)
    ensures Distinct(s[1..]) && s[0] !in s[1..]
  {
  }

  /** Putting a new element in front of a sequence without repeats. */
  lemma ConsDistinct<T>(x: T, s: seq<T>)
    requires Distinct(s) && x !in s
    ensures Distinct([x] + s)
  {
    var s' := [x] + s;
    forall i, j | 0 <= i < j < |s'|
      ensures s'[i] != s'[j]
    {
      assert s'[j] == s[j - 1];
      if i > 0 {
        assert s'[i] == s[i - 1];
      }
    }
  }

  /** Every node of `ns` is live, and no node occurs twice. */
  ghost predicate Registered(nodes: map<NodeId, Node>, ns: seq<NodeId>)
  {
    && (forall i :: 0 <= i < |ns| ==> ns[i] in nodes)
    && Distinct(ns)
  }

  /** Following `next` from `head` visits exactly `ns` and ends in NULL. */
  ghost predicate Links(nodes: map<NodeId, Node>, head: Option<NodeId>, ns: seq<NodeId>)
    decreases |ns|
  {
    if ns == [] then head == None
    else head == Some(ns[0]) && ns[0] in nodes && Links(nodes, nodes[ns[0]].next, ns[1..])
  }

  /** `head` is a finite, acyclic registry whose nodes are `ns`. */
  ghost predicate Chain(nodes: map<NodeId, Node>, head: Option<NodeId>, ns: seq<NodeId>)
  {
    Registered(nodes, ns) && Links(nodes, head, ns)
  }

  /** Links depends only on the entries of the nodes it visits. */
  lemma {:induction false} LinksFrame(nodes: map<NodeId, Node>, nodes': map<NodeId, Node>,
                                      head: Option<NodeId>, ns: seq<NodeId>)
    requires Links(nodes, head, ns)
    requires forall i :: 0 <= i < |ns| ==> ns[i] in nodes && ns[i] in nodes' && nodes'[ns[i]] == nodes[ns[i]]
    ensures Links(nodes', head, ns)
    decreases |ns|
  {
    if ns != [] {
      assert ns[0] in nodes' && nodes'[ns[0]] == nodes[ns[0]];
      forall i | 0 <= i < |ns[1..]|
        ensures ns[1..][i] in nodes && ns[1..][i] in nodes' && nodes'[ns[1..][i]] == nodes[ns[1..][i]]
      {
        assert ns[1..][i] == ns[i + 1];
      }
      LinksFrame(nodes, nodes', nodes[ns[0]].next, ns[1..]);
    }
  }

  /** A chain is determined by its head: the ghost node sequence is unique. */
  lemma {:induction false} LinksUnique(nodes: map<NodeId, Node>, head: Option<NodeId>,
                                       ns: seq<NodeId>, ns': seq<NodeId>)
    requires Links(nodes, head, ns) && Links(nodes, head, ns')
    ensures ns == ns'
    decreases |ns|
  {
    if ns != [] {
      LinksUnique(nodes, nodes[ns[0]].next, ns[1..], ns'[1..]);
      HeadTail(ns);
      HeadTail(ns');
    }
  }

  /** The cells the registry refers to, in list order. */
  function CellsOf(nodes: map<NodeId, Node>, ns: seq<NodeId>): (cs: seq<CellId>)
    requires forall i :: 0 <= i < |ns| ==> ns[i] in nodes
    ensures |cs| == |ns|
    ensures forall i :: 0 <= i < |ns| ==> cs[i] == nodes[ns[i]].cell
  {
    if ns == [] then [] else [nodes[ns[0]].cell] + CellsOf(nodes, ns[1..])
  }

  /** How many times each cell is registered. */
  function Registrations(m: Mem, ns: seq<NodeId>): (r: multiset<CellId>)
    requires forall i :: 0 <= i < |ns| ==> ns[i] in m.nodes
  {
    multiset(CellsOf(m.nodes, ns))
  }

  /**
   * Every registered cell is live and has at least as many owners as
   * registrations, so that no release in the walk touches a freed cell.
   */
  ghost predicate Releasable(cells: map<CellId, Cell>, regs: multiset<CellId>)
  {
    forall c :: c in regs ==> c in cells && regs[c] <= cells[c].refCount
  }

  /** free(old_allocated), as the walk does after releasing the node's cell. */
  function FreeNode(m: Mem, n: NodeId): (r: Mem)
  {
    m.(nodes := m.nodes - {n}, log := m.log + [NodeFreed(n)])
  }

  /** One iteration of the walk: release the head's cell, then free the head. */
  function Step(m: Mem, ns: seq<NodeId>): (r: Mem)
    requires ns != [] && ns[0] in m.nodes && m.nodes[ns[0]].cell in m.cells
  {
    FreeNode(Release(m, m.nodes[ns[0]].cell), ns[0])
  }

  /** Freeing the head leaves the other nodes of the registry live and unchanged. */
  lemma StepNodes(m: Mem, ns: seq<NodeId>)
    requires ns != [] && Registered(m.nodes, ns) && m.nodes[ns[0]].cell in m.cells
    ensures Step(m, ns).nodes == m.nodes - {ns[0]}
    ensures Registered(Step(m, ns).nodes, ns[1..])
    ensures forall i :: 0 <= i < |ns[1..]| ==>
                          ns[1..][i] in m.nodes && Step(m, ns).nodes[ns[1..][i]] == m.nodes[ns[1..][i]]
  {
    DistinctTail(ns);
    forall i | 0 <= i < |ns[1..]|
      ensures ns[1..][i] in m.nodes && ns[1..][i] != ns[0]
    {
      assert ns[1..][i] == ns[i + 1];
    }
  }

  /** CellsOf depends only on the entries of the registry's own nodes. */
  lemma CellsOfFrame(nodes: map<NodeId, Node>, nodes': map<NodeId, Node>, ns: seq<NodeId>)
    requires forall i :: 0 <= i < |ns| ==> ns[i] in nodes && ns[i] in nodes' && nodes'[ns[i]] == nodes[ns[i]]
    ensures CellsOf(nodes', ns) == CellsOf(nodes, ns)
  {
  }

  /** After one step, the rest of the registry is intact and still releasable. */
  lemma StepKeepsRest(m: Mem, ns: seq<NodeId>)
    requires ns != [] && Registered(m.nodes, ns)
    requires Releasable(m.cells, Registrations(m, ns))
    ensures m.nodes[ns[0]].cell in m.cells
    ensures Registered(Step(m, ns).nodes, ns[1..])
    ensures CellsOf(Step(m, ns).nodes, ns[1..]) == CellsOf(m.nodes, ns[1..])
    ensures Registrations(m, ns) == multiset{m.nodes[ns[0]].cell} + Registrations(m, ns[1..])
    ensures Releasable(Step(m, ns).cells, Registrations(Step(m, ns), ns[1..]))
  {
    var cs := CellsOf(m.nodes, ns);
    CellsOfTail(m.nodes, ns);
    HeadTail(cs);
    assert cs[0] in multiset(cs);
    StepNodes(m, ns);
    CellsOfFrame(m.nodes, Step(m, ns).nodes, ns[1..]);
  }

  /**
   * After one step, the head's `next` is the head of a chain of the remaining
   * nodes: freeing the old head does not break the rest of the list.
   */
  lemma StepKeepsChain(m: Mem, head: Option<NodeId>, ns: seq<NodeId>)
    requires ns != [] && Chain(m.nodes, head, ns) && m.nodes[ns[0]].cell in m.cells
    ensures head == Some(ns[0])
    ensures Chain(Step(m, ns).nodes, m.nodes[ns[0]].next, ns[1..])
  {
    var m1 := Step(m, ns);
    DistinctTail(ns);
    forall i | 0 <= i < |ns[1..]|
      ensures ns[1..][i] in m1.nodes && m1.nodes[ns[1..][i]] == m.nodes[ns[1..][i]]
    {
      assert ns[1..][i] == ns[i + 1] != ns[0];
    }
    LinksFrame(m.nodes, m1.nodes, m.nodes[ns[0]].next, ns[1..]);
  }

  /**
   * CMPULocalCleanup: for each node from the head, release its cell, then
   * free the node. Every node is freed whatever the count of its cell.
   */
  function Cleanup(m: Mem, ns: seq<NodeId>): (r: Mem)
    requires Registered(m.nodes, ns)
    requires Releasable(m.cells, Registrations(m, ns))
    ensures r.next == m.next
    decreases |ns|
  {
    if ns == [] then m
    else
      StepKeepsRest(m, ns);
      Cleanup(Step(m, ns), ns[1..])
  }

  /**
   * The invariant of the cleanup walk: `cursor` heads a well-formed,
   * releasable registry `rest`, and finishing the walk from here gives `target`.
   */
  ghost predicate Walking(m: Mem, cursor: Option<NodeId>, rest: seq<NodeId>, target: Mem)
  {
    && Valid(m)
    && Chain(m.nodes, cursor, rest)
    && Releasable(m.cells, Registrations(m, rest))
    && Cleanup(m, rest) == target
  }

  /** The walk starts with the whole registry still to go. */
  lemma WalkStart(m: Mem, head: Option<NodeId>, ns: seq<NodeId>)
    requires Valid(m) && Chain(m.nodes, head, ns) && Releasable(m.cells, Registrations(m, ns))
    ensures Walking(m, head, ns, Cleanup(m, ns))
  {
  }

  /**
   * One iteration of the walk keeps its invariant: the cursor is the first
   * node of `rest`, its cell is live, and after releasing the cell and freeing
   * the node, the node's `next` heads the rest of the registry.
   */
  lemma WalkStep(m: Mem, cursor: Option<NodeId>, rest: seq<NodeId>, target: Mem)
    requires Walking(m, cursor, rest, target) && cursor.Some?
    ensures rest != [] && cursor.value == rest[0] && rest[0] in m.nodes
    ensures m.nodes[rest[0]].cell in m.cells
    ensures Walking(Step(m, rest), m.nodes[rest[0]].next, rest[1..], target)
  {
    StepKeepsRest(m, rest);
    StepKeepsChain(m, cursor, rest);
    ReleaseValid(m, m.nodes[rest[0]].cell);
  }

  /** When the cursor is NULL the walk is over and the heap is the target. */
  lemma WalkDone(m: Mem, rest: seq<NodeId>, target: Mem)
    requires Walking(m, None, rest, target)
    ensures m == target
  {
  }

  function NodeSet(ns: seq<NodeId>): (r: set<NodeId>)
  {
    set n | n in ns
  }

  lemma NodeSetCons(ns: seq<NodeId>)
    requires ns != []
    ensures NodeSet(ns) == NodeSet(ns[1..]) + {ns[0]}
  {
    HeadTail(ns);
  }

  /** Cleanup frees every node of the registry and no other node. */
  lemma {:induction false} CleanupFreesRegistry(m: Mem, ns: seq<NodeId>)
    requires Registered(m.nodes, ns)
    requires Releasable(m.cells, Registrations(m, ns))
    ensures Cleanup(m, ns).nodes == m.nodes - NodeSet(ns)
    decreases |ns|
  {
    if ns != [] {
      StepKeepsRest(m, ns);
      var m1 := Step(m, ns);
      CleanupFreesRegistry(m1, ns[1..]);
      assert m1.nodes == m.nodes - {ns[0]};
      NodeSetCons(ns);
      RemoveTwice(m.nodes, {ns[0]}, NodeSet(ns[1..]));
    }
  }

  /**
   * `after` is `cells` once every registration in `regs` has been released:
   * a registered cell loses one owner per registration and is gone exactly
   * when no owner is left; every other cell is as it was.
   */
  ghost predicate Settled(cells: map<CellId, Cell>, regs: multiset<CellId>, after: map<CellId, Cell>)
  {
    && after.Keys <= cells.Keys
    && (forall c :: c in cells && c !in regs ==> c in after && after[c] == cells[c])
    && (forall c :: c in regs ==> c in cells && (c in after <==> regs[c] < cells[c].refCount))
    && (forall c :: c in regs && c in after ==>
          after[c] == cells[c].(refCount := cells[c].refCount - regs[c]))
  }

  /** Releasing one registration, then the rest, settles all of them. */
  lemma SettledStep(cells: map<CellId, Cell>, regs: multiset<CellId>, c0: CellId,
                    cells1: map<CellId, Cell>, regs1: multiset<CellId>, after: map<CellId, Cell>)
    requires c0 in cells && regs == multiset{c0} + regs1 && Releasable(cells, regs)
    requires Decremented(cells, c0, cells1) && Settled(cells1, regs1, after)
    ensures Settled(cells, regs, after)
  {
    forall c | c in regs
      ensures c in cells && (c in after <==> regs[c] < cells[c].refCount)
      ensures c in after ==> after[c] == cells[c].(refCount := cells[c].refCount - regs[c])
    {
      if c != c0 {
        assert c in regs1 && regs[c] == regs1[c] && cells1[c] == cells[c];
      } else if cells[c0].refCount == 1 {
        assert regs[c0] == 1 && c0 !in regs1;
      } else if c0 in regs1 {
        assert regs[c0] == regs1[c0] + 1;
      } else {
        assert regs[c0] == 1;
      }
    }
  }

  /**
   * Cleanup gives each registered cell back as many owners as it has
   * registrations, destroys exactly the cells left with none, and leaves
   * every other cell as it was.
   */
  lemma {:induction false} CleanupCells(m: Mem, ns: seq<NodeId>)
    requires Registered(m.nodes, ns)
    requires Releasable(m.cells, Registrations(m, ns))
    ensures Settled(m.cells, Registrations(m, ns), Cleanup(m, ns).cells)
    decreases |ns|
  {
    if ns != [] {
      StepKeepsRest(m, ns);
      StepShape(m, ns);
      var m1 := Step(m, ns);
      CleanupCells(m1, ns[1..]);
      SettledStep(m.cells, Registrations(m, ns), m.nodes[ns[0]].cell,
                  m1.cells, Registrations(m1, ns[1..]), Cleanup(m1, ns[1..]).cells);
    }
  }

  /** The payloads of the registered cells that have no owner besides their registrations. */
  ghost function Destroyed(cells: map<CellId, Cell>, regs: multiset<CellId>): set<BlockId>
  {
    set c | c in cells && c in regs && regs[c] == cells[c].refCount :: cells[c].payload
  }

  /** The count-and-cells part of one release, as Release computes it. */
  ghost predicate Decremented(cells: map<CellId, Cell>, c0: CellId, cells1: map<CellId, Cell>)
    requires c0 in cells
  {
    if cells[c0].refCount == 1 then cells1 == cells - {c0}
    else cells1 == cells[c0 := cells[c0].(refCount := cells[c0].refCount - 1)]
  }

  lemma DestroyedStep(cells: map<CellId, Cell>, regs: multiset<CellId>,
                      c0: CellId, cells1: map<CellId, Cell>, regs1: multiset<CellId>)
    requires c0 in cells && regs == multiset{c0} + regs1 && Releasable(cells, regs)
    requires Decremented(cells, c0, cells1)
    ensures Destroyed(cells, regs) == Destroyed(cells1, regs1)
      + (if cells[c0].refCount == 1 then {cells[c0].payload} else {})
  {
    var d := Destroyed(cells, regs);
    var d1 := Destroyed(cells1, regs1);
    var here: set<BlockId> := if cells[c0].refCount == 1 then {cells[c0].payload} else {};
    assert d <= d1 + here by {
      forall c | c in cells && c in regs && regs[c] == cells[c].refCount
        ensures cells[c].payload in d1 + here
      {
        if c != c0 {
          assert c in cells1 && cells1[c] == cells[c] && regs1[c] == regs[c];
        } else if cells[c0].refCount != 1 {
          assert cells1[c].refCount == cells[c].refCount - 1 && regs1[c] == regs[c] - 1;
        }
      }
    }
    assert d1 <= d by {
      forall c | c in cells1 && c in regs1 && regs1[c] == cells1[c].refCount
        ensures cells1[c].payload in d
      {
        if c != c0 {
          assert cells1[c] == cells[c] && regs1[c] == regs[c];
        } else {
          assert cells1[c].refCount == cells[c].refCount - 1 && regs1[c] == regs[c] - 1;
        }
      }
    }
    assert here <= d by {
      if cells[c0].refCount == 1 {
        assert c0 in regs && regs[c0] == 1;
      }
    }
  }

  /** What one step does to the cells and blocks, as whole maps. */
  lemma StepShape(m: Mem, ns: seq<NodeId>)
    requires ns != [] && ns[0] in m.nodes && m.nodes[ns[0]].cell in m.cells
    ensures Decremented(m.cells, m.nodes[ns[0]].cell, Step(m, ns).cells)
    ensures Step(m, ns).blocks == m.blocks -
      (if m.cells[m.nodes[ns[0]].cell].refCount == 1 then {m.cells[m.nodes[ns[0]].cell].payload} else {})
  {
  }

  /**
   * Cleanup frees the payloads of the cells it destroys, those whose every
   * owner is a registration, and no other block.
   */
  lemma {:induction false} CleanupPayloads(m: Mem, ns: seq<NodeId>)
    requires Registered(m.nodes, ns)
    requires Releasable(m.cells, Registrations(m, ns))
    ensures Cleanup(m, ns).blocks == m.blocks - Destroyed(m.cells, Registrations(m, ns))
    decreases |ns|
  {
    if ns != [] {
      var c0 := m.nodes[ns[0]].cell;
      StepKeepsRest(m, ns);
      var m1 := Step(m, ns);
      var here: set<BlockId> := if m.cells[c0].refCount == 1 then {m.cells[c0].payload} else {};
      StepShape(m, ns);
      DestroyedStep(m.cells, Registrations(m, ns), c0, m1.cells, Registrations(m1, ns[1..]));
      CleanupPayloads(m1, ns[1..]);
      RemoveTwice(m.blocks, here, Destroyed(m1.cells, Registrations(m1, ns[1..])));
    }
  }

  lemma RemoveTwice<K, V>(a: map<K, V>, x: set<K>, y: set<K>)
    ensures (a - x) - y == a - (y + x)
  {
  }

  /** The registry nodes named by the NodeFreed events of a log, in order. */
  function NodesFreed(log: seq<Event>): (r: seq<NodeId>)
  {
    if log == [] then []
    else (if log[0].NodeFreed? then [log[0].node] else []) + NodesFreed(log[1..])
  }

  lemma {:induction false} NodesFreedAppend(a: seq<Event>, b: seq<Event>)
    ensures NodesFreed(a + b) == NodesFreed(a) + NodesFreed(b)
    decreases |a|
  {
    if a != [] {
      assert (a + b)[0] == a[0];
      assert (a + b)[1..] == a[1..] + b;
      NodesFreedAppend(a[1..], b);
    } else {
      assert a + b == b;
    }
  }

  /** The events one step of the walk appends: the cell's teardown if it dies, then the node's free. */
  function StepEvents(m: Mem, ns: seq<NodeId>): (r: seq<Event>)
    requires ns != [] && ns[0] in m.nodes && m.nodes[ns[0]].cell in m.cells
  {
    var c := m.nodes[ns[0]].cell;
    (if m.cells[c].refCount == 1 then Teardown(c, m.cells[c]) else []) + [NodeFreed(ns[0])]
  }

  lemma StepEventsFreeHead(m: Mem, ns: seq<NodeId>)
    requires ns != [] && ns[0] in m.nodes && m.nodes[ns[0]].cell in m.cells
    ensures Step(m, ns).log == m.log + StepEvents(m, ns)
    ensures NodesFreed(StepEvents(m, ns)) == [ns[0]]
  {
    var c := m.nodes[ns[0]].cell;
    var t := if m.cells[c].refCount == 1 then Teardown(c, m.cells[c]) else [];
    NodesFreedAppend(t, [NodeFreed(ns[0])]);
    assert NodesFreed([NodeFreed(ns[0])]) == [ns[0]] by {
      assert [NodeFreed(ns[0])][1..] == [];
    }
    assert NodesFreed(t) == [] by {
      if t != [] {
        var cell := m.cells[c];
        NodesFreedAppend([PayloadFreed(cell.payload)], [CellFreed(c)]);
        assert NodesFreed([PayloadFreed(cell.payload)]) == [] by {
          assert [PayloadFreed(cell.payload)][1..] == [];
        }
        assert NodesFreed([CellFreed(c)]) == [] by {
          assert [CellFreed(c)][1..] == [];
        }
        if cell.destructor.Some? {
          var e := DestructorCalled(c, cell.destructor.value, cell.payload);
          assert t == [e] + [PayloadFreed(cell.payload), CellFreed(c)];
          NodesFreedAppend([e], [PayloadFreed(cell.payload), CellFreed(c)]);
          assert NodesFreed([e]) == [] by {
            assert [e][1..] == [];
          }
        } else {
          assert t == [PayloadFreed(cell.payload)] + [CellFreed(c)];
        }
      }
    }
  }

  /** The events a cleanup of `ns` appends to the log, step by step. */
  function Appended(m: Mem, ns: seq<NodeId>): (r: seq<Event>)
    requires Registered(m.nodes, ns)
    requires Releasable(m.cells, Registrations(m, ns))
    decreases |ns|
  {
    if ns == [] then []
    else
      StepKeepsRest(m, ns);
      StepEvents(m, ns) + Appended(Step(m, ns), ns[1..])
  }

  /** Cleanup only appends to the log. */
  lemma {:induction false} CleanupAppends(m: Mem, ns: seq<NodeId>)
    requires Registered(m.nodes, ns)
    requires Releasable(m.cells, Registrations(m, ns))
    ensures Cleanup(m, ns).log == m.log + Appended(m, ns)
    decreases |ns|
  {
    if ns != [] {
      StepKeepsRest(m, ns);
      StepEventsFreeHead(m, ns);
      CleanupAppends(Step(m, ns), ns[1..]);
      ConcatAssoc(m.log, StepEvents(m, ns), Appended(Step(m, ns), ns[1..]));
    }
  }

  /**
   * The nodes a cleanup frees are the registry's nodes, each once, in list
   * order (newest first).
   */
  lemma {:induction false} CleanupFreesNodesInOrder(m: Mem, ns: seq<NodeId>)
    requires Registered(m.nodes, ns)
    requires Releasable(m.cells, Registrations(m, ns))
    ensures NodesFreed(Appended(m, ns)) == ns
    decreases |ns|
  {
    if ns != [] {
      StepKeepsRest(m, ns);
      StepEventsFreeHead(m, ns);
      CleanupFreesNodesInOrder(Step(m, ns), ns[1..]);
      NodesFreedAppend(StepEvents(m, ns), Appended(Step(m, ns), ns[1..]));
      HeadTail(ns);
    }
  }

  /**
   * The events of a cleanup of `ns`, read off the heap before the walk, for a
   * registry that refers to each cell once: each node in list order adds the
   * teardown of its cell when that cell has a single owner, then its own free.
   */
  function Trace(m: Mem, ns: seq<NodeId>): (r: seq<Event>)
    requires forall i :: 0 <= i < |ns| ==> ns[i] in m.nodes && m.nodes[ns[i]].cell in m.cells
  {
    if ns == [] then [] else StepEvents(m, ns) + Trace(m, ns[1..])
  }

  /** Trace depends only on the registry's nodes and the cells they refer to. */
  lemma {:induction false} TraceFrame(m: Mem, m': Mem, ns: seq<NodeId>)
    requires forall i :: 0 <= i < |ns| ==> ns[i] in m.nodes && m.nodes[ns[i]].cell in m.cells
    requires forall i :: 0 <= i < |ns| ==> ns[i] in m'.nodes && m'.nodes[ns[i]] == m.nodes[ns[i]]
    requires forall i :: 0 <= i < |ns| ==>
      m.nodes[ns[i]].cell in m'.cells && m'.cells[m.nodes[ns[i]].cell] == m.cells[m.nodes[ns[i]].cell]
    ensures Trace(m', ns) == Trace(m, ns)
    decreases |ns|
  {
    if ns != [] {
      TraceFrame(m, m', ns[1..]);
    }
  }

  /** A releasable registry refers only to live cells. */
  lemma RegisteredCellsLive(m: Mem, ns: seq<NodeId>)
    requires forall i :: 0 <= i < |ns| ==> ns[i] in m.nodes
    requires Releasable(m.cells, Registrations(m, ns))
    ensures forall i :: 0 <= i < |ns| ==> m.nodes[ns[i]].cell in m.cells
  {
    var cs := CellsOf(m.nodes, ns);
    forall i | 0 <= i < |ns|
      ensures m.nodes[ns[i]].cell in m.cells
    {
      assert cs[i] in multiset(cs);
    }
  }

  lemma CellsOfTail(nodes: map<NodeId, Node>, ns: seq<NodeId>)
    requires ns != [] && forall i :: 0 <= i < |ns| ==> ns[i] in nodes
    ensures CellsOf(nodes, ns[1..]) == CellsOf(nodes, ns)[1..]
    ensures CellsOf(nodes, ns)[0] == nodes[ns[0]].cell
  {
  }

  /** The rest of a registry with distinct cells does not refer to the head's cell. */
  lemma TailCellsUntouched(m: Mem, ns: seq<NodeId>)
    requires ns != [] && Registered(m.nodes, ns)
    requires forall i :: 0 <= i < |ns| ==> m.nodes[ns[i]].cell in m.cells
    requires Distinct(CellsOf(m.nodes, ns))
    ensures Registered(Step(m, ns).nodes, ns[1..])
    ensures Distinct(CellsOf(Step(m, ns).nodes, ns[1..]))
    ensures Trace(Step(m, ns), ns[1..]) == Trace(m, ns[1..])
  {
    var cs := CellsOf(m.nodes, ns);
    var m1 := Step(m, ns);
    CellsOfTail(m.nodes, ns);
    DistinctTail(cs);
    DistinctTail(ns);
    assert Registered(m1.nodes, ns[1..]) by {
      forall i | 0 <= i < |ns[1..]|
        ensures ns[1..][i] in m1.nodes
      {
        assert ns[1..][i] == ns[i + 1] != ns[0];
      }
    }
    assert CellsOf(m1.nodes, ns[1..]) == cs[1..];
    forall i | 0 <= i < |ns[1..]|
      ensures m1.nodes[ns[1..][i]] == m.nodes[ns[1..][i]]
      ensures m1.nodes[ns[1..][i]].cell in m1.cells
      ensures m1.cells[m1.nodes[ns[1..][i]].cell] == m.cells[m1.nodes[ns[1..][i]].cell]
    {
      assert m1.nodes[ns[1..][i]].cell == cs[1..][i] != cs[0];
    }
    TraceFrame(m, m1, ns[1..]);
  }

  /**
   * For a registry that refers to each cell once, the log of the cleanup is
   * exactly Trace: in list order, each dying cell's destructor, payload free
   * and cell free, each followed by the free of its node.
   */
  lemma {:induction false} CleanupTrace(m: Mem, ns: seq<NodeId>)
    requires Registered(m.nodes, ns)
    requires Releasable(m.cells, Registrations(m, ns))
    requires Distinct(CellsOf(m.nodes, ns))
    ensures forall i :: 0 <= i < |ns| ==> m.nodes[ns[i]].cell in m.cells
    ensures Cleanup(m, ns).log == m.log + Trace(m, ns)
    decreases |ns|
  {
    RegisteredCellsLive(m, ns);
    if ns != [] {
      StepKeepsRest(m, ns);
      TailCellsUntouched(m, ns);
      StepEventsFreeHead(m, ns);
      var m1 := Step(m, ns);
      CleanupTrace(m1, ns[1..]);
      var r := Cleanup(m1, ns[1..]);
      assert Cleanup(m, ns) == r;
      calc {
        r.log;
        m1.log + Trace(m1, ns[1..]);
        (m.log + StepEvents(m, ns)) + Trace(m, ns[1..]);
        { ConcatAssoc(m.log, StepEvents(m, ns), Trace(m, ns[1..])); }
        m.log + (StepEvents(m, ns) + Trace(m, ns[1..]));
        m.log + Trace(m, ns);
      }
    }
  }

  lemma HeadTail<T>(s: seq<T>)
    requires s != []
    ensures [s[0]] + s[1..] == s
  {
  }

  lemma ConcatAssoc<T>(a: seq<T>, b: seq<T>, c: seq<T>)
    ensures (a + b) + c == a + (b + c)
  {
  }

  /** How often each event occurs in the events of one step. */
  lemma StepEventsCounts(m: Mem, ns: seq<NodeId>)
    requires ns != [] && ns[0] in m.nodes && m.nodes[ns[0]].cell in m.cells
    ensures forall n :: multiset(StepEvents(m, ns))[NodeFreed(n)] == (if n == ns[0] then 1 else 0)
    ensures forall c :: multiset(StepEvents(m, ns))[CellFreed(c)] ==
              (if c == m.nodes[ns[0]].cell && m.cells[c].refCount == 1 then 1 else 0)
    ensures forall c, d, p :: multiset(StepEvents(m, ns))[DestructorCalled(c, d, p)] ==
              (if c == m.nodes[ns[0]].cell && m.cells[c].refCount == 1
                  && m.cells[c].destructor == Some(d) && m.cells[c].payload == p then 1 else 0)
  {
    var c0 := m.nodes[ns[0]].cell;
    TeardownCounts(c0, m.cells[c0]);
  }

  lemma TeardownCounts(c: CellId, cell: Cell)
    ensures forall n :: multiset(Teardown(c, cell))[NodeFreed(n)] == 0
    ensures forall x :: multiset(Teardown(c, cell))[CellFreed(x)] == (if x == c then 1 else 0)
    ensures forall x, d, p :: multiset(Teardown(c, cell))[DestructorCalled(x, d, p)] ==
              (if x == c && cell.destructor == Some(d) && cell.payload == p then 1 else 0)
  {
  }

  /** Each node of the registry is freed exactly once in a Trace, and no other node. */
  lemma {:induction false} TraceFreesEachNodeOnce(m: Mem, ns: seq<NodeId>)
    requires forall i :: 0 <= i < |ns| ==> ns[i] in m.nodes && m.nodes[ns[i]].cell in m.cells
    requires Distinct(ns)
    ensures forall n :: multiset(Trace(m, ns))[NodeFreed(n)] == (if n in ns then 1 else 0)
    decreases |ns|
  {
    if ns != [] {
      TraceFreesEachNodeOnce(m, ns[1..]);
      StepEventsCounts(m, ns);
      DistinctTail(ns);
      assert multiset(Trace(m, ns)) == multiset(StepEvents(m, ns)) + multiset(Trace(m, ns[1..]));
      forall n
        ensures multiset(Trace(m, ns))[NodeFreed(n)] == (if n in ns then 1 else 0)
      {
        assert n in ns <==> n == ns[0] || n in ns[1..];
      }
    }
  }

  /** Whether a cleanup of `ns` destroys cell `c`: it is registered and has one owner. */
  ghost predicate FreesCell(m: Mem, ns: seq<NodeId>, c: CellId)
    requires forall i :: 0 <= i < |ns| ==> ns[i] in m.nodes && m.nodes[ns[i]].cell in m.cells
  {
    c in CellsOf(m.nodes, ns) && c in m.cells && m.cells[c].refCount == 1
  }

  /**
   * In a Trace, a cell is freed exactly once if its only owner is its
   * registration, and never otherwise.
   */
  lemma {:induction false} TraceFreesCellOnce(m: Mem, ns: seq<NodeId>)
    requires forall i :: 0 <= i < |ns| ==> ns[i] in m.nodes && m.nodes[ns[i]].cell in m.cells
    requires Distinct(CellsOf(m.nodes, ns))
    ensures forall c :: multiset(Trace(m, ns))[CellFreed(c)] == (if FreesCell(m, ns, c) then 1 else 0)
    decreases |ns|
  {
    if ns != [] {
      var cs := CellsOf(m.nodes, ns);
      CellsOfTail(m.nodes, ns);
      DistinctTail(cs);
      TraceFreesCellOnce(m, ns[1..]);
      StepEventsCounts(m, ns);
      assert multiset(Trace(m, ns)) == multiset(StepEvents(m, ns)) + multiset(Trace(m, ns[1..]));
      forall c
        ensures multiset(Trace(m, ns))[CellFreed(c)] == (if FreesCell(m, ns, c) then 1 else 0)
      {
        HeadTail(cs);
        if c == cs[0] {
          assert c in cs && c !in cs[1..];
        } else {
          assert c in cs <==> c in cs[1..];
        }
      }
    }
  }

  /** Whether a cleanup of `ns` destroys cell `c` and calls destructor `d` on payload `p`. */
  ghost predicate CallsDestructor(m: Mem, ns: seq<NodeId>, c: CellId, d: DestructorId, p: BlockId)
    requires forall i :: 0 <= i < |ns| ==> ns[i] in m.nodes && m.nodes[ns[i]].cell in m.cells
  {
    && c in CellsOf(m.nodes, ns)
    && c in m.cells && m.cells[c].refCount == 1
    && m.cells[c].destructor == Some(d) && m.cells[c].payload == p
  }

  /**
   * In a Trace, the destructor of a cell whose only owner is its registration
   * is called exactly once, on that cell's payload; no other call happens.
   */
  lemma {:induction false} TraceCallsDestructorOnce(m: Mem, ns: seq<NodeId>)
    requires forall i :: 0 <= i < |ns| ==> ns[i] in m.nodes && m.nodes[ns[i]].cell in m.cells
    requires Distinct(CellsOf(m.nodes, ns))
    ensures forall c, d, p :: multiset(Trace(m, ns))[DestructorCalled(c, d, p)] ==
              (if CallsDestructor(m, ns, c, d, p) then 1 else 0)
    decreases |ns|
  {
    if ns != [] {
      var cs := CellsOf(m.nodes, ns);
      CellsOfTail(m.nodes, ns);
      DistinctTail(cs);
      TraceCallsDestructorOnce(m, ns[1..]);
      StepEventsCounts(m, ns);
      assert multiset(Trace(m, ns)) == multiset(StepEvents(m, ns)) + multiset(Trace(m, ns[1..]));
      forall c, d, p
        ensures multiset(Trace(m, ns))[DestructorCalled(c, d, p)] ==
                  (if CallsDestructor(m, ns, c, d, p) then 1 else 0)
      {
        HeadTail(cs);
        if c == cs[0] {
          assert c in cs && c !in cs[1..];
        } else {
          assert c in cs <==> c in cs[1..];
        }
      }
    }
  }
}
