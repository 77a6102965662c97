/**
 * Object creation (the createdynamic macro) and the scope discipline of the
 * dynamicheap macro: a scope starts with an empty registry, its body creates
 * objects, may take extra ownership of them or attach destructors, and at the
 * end the registry is cleaned up.
 */
module Scope {
  import opened RefCount
  import opened Registry

  /** The outcome of createdynamic: the three new ids, or the process exits. */
  datatype Created = Created(payload: BlockId, cell: CellId, node: NodeId) | OutOfMemory

  /** calloc(1, size): a block of `size` zero bytes. */
  function Zeroed(size: nat): (z: seq<bv8>)
    ensures |z| == size
    ensures forall i :: 0 <= i < size ==> z[i] == 0
  {
    seq(size, _ => 0 as bv8)
  }

  /**
   * createdynamic: allocate a zeroed payload, then a cell owning it with count
   * one and no destructor, then a registry node for the cell in front of
   * `head`. `payloadOk` and `cellOk` say whether the two checked allocations
   * succeed; on a failure the process exits, with whatever was allocated
   * before it still allocated.
   */
  function Create(m: Mem, head: Option<NodeId>, size: nat, payloadOk: bool, cellOk: bool)
    : (out: (Created, Mem))
    ensures out.0.Created? <==> payloadOk && cellOk
    ensures out.1.log == m.log
    ensures !payloadOk ==> out.1 == m
    ensures payloadOk && !cellOk ==>
      && out.1.cells == m.cells && out.1.nodes == m.nodes
      && out.1.blocks == m.blocks[m.next := Zeroed(size)]
    ensures out.0.Created? ==>
      var Created(p, c, n) := out.0;
      && p != c && c != n && p != n
      && out.1.blocks == m.blocks[p := Zeroed(size)]
      && out.1.cells == m.cells[c := Cell(p, None, 1)]
      && out.1.nodes == m.nodes[n := Node(c, head)]
  {
    if !payloadOk then (OutOfMemory, m)
    else
      var p := m.next;
      var m1 := m.(blocks := m.blocks[p := Zeroed(size)], next := m.next + 1);
      if !cellOk then (OutOfMemory, m1)
      else
        var c := m1.next;
        var m2 := m1.(cells := m1.cells[c := Cell(p, None, 1)], next := m1.next + 1);
        var n := m2.next;
        (Created(p, c, n), m2.(nodes := m2.nodes[n := Node(c, head)], next := m2.next + 1))
  }

  /** The three ids of a successful create were not live before, and the heap stays well formed. */
  lemma CreateFresh(m: Mem, head: Option<NodeId>, size: nat, payloadOk: bool, cellOk: bool)
    requires Valid(m)
    ensures Valid(Create(m, head, size, payloadOk, cellOk).1)
    ensures Create(m, head, size, payloadOk, cellOk).0.Created? ==>
      && Create(m, head, size, payloadOk, cellOk).0.payload !in m.blocks
      && Create(m, head, size, payloadOk, cellOk).0.cell !in m.cells
      && Create(m, head, size, payloadOk, cellOk).0.node !in m.nodes
  {
  }

  /**
   * A successful create prepends exactly one node: the new head refers to the
   * new cell and links to the old registry, whose order is unchanged.
   */
  lemma CreatePrepends(m: Mem, head: Option<NodeId>, ns: seq<NodeId>, size: nat)
    requires Valid(m) && Chain(m.nodes, head, ns)
    ensures var (res, m') := Create(m, head, size, true, true);
      && res.Created?
      && Chain(m'.nodes, Some(res.node), [res.node] + ns)
      && CellsOf(m'.nodes, [res.node] + ns) == [res.cell] + CellsOf(m.nodes, ns)
  {
    var (res, m') := Create(m, head, size, true, true);
    var n := res.node;
    var ns' := [n] + ns;
    assert ns'[1..] == ns;
    forall i | 0 <= i < |ns|
      ensures ns[i] in m.nodes && ns[i] in m'.nodes && m'.nodes[ns[i]] == m.nodes[ns[i]]
    {
      assert ns[i] != n;
    }
    LinksFrame(m.nodes, m'.nodes, head, ns);
    assert Distinct(ns') by {
      forall i, j | 0 <= i < j < |ns'|
        ensures ns'[i] != ns'[j]
      {
        if i == 0 {
          assert ns'[j] == ns[j - 1] && ns[j - 1] in m.nodes;
        } else {
          assert ns'[i] == ns[i - 1] && ns'[j] == ns[j - 1];
        }
      }
    }
    assert CellsOf(m'.nodes, ns) == CellsOf(m.nodes, ns);
  }

  /**
   * The objects of one dynamicheap scope, as its registry sees them: `ns` is
   * the registry from `head`, each cell is registered once, and every
   * registered cell is live with one owner for its registration plus
   * `shares[c]` owners taken on by the body (transfer-out increments).
   */
  ghost predicate Tracked(m: Mem, head: Option<NodeId>, ns: seq<NodeId>, shares: multiset<CellId>)
  {
    && Chain(m.nodes, head, ns)
    && Distinct(CellsOf(m.nodes, ns))
    && (forall c :: c in shares ==> c in CellsOf(m.nodes, ns))
    && (forall c :: c in CellsOf(m.nodes, ns) ==> c in m.cells && m.cells[c].refCount == 1 + shares[c])
  }

  /** dynamicheap starts its scope with a NULL registry. */
  lemma EnterScope(m: Mem)
    ensures Tracked(m, None, [], multiset{})
  {
  }

  /** Putting a new node in front of a registry gives a registry one node longer. */
  lemma PushChain(nodes: map<NodeId, Node>, n: NodeId, ns: seq<NodeId>)
    requires n in nodes && Chain(nodes, nodes[n].next, ns) && n !in ns
    ensures Chain(nodes, Some(n), [n] + ns)
    ensures CellsOf(nodes, [n] + ns) == [nodes[n].cell] + CellsOf(nodes, ns)
  {
    assert ([n] + ns)[1..] == ns;
    ConsDistinct(n, ns);
  }

  /** Putting a node for a new, singly owned cell in front of a tracked registry keeps it tracked. */
  lemma TrackedPush(m: Mem, n: NodeId, ns: seq<NodeId>, shares: multiset<CellId>)
    requires n in m.nodes && Tracked(m, m.nodes[n].next, ns, shares)
    requires n !in ns && m.nodes[n].cell !in CellsOf(m.nodes, ns)
    requires m.nodes[n].cell in m.cells && m.cells[m.nodes[n].cell].refCount == 1
    ensures CellsOf(m.nodes, [n] + ns) == [m.nodes[n].cell] + CellsOf(m.nodes, ns)
    ensures Tracked(m, Some(n), [n] + ns, shares)
  {
    var ns' := [n] + ns;
    var c := m.nodes[n].cell;
    var cs := CellsOf(m.nodes, ns);
    assert Chain(m.nodes, Some(n), ns') && CellsOf(m.nodes, ns') == [c] + cs by {
      PushChain(m.nodes, n, ns);
    }
    assert Distinct(CellsOf(m.nodes, ns')) by {
      ConsDistinct(c, cs);
    }
    assert c !in shares;
    forall x | x in [c] + cs
      ensures x in m.cells && m.cells[x].refCount == 1 + shares[x]
    {
    }
  }

  /** Creating an object in a scope registers it with no extra owner. */
  lemma CreateTracked(m: Mem, head: Option<NodeId>, ns: seq<NodeId>,
                      shares: multiset<CellId>, size: nat)
    requires Valid(m) && Tracked(m, head, ns, shares)
    ensures var (res, m') := Create(m, head, size, true, true);
      Tracked(m', Some(res.node), [res.node] + ns, shares)
  {
    var (res, m') := Create(m, head, size, true, true);
    CreateFresh(m, head, size, true, true);
    var cs := CellsOf(m.nodes, ns);
    forall j | 0 <= j < |ns|
      ensures ns[j] in m'.nodes && m'.nodes[ns[j]] == m.nodes[ns[j]]
    {
      assert ns[j] in m.nodes;
    }
    forall c | c in cs
      ensures c in m'.cells && m'.cells[c] == m.cells[c]
    {
      var k :| 0 <= k < |cs| && cs[k] == c;
      assert m.nodes[ns[k]].cell in m.cells;
    }
    TrackedFrame(m, m', head, ns, shares);
    assert res.node !in ns;
    assert res.cell !in cs;
    TrackedPush(m', res.node, ns, shares);
  }

  /** Taking one more owner of a registered cell is recorded as a share. */
  lemma RetainTracked(m: Mem, head: Option<NodeId>, ns: seq<NodeId>,
                      shares: multiset<CellId>, c: CellId)
    requires Tracked(m, head, ns, shares)
    requires c in CellsOf(m.nodes, ns) && c in m.cells && m.cells[c].refCount < INT_MAX
    ensures Tracked(Retain(m, c), head, ns, shares + multiset{c})
  {
    var m' := Retain(m, c);
    assert CellsOf(m'.nodes, ns) == CellsOf(m.nodes, ns);
  }

  /** Giving up an extra owner (a share) of a registered cell leaves it live. */
  lemma ReleaseShareTracked(m: Mem, head: Option<NodeId>, ns: seq<NodeId>,
                            shares: multiset<CellId>, c: CellId)
    requires Tracked(m, head, ns, shares) && c in shares
    ensures c in m.cells
    ensures c in Release(m, c).cells
    ensures Tracked(Release(m, c), head, ns, shares - multiset{c})
  {
    var cs := CellsOf(m.nodes, ns);
    var k :| 0 <= k < |cs| && cs[k] == c;
    assert m.nodes[ns[k]].cell == c;
    var m' := Release(m, c);
    assert CellsOf(m'.nodes, ns) == cs;
  }

  /** Attaching a destructor does not disturb the scope's bookkeeping. */
  lemma SetDestructorTracked(m: Mem, head: Option<NodeId>, ns: seq<NodeId>,
                             shares: multiset<CellId>, c: CellId, d: Option<DestructorId>)
    requires Tracked(m, head, ns, shares) && c in m.cells
    ensures Tracked(SetDestructor(m, c, d), head, ns, shares)
  {
    var m' := SetDestructor(m, c, d);
    assert CellsOf(m'.nodes, ns) == CellsOf(m.nodes, ns);
  }

  /** In a tracked scope each registered cell is registered once, so cleanup may release it. */
  lemma TrackedReleasable(m: Mem, head: Option<NodeId>, ns: seq<NodeId>, shares: multiset<CellId>)
    requires Tracked(m, head, ns, shares)
    ensures Registered(m.nodes, ns)
    ensures Releasable(m.cells, Registrations(m, ns))
    ensures forall c :: c in Registrations(m, ns) ==>
      Registrations(m, ns)[c] == 1 && c in m.cells && m.cells[c].refCount == 1 + shares[c]
  {
    var cs := CellsOf(m.nodes, ns);
    forall c | c in multiset(cs)
      ensures multiset(cs)[c] == 1 && c in m.cells && m.cells[c].refCount == 1 + shares[c]
    {
      var k :| 0 <= k < |cs| && cs[k] == c;
      DistinctCount(cs, k);
    }
  }

  /** An element at a position of a sequence without repetitions occurs exactly once. */
  lemma {:induction false} DistinctCount<T>(s: seq<T>, k: nat)
    requires Distinct(s) && k < |s|
    ensures multiset(s)[s[k]] == 1
    decreases |s|
  {
    HeadTail(s);
    DistinctTail(s);
    if k == 0 {
      assert s[0] !in multiset(s[1..]);
    } else {
      assert s[1..][k - 1] == s[k] != s[0];
      DistinctCount(s[1..], k - 1);
    }
  }

  /**
   * Scope balance, cells: at the end of a scope every registered cell that
   * the body took no extra ownership of is destroyed, every shared one
   * survives with its count lowered by exactly one (its registration), and
   * cells outside the registry are untouched. All registry nodes are freed.
   */
  lemma ScopeExitCells(m: Mem, head: Option<NodeId>, ns: seq<NodeId>, shares: multiset<CellId>)
    requires Tracked(m, head, ns, shares)
    ensures Registered(m.nodes, ns) && Releasable(m.cells, Registrations(m, ns))
    ensures Cleanup(m, ns).nodes == m.nodes - NodeSet(ns)
    ensures Cleanup(m, ns).cells.Keys <= m.cells.Keys
    ensures forall c :: c in CellsOf(m.nodes, ns) ==> (c in Cleanup(m, ns).cells <==> c in shares)
    ensures forall c :: c in shares ==>
      && c in m.cells && c in Cleanup(m, ns).cells
      && Cleanup(m, ns).cells[c] == m.cells[c].(refCount := m.cells[c].refCount - 1)
    ensures forall c :: c in m.cells && c !in CellsOf(m.nodes, ns) ==>
      c in Cleanup(m, ns).cells && Cleanup(m, ns).cells[c] == m.cells[c]
  {
    TrackedReleasable(m, head, ns, shares);
    CleanupFreesRegistry(m, ns);
    CleanupCells(m, ns);
    var cs := CellsOf(m.nodes, ns);
    assert forall c :: c in cs <==> c in multiset(cs);
  }

  /**
   * Scope balance, log: the scope's cleanup only appends to the log, frees
   * each of its nodes once, and destroys each unshared cell exactly once; no
   * other cell is destroyed.
   */
  lemma ScopeExitLog(m: Mem, head: Option<NodeId>, ns: seq<NodeId>, shares: multiset<CellId>)
    requires Tracked(m, head, ns, shares)
    ensures Registered(m.nodes, ns) && Releasable(m.cells, Registrations(m, ns))
    ensures forall i :: 0 <= i < |ns| ==> m.nodes[ns[i]].cell in m.cells
    ensures Cleanup(m, ns).log == m.log + Trace(m, ns)
    ensures forall n :: multiset(Trace(m, ns))[NodeFreed(n)] == (if n in ns then 1 else 0)
    ensures forall c :: multiset(Trace(m, ns))[CellFreed(c)] ==
                          (if c in CellsOf(m.nodes, ns) && c !in shares then 1 else 0)
  {
    TrackedReleasable(m, head, ns, shares);
    CleanupTrace(m, ns);
    TraceFreesEachNodeOnce(m, ns);
    TraceFreesCellOnce(m, ns);
    var cs := CellsOf(m.nodes, ns);
    forall c | c in cs
      ensures m.cells[c].refCount == 1 <==> c !in shares
    {
      var k :| 0 <= k < |cs| && cs[k] == c;
    }
  }

  /**
   * Scope balance, destructors: in the scope's cleanup the destructor of each
   * unshared registered cell that has one is called exactly once, on that
   * cell's payload, and no other destructor call happens.
   */
  lemma ScopeExitDestructors(m: Mem, head: Option<NodeId>, ns: seq<NodeId>, shares: multiset<CellId>)
    requires Tracked(m, head, ns, shares)
    ensures forall i :: 0 <= i < |ns| ==> m.nodes[ns[i]].cell in m.cells
    ensures forall c, d, p :: multiset(Trace(m, ns))[DestructorCalled(c, d, p)] ==
                                (if && c in CellsOf(m.nodes, ns) && c !in shares
                                    && m.cells[c].destructor == Some(d) && m.cells[c].payload == p
                                 then 1 else 0)
  {
    TrackedReleasable(m, head, ns, shares);
    TraceCallsDestructorOnce(m, ns);
    var cs := CellsOf(m.nodes, ns);
    forall c | c in cs
      ensures m.cells[c].refCount == 1 <==> c !in shares
    {
      var k :| 0 <= k < |cs| && cs[k] == c;
    }
  }

  /**
   * Scope balance, payloads: the blocks freed are exactly the payloads of the
   * unshared registered cells.
   */
  lemma ScopeExitPayloads(m: Mem, head: Option<NodeId>, ns: seq<NodeId>, shares: multiset<CellId>)
    requires Tracked(m, head, ns, shares)
    ensures Registered(m.nodes, ns) && Releasable(m.cells, Registrations(m, ns))
    ensures Cleanup(m, ns).blocks ==
      m.blocks - set c | c in CellsOf(m.nodes, ns) && c !in shares :: m.cells[c].payload
  {
    TrackedReleasable(m, head, ns, shares);
    CleanupPayloads(m, ns);
    var cs := CellsOf(m.nodes, ns);
    var regs := Registrations(m, ns);
    assert forall c :: c in cs <==> c in regs;
    assert Destroyed(m.cells, regs) ==
      set c | c in cs && c !in shares :: m.cells[c].payload;
  }

  /** Tracked depends only on the registry's nodes and the cells they refer to. */
  lemma TrackedFrame(m: Mem, m': Mem, head: Option<NodeId>, ns: seq<NodeId>, shares: multiset<CellId>)
    requires Tracked(m, head, ns, shares)
    requires forall j :: 0 <= j < |ns| ==> ns[j] in m'.nodes && m'.nodes[ns[j]] == m.nodes[ns[j]]
    requires forall c :: c in CellsOf(m.nodes, ns) ==> c in m'.cells && m'.cells[c] == m.cells[c]
    ensures CellsOf(m'.nodes, ns) == CellsOf(m.nodes, ns)
    ensures Tracked(m', head, ns, shares)
  {
    var cs := CellsOf(m.nodes, ns);
    LinksFrame(m.nodes, m'.nodes, head, ns);
    assert CellsOf(m'.nodes, ns) == cs;
    forall j | 0 <= j < |ns|
      ensures m'.nodes[ns[j]].cell in m'.cells && m'.cells[m'.nodes[ns[j]].cell] == m.cells[cs[j]]
    {
      assert m'.nodes[ns[j]].cell == cs[j];
    }
  }

  /**
   * Nested dynamicheap scopes: the cleanup of an inner scope, whose nodes and
   * cells are not the outer scope's, leaves the outer scope's registry and
   * cells exactly as they were.
   */
  lemma InnerScopeExit(m: Mem, hi: Option<NodeId>, nsi: seq<NodeId>, shi: multiset<CellId>,
                       ho: Option<NodeId>, nso: seq<NodeId>, sho: multiset<CellId>)
    requires Tracked(m, hi, nsi, shi) && Tracked(m, ho, nso, sho)
    requires forall i, j :: 0 <= i < |nsi| && 0 <= j < |nso| ==> nsi[i] != nso[j]
    requires forall c :: c in CellsOf(m.nodes, nsi) ==> c !in CellsOf(m.nodes, nso)
    ensures Registered(m.nodes, nsi) && Releasable(m.cells, Registrations(m, nsi))
    ensures Tracked(Cleanup(m, nsi), ho, nso, sho)
    ensures CellsOf(Cleanup(m, nsi).nodes, nso) == CellsOf(m.nodes, nso)
    ensures forall j :: 0 <= j < |nso| ==>
                          nso[j] in Cleanup(m, nsi).nodes && Cleanup(m, nsi).nodes[nso[j]] == m.nodes[nso[j]]
    ensures forall c :: c in CellsOf(m.nodes, nso) ==>
                          c in Cleanup(m, nsi).cells && Cleanup(m, nsi).cells[c] == m.cells[c]
  {
    ScopeExitCells(m, hi, nsi, shi);
    var r := Cleanup(m, nsi);
    forall j | 0 <= j < |nso|
      ensures nso[j] in r.nodes && r.nodes[nso[j]] == m.nodes[nso[j]]
    {
      assert nso[j] !in NodeSet(nsi);
    }
    forall c | c in CellsOf(m.nodes, nso)
      ensures c in r.cells && r.cells[c] == m.cells[c]
    {
      var j :| 0 <= j < |nso| && CellsOf(m.nodes, nso)[j] == c;
      assert c in m.cells;
    }
    TrackedFrame(m, r, ho, nso, sho);
  }
}
