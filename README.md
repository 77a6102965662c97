# CPMU: scoped reference counting, modelled in Dafny

CPMU is a single C header, `CPMU/cpmu.h`, that emulates scoped ownership of
heap objects. Each object lives in a block owned by a reference-counted cell,
`struct cmpu_reference_counted`. The cell holds a payload pointer, an optional
destructor and an `int` count. `CMPUDecreaseReferenceCount` decrements the
count. When the count reaches zero it calls the destructor on the payload if
there is one, then frees the payload, then frees the cell.

A `dynamicheap` block opens a scope whose registry is a linked list of
`struct cmpu_allocated_pointers` nodes, newest first, starting from NULL.
`createdynamic` allocates a zeroed payload and a cell with count one and no
destructor, and prepends a node for the cell. When the block falls through,
`CMPULocalCleanup` walks the list. For each node it releases the node's cell
and then frees the node. The header offers no call that raises a count. A
client keeps an object past its scope by writing the cell's `refCount` field
(`CPMU/cpmu.h:16`) one higher before the cleanup runs; the model calls that
write the transfer-out increment.

The project has four modules:

- `RefCount` (`refcount.dfy`): the cell, the heap as a value `Mem`, and
  release as the function `Release`. The heap holds the live cells, payload
  blocks and registry nodes as maps from allocation ids. It also holds an
  event log of destructor calls and frees, and a counter that hands out fresh
  ids.
- `Registry` (`registry.dfy`): the linked registry and the cleanup walk as the
  function `Cleanup`. A registry is a head pointer plus a ghost sequence of its
  nodes. The lemmas say which cells the walk destroys, which blocks and nodes
  it frees, and the exact order of its events.
- `Scope` (`scope.dfy`): `createdynamic` as `Create`, and the scope
  discipline of `dynamicheap` as the invariant `Tracked`. The lemmas prove
  scope balance: at scope exit, unshared objects are destroyed exactly once
  and escaped objects survive. They also prove that an inner scope does not
  disturb an outer one.
- `Cpmu` (`cpmu.dfy`): the class `Heap`, whose fields are updated in place
  the way the C code updates memory. Each method is proved to leave the heap
  in the state the corresponding function computes. `LocalCleanup` is the
  `while` loop of `CMPULocalCleanup`, with the walk's invariant.

Allocation ids are never reused, so a freed id never becomes live again. A
failing allocation is a parameter of `Create`. The process exit that follows
it is the result `OutOfMemory`.

`dynamicheap` runs `CMPULocalCleanup` only when its block falls through
(`CPMU/cpmu.h:69`), so the model claims cleanup only at the end of the block.
`returndynamic` and `fetchdynamic` expand to nothing (`CPMU/cpmu.h:72-73`),
so the model has no receiving side for an object that leaves its scope.

A destructor is called through a function pointer whose body the header does
not contain (`CPMU/cpmu.h:37`). The model logs the call and gives it no other
effect on the heap: it releases, frees and allocates nothing. Every statement
below about cells, blocks or events outside the released cell holds for
destructors of that kind.

## Model

| member | source | states |
|---|---|---|
| RefCount.Release | CPMU/cpmu.h:28-47 | Release lowers the cell's count by exactly one and, with a destructor that releases nothing, leaves every other cell and all registry nodes unchanged. The cell survives exactly when the decremented count is nonzero; then no block is freed and nothing is logged. Otherwise the payload block and the cell are freed, and the log grows by the teardown: destructor call if any, then payload free, then cell free. |
| RefCount.Retain | CPMU/cpmu.h:16 | The transfer-out increment is client code writing the `refCount` field; the header's `returndynamic` and `fetchdynamic` (lines 72-73) do nothing. It raises one live cell's count by exactly one, below INT_MAX, and changes no other cell, block, node or log entry. |
| RefCount.SetDestructor | CPMU/cpmu.h:13-17 | Storing a destructor into a cell's field changes only that field of that cell. |
| RefCount.ReleaseValid | CPMU/cpmu.h:28-47 | Release keeps the heap well formed: live ids were handed out, and live counts are between 1 and INT_MAX. |
| RefCount.RetainValid | CPMU/cpmu.h:16 | The increment, allowed only below INT_MAX, keeps the heap well formed. |
| RefCount.SetDestructorValid | CPMU/cpmu.h:13-17 | Attaching a destructor keeps the heap well formed. |
| RefCount.RetainThenRelease | CPMU/cpmu.h:28-32 | An increment followed by a release restores the heap exactly, so a cell that escapes a scope is back at its prior count after the scope's decrement. |
| RefCount.SharedCellReleasedTwice | CPMU/cpmu.h:32-46 | A cell with count two survives the first release without any free or log event. The second release destroys it: teardown is appended to the log and its payload block is freed. |
| RefCount.TeardownOrder | CPMU/cpmu.h:35-45 | A destruction logs three events with a destructor and two without one. The destructor call on the payload comes first, the payload free second to last, and the cell free last. |
| Registry.CellsOf | CPMU/cpmu.h:21-24 | The cells a registry refers to, one per node, in list order. |
| Registry.LinksUnique | CPMU/cpmu.h:21-24 | Following `next` from a head determines the node sequence uniquely. |
| Registry.LinksFrame | CPMU/cpmu.h:21-24 | Whether `next` links lead from a head through a node sequence depends only on those nodes' entries. Changing other nodes, or freeing them, keeps the list intact. |
| Registry.StepNodes | CPMU/cpmu.h:55-60 | One iteration removes exactly the head node from the live nodes. The remaining registry nodes stay live with the same cell and `next`. |
| Registry.CellsOfFrame | CPMU/cpmu.h:21-24 | The cells a registry refers to depend only on the registry's own node entries. |
| Registry.StepKeepsRest | CPMU/cpmu.h:52-61 | In a releasable registry the head's cell is live. After releasing it and freeing the head, the remaining nodes are live and refer to the same cells. The registrations split into the head's cell plus the rest, and the rest stays releasable. |
| Registry.StepKeepsChain | CPMU/cpmu.h:55-60 | Freeing the head after reading its `next` leaves `next` heading a well-formed list of the remaining nodes. |
| Registry.Cleanup | CPMU/cpmu.h:49-62 | The cleanup walk allocates nothing: the next fresh id is unchanged. |
| Registry.CleanupFreesRegistry | CPMU/cpmu.h:49-62 | Cleanup frees every node of the registry, whatever its cell's count, and no other node. |
| Registry.SettledStep | CPMU/cpmu.h:32-45 | Releasing one registration of a cell and then settling the remaining registrations settles them all. The counts subtract, and a cell is freed once its last owner is released. |
| Registry.CleanupCells | CPMU/cpmu.h:52-53 | Cleanup releases each registered cell once per registration. A registered cell survives exactly when it had more owners than registrations, and then keeps its payload and destructor with its count lowered by its registrations. Unregistered cells are untouched. |
| Registry.CleanupPayloads | CPMU/cpmu.h:52-53 | Cleanup frees exactly the payloads of the registered cells whose every owner was a registration. |
| Registry.DestroyedStep | CPMU/cpmu.h:32-42 | The payloads destroyed by a cleanup are those destroyed by the rest of the walk plus the head cell's payload when that release removes its last owner. |
| Registry.CleanupAppends | CPMU/cpmu.h:49-62 | Cleanup never rewrites or drops a log entry. It appends, in order, the events of its iterations. |
| Registry.CleanupFreesNodesInOrder | CPMU/cpmu.h:52-61 | The node frees that cleanup appends to the log are the registry's nodes, each once, in list order: head first, which is newest first. |
| Registry.StepEventsFreeHead | CPMU/cpmu.h:53-60 | One iteration appends its cell's teardown, if the cell dies, followed by the free of exactly the head node. |
| Registry.CleanupTrace | CPMU/cpmu.h:49-62 | For a registry that refers to each cell once, the appended log is exactly the trace. For each node in list order: the teardown of its cell if that cell had one owner, then the node's free. |
| Registry.TraceFrame | CPMU/cpmu.h:49-62 | The trace of a cleanup depends only on the registry's nodes and the cells they refer to. |
| Registry.StepEventsCounts | CPMU/cpmu.h:53-60 | One iteration frees only its own node. It frees a cell and calls a destructor only for its own cell, and only when that cell had one owner. |
| Registry.TeardownCounts | CPMU/cpmu.h:35-45 | A teardown frees its cell once, calls the cell's destructor once on its payload when one is set, and frees no node. |
| Registry.TraceFreesEachNodeOnce | CPMU/cpmu.h:59-60 | In the cleanup trace, every registry node is freed exactly once and no other node is freed. |
| Registry.TraceFreesCellOnce | CPMU/cpmu.h:44-45 | In the cleanup trace, a registered cell with one owner is freed exactly once, and no other cell is freed. |
| Registry.TraceCallsDestructorOnce | CPMU/cpmu.h:36-38 | In the cleanup trace, each dying registered cell's destructor is called exactly once, on that cell's payload. No other destructor call happens, since destructors are taken to release nothing. |
| Registry.WalkStart | CPMU/cpmu.h:52 | On a well-formed, releasable registry the loop invariant holds at entry, with the cursor at the head and the whole registry still to walk. |
| Registry.WalkStep | CPMU/cpmu.h:52-61 | The loop invariant of the walk is kept: the cursor is the first remaining node, its cell is live, and after one iteration `next` heads the rest with the same final outcome. |
| Registry.WalkDone | CPMU/cpmu.h:52 | When the cursor is NULL, the heap is the outcome of the whole cleanup. |
| Scope.Zeroed | CPMU/cpmu.h:79 | `calloc` gives a block of the requested size whose every byte is zero. |
| Scope.Create | CPMU/cpmu.h:78-91 | Create succeeds exactly when both checked allocations succeed. The log never changes. If the payload allocation fails, nothing changes. If the cell allocation fails, only the zeroed payload is allocated. On success there are three distinct new ids: a zeroed payload, a cell with count 1 and no destructor, and a node pointing at the cell whose `next` is the old head. |
| Scope.CreateFresh | CPMU/cpmu.h:79-88 | The ids a create hands out were not live, and the heap stays well formed. |
| Scope.CreatePrepends | CPMU/cpmu.h:86-91 | A create prepends exactly one node. The new head refers to the new cell and links to the old registry, whose order and cells are unchanged. |
| Scope.EnterScope | CPMU/cpmu.h:66-67 | A scope starting from a NULL registry satisfies the scope invariant with no objects. |
| Scope.PushChain | CPMU/cpmu.h:86-91 | Putting a new node that links to the old head in front of a registry gives a well-formed registry one node longer. Its cells are the new node's cell followed by the old cells. |
| Scope.TrackedPush | CPMU/cpmu.h:86-91 | Prepending a node for a new cell that has one owner keeps a scope tracked, with no new share. |
| Scope.CreateTracked | CPMU/cpmu.h:78-91 | Creating an object in a scope keeps the scope invariant, with the new cell registered once and no extra owner. |
| Scope.RetainTracked | CPMU/cpmu.h:16 | The transfer-out increment of a registered cell keeps the invariant, recorded as one more share. |
| Scope.ReleaseShareTracked | CPMU/cpmu.h:28-32 | Releasing a shared registered cell leaves it live and keeps the invariant with one share fewer. |
| Scope.SetDestructorTracked | CPMU/cpmu.h:85 | Attaching a destructor to a cell keeps the scope invariant. |
| Scope.TrackedReleasable | CPMU/cpmu.h:66-70 | In a tracked scope every registered cell is registered once, is live, and has one owner more than its shares, so the cleanup can release it. |
| Scope.ScopeExitCells | CPMU/cpmu.h:66-70 | At scope exit every registry node is freed, and each registered cell survives exactly when it was shared. A shared cell keeps its payload and destructor with its count lowered by one. Cells outside the scope are untouched when destructors release nothing. |
| Scope.ScopeExitLog | CPMU/cpmu.h:66-70 | The scope's cleanup only appends to the log. It frees each of its nodes once, and frees each unshared registered cell exactly once and no other cell. |
| Scope.ScopeExitDestructors | CPMU/cpmu.h:66-70 | At scope exit, each unshared registered cell with a destructor has it called exactly once, on its own payload. No other destructor call happens, since destructors are taken to release nothing. |
| Scope.ScopeExitPayloads | CPMU/cpmu.h:66-70 | At scope exit the blocks freed are exactly the payloads of the unshared registered cells, given destructors that free nothing. |
| Scope.TrackedFrame | CPMU/cpmu.h:66-70 | The scope invariant depends only on the scope's nodes and the cells they refer to. |
| Scope.InnerScopeExit | CPMU/cpmu.h:66-70 | For nested scopes, cleaning up an inner scope whose nodes and cells are not the outer scope's leaves the outer scope's registry nodes, its cells (count, payload and destructor) and its invariant exactly as they were, given destructors that release nothing. |
| Cpmu.Heap.DecreaseReferenceCount | CPMU/cpmu.h:28-47 | The in-place decrement and frees leave the heap well formed and equal to `Release` of the old heap. |
| Cpmu.Heap.LocalCleanup | CPMU/cpmu.h:49-62 | The `while` loop terminates on a well-formed registry and leaves the heap equal to `Cleanup` of the old heap. |
| Cpmu.Heap.FreeNode | CPMU/cpmu.h:56-60 | Freeing a node in place removes exactly that node and logs its free, as `FreeNode` computes. |
| Cpmu.Heap.CreateDynamic | CPMU/cpmu.h:78-91 | The in-place allocations leave the heap equal to what `Create` computes. The returned head is the new node on success and the old head otherwise. |
| Cpmu.Heap.IncreaseReferenceCount | CPMU/cpmu.h:16 | The client's in-place write of a count one higher leaves the heap equal to `Retain` of the old heap. |
| Cpmu.Heap.SetDestructor | CPMU/cpmu.h:13-17 | Writing the destructor field leaves the heap equal to `SetDestructor` of the old heap. |

## Left out

- The `puts("deleting object")` debug line (`CPMU/cpmu.h:33`) is I/O. It is not logged, because the destructor call and the frees already mark a destruction.
- Real `malloc`, `calloc` and `free`, addresses and their reuse, `sizeof` and memory layout. Allocation hands out fresh ids from a counter, and freeing removes the id. The payload size is a parameter of `Create`.
- `exit(-1)` on a failed allocation (`CPMU/cpmu.h:80`, `82`) is the result `OutOfMemory`. The model does not describe process termination.
- Destructor bodies (`CPMU/cpmu.h:37`) are function pointers outside the header. The model records that a destructor was called, on which cell and which payload, and assumes the call changes no cell, block, node or log entry. A destructor that itself calls `CMPUDecreaseReferenceCount` on a nested cell, or frees memory, is not modelled. `Release`, `Cleanup`, `ScopeExitCells`, `ScopeExitDestructors`, `ScopeExitPayloads`, `TraceCallsDestructorOnce` and `InnerScopeExit` hold only under that assumption.
- `returndynamic` and `fetchdynamic` are empty (`CPMU/cpmu.h:72-73`). No receiving side of the ownership hand-off is modelled. An escaped cell's later release is `Release` applied by the client.
- Early returns and jumps out of a `dynamicheap` block, after which the C code runs no cleanup. The scope lemmas describe only a block that falls through.
- The `dynamicheap` body itself is arbitrary client code. The model captures its effect through the scope invariant `Tracked` and the lemmas about create, increment, destructor attachment and scope exit, not as a method.
- The unchecked `malloc` of the registry node (`CPMU/cpmu.h:88`) always succeeds in the model. In C a failure there dereferences NULL, which has no defined outcome to model.
- Preprocessor naming (`_cmpu_ref_##VAR_NAME`), the include guard and the typed `TYPE*` variable the macro declares.
- Concurrency: the count is a plain non-atomic `int`, and the model is sequential.
- Registry.CleanupTrace: the exact event sequence is stated only for a registry that refers to each cell once, which is what a scope built by `createdynamic` is. With repeated cells, the counts and destroyed cells are still given by `CleanupCells` and `CleanupPayloads`.
- RefCount.Retain: requires the count to be below INT_MAX, so it does not model the signed overflow that C leaves undefined.
- Registry.Cleanup: its own contract states only that no id is allocated. Its effects are stated by the cleanup lemmas listed above.
