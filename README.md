# OrbitalAGENT core, modelled in Dafny

This project models the decision-making core of OrbitalAGENT, a platform that runs swarms of agents on shared nodes:

- **Resource allocator.** Nodes with per-kind totals and allocated amounts (CPU, memory, GPU, storage). Requests are placed by fitness-ranked bin packing. The allocator also handles release, capacity updates and utilisation.
- **Agent lifecycle manager.** Heartbeats, the retry counter and a monitor tick that runs three steps in order: health check, cleanup, recovery. A failing agent has its tasks redistributed.
- **Swarm orchestrator.** Integer capacity and load per node. A task is placed greedily on the nodes with the most free capacity. Loads are released afterwards.
- **Policy enforcer.** Policies whose conditions are JSONPath, regex or custom checks. It validates policies at load time, compiles their JSONPath expressions, and evaluates a request to an approval and a list of violations.
- **DAG scheduler.** Tasks with dependencies form a directed graph. A validation step either finds a topological execution order or reports a cycle. A query lists every task that has no predecessor.
- **Configuration manager.** Configuration files are merged in order. `${NAME}` placeholders are replaced from the environment. Values are looked up by a dotted path with a default.
- **Merkle validator.** The root of a list of transactions. Each level hashes pairs of entries with SHA-256 and writes the digest as upper-case hex without dashes.
- **API gateway.** A per-client request counter, the route table, and the headers forwarded to a backend.

Each core file becomes one module, in the form its source takes:

- **Classes for state changed in place.** `ResourceAllocator`, `AgentLifecycleManager`, `SwarmOrchestrator`, `PolicyEnforcer`, `DAGScheduler`, `ConfigManager`, `RateLimiter` and `APIGateway` are classes. Their methods have `modifies` clauses. Each loop is proved against a specification function of the old state.
- **Pure functions and lemmas for the logic.** The properties of the specification functions are proved as lemmas.
- **Insertion order is explicit.** Python dictionaries keep insertion order, and the tie order of a stable `sorted` depends on it. Where that order can be observed, the model keeps the dictionary's keys as a sequence beside the map: the allocator's node table, each node's `total` dict (whose order decides which failing kind `get_node_utilization` reports), and every requirements dict.
- **Shared modules.** `Wrappers` holds `Option` and `Result`. `StableSort` models Python's stable `sorted(..., reverse=True)` on (id, key) pairs.

The Merkle code hashes an odd last entry of a level on its own rather than duplicating it. A single transaction is its own root, unhashed, because the loop only runs while more than one entry remains. An empty list gives the empty string. The model keeps all three behaviours.

Fetching a configuration value through a string raises `TypeError`, because `get` catches only `KeyError`. The model returns that as an error.

With a rate limit of zero or less, the first call of a fresh client is still allowed. After that, every call is refused.

## Model

| member | source | states |
|---|---|---|
| StableSort.SortDescFacts | src/agent_management/resource_allocator.py:58-62 | sorting by key in reverse is a permutation, gives non-increasing keys, and keeps the input order among equal keys (stability) |
| StableSort.SortDescKeeps | src/agent_management/swarm_engine.py:35-37 | sorting keeps the length and exactly the same elements |
| StableSort.SortDescIds | src/agent_management/swarm_engine.py:35-37 | sorting items with distinct ids keeps the ids distinct |
| ResourceAllocation.FreshNode | src/agent_management/resource_allocator.py:39-43 | a registered node has the given totals and an allocation of 0.0 for exactly the kinds it has |
| ResourceAllocation.FreshNodeIsIdle | src/agent_management/resource_allocator.py:37-43 | a freshly registered node with positive totals is well formed, within capacity and has nothing allocated |
| ResourceAllocation.FirstUntracked | src/agent_management/resource_allocator.py:81-85 | finds a requested kind that the node totals but does not track in `allocated` (the KeyError of fitness) exactly when one exists |
| ResourceAllocation.FitnessRange | src/agent_management/resource_allocator.py:80-90 | fitness is -1 exactly when some requested kind has less free capacity than requested; otherwise it lies in (0, 1] |
| ResourceAllocation.Keyed | src/agent_management/resource_allocator.py:58-62 | the sort keys are each node's fitness in registration order; an error of any node's fitness is the error of the whole sort |
| ResourceAllocation.RankingOrder | src/agent_management/resource_allocator.py:58-62 | nodes are visited by descending fitness, as a permutation of the keyed nodes, with ties in registration order |
| ResourceAllocation.TakeFromBounded | src/agent_management/resource_allocator.py:96-102 | taking from a node never raises an allocated amount above the kind's total and changes no totals |
| ResourceAllocation.TakeFromMonotone | src/agent_management/resource_allocator.py:96-102 | taking positive amounts only increases allocated amounts, also on the early `None` return |
| ResourceAllocation.TakeFromWithinCapacity | src/agent_management/resource_allocator.py:92-105 | a node within capacity stays within capacity after `_allocate_from_node` |
| ResourceAllocation.TakeFromGrantedFrame | src/agent_management/resource_allocator.py:92-105 | a grant covers exactly the requested kinds, and every other kind of the node is unchanged |
| ResourceAllocation.TakeFromGrantedAt | src/agent_management/resource_allocator.py:97-102 | each granted amount is min(requested, free), positive and at most the request, and is added to the node's allocation |
| ResourceAllocation.TakeFromWellFormed | src/agent_management/resource_allocator.py:92-105 | taking from a node keeps it well formed |
| ResourceAllocation.Released | src/agent_management/resource_allocator.py:113-117 | release lowers each listed tracked kind by the amount, never below 0.0; other kinds and totals are unchanged |
| ResourceAllocation.ReleasedKeepsInvariants | src/agent_management/resource_allocator.py:107-118 | release keeps a node well formed, and within capacity when the released amounts are non-negative |
| ResourceAllocation.ReleaseUndoesStep | src/agent_management/resource_allocator.py:92-117 | releasing exactly what `_allocate_from_node` granted restores the node |
| ResourceAllocation.Updated | src/agent_management/resource_allocator.py:126-135 | the new totals are the new map plus every old kind it omits; the allocation is kept |
| ResourceAllocation.UpdatedKeepsWellFormed | src/agent_management/resource_allocator.py:120-135 | updating with positive totals keeps a node well formed |
| ResourceAllocation.OmittedHas | src/agent_management/resource_allocator.py:126-129 | the update loop appends exactly the old kinds that the new totals lack |
| ResourceAllocation.UpdatedKeyOrder | src/agent_management/resource_allocator.py:126-135 | the merged totals' key order, the new keys in their order followed by the omitted old kinds in their old order, lists every merged key exactly once |
| ResourceAllocation.MergedPrefixIs | src/agent_management/resource_allocator.py:126-129 | after visiting some old kinds, the dict holds the new totals plus those visited kinds it lacked, at their old totals |
| ResourceAllocation.MergeTotals | src/agent_management/resource_allocator.py:126-129 | the loop over the old totals, in their order, yields the old totals overridden by the new ones, with the omitted kinds appended in their old order |
| ResourceAllocation.UpdateCanOvercommit | src/agent_management/resource_allocator.py:131-135 | shrinking a total below the allocated amount is accepted and leaves the node over capacity |
| ResourceAllocation.ShrinkShape | src/agent_management/resource_allocator.py:68-71 | the shrunk remainder has distinct kinds, drawn from the old remainder, each more than 0.001 |
| ResourceAllocation.ShrinkAt | src/agent_management/resource_allocator.py:68-71 | a kind stays outstanding exactly when its amount minus the grant exceeds 0.001, and then it holds that difference |
| ResourceAllocation.ShrinkRemaining | src/agent_management/resource_allocator.py:68-71 | the loop over the remainder computes the corrected shrink |
| ResourceAllocation.PackFromOutcome | src/agent_management/resource_allocator.py:64-76 | on success every requested kind receives between its amount minus 0.001 and its amount; on failure the reported remainder is non-empty, positive and made of requested kinds |
| ResourceAllocation.PackFromWithinCapacity | src/agent_management/resource_allocator.py:64-76 | packing keeps every node within capacity and changes no totals |
| ResourceAllocation.PackFromWellFormed | src/agent_management/resource_allocator.py:64-76 | packing keeps every node well formed |
| ResourceAllocation.PackFromKeys | src/agent_management/resource_allocator.py:64-76 | packing neither adds nor removes nodes and changes no node's totals |
| ResourceAllocation.BinPackOutcome | src/agent_management/resource_allocator.py:54-78 | bin packing meets every requested kind within the 0.001 tolerance, or fails naming a non-empty positive remainder of requested kinds |
| ResourceAllocation.BinPackKeepsInvariants | src/agent_management/resource_allocator.py:54-78 | bin packing keeps the node set, every node's totals, capacity bounds and well-formedness |
| ResourceAllocation.FailedAllocationKeepsPartialGrant | src/agent_management/resource_allocator.py:64-76 | a request larger than the whole pool fails but leaves the node's partial grant committed (allocation is not atomic) |
| ResourceAllocation.ShrinkAsWrittenNeverEmpties | src/agent_management/resource_allocator.py:68-71 | as written, the remainder loop raises exactly when it would delete a kind, so it can never drop one |
| ResourceAllocation.SatisfiedKindRaisesAsWritten | src/agent_management/resource_allocator.py:68-71 | satisfying a one-kind request raises "dictionary changed size during iteration" as written, where the corrected shrink empties the remainder |
| ResourceAllocation.FirstUnmeasurable | src/agent_management/resource_allocator.py:143-146 | the position where the comprehension stops: every earlier kind's ratio can be formed and the kind there is untracked (KeyError) or has a zero total (ZeroDivisionError) |
| ResourceAllocation.RatioError | src/agent_management/resource_allocator.py:144 | `allocated[rt]` is read before the division, so an untracked kind raises KeyError even when its total is zero |
| ResourceAllocation.Utilization | src/agent_management/resource_allocator.py:143-146 | utilisation is defined exactly when every totalled kind is tracked with a non-zero total, and then is allocated / total per kind; otherwise the error names the first failing kind in the totals' insertion order |
| ResourceAllocation.UpdatedKindsReportedFirst | src/agent_management/resource_allocator.py:120-146 | after an update the new kinds come first in the totals' order, so a new untracked GPU is reported before an old zero CPU total, and before a later new Memory |
| ResourceAllocation.UtilizationIsFraction | src/agent_management/resource_allocator.py:137-146 | a well-formed node within capacity has every utilisation in [0, 1] |
| ResourceAllocation.ResourceAllocator.constructor | src/agent_management/resource_allocator.py:24-28 | starts with no nodes and the given strategy name |
| ResourceAllocation.ResourceAllocator.RegisterNode | src/agent_management/resource_allocator.py:37-43 | registering stores a fresh node and the key order of its totals, replacing any node with that id; a new id is appended to the registration order |
| ResourceAllocation.ResourceAllocator.AllocateResources | src/agent_management/resource_allocator.py:46-52 | "bin_packing" runs bin packing; "spread" and "random" have no implementation; any other name is an unknown strategy, with nothing changed |
| ResourceAllocation.ResourceAllocator.BinPacking | src/agent_management/resource_allocator.py:54-78 | the method's new node table and result are those of the bin-packing specification |
| ResourceAllocation.ResourceAllocator.PackRanked | src/agent_management/resource_allocator.py:64-76 | the loop over the ranked nodes computes the packing specification |
| ResourceAllocation.ResourceAllocator.AllocateFromNode | src/agent_management/resource_allocator.py:92-105 | the in-place loop over one node computes the take-from specification |
| ResourceAllocation.ResourceAllocator.ReleaseResources | src/agent_management/resource_allocator.py:107-118 | an unknown node is a no-op; otherwise the node becomes its released state |
| ResourceAllocation.ResourceAllocator.UpdateNodeResources | src/agent_management/resource_allocator.py:120-135 | an unknown node is a no-op; otherwise the node's totals are replaced by the merged map, which is also returned, and its key order becomes the new keys followed by the omitted old kinds |
| ResourceAllocation.ResourceAllocator.GetNodeUtilization | src/agent_management/resource_allocator.py:137-146 | an unknown node is an error, otherwise the node's utilisation, with a failing kind chosen in the order its totals were inserted |
| ResourceAllocation.ResourceAllocator.SetAllocationStrategy | src/agent_management/resource_allocator.py:148-152 | one of the three strategy names is accepted; any other is refused and the strategy is unchanged |
| AgentLifecycle.Checked | src/agent_management/agent_lifecycle.py:66-72 | a heartbeat older than the threshold adds exactly one retry; an agent stays active exactly when it was active and its retries stay at most 2 |
| AgentLifecycle.FewRetriesKeepActive | src/agent_management/agent_lifecycle.py:71-72 | an active agent whose next retry count is at most 2 stays active |
| AgentLifecycle.FailingIn | src/agent_management/agent_lifecycle.py:66-73 | the agents notified by a pass are exactly the listed agents that fail |
| AgentLifecycle.HealthFromEffect | src/agent_management/agent_lifecycle.py:61-73 | a check raises exactly when some failing agent's hook raises; otherwise every agent is checked and the failing ones are notified in table order |
| AgentLifecycle.FailingInFrame | src/agent_management/agent_lifecycle.py:66-73 | which agents fail depends only on those agents' own states |
| AgentLifecycle.InactiveIds | src/agent_management/agent_lifecycle.py:77-80 | the ids collected for cleanup are exactly the inactive agents |
| AgentLifecycle.Drop | src/agent_management/agent_lifecycle.py:82-83 | deleting ids keeps exactly the others, in order |
| AgentLifecycle.DropTwice | src/agent_management/agent_lifecycle.py:82-83 | deleting two id sets in turn is deleting their union |
| AgentLifecycle.InactiveIn | src/agent_management/agent_lifecycle.py:77-80 | the ordered cleanup list holds exactly the inactive agents |
| AgentLifecycle.Cleaned | src/agent_management/agent_lifecycle.py:75-84 | cleanup removes exactly the inactive agents, leaves the rest unchanged and all active, and keeps the table consistent |
| AgentLifecycle.Recovered | src/agent_management/agent_lifecycle.py:86-97 | an inactive agent with at most 5 retries is reactivated with its retries reset; every other agent is unchanged |
| AgentLifecycle.RecoverableIn | src/agent_management/agent_lifecycle.py:88-91 | the recovery list holds exactly the recoverable agents |
| AgentLifecycle.RecoveryAfterCleanupIsIdle | src/agent_management/agent_lifecycle.py:55-56 | recovery run after cleanup finds nothing to recover |
| AgentLifecycle.TickEffect | src/agent_management/agent_lifecycle.py:53-58 | a tick raises exactly when a failing agent's hook raises; otherwise the surviving agents are exactly those still active after the check, all notified agents are gone, and each failing agent is notified once |
| AgentLifecycle.TickShrinks | src/agent_management/agent_lifecycle.py:53-58 | a tick never adds an agent and notifies only agents it had |
| AgentLifecycle.HealthNotifiedWithin | src/agent_management/agent_lifecycle.py:66-73 | a health check notifies only checked agents |
| AgentLifecycle.RunNotifiedWithin | src/agent_management/agent_lifecycle.py:51-59 | over any run of ticks, only agents of the initial table are notified |
| AgentLifecycle.RedistributionAtMostOnce | src/agent_management/agent_lifecycle.py:51-59 | when no hook raises, no agent's tasks are redistributed twice over any run of ticks |
| AgentLifecycle.RaisingHookRepeatsRedistribution | src/agent_management/agent_lifecycle.py:53-73 | when the hook raises, the failed agent survives the tick and is redistributed again on the next one |
| AgentLifecycle.QuietPass | src/agent_management/agent_lifecycle.py:66-72 | a silent agent below the retry limit only gains a retry |
| AgentLifecycle.FailingPass | src/agent_management/agent_lifecycle.py:66-84 | a silent agent at the retry limit is notified and then removed by cleanup |
| AgentLifecycle.SilentAgentIsRedistributedOnce | src/agent_management/agent_lifecycle.py:51-84 | an agent that stops sending heartbeats is redistributed exactly once, on its third missed check, and leaves the table |
| AgentLifecycle.AgentLifecycleManager.constructor | src/agent_management/agent_lifecycle.py:19-25 | starts with no agents and the given check interval |
| AgentLifecycle.AgentLifecycleManager.RegisterAgent | src/agent_management/agent_lifecycle.py:27-32 | stores a new active status with zero retries and the current time, replacing any earlier one |
| AgentLifecycle.AgentLifecycleManager.UpdateHeartbeat | src/agent_management/agent_lifecycle.py:35-40 | a known agent gets the new time and metrics and zero retries; an unknown one is ignored |
| AgentLifecycle.AgentLifecycleManager.CheckAgentHealth | src/agent_management/agent_lifecycle.py:61-73 | the threshold is now minus three check intervals, and the new table, notifications and raise are those of the health specification |
| AgentLifecycle.AgentLifecycleManager.CheckEach | src/agent_management/agent_lifecycle.py:66-73 | the in-place loop over the agents computes the health specification |
| AgentLifecycle.AgentLifecycleManager.CleanupInactiveAgents | src/agent_management/agent_lifecycle.py:75-84 | the new table is the cleaned table |
| AgentLifecycle.AgentLifecycleManager.DeleteEach | src/agent_management/agent_lifecycle.py:82-83 | deleting one by one removes exactly the listed agents |
| AgentLifecycle.AgentLifecycleManager.RecoverFailedAgents | src/agent_management/agent_lifecycle.py:86-97 | the new table is the recovered table |
| AgentLifecycle.AgentLifecycleManager.MonitorTick | src/agent_management/agent_lifecycle.py:53-58 | one monitor iteration: check, then cleanup, then recovery, and a raise skips the rest |
| SwarmEngine.TopologyIds | src/agent_management/swarm_engine.py:27 | one id per topology entry |
| SwarmEngine.Seeded | src/agent_management/swarm_engine.py:27 | the loaded node table has exactly the topology's ids, all with zero load |
| SwarmEngine.SeededCapacity | src/agent_management/swarm_engine.py:27 | for a repeated id the last entry's capacity wins |
| SwarmEngine.Ranked | src/agent_management/swarm_engine.py:35-37 | the sorted order lists only known nodes, one per node |
| SwarmEngine.TiedIds | src/agent_management/swarm_engine.py:35-37 | the nodes tied at a free capacity are the sorted items with that key |
| SwarmEngine.RankedFacts | src/agent_management/swarm_engine.py:35-37 | the ranking is a duplicate-free reordering of the nodes by non-increasing free capacity, with ties in table order |
| SwarmEngine.Place | src/agent_management/swarm_engine.py:42-51 | placement changes only loads |
| SwarmEngine.PlaceShape | src/agent_management/swarm_engine.py:42-51 | the allocated nodes are a duplicate-free subsequence of the ranking, and other nodes are unchanged |
| SwarmEngine.PlaceRemainder | src/agent_management/swarm_engine.py:42-51 | for a non-negative requirement the remainder never goes negative |
| SwarmEngine.PlaceKeepsLoaded | src/agent_management/swarm_engine.py:42-51 | for a non-negative requirement placement keeps every load between 0 and the capacity |
| SwarmEngine.PlaceAccounts | src/agent_management/swarm_engine.py:42-51 | the load added over the allocated nodes equals the requirement minus what remains |
| SwarmEngine.PlaceFillsAllButLast | src/agent_management/swarm_engine.py:48-51 | every allocated node except possibly the last is filled to capacity |
| SwarmEngine.PositiveFree | src/agent_management/swarm_engine.py:48 | the total free capacity of nodes with room is never negative |
| SwarmEngine.PositiveFreeFrame | src/agent_management/swarm_engine.py:48 | it depends only on the nodes considered |
| SwarmEngine.PlaceShortfall | src/agent_management/swarm_engine.py:42-54 | something remains exactly when the free capacity is below the requirement, and then every node with room is filled |
| SwarmEngine.SubsequenceDescending | src/agent_management/swarm_engine.py:35-45 | the allocated nodes appear in non-increasing order of free capacity |
| SwarmEngine.AllocationShortfall | src/agent_management/swarm_engine.py:33-56 | allocation fails exactly when the swarm's total free capacity is below the requirement, and a failure leaves every node with room filled |
| SwarmEngine.AllocationSucceeds | src/agent_management/swarm_engine.py:33-56 | a successful allocation of a non-negative requirement adds exactly the requirement in load over the returned nodes, which fill in ranking order |
| SwarmEngine.AllocationKeepsLoaded | src/agent_management/swarm_engine.py:33-56 | allocating a non-negative requirement never loads a node beyond its capacity or below zero |
| SwarmEngine.NegativeRequirementUnloads | src/agent_management/swarm_engine.py:40-45 | a negative requirement is accepted: it fits the first node, whose load drops below zero |
| SwarmEngine.SetFreeRemove | src/agent_management/swarm_engine.py:48 | the free capacity of a node set splits off one node |
| SwarmEngine.PositiveFreeSet | src/agent_management/swarm_engine.py:48 | the free capacity along an order is that of its node set |
| SwarmEngine.PositiveFreeOrder | src/agent_management/swarm_engine.py:53-54 | whether allocation fails does not depend on the node order |
| SwarmEngine.Released | src/agent_management/swarm_engine.py:61-63 | listed known nodes get zero load; everything else is unchanged |
| SwarmEngine.ReleaseUndoesAllocation | src/agent_management/swarm_engine.py:33-63 | releasing the nodes of a successful allocation on an idle swarm restores it |
| SwarmEngine.ReleaseAsWrittenNeverFrees | src/agent_management/swarm_engine.py:60 | as written, release of a loaded node raises, where the intended release frees it |
| SwarmEngine.SwarmOrchestrator.constructor | src/agent_management/swarm_engine.py:17-20 | the orchestrator starts from the loaded topology |
| SwarmEngine.SwarmOrchestrator.LoadTopology | src/agent_management/swarm_engine.py:22-27 | the node table becomes the topology's |
| SwarmEngine.SwarmOrchestrator.AllocateTask | src/agent_management/swarm_engine.py:33-56 | a task without "requirements" fails with nothing changed; otherwise the new loads and the result are those of the allocation specification |
| SwarmEngine.SwarmOrchestrator.PlaceEach | src/agent_management/swarm_engine.py:42-54 | the in-place loop over the ranking computes the placement |
| SwarmEngine.SwarmOrchestrator.ReleaseResources | src/agent_management/swarm_engine.py:58-63 | the node table becomes the released table |
| PolicyEnforcement.EvaluateCondition | src/compliance_engine/policy_enforcer.py:79-94 | a condition holds exactly when its evaluation returns true without an error; every error counts as false |
| PolicyEnforcement.ConditionTypes | src/compliance_engine/policy_enforcer.py:84-91 | custom logic always holds; an unknown or missing type never does |
| PolicyEnforcement.JsonPathFailures | src/compliance_engine/policy_enforcer.py:96-113 | a JSONPath condition with no path, an uncompiled path or an unsupported operator fails |
| PolicyEnforcement.JsonPathOperators | src/compliance_engine/policy_enforcer.py:103-111 | equals implies contains implies exists; with an empty expected value contains is exists; no operator means exists |
| PolicyEnforcement.PolicyPassesAll | src/compliance_engine/policy_enforcer.py:72-77 | a policy passes exactly when every condition holds |
| PolicyEnforcement.ViolationsAppend | src/compliance_engine/policy_enforcer.py:40-48 | violations of concatenated policy lists concatenate |
| PolicyEnforcement.ViolationsSound | src/compliance_engine/policy_enforcer.py:40-48 | every violation reports a failing policy, with no more violations than policies |
| PolicyEnforcement.ViolationsComplete | src/compliance_engine/policy_enforcer.py:40-48 | every failing policy is reported |
| PolicyEnforcement.ViolationsEmptyIff | src/compliance_engine/policy_enforcer.py:54-56 | there are no violations exactly when every policy passes |
| PolicyEnforcement.Missing | src/compliance_engine/policy_enforcer.py:142-144 | the missing fields are among the four required ones and empty exactly when all four are present |
| PolicyEnforcement.FirstMissingIff | src/compliance_engine/policy_enforcer.py:143-146 | validation passes exactly when no policy lacks a field; otherwise it reports the non-empty missing set of one policy |
| PolicyEnforcement.ToPolicies | src/compliance_engine/policy_enforcer.py:29 | a validated file yields one policy per entry |
| PolicyEnforcement.CompileFacts | src/compliance_engine/policy_enforcer.py:61-70 | compilation succeeds exactly when every path parses, then caching all of them; otherwise it stops at the first bad path with the earlier ones cached |
| PolicyEnforcement.ConditionPathsPrefix | src/compliance_engine/policy_enforcer.py:65-66 | the paths of a prefix of the conditions come first |
| PolicyEnforcement.PolicyPathsPrefix | src/compliance_engine/policy_enforcer.py:64-66 | the paths of a prefix of the policies come first |
| PolicyEnforcement.CompileStops | src/compliance_engine/policy_enforcer.py:69-70 | once a path fails to parse, later paths change nothing |
| PolicyEnforcement.PolicyEnforcer.constructor | src/compliance_engine/policy_enforcer.py:17-19 | starts with no policies and no compiled rules |
| PolicyEnforcement.PolicyEnforcer.LoadPolicies | src/compliance_engine/policy_enforcer.py:23-33 | a policy missing fields is refused with nothing changed; otherwise the policies are stored and compiled, reporting the first bad path |
| PolicyEnforcement.PolicyEnforcer.CompileRules | src/compliance_engine/policy_enforcer.py:61-70 | the cache and failure are those of compiling all policy paths |
| PolicyEnforcement.PolicyEnforcer.CompileConditions | src/compliance_engine/policy_enforcer.py:65-70 | the inner loop extends the compilation by one policy's paths |
| PolicyEnforcement.PolicyEnforcer.EvaluateRequest | src/compliance_engine/policy_enforcer.py:35-59 | the violations are those of the failing policies in order, and the request is approved exactly when no policy fails |
| DagScheduling.ExtendsTransitive | src/workflow/dag_scheduler.py:16-19 | the node list only grows at its end, transitively |
| DagScheduling.AddNodeOk | src/workflow/dag_scheduler.py:17 | adding a node keeps the graph consistent, adds exactly that node, and keeps the existing order |
| DagScheduling.AddDependenciesEffect | src/workflow/dag_scheduler.py:18-19 | each dependency becomes a node with an edge to that task |
| DagScheduling.AddTaskEffect | src/workflow/dag_scheduler.py:16-19 | adding a task adds exactly its id and dependencies as nodes and an edge from each dependency to it |
| DagScheduling.AddDependenciesPresent | src/workflow/dag_scheduler.py:18-19 | re-adding present edges changes nothing |
| DagScheduling.AddTaskIdempotent | src/workflow/dag_scheduler.py:16-19 | adding the same task twice is adding it once |
| DagScheduling.PathClimbs | src/workflow/dag_scheduler.py:23 | along any path, positions in a topological order strictly increase |
| DagScheduling.TopologicalAcyclic | src/workflow/dag_scheduler.py:21-24 | a graph with a topological order has no cycle |
| DagScheduling.NoSourceCycle | src/workflow/dag_scheduler.py:25-26 | nodes each with a predecessor among themselves contain a cycle |
| DagScheduling.ReadyAmong | src/workflow/dag_scheduler.py:29-30 | the ready list holds exactly the listed nodes without predecessors, in order |
| DagScheduling.NextTasks | src/workflow/dag_scheduler.py:28-30 | the next tasks are exactly the graph's nodes without predecessors |
| DagScheduling.NothingReady | src/workflow/dag_scheduler.py:28-30 | when no task is ready, every node has a predecessor |
| DagScheduling.AcyclicHasNextTask | src/workflow/dag_scheduler.py:28-30 | a non-empty acyclic graph always has a next task |
| DagScheduling.DAGScheduler.constructor | src/workflow/dag_scheduler.py:12-14 | starts with an empty graph and order |
| DagScheduling.DAGScheduler.AddTask | src/workflow/dag_scheduler.py:16-19 | the graph becomes the graph with that task added |
| DagScheduling.DAGScheduler.ValidateDag | src/workflow/dag_scheduler.py:21-26 | validation succeeds exactly when the graph is acyclic, storing a topological order; on failure the order is kept |
| DagScheduling.TopologicalSort | src/workflow/dag_scheduler.py:23-25 | returns a topological order, or reports failure only for a cyclic graph |
| ConfigLoading.MergedKeys | config/loader.py:29-31 | a key is configured exactly when some file defines it |
| ConfigLoading.MergedLastWins | config/loader.py:29-31 | the last file defining a key wins |
| ConfigLoading.Substituted | config/loader.py:35-39 | substitution keeps every key |
| ConfigLoading.SubstitutedValues | config/loader.py:36-39 | a top-level `${NAME}` string becomes NAME's environment value or ""; every other value is kept |
| ConfigLoading.SubstituteTwice | config/loader.py:35-39 | when no environment value is a placeholder, substituting again changes nothing |
| ConfigLoading.Split | config/loader.py:42 | splitting gives at least one piece, none containing a dot |
| ConfigLoading.JoinSplit | config/loader.py:42 | joining the pieces with dots gives the path back |
| ConfigLoading.SplitJoin | config/loader.py:42 | splitting a path joined from dot-free keys gives the keys back |
| ConfigLoading.WalkAppend | config/loader.py:45-46 | a walk along two key lists is the walk along the first continued by the second |
| ConfigLoading.WalkNest | config/loader.py:45-46 | walking the keys that nest a value finds it |
| ConfigLoading.GetNested | config/loader.py:41-47 | a value nested under dot-free keys is found at their dotted path |
| ConfigLoading.GetMissingTop | config/loader.py:48-49 | a path whose first key is absent yields the default |
| ConfigLoading.GetThroughScalar | config/loader.py:44-49 | a path through a non-mapping value raises TypeError rather than yielding the default |
| ConfigLoading.ConfigManager.constructor | config/loader.py:16-33 | the configuration is the merged files with placeholders substituted |
| ConfigLoading.ConfigManager.ReplaceEnvVars | config/loader.py:35-39 | the in-place loop computes the substitution |
| ConfigLoading.ConfigManager.Get | config/loader.py:41-49 | the key-by-key loop computes the lookup specification |
| Merkle.EncodeChar | blockchain/StateValidator.cs:22 | a character encodes as one to four UTF-8 bytes |
| Merkle.EncodeCharDecodes | blockchain/StateValidator.cs:22 | the lead byte announces the encoding's length and the bytes decode to the character |
| Merkle.DecodeEncode | blockchain/StateValidator.cs:22 | UTF-8 encoding of a string decodes back to it, so distinct strings hash distinct byte strings |
| Merkle.Utf8Ascii | blockchain/StateValidator.cs:22 | ASCII text encodes byte for byte |
| Merkle.Hex | blockchain/StateValidator.cs:23 | the undashed hex of n bytes has 2n characters |
| Merkle.HexDigitsOnly | blockchain/StateValidator.cs:23 | it contains only hex digits |
| Merkle.WithoutDashesAppend | blockchain/StateValidator.cs:23 | removing dashes distributes over concatenation |
| Merkle.DashedHexUndashed | blockchain/StateValidator.cs:23 | `BitConverter.ToString` without dashes is the plain upper-case hex of the bytes |
| Merkle.UnhexHex | blockchain/StateValidator.cs:23 | the hex text decodes back to the digest bytes |
| Merkle.Level | blockchain/StateValidator.cs:17-24 | a level built from m pairs has m entries |
| Merkle.LevelEntries | blockchain/StateValidator.cs:18-24 | entry i of a level is the hash of pair 2i, or of a lone last entry |
| Merkle.NextLevelShape | blockchain/StateValidator.cs:15-25 | each level has ceil(n/2) entries, fewer than the one before |
| Merkle.MerkleRootIsDigest | blockchain/StateValidator.cs:10-28 | with a 32-byte hash, the root of two or more transactions is 64 hex digits |
| Merkle.MerkleRootOfThree | blockchain/StateValidator.cs:15-26 | three transactions give h(h(a+b) + h(c)) |
| Merkle.CalculateMerkleRoot | blockchain/StateValidator.cs:10-28 | the method computes the Merkle root specification |
| Merkle.BuildLevel | blockchain/StateValidator.cs:17-24 | the inner loop computes the next level |
| ApiGateway.CounterKeyInjective | src/core/api_gateway.py:32 | distinct clients never share a counter |
| ApiGateway.CheckCases | src/core/api_gateway.py:30-40 | a new client is allowed with rate_limit - 1 left; a positive counter allows and decrements; otherwise refused unchanged; no other key changes |
| ApiGateway.Calls | src/core/api_gateway.py:30-40 | n calls give n answers |
| ApiGateway.CallsFromFresh | src/core/api_gateway.py:30-40 | from no counter, exactly the first max(rate_limit, 1) calls are allowed, and the counter ends at rate_limit minus that many |
| ApiGateway.CallsFrame | src/core/api_gateway.py:30-40 | a client's calls never change another client's counter |
| ApiGateway.RateLimiter.constructor | src/core/api_gateway.py:25-28 | holds the store, limit and window |
| ApiGateway.RateLimiter.CheckLimit | src/core/api_gateway.py:30-40 | the answer and new store are those of the rate-limit specification |
| ApiGateway.ForwardHeaders | src/core/api_gateway.py:133-137 | host and authorization are dropped, x-forwarded-for and x-api-version set, every other header kept |
| ApiGateway.ForwardHeadersIdempotent | src/core/api_gateway.py:131-138 | preparing already-prepared headers changes nothing |
| ApiGateway.APIGateway.constructor | src/core/api_gateway.py:63-66 | starts with the configuration and an empty route table of its own |
| ApiGateway.APIGateway.RegisterRoute | src/core/api_gateway.py:88-94 | registration succeeds exactly for a configured service, storing its upstream; an unknown service raises KeyError with the table unchanged |
| ApiGateway.APIGateway.RouteHandler | src/core/api_gateway.py:99-103 | a registered path yields its upstream, any other 404 |
| ApiGateway.APIGateway.PrepareForwardHeaders | src/core/api_gateway.py:131-138 | without a configured version it raises KeyError("version"); otherwise it returns the forwarded headers |

## Left out

- Threads and locks (`threading.Lock`/`RLock`, the monitor thread, the thread pool): each method is modelled as one atomic step.
- Wall-clock time: `last_updated`, `last_heartbeat` and `utcnow()` become an integer `now` parameter, or are dropped where nothing reads them.
- Logging, the remediation actions (which only log) and `_restart_agent` (which always returns true): they have no effect on state.
- File, JSON, YAML and environment reading: parsed files and the environment are parameters; the configuration singleton (`__new__`) is not modelled.
- A YAML file that parses to a non-mapping (`update(None)` raises): not modelled; every file is a mapping with string keys.
- Redis: the store is a map held by the limiter; the key expiry after `window` seconds is not modelled.
- JWT validation, the middleware stack, CORS and the proxied HTTP call: framework and network code outside the core.
- The `jsonpath_ng` parser and `re.match`: a parameter `Library` decides parsing, matching and found values; request values are their string renderings.
- The algorithm inside `networkx.topological_sort`: the model sorts by repeatedly taking a node with no remaining predecessor, and is specified by its result, so the particular order networkx returns is not fixed.
- SHA-256 is a parameter of the Merkle model; UTF-8 encoding of lone surrogates and C#'s null entries are not modelled, and StateValidator.cs lacks the `using` directives for `List` and `FirstOrDefault`, which the model assumes.
- ResourceAllocation.ResourceAllocator.AllocateResources: the "spread" and "random" strategies are named but never defined, so in CPython the constructor itself would fail on the missing attributes; the model keeps the evident intent and returns a "not defined" error when they are selected.
- ResourceAllocation.ResourceAllocator.UpdateNodeResources: the new totals are not checked against what is already allocated, as in the source (UpdateCanOvercommit shows it).
- ResourceAllocation.FitnessRange: stated for requests with positive amounts and nodes with positive totals; registration accepts any totals, including 0.0, and the zero total sum (ZeroDivisionError) and negative totals are outside what it states.
- SwarmEngine.PlaceRemainder, SwarmEngine.PlaceKeepsLoaded, SwarmEngine.AllocationSucceeds and SwarmEngine.AllocationKeepsLoaded: stated for a non-negative requirement only; `allocate_task` accepts a negative one and lowers a node's load below zero (NegativeRequirementUnloads shows it).
- ApiGateway.APIGateway.constructor: the model keeps the route table as a field of its own. In the source the class subclasses FastAPI and assigns `self.routes = {}`, a name the framework already defines as a read-only property, so under that framework the assignment would raise AttributeError. The framework is not part of this model, so the model follows the evident intent of a fresh, empty table.
- Allocator amounts are real numbers: floating-point rounding is not modelled.
- Swarm integer loads are unbounded integers; topology entries are id/capacity pairs (a malformed topology file is not modelled).

## Findings

| source | as written | input that shows it | evidently intended | confidence | as-written member | corrected member |
|---|---|---|---|---|---|---|
| src/agent_management/resource_allocator.py:68-71 | `del remaining[rt]` runs inside `for rt in remaining`, which makes CPython raise "dictionary changed size during iteration" | a request of 1.0 CPU granted in full by one node | subtract each grant, then drop kinds left at 0.001 or less | high (not executed) | ResourceAllocation.SatisfiedKindRaisesAsWritten | ResourceAllocation.ShrinkAt |
| src/agent_management/swarm_engine.py:60 | `with self.executor.lock` uses an attribute that `ThreadPoolExecutor` does not have, so every release raises AttributeError | releasing any node with a non-zero load | take a lock owned by the orchestrator and zero the listed nodes' loads | high (not executed) | SwarmEngine.ReleaseAsWrittenNeverFrees | SwarmEngine.SwarmOrchestrator.ReleaseResources |
