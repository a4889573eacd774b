/**
 * The typed-resource allocator of src/agent_management/resource_allocator.py:
 * a per-node table of `total` and `allocated` amounts per resource kind, and the
 * greedy bin-packing allocation over it.
 *
 * Python dicts iterate in insertion order.  Where that order is observable it is
 * kept explicitly: the node table carries the order in which nodes were first
 * registered (sorted() keeps it for equal fitness); each row's `total` dict carries
 * its key order, which decides the kind a failing utilization reports; and a
 * requirements dict is a sequence of entries, because `_allocate_from_node` commits
 * the kinds it has already visited before it gives up on a later one.
 */
module ResourceAllocation {
  import opened Wrappers
  import opened StableSort

  datatype ResourceType = CPU | Memory | GPU | Storage

  type NodeId = string

  /** One `kind: amount` item of an insertion-ordered dict. */
  datatype Entry = Entry(kind: ResourceType, amount: real)

  /** A dict keyed by resource kind, in insertion order. */
  type Amounts = seq<Entry>

  /** One row of the node table; `used` is the source's `allocated` (a reserved word here), `last_updated` is not modelled. */
  datatype NodeResources = NodeResources(total: map<ResourceType, real>, used: map<ResourceType, real>)

  /** The list of `(node_id, allocation)` pairs that a successful allocation returns. */
  type Grant = seq<(NodeId, map<ResourceType, real>)>

  /** The exceptions the allocator raises, as values. */
  datatype AllocError =
    | UnknownStrategy(name: string)      // ValueError when the strategy name has no entry
    | StrategyNotDefined(name: string)   // the entry names a method the class never defines
    | InvalidStrategy(name: string)      // ValueError from set_allocation_strategy
    | UnknownNode(id: NodeId)            // ValueError from get_node_utilization
    | MissingKind(kind: ResourceType)    // KeyError on a kind a node does not track
    | ZeroTotal                          // ZeroDivisionError in the fitness ratio
    | ZeroCapacity(kind: ResourceType)   // ZeroDivisionError in a utilization ratio
    | Insufficient(remaining: Amounts)   // RuntimeError: requirement left over after every node
    | DictChangedSize                    // RuntimeError: dict changed size during iteration

  /** A remaining amount at or below this is treated as satisfied. */
  const Tolerance: real := 0.001

  /** The keys of the strategy table. */
  const StrategyNames: set<string> := {"bin_packing", "spread", "random"}

  function Min(a: real, b: real): real { if a <= b then a else b }

  function Max(a: real, b: real): real { if a >= b then a else b }

  /** `m.get(k, 0.0)` */
  function Get(m: map<ResourceType, real>, k: ResourceType): real { if k in m then m[k] else 0.0 }

  /** `sum(m.values())`: the key type has exactly four values. */
  function SumValues(m: map<ResourceType, real>): real
  {
    Get(m, CPU) + Get(m, Memory) + Get(m, GPU) + Get(m, Storage)
  }

  predicate DistinctKinds(a: Amounts)
  {
    forall i, j :: 0 <= i < j < |a| ==> a[i].kind != a[j].kind
  }

  predicate Positive(a: Amounts)
  {
    forall i :: 0 <= i < |a| ==> a[i].amount > 0.0
  }

  function KindsOf(a: Amounts): set<ResourceType>
  {
    set i | 0 <= i < |a| :: a[i].kind
  }

  /** The amount stored under `k`, 0 when absent. */
  function AmountOf(a: Amounts, k: ResourceType): real
  {
    if a == [] then 0.0 else if a[0].kind == k then a[0].amount else AmountOf(a[1..], k)
  }

  /** The table invariant: positive totals, non-negative allocations, only tracked kinds allocated. */
  predicate WellFormed(n: NodeResources)
  {
    && n.used.Keys <= n.total.Keys
    && (forall k | k in n.total :: n.total[k] > 0.0)
    && (forall k | k in n.used :: n.used[k] >= 0.0)
  }

  /** Every allocated amount is within the node's total. */
  predicate WithinCapacity(n: NodeResources)
  {
    forall k | k in n.used && k in n.total :: n.used[k] <= n.total[k]
  }

  // ---------------------------------------------------------------------------
  // register_node
  // ---------------------------------------------------------------------------

  /** The row `register_node` stores: the given totals, zero allocated for exactly those kinds. */
  function FreshNode(resources: map<ResourceType, real>): (n: NodeResources)
    ensures n.total == resources && n.used.Keys == resources.Keys
    ensures forall k | k in n.used :: n.used[k] == 0.0
  {
    NodeResources(resources, map k | k in resources :: 0.0)
  }

  lemma FreshNodeIsIdle(resources: map<ResourceType, real>)
    requires forall k | k in resources :: resources[k] > 0.0
    ensures WellFormed(FreshNode(resources)) && WithinCapacity(FreshNode(resources))
    ensures SumValues(FreshNode(resources).used) == 0.0
  {
  }

  // ---------------------------------------------------------------------------
  // _calculate_node_fitness
  // ---------------------------------------------------------------------------

  /** The first requested kind the node totals but does not track in `allocated` (a KeyError). */
  function FirstUntracked(n: NodeResources, req: Amounts): (r: Option<ResourceType>)
    ensures r.None? <==> forall i | 0 <= i < |req| :: req[i].kind in n.total ==> req[i].kind in n.used
    ensures r.Some? ==> r.value in KindsOf(req) && r.value in n.total && r.value !in n.used
  {
    if req == [] then None
    else if req[0].kind in n.total && req[0].kind !in n.used then Some(req[0].kind)
    else
      var r := FirstUntracked(n, req[1..]);
      assert forall i | 1 <= i < |req| :: req[i] == req[1..][i - 1];
      r
  }

  /** `{rt: total[rt] - allocated[rt] for rt in requirements if rt in total}` */
  function Available(n: NodeResources, req: Amounts): map<ResourceType, real>
  {
    map k | k in KindsOf(req) && k in n.total && k in n.used :: n.total[k] - n.used[k]
  }

  /** Every requested amount is covered by what the node has free. */
  predicate Covers(n: NodeResources, req: Amounts)
  {
    forall i | 0 <= i < |req| :: Get(Available(n, req), req[i].kind) >= req[i].amount
  }

  /**
   * The fitness score: -1 when some requested kind is not fully free, otherwise the
   * free amount of the requested kinds over the sum of all the node's totals.
   */
  function Fitness(n: NodeResources, req: Amounts): Result<real, AllocError>
  {
    match FirstUntracked(n, req)
    case Some(k) => Err(MissingKind(k))
    case None =>
      if !Covers(n, req) then Ok(-1.0)
      else if SumValues(n.total) == 0.0 then Err(ZeroTotal)
      else Ok(SumValues(Available(n, req)) / SumValues(n.total))
  }

  lemma GetAvailable(n: NodeResources, req: Amounts, k: ResourceType)
    requires WellFormed(n)
    ensures Get(Available(n, req), k) <= Get(n.total, k)
    ensures k in KindsOf(req) && k in n.total && k in n.used ==> Get(Available(n, req), k) == n.total[k] - n.used[k]
  {
  }

  lemma SumValuesBounds(a: map<ResourceType, real>, b: map<ResourceType, real>, k: ResourceType)
    requires Get(a, CPU) >= 0.0 && Get(a, Memory) >= 0.0 && Get(a, GPU) >= 0.0 && Get(a, Storage) >= 0.0
    requires Get(a, CPU) <= Get(b, CPU) && Get(a, Memory) <= Get(b, Memory)
    requires Get(a, GPU) <= Get(b, GPU) && Get(a, Storage) <= Get(b, Storage)
    requires Get(a, k) > 0.0
    ensures 0.0 < SumValues(a) <= SumValues(b)
  {
  }

  /** When a positive request is covered, the free sum is positive and at most the total sum. */
  lemma CoveredSums(n: NodeResources, req: Amounts)
    requires WellFormed(n) && Positive(req) && req != [] && Covers(n, req)
    ensures 0.0 < SumValues(Available(n, req)) <= SumValues(n.total)
  {
    var k := req[0].kind;
    var A := Available(n, req);
    assert Get(A, k) >= req[0].amount > 0.0;
    GetAvailable(n, req, CPU);
    GetAvailable(n, req, Memory);
    GetAvailable(n, req, GPU);
    GetAvailable(n, req, Storage);
    forall j | j in A ensures A[j] > 0.0 {
      var i :| 0 <= i < |req| && req[i].kind == j;
    }
    SumValuesBounds(A, n.total, k);
  }

  lemma RatioBounds(x: real, y: real)
    requires 0.0 < x <= y
    ensures 0.0 < x / y <= 1.0
  {
    assert x / y * y == x;
  }

  /** On a well-formed node a positive request scores -1 exactly when some kind is short, and otherwise lies in (0, 1]. */
  lemma FitnessRange(n: NodeResources, req: Amounts)
    requires WellFormed(n) && Positive(req) && req != []
    requires FirstUntracked(n, req).None?
    ensures Fitness(n, req) == Ok(-1.0) <==> exists i | 0 <= i < |req| :: Get(Available(n, req), req[i].kind) < req[i].amount
    ensures Fitness(n, req).Ok?
    ensures Fitness(n, req) != Ok(-1.0) ==> 0.0 < Fitness(n, req).value <= 1.0
  {
    if Covers(n, req) {
      CoveredSums(n, req);
      RatioBounds(SumValues(Available(n, req)), SumValues(n.total));
    }
  }

  /** The fitness key of every node, in table order; the first failing key is the exception. */
  function Keyed(nodes: map<NodeId, NodeResources>, ids: seq<NodeId>, req: Amounts): (r: Result<seq<(NodeId, real)>, AllocError>)
    requires forall i | 0 <= i < |ids| :: ids[i] in nodes
    ensures r.Ok? ==> |r.value| == |ids|
    ensures r.Ok? ==> forall i | 0 <= i < |ids| :: r.value[i].0 == ids[i] && Fitness(nodes[ids[i]], req) == Ok(r.value[i].1)
    ensures r.Err? ==> exists i | 0 <= i < |ids| :: Fitness(nodes[ids[i]], req) == Err(r.error)
  {
    if ids == [] then Ok([])
    else
      match Fitness(nodes[ids[0]], req)
      case Err(e) => Err(e)
      case Ok(f) =>
        match Keyed(nodes, ids[1..], req)
        case Err(e) =>
          assert forall i | 1 <= i < |ids| :: ids[1..][i - 1] == ids[i];
          Err(e)
        case Ok(rest) =>
          assert forall i | 1 <= i < |ids| :: ids[1..][i - 1] == ids[i];
          Ok([(ids[0], f)] + rest)
  }

  /** The visiting order of `_bin_packing_strategy`: table order, stably sorted on descending fitness. */
  function Ranking(nodes: map<NodeId, NodeResources>, order: seq<NodeId>, req: Amounts): (r: Result<seq<NodeId>, AllocError>)
    requires forall i | 0 <= i < |order| :: order[i] in nodes
    ensures r.Ok? ==> forall i | 0 <= i < |r.value| :: r.value[i] in nodes
  {
    match Keyed(nodes, order, req)
    case Err(e) => Err(e)
    case Ok(keys) =>
      SortDescKeeps(keys);
      var sorted := SortDesc(keys);
      assert forall i | 0 <= i < |sorted| :: sorted[i] in keys;
      Ok(Ids(sorted))
  }

  /** Nodes are visited in descending fitness, and the sort is stable on equal fitness. */
  lemma RankingOrder(nodes: map<NodeId, NodeResources>, order: seq<NodeId>, req: Amounts)
    requires forall i | 0 <= i < |order| :: order[i] in nodes
    requires Keyed(nodes, order, req).Ok?
    ensures var keys := Keyed(nodes, order, req).value;
      && Ranking(nodes, order, req) == Ok(Ids(SortDesc(keys)))
      && multiset(SortDesc(keys)) == multiset(keys)
      && Descending(SortDesc(keys))
      && forall v :: WithKey(SortDesc(keys), v) == WithKey(keys, v)
  {
    SortDescFacts(Keyed(nodes, order, req).value);
  }

  // ---------------------------------------------------------------------------
  // _allocate_from_node
  // ---------------------------------------------------------------------------

  datatype StepOutcome = Granted(share: map<ResourceType, real>) | Declined | StepKeyError(kind: ResourceType)

  datatype Step = Step(node: NodeResources, outcome: StepOutcome)

  /**
   * `_allocate_from_node` from the entry it has reached: each kind in turn takes
   * `min(req, available)` and is committed at once; a kind with nothing free
   * returns None with the earlier kinds already committed.
   */
  function TakeFrom(n: NodeResources, rem: Amounts, acc: map<ResourceType, real>): Step
    decreases |rem|
  {
    if rem == [] then Step(n, Granted(acc))
    else
      var k := rem[0].kind;
      if k !in n.total || k !in n.used then Step(n, StepKeyError(k))
      else
        var available := n.total[k] - n.used[k];
        if available <= 0.0 then Step(n, Declined)
        else
          var amount := Min(rem[0].amount, available);
          TakeFrom(n.(used := n.used[k := n.used[k] + amount]), rem[1..], acc[k := amount])
  }

  /**
   * A node step never touches totals, and every kind whose allocation it changes ends
   * within its total, because each kind takes at most what is free.
   */
  lemma {:induction false} TakeFromBounded(n: NodeResources, rem: Amounts, acc: map<ResourceType, real>)
    ensures var m := TakeFrom(n, rem, acc).node;
      && m.total == n.total && m.used.Keys == n.used.Keys
      && forall k | k in m.used && m.used[k] != n.used[k] :: k in n.total && m.used[k] <= n.total[k]
    decreases |rem|
  {
    if rem != [] {
      var k := rem[0].kind;
      if k in n.total && k in n.used && n.total[k] - n.used[k] > 0.0 {
        var amount := Min(rem[0].amount, n.total[k] - n.used[k]);
        assert n.used[k] + amount <= n.total[k];
        TakeFromBounded(n.(used := n.used[k := n.used[k] + amount]), rem[1..], acc[k := amount]);
      }
    }
  }

  /** With positive requested amounts a node step only ever raises allocations. */
  lemma {:induction false} TakeFromMonotone(n: NodeResources, rem: Amounts, acc: map<ResourceType, real>)
    requires Positive(rem)
    ensures var m := TakeFrom(n, rem, acc).node;
      m.used.Keys == n.used.Keys && forall k | k in m.used :: m.used[k] >= n.used[k]
    decreases |rem|
  {
    if rem != [] {
      var k := rem[0].kind;
      if k in n.total && k in n.used && n.total[k] - n.used[k] > 0.0 {
        var amount := Min(rem[0].amount, n.total[k] - n.used[k]);
        assert rem[0].amount > 0.0;
        assert forall j | 0 <= j < |rem[1..]| :: rem[1..][j] == rem[j + 1];
        TakeFromMonotone(n.(used := n.used[k := n.used[k] + amount]), rem[1..], acc[k := amount]);
      }
    }
  }

  /** A node step keeps a row within capacity. */
  lemma TakeFromWithinCapacity(n: NodeResources, rem: Amounts, acc: map<ResourceType, real>)
    requires WithinCapacity(n)
    ensures WithinCapacity(TakeFrom(n, rem, acc).node)
  {
    TakeFromBounded(n, rem, acc);
  }

  /** A granted step records a share for exactly the requested kinds and leaves every other kind alone. */
  lemma {:induction false} TakeFromGrantedFrame(n: NodeResources, rem: Amounts, acc: map<ResourceType, real>)
    requires TakeFrom(n, rem, acc).outcome.Granted?
    ensures var a := TakeFrom(n, rem, acc).outcome.share;
      var m := TakeFrom(n, rem, acc).node;
      && a.Keys == acc.Keys + KindsOf(rem)
      && KindsOf(rem) <= n.used.Keys
      && m.total == n.total && m.used.Keys == n.used.Keys
      && (forall k | k in acc && k !in KindsOf(rem) :: a[k] == acc[k])
      && (forall k | k in n.used && k !in KindsOf(rem) :: m.used[k] == n.used[k])
    decreases |rem|
  {
    if rem != [] {
      var k := rem[0].kind;
      var amount := Min(rem[0].amount, n.total[k] - n.used[k]);
      var n' := n.(used := n.used[k := n.used[k] + amount]);
      KindsOfCons(rem);
      TakeFromGrantedFrame(n', rem[1..], acc[k := amount]);
    }
  }

  /** A granted step takes `min(req, free)` of each requested kind, a positive amount, and commits exactly that. */
  lemma {:induction false} TakeFromGrantedAt(n: NodeResources, rem: Amounts, acc: map<ResourceType, real>, i: nat)
    requires DistinctKinds(rem) && Positive(rem) && i < |rem|
    requires TakeFrom(n, rem, acc).outcome.Granted?
    ensures var a := TakeFrom(n, rem, acc).outcome.share;
      var m := TakeFrom(n, rem, acc).node;
      var k := rem[i].kind;
      && k in n.total && k in n.used && k in a && k in m.used
      && a[k] == Min(rem[i].amount, n.total[k] - n.used[k])
      && 0.0 < a[k] <= rem[i].amount
      && m.used[k] == n.used[k] + a[k]
    decreases |rem|
  {
    var k := rem[0].kind;
    var amount := Min(rem[0].amount, n.total[k] - n.used[k]);
    var n' := n.(used := n.used[k := n.used[k] + amount]);
    var tail := rem[1..];
    assert TakeFrom(n, rem, acc) == TakeFrom(n', tail, acc[k := amount]);
    DistinctTail(rem);
    if i == 0 {
      TakeFromGrantedFrame(n', tail, acc[k := amount]);
    } else {
      assert tail[i - 1] == rem[i] && rem[i].kind in KindsOf(tail);
      TakeFromGrantedAt(n', tail, acc[k := amount], i - 1);
    }
  }

  /** A node step keeps a row well-formed when the requested amounts are positive. */
  lemma TakeFromWellFormed(n: NodeResources, rem: Amounts, acc: map<ResourceType, real>)
    requires WellFormed(n) && Positive(rem)
    ensures WellFormed(TakeFrom(n, rem, acc).node)
  {
    TakeFromBounded(n, rem, acc);
    TakeFromMonotone(n, rem, acc);
  }

  // ---------------------------------------------------------------------------
  // releasing and updating a row
  // ---------------------------------------------------------------------------

  /** `release_resources` on a known node: each tracked kind drops by the amount, floored at 0. */
  function Released(n: NodeResources, resources: map<ResourceType, real>): (m: NodeResources)
    ensures m.total == n.total && m.used.Keys == n.used.Keys
    ensures forall k | k in n.used && k !in resources :: m.used[k] == n.used[k]
    ensures forall k | k in n.used && k in resources :: m.used[k] >= 0.0 && m.used[k] + resources[k] >= n.used[k]
    ensures forall k | k in n.used && k in resources && resources[k] >= 0.0 && n.used[k] >= 0.0 :: m.used[k] <= n.used[k]
  {
    n.(used := map k | k in n.used :: if k in resources then Max(n.used[k] - resources[k], 0.0) else n.used[k])
  }

  /** Release keeps a row well-formed, and within capacity when the released amounts are non-negative. */
  lemma ReleasedKeepsInvariants(n: NodeResources, resources: map<ResourceType, real>)
    requires WellFormed(n)
    ensures WellFormed(Released(n, resources))
    ensures WithinCapacity(n) && (forall k | k in resources :: resources[k] >= 0.0) ==> WithinCapacity(Released(n, resources))
  {
  }

  /** Releasing exactly what a granted step took restores the row: a grant and its release round-trip. */
  lemma ReleaseUndoesStep(n: NodeResources, rem: Amounts)
    requires WellFormed(n) && DistinctKinds(rem) && Positive(rem)
    requires TakeFrom(n, rem, map[]).outcome.Granted?
    ensures Released(TakeFrom(n, rem, map[]).node, TakeFrom(n, rem, map[]).outcome.share) == n
  {
    TakeFromGrantedFrame(n, rem, map[]);
    var m := TakeFrom(n, rem, map[]).node;
    var a := TakeFrom(n, rem, map[]).outcome.share;
    var r := Released(m, a);
    forall k | k in r.used ensures r.used[k] == n.used[k] {
      if k in a {
        var i :| 0 <= i < |rem| && rem[i].kind == k;
        TakeFromGrantedAt(n, rem, map[], i);
      }
    }
    assert r.used == n.used;
  }

  /**
   * `update_node_resources` on a known node: the new totals, with every kind they omit
   * kept at its old total; `allocated` is carried over unchanged and not re-checked.
   */
  function Updated(n: NodeResources, newTotal: map<ResourceType, real>): (m: NodeResources)
    ensures m.used == n.used
    ensures m.total.Keys == n.total.Keys + newTotal.Keys
    ensures forall k | k in newTotal :: m.total[k] == newTotal[k]
    ensures forall k | k in n.total && k !in newTotal :: m.total[k] == n.total[k]
  {
    NodeResources(n.total + newTotal, n.used)
  }

  lemma UpdatedKeepsWellFormed(n: NodeResources, newTotal: map<ResourceType, real>)
    requires WellFormed(n) && forall k | k in newTotal :: newTotal[k] > 0.0
    ensures WellFormed(Updated(n, newTotal))
  {
  }

  /** No kind occurs twice. */
  predicate UniqueKinds(ks: seq<ResourceType>)
  {
    forall i, j | 0 <= i < j < |ks| :: ks[i] != ks[j]
  }

  /** `ks` is the insertion order of the keys of `m`: every key exactly once. */
  predicate KeyOrder(ks: seq<ResourceType>, m: map<ResourceType, real>)
  {
    UniqueKinds(ks) && forall k :: k in ks <==> k in m
  }

  /**
   * The kinds of `oldKinds` that `newTotal` omits, in their old order: the keys the
   * update loop appends to the caller's dict as it walks the old totals.
   */
  function Omitted(oldKinds: seq<ResourceType>, newTotal: map<ResourceType, real>): seq<ResourceType>
  {
    if oldKinds == [] then []
    else
      var init := oldKinds[..|oldKinds| - 1];
      var last := oldKinds[|oldKinds| - 1];
      if last in newTotal then Omitted(init, newTotal) else Omitted(init, newTotal) + [last]
  }

  /** A kind is appended exactly when the old totals had it and the caller's dict did not. */
  lemma {:induction false} OmittedHas(oldKinds: seq<ResourceType>, newTotal: map<ResourceType, real>, k: ResourceType)
    ensures k in Omitted(oldKinds, newTotal) <==> k in oldKinds && k !in newTotal
    decreases |oldKinds|
  {
    if oldKinds != [] {
      var init := oldKinds[..|oldKinds| - 1];
      assert oldKinds == init + [oldKinds[|oldKinds| - 1]];
      OmittedHas(init, newTotal, k);
    }
  }

  lemma {:induction false} OmittedUnique(oldKinds: seq<ResourceType>, newTotal: map<ResourceType, real>)
    requires UniqueKinds(oldKinds)
    ensures UniqueKinds(Omitted(oldKinds, newTotal))
    decreases |oldKinds|
  {
    if oldKinds != [] {
      var init := oldKinds[..|oldKinds| - 1];
      var last := oldKinds[|oldKinds| - 1];
      assert last !in init;
      OmittedHas(init, newTotal, last);
      OmittedUnique(init, newTotal);
    }
  }

  /**
   * The merged dict's key order: the caller's keys in their own order, then the old
   * kinds they omit; it lists every key of the merged totals exactly once.
   */
  lemma UpdatedKeyOrder(n: NodeResources, oldKinds: seq<ResourceType>, newKinds: seq<ResourceType>, newTotal: map<ResourceType, real>)
    requires KeyOrder(oldKinds, n.total) && KeyOrder(newKinds, newTotal)
    ensures KeyOrder(newKinds + Omitted(oldKinds, newTotal), Updated(n, newTotal).total)
  {
    var om := Omitted(oldKinds, newTotal);
    OmittedUnique(oldKinds, newTotal);
    forall k ensures k in om <==> k in oldKinds && k !in newTotal {
      OmittedHas(oldKinds, newTotal, k);
    }
    var r := newKinds + om;
    forall i, j | 0 <= i < j < |r| ensures r[i] != r[j] {
      if j < |newKinds| {
      } else if i >= |newKinds| {
        assert r[i] == om[i - |newKinds|] && r[j] == om[j - |newKinds|];
      } else {
        assert r[i] in newTotal && r[j] == om[j - |newKinds|];
      }
    }
  }

  /** Update does not re-check `allocated` against the new totals: shrinking a total can leave a row over capacity. */
  lemma UpdateCanOvercommit()
    ensures var n := NodeResources(map[CPU := 10.0], map[CPU := 8.0]);
      WithinCapacity(n) && !WithinCapacity(Updated(n, map[CPU := 4.0]))
  {
    var n := NodeResources(map[CPU := 10.0], map[CPU := 8.0]);
    var m := Updated(n, map[CPU := 4.0]);
    assert m.total[CPU] == 4.0 && m.used[CPU] == 8.0;
  }

  // ---------------------------------------------------------------------------
  // shrinking the remainder
  // ---------------------------------------------------------------------------

  /** The remainder after one node's contribution: subtract, then drop the kinds within tolerance. */
  function Shrink(rem: Amounts, a: map<ResourceType, real>): Amounts
  {
    if rem == [] then []
    else
      var left := rem[0].amount - Get(a, rem[0].kind);
      if left <= Tolerance then Shrink(rem[1..], a)
      else [Entry(rem[0].kind, left)] + Shrink(rem[1..], a)
  }

  /** `r` holds only kinds of `rem`, once each, each above tolerance. */
  predicate ShapedBy(r: Amounts, rem: Amounts)
  {
    && DistinctKinds(r) && KindsOf(r) <= KindsOf(rem)
    && forall i | 0 <= i < |r| :: r[i].amount > Tolerance
  }

  /** The tail of a remainder with distinct kinds has distinct kinds, none of them the head's. */
  lemma DistinctTail(rem: Amounts)
    requires rem != [] && DistinctKinds(rem)
    ensures DistinctKinds(rem[1..]) && rem[0].kind !in KindsOf(rem[1..])
    ensures KindsOf(rem) == {rem[0].kind} + KindsOf(rem[1..])
  {
    KindsOfCons(rem);
    assert forall i | 0 <= i < |rem[1..]| :: rem[1..][i] == rem[i + 1];
  }

  /** Putting a fresh kind above tolerance in front keeps the shape. */
  lemma ConsShaped(e: Entry, rest: Amounts, tail: Amounts)
    requires ShapedBy(rest, tail) && e.amount > Tolerance && e.kind !in KindsOf(tail)
    ensures ShapedBy([e] + rest, [e] + tail)
  {
    var r := [e] + rest;
    assert r[1..] == rest && ([e] + tail)[1..] == tail;
    KindsOfCons(r);
    KindsOfCons([e] + tail);
    forall i, j | 0 <= i < j < |r| ensures r[i].kind != r[j].kind {
      assert r[j] == rest[j - 1];
      if i == 0 {
        assert r[j].kind in KindsOf(rest);
      } else {
        assert r[i] == rest[i - 1];
      }
    }
  }

  lemma ShrinkShapeStep(rem: Amounts, a: map<ResourceType, real>)
    requires rem != [] && DistinctKinds(rem)
    requires ShapedBy(Shrink(rem[1..], a), rem[1..])
    ensures ShapedBy(Shrink(rem, a), rem)
  {
    DistinctTail(rem);
    var k0 := rem[0].kind;
    var left := rem[0].amount - Get(a, k0);
    if left > Tolerance {
      ConsShaped(Entry(k0, left), Shrink(rem[1..], a), rem[1..]);
      KindsOfCons([Entry(k0, left)] + rem[1..]);
    }
  }

  /** The remainder keeps only requested kinds, once each, each still above tolerance. */
  lemma {:induction false} ShrinkShape(rem: Amounts, a: map<ResourceType, real>)
    requires DistinctKinds(rem)
    ensures var r := Shrink(rem, a);
      && DistinctKinds(r) && KindsOf(r) <= KindsOf(rem)
      && forall i | 0 <= i < |r| :: r[i].amount > Tolerance
  {
    if rem != [] {
      DistinctTail(rem);
      ShrinkShape(rem[1..], a);
      ShrinkShapeStep(rem, a);
    }
  }

  /** Each kind's remainder decreases by exactly the contribution; it leaves iff it is within tolerance. */
  lemma {:induction false} ShrinkAt(rem: Amounts, a: map<ResourceType, real>, k: ResourceType)
    requires DistinctKinds(rem) && k in KindsOf(rem)
    ensures k in KindsOf(Shrink(rem, a)) <==> AmountOf(rem, k) - Get(a, k) > Tolerance
    ensures k in KindsOf(Shrink(rem, a)) ==> AmountOf(Shrink(rem, a), k) == AmountOf(rem, k) - Get(a, k)
  {
    var k0 := rem[0].kind;
    var tail := rem[1..];
    DistinctTail(rem);
    ShrinkShape(tail, a);
    var left := rem[0].amount - Get(a, k0);
    var rest := Shrink(tail, a);
    if left > Tolerance {
      var r := [Entry(k0, left)] + rest;
      assert r[1..] == rest;
      KindsOfCons(r);
    }
    if k != k0 {
      ShrinkAt(tail, a, k);
    }
  }

  // ---------------------------------------------------------------------------
  // _bin_packing_strategy
  // ---------------------------------------------------------------------------

  /** The node table after an allocation attempt, and what the attempt returned or raised. */
  datatype Packing = Packing(nodes: map<NodeId, NodeResources>, result: Result<Grant, AllocError>)

  /**
   * The greedy loop from the node it has reached: each node's step is committed
   * whatever happens next; a non-empty share is recorded and shrinks the remainder,
   * and the loop stops as soon as the remainder is empty.
   */
  function PackFrom(nodes: map<NodeId, NodeResources>, ranked: seq<NodeId>, rem: Amounts, grant: Grant): Packing
    requires forall i | 0 <= i < |ranked| :: ranked[i] in nodes
    decreases |ranked|
  {
    if ranked == [] then Packing(nodes, if rem == [] then Ok(grant) else Err(Insufficient(rem)))
    else
      var id := ranked[0];
      var step := TakeFrom(nodes[id], rem, map[]);
      var nodes' := nodes[id := step.node];
      match step.outcome
      case StepKeyError(k) => Packing(nodes', Err(MissingKind(k)))
      case Declined => PackFrom(nodes', ranked[1..], rem, grant)
      case Granted(a) =>
        if a == map[] then PackFrom(nodes', ranked[1..], rem, grant)
        else
          var rem' := Shrink(rem, a);
          if rem' == [] then Packing(nodes', Ok(grant + [(id, a)]))
          else PackFrom(nodes', ranked[1..], rem', grant + [(id, a)])
  }

  // One unfolding of the loop, one lemma per outcome of the node step.

  lemma PackFromKeyError(nodes: map<NodeId, NodeResources>, ranked: seq<NodeId>, rem: Amounts, g: Grant)
    requires ranked != [] && forall i | 0 <= i < |ranked| :: ranked[i] in nodes
    requires TakeFrom(nodes[ranked[0]], rem, map[]).outcome.StepKeyError?
    ensures var step := TakeFrom(nodes[ranked[0]], rem, map[]);
      PackFrom(nodes, ranked, rem, g) == Packing(nodes[ranked[0] := step.node], Err(MissingKind(step.outcome.kind)))
  {
  }

  lemma PackFromSkip(nodes: map<NodeId, NodeResources>, ranked: seq<NodeId>, rem: Amounts, g: Grant)
    requires ranked != [] && forall i | 0 <= i < |ranked| :: ranked[i] in nodes
    requires var o := TakeFrom(nodes[ranked[0]], rem, map[]).outcome; o.Declined? || o == Granted(map[])
    ensures var step := TakeFrom(nodes[ranked[0]], rem, map[]);
      PackFrom(nodes, ranked, rem, g) == PackFrom(nodes[ranked[0] := step.node], ranked[1..], rem, g)
  {
  }

  lemma PackFromGrant(nodes: map<NodeId, NodeResources>, ranked: seq<NodeId>, rem: Amounts, g: Grant)
    requires ranked != [] && forall i | 0 <= i < |ranked| :: ranked[i] in nodes
    requires var o := TakeFrom(nodes[ranked[0]], rem, map[]).outcome; o.Granted? && o.share != map[]
    ensures var step := TakeFrom(nodes[ranked[0]], rem, map[]);
      var nodes' := nodes[ranked[0] := step.node];
      var g' := g + [(ranked[0], step.outcome.share)];
      var rem' := Shrink(rem, step.outcome.share);
      PackFrom(nodes, ranked, rem, g) == if rem' == [] then Packing(nodes', Ok(g')) else PackFrom(nodes', ranked[1..], rem', g')
  {
  }

  /** The whole of `_bin_packing_strategy`, table and result. */
  function BinPack(nodes: map<NodeId, NodeResources>, order: seq<NodeId>, req: Amounts): Packing
    requires forall i | 0 <= i < |order| :: order[i] in nodes
  {
    match Ranking(nodes, order, req)
    case Err(e) => Packing(nodes, Err(e))
    case Ok(ranked) => PackFrom(nodes, ranked, req, [])
  }

  /** The total that the grant's nodes contributed to kind `k`. */
  function Contributed(g: Grant, k: ResourceType): real
  {
    if g == [] then 0.0 else Contributed(g[..|g| - 1], k) + Get(g[|g| - 1].1, k)
  }

  /**
   * The loop invariant of the remainder: a kind still outstanding has been
   * contributed exactly `request - remainder`; a kind that left was contributed
   * within tolerance of its request and never beyond it.
   */
  ghost predicate Outstanding(req: Amounts, rem: Amounts, g: Grant)
  {
    && DistinctKinds(rem) && Positive(rem) && KindsOf(rem) <= KindsOf(req)
    && forall i | 0 <= i < |req| ::
         if req[i].kind in KindsOf(rem) then Contributed(g, req[i].kind) + AmountOf(rem, req[i].kind) == req[i].amount
         else req[i].amount - Tolerance <= Contributed(g, req[i].kind) <= req[i].amount
  }

  lemma KindsOfCons(a: Amounts)
    requires a != []
    ensures KindsOf(a) == {a[0].kind} + KindsOf(a[1..])
  {
    forall x | x in KindsOf(a) ensures x in {a[0].kind} + KindsOf(a[1..]) {
      var i :| 0 <= i < |a| && a[i].kind == x;
      if i > 0 { assert a[1..][i - 1] == a[i]; }
    }
    forall x | x in KindsOf(a[1..]) ensures x in KindsOf(a) {
      var i :| 0 <= i < |a[1..]| && a[1..][i].kind == x;
      assert a[i + 1] == a[1..][i];
    }
  }

  lemma OutstandingAtStart(req: Amounts)
    requires DistinctKinds(req) && Positive(req)
    ensures Outstanding(req, req, [])
  {
    forall i | 0 <= i < |req| ensures AmountOf(req, req[i].kind) == req[i].amount {
      AmountOfDistinct(req, i);
    }
  }

  lemma {:induction false} AmountOfDistinct(a: Amounts, i: nat)
    requires DistinctKinds(a) && i < |a|
    ensures AmountOf(a, a[i].kind) == a[i].amount
  {
    if i > 0 {
      assert a[1..][i - 1] == a[i];
      AmountOfDistinct(a[1..], i - 1);
    }
  }

  lemma OutstandingStep(req: Amounts, rem: Amounts, g: Grant, id: NodeId, a: map<ResourceType, real>)
    requires Outstanding(req, rem, g)
    requires a.Keys == KindsOf(rem)
    requires forall i | 0 <= i < |rem| :: 0.0 < a[rem[i].kind] <= rem[i].amount
    ensures Outstanding(req, Shrink(rem, a), g + [(id, a)])
  {
    ShrinkShape(rem, a);
    var g' := g + [(id, a)];
    assert g'[..|g'| - 1] == g;
    var r := Shrink(rem, a);
    forall i | 0 <= i < |req|
      ensures if req[i].kind in KindsOf(r) then Contributed(g', req[i].kind) + AmountOf(r, req[i].kind) == req[i].amount
              else req[i].amount - Tolerance <= Contributed(g', req[i].kind) <= req[i].amount
    {
      var k := req[i].kind;
      assert Contributed(g', k) == Contributed(g, k) + Get(a, k);
      if k in KindsOf(rem) {
        var j :| 0 <= j < |rem| && rem[j].kind == k;
        AmountOfDistinct(rem, j);
        ShrinkAt(rem, a, k);
      }
    }
  }

  /**
   * The outcome of the greedy loop: it raises `Insufficient` exactly with a
   * non-empty remainder left after the last node, and on success each requested
   * kind was contributed within tolerance of its request and never beyond it.
   */
  lemma {:induction false} PackFromOutcome(nodes: map<NodeId, NodeResources>, ranked: seq<NodeId>, req: Amounts, rem: Amounts, g: Grant)
    requires forall i | 0 <= i < |ranked| :: ranked[i] in nodes
    requires Outstanding(req, rem, g)
    ensures var p := PackFrom(nodes, ranked, rem, g);
      && (p.result.Ok? ==> forall i | 0 <= i < |req| ::
            req[i].amount - Tolerance <= Contributed(p.result.value, req[i].kind) <= req[i].amount)
      && (p.result.Err? && p.result.error.Insufficient? ==>
            p.result.error.remaining != [] && Positive(p.result.error.remaining)
            && KindsOf(p.result.error.remaining) <= KindsOf(req))
    decreases |ranked|
  {
    if ranked != [] {
      var id := ranked[0];
      var step := TakeFrom(nodes[id], rem, map[]);
      var nodes' := nodes[id := step.node];
      assert forall i | 0 <= i < |ranked[1..]| :: ranked[1..][i] == ranked[i + 1];
      match step.outcome
      case StepKeyError(k) =>
      case Declined => PackFromOutcome(nodes', ranked[1..], req, rem, g);
      case Granted(a) =>
        if a == map[] {
          PackFromOutcome(nodes', ranked[1..], req, rem, g);
        } else {
          TakeFromGrantedFrame(nodes[id], rem, map[]);
          forall i | 0 <= i < |rem| ensures 0.0 < a[rem[i].kind] <= rem[i].amount {
            TakeFromGrantedAt(nodes[id], rem, map[], i);
          }
          OutstandingStep(req, rem, g, id, a);
          var rem' := Shrink(rem, a);
          if rem' != [] {
            PackFromOutcome(nodes', ranked[1..], req, rem', g + [(id, a)]);
          } else {
            assert KindsOf(rem') == {};
          }
        }
    } else if rem == [] {
      assert KindsOf(rem) == {};
    }
  }

  /** No node step in the loop pushes any allocation above its total. */
  lemma {:induction false} PackFromWithinCapacity(nodes: map<NodeId, NodeResources>, ranked: seq<NodeId>, rem: Amounts, g: Grant)
    requires forall i | 0 <= i < |ranked| :: ranked[i] in nodes
    requires forall id | id in nodes :: WithinCapacity(nodes[id])
    ensures var p := PackFrom(nodes, ranked, rem, g);
      && p.nodes.Keys == nodes.Keys
      && forall id | id in p.nodes :: WithinCapacity(p.nodes[id]) && p.nodes[id].total == nodes[id].total
    decreases |ranked|
  {
    if ranked != [] {
      var id := ranked[0];
      var step := TakeFrom(nodes[id], rem, map[]);
      TakeFromWithinCapacity(nodes[id], rem, map[]);
      TakeFromBounded(nodes[id], rem, map[]);
      var nodes' := nodes[id := step.node];
      assert forall i | 0 <= i < |ranked[1..]| :: ranked[1..][i] == ranked[i + 1];
      match step.outcome
      case StepKeyError(k) =>
      case Declined => PackFromWithinCapacity(nodes', ranked[1..], rem, g);
      case Granted(a) =>
        if a == map[] {
          PackFromWithinCapacity(nodes', ranked[1..], rem, g);
        } else if Shrink(rem, a) != [] {
          PackFromWithinCapacity(nodes', ranked[1..], Shrink(rem, a), g + [(id, a)]);
        }
    }
  }

  /** The loop keeps every row well-formed (positive requests only add positive amounts). */
  lemma {:induction false} PackFromWellFormed(nodes: map<NodeId, NodeResources>, ranked: seq<NodeId>, rem: Amounts, g: Grant)
    requires forall i | 0 <= i < |ranked| :: ranked[i] in nodes
    requires forall id | id in nodes :: WellFormed(nodes[id])
    requires Positive(rem) && DistinctKinds(rem)
    ensures var p := PackFrom(nodes, ranked, rem, g);
      p.nodes.Keys == nodes.Keys && forall id | id in p.nodes :: WellFormed(p.nodes[id])
    decreases |ranked|
  {
    if ranked != [] {
      var id := ranked[0];
      var step := TakeFrom(nodes[id], rem, map[]);
      TakeFromWellFormed(nodes[id], rem, map[]);
      var nodes' := nodes[id := step.node];
      assert nodes'.Keys == nodes.Keys && forall x | x in nodes' :: WellFormed(nodes'[x]);
      assert forall i | 0 <= i < |ranked[1..]| :: ranked[1..][i] == ranked[i + 1];
      match step.outcome
      case StepKeyError(k) =>
      case Declined => PackFromWellFormed(nodes', ranked[1..], rem, g);
      case Granted(a) =>
        if a == map[] {
          PackFromWellFormed(nodes', ranked[1..], rem, g);
        } else if Shrink(rem, a) != [] {
          ShrinkShape(rem, a);
          PackFromWellFormed(nodes', ranked[1..], Shrink(rem, a), g + [(id, a)]);
        }
    }
  }

  /**
   * The whole strategy on a positive request: success means every requested kind
   * was granted within tolerance of its request and never beyond it, and the
   * shortfall it raises with otherwise is a non-empty part of the request.
   */
  lemma BinPackOutcome(nodes: map<NodeId, NodeResources>, order: seq<NodeId>, req: Amounts)
    requires forall i | 0 <= i < |order| :: order[i] in nodes
    requires DistinctKinds(req) && Positive(req)
    ensures var p := BinPack(nodes, order, req);
      && (p.result.Ok? ==> forall i | 0 <= i < |req| ::
            req[i].amount - Tolerance <= Contributed(p.result.value, req[i].kind) <= req[i].amount)
      && (p.result.Err? && p.result.error.Insufficient? ==>
            p.result.error.remaining != [] && Positive(p.result.error.remaining)
            && KindsOf(p.result.error.remaining) <= KindsOf(req))
  {
    var ranking := Ranking(nodes, order, req);
    if ranking.Ok? {
      OutstandingAtStart(req);
      PackFromOutcome(nodes, ranking.value, req, req, []);
    }
  }

  /** The strategy keeps every row within capacity, and well-formed on a positive request. */
  lemma BinPackKeepsInvariants(nodes: map<NodeId, NodeResources>, order: seq<NodeId>, req: Amounts)
    requires forall i | 0 <= i < |order| :: order[i] in nodes
    ensures BinPack(nodes, order, req).nodes.Keys == nodes.Keys
    ensures forall id | id in nodes :: BinPack(nodes, order, req).nodes[id].total == nodes[id].total
    ensures (forall id | id in nodes :: WithinCapacity(nodes[id])) ==>
      forall id | id in nodes :: WithinCapacity(BinPack(nodes, order, req).nodes[id])
    ensures (forall id | id in nodes :: WellFormed(nodes[id])) && DistinctKinds(req) && Positive(req) ==>
      forall id | id in nodes :: WellFormed(BinPack(nodes, order, req).nodes[id])
  {
    var ranking := Ranking(nodes, order, req);
    if ranking.Ok? {
      if forall id | id in nodes :: WithinCapacity(nodes[id]) {
        PackFromWithinCapacity(nodes, ranking.value, req, []);
      }
      if (forall id | id in nodes :: WellFormed(nodes[id])) && DistinctKinds(req) && Positive(req) {
        PackFromWellFormed(nodes, ranking.value, req, []);
      }
      PackFromKeys(nodes, ranking.value, req, []);
    }
  }

  /** Packing keeps the node set and every row's totals: only allocations change. */
  lemma {:induction false} PackFromKeys(nodes: map<NodeId, NodeResources>, ranked: seq<NodeId>, rem: Amounts, g: Grant)
    requires forall i | 0 <= i < |ranked| :: ranked[i] in nodes
    ensures var p := PackFrom(nodes, ranked, rem, g);
      p.nodes.Keys == nodes.Keys && forall id | id in p.nodes :: p.nodes[id].total == nodes[id].total
    decreases |ranked|
  {
    if ranked != [] {
      var id := ranked[0];
      var step := TakeFrom(nodes[id], rem, map[]);
      TakeFromBounded(nodes[id], rem, map[]);
      var nodes' := nodes[id := step.node];
      assert forall i | 0 <= i < |ranked[1..]| :: ranked[1..][i] == ranked[i + 1];
      match step.outcome
      case StepKeyError(k) =>
      case Declined => PackFromKeys(nodes', ranked[1..], rem, g);
      case Granted(a) =>
        if a == map[] {
          PackFromKeys(nodes', ranked[1..], rem, g);
        } else if Shrink(rem, a) != [] {
          PackFromKeys(nodes', ranked[1..], Shrink(rem, a), g + [(id, a)]);
        }
    }
  }

  /**
   * The allocation is not atomic: a single node with 10 CPU asked for 20 raises
   * with 10 still outstanding, yet the 10 it took stay allocated.
   */
  lemma FailedAllocationKeepsPartialGrant()
    ensures var nodes := map["n1" := FreshNode(map[CPU := 10.0])];
      var p := BinPack(nodes, ["n1"], [Entry(CPU, 20.0)]);
      && p.result == Err(Insufficient([Entry(CPU, 10.0)]))
      && p.nodes["n1"].used[CPU] == 10.0
  {
    var n := FreshNode(map[CPU := 10.0]);
    var nodes := map["n1" := n];
    var req := [Entry(CPU, 20.0)];
    assert KindsOf(req) == {CPU};
    assert Available(n, req) == map[CPU := 10.0];
    assert !Covers(n, req);
    assert Fitness(n, req) == Ok(-1.0);
    assert ["n1"][1..] == [];
    assert Keyed(nodes, ["n1"][1..], req) == Ok([]);
    assert nodes[["n1"][0]] == n;
    assert Fitness(nodes[["n1"][0]], req) == Ok(-1.0);
    assert [("n1", -1.0)] + [] == [("n1", -1.0)];
    assert Keyed(nodes, ["n1"], req) == Ok([("n1", -1.0)]);
    assert SortDesc([("n1", -1.0)][1..]) == [];
    assert SortDesc([("n1", -1.0)]) == [("n1", -1.0)];
    assert Ids([("n1", -1.0)]) == ["n1"];
    assert Ranking(nodes, ["n1"], req) == Ok(["n1"]);
    var step := TakeFrom(n, req, map[]);
    assert step == Step(n.(used := map[CPU := 10.0]), Granted(map[CPU := 10.0]));
    assert Shrink(req, map[CPU := 10.0]) == [Entry(CPU, 10.0)];
  }

  // ---------------------------------------------------------------------------
  // the remainder loop as written
  // ---------------------------------------------------------------------------

  /**
   * The remainder loop as CPython runs it: `del remaining[rt]` inside
   * `for rt in remaining` makes the next step of the iteration raise.
   */
  function ShrinkAsWritten(rem: Amounts, a: map<ResourceType, real>): Result<Amounts, AllocError>
  {
    if rem == [] then Ok([])
    else
      var left := rem[0].amount - Get(a, rem[0].kind);
      if left <= Tolerance then Err(DictChangedSize)
      else
        match ShrinkAsWritten(rem[1..], a)
        case Err(e) => Err(e)
        case Ok(rest) => Ok([Entry(rem[0].kind, left)] + rest)
  }

  /**
   * As written, the remainder loop raises exactly when some kind is satisfied, and
   * otherwise drops nothing: the remainder never empties, so a non-empty request
   * can never be granted.  The intended `Shrink` agrees whenever no kind leaves.
   */
  lemma {:induction false} ShrinkAsWrittenNeverEmpties(rem: Amounts, a: map<ResourceType, real>)
    ensures ShrinkAsWritten(rem, a).Err? <==> |Shrink(rem, a)| < |rem|
    ensures ShrinkAsWritten(rem, a).Ok? ==> ShrinkAsWritten(rem, a).value == Shrink(rem, a) && |Shrink(rem, a)| == |rem|
  {
    if rem != [] {
      ShrinkAsWrittenNeverEmpties(rem[1..], a);
      ShrinkLength(rem[1..], a);
    }
  }

  lemma {:induction false} ShrinkLength(rem: Amounts, a: map<ResourceType, real>)
    ensures |Shrink(rem, a)| <= |rem|
  {
    if rem != [] {
      ShrinkLength(rem[1..], a);
    }
  }

  /** The smallest instance: one CPU asked, one CPU granted; as written this raises, intended it completes. */
  lemma SatisfiedKindRaisesAsWritten()
    ensures ShrinkAsWritten([Entry(CPU, 1.0)], map[CPU := 1.0]) == Err(DictChangedSize)
    ensures Shrink([Entry(CPU, 1.0)], map[CPU := 1.0]) == []
  {
  }

  // ---------------------------------------------------------------------------
  // get_node_utilization
  // ---------------------------------------------------------------------------

  /** The ratio `allocated[k] / total[k]` can be formed (or `k` is not totalled at all). */
  predicate Measurable(n: NodeResources, k: ResourceType)
  {
    k in n.total ==> k in n.used && n.total[k] != 0.0
  }

  /** `e` is the exception a ratio for some totalled kind raises: untracked, or a zero total. */
  predicate Unmeasurable(n: NodeResources, e: AllocError)
  {
    || (e.MissingKind? && e.kind in n.total && e.kind !in n.used)
    || (e.ZeroCapacity? && e.kind in n.total && e.kind in n.used && n.total[e.kind] == 0.0)
  }

  /**
   * Where the comprehension over `kinds` stops: the position of the first kind whose
   * ratio cannot be formed, or `|kinds|` when every ratio can.
   */
  function FirstUnmeasurable(n: NodeResources, kinds: seq<ResourceType>): (i: nat)
    ensures i <= |kinds|
    ensures forall j | 0 <= j < i :: Measurable(n, kinds[j])
    ensures i < |kinds| ==> !Measurable(n, kinds[i])
  {
    if kinds == [] || !Measurable(n, kinds[0]) then 0
    else
      var i := FirstUnmeasurable(n, kinds[1..]);
      assert forall j | 1 <= j < i + 1 :: kinds[j] == kinds[1..][j - 1];
      i + 1
  }

  /** The exception of one ratio: `allocated[k]` is read first (KeyError), then divided by a zero total. */
  function RatioError(n: NodeResources, k: ResourceType): (e: AllocError)
    requires !Measurable(n, k)
    ensures Unmeasurable(n, e) && e.kind == k
  {
    if k !in n.used then MissingKind(k) else ZeroCapacity(k)
  }

  /** `e` names the first of `ks` whose ratio cannot be formed. */
  predicate ReportsFirst(n: NodeResources, ks: seq<ResourceType>, e: AllocError)
  {
    && (e.MissingKind? || e.ZeroCapacity?)
    && exists i | 0 <= i < |ks| :: e.kind == ks[i] && forall j | 0 <= j < i :: Measurable(n, ks[j])
  }

  /** The comprehension runs to the end exactly when every totalled kind's ratio can be formed. */
  lemma FirstUnmeasurableAll(n: NodeResources, ks: seq<ResourceType>)
    requires forall k | k in n.total :: k in ks
    ensures FirstUnmeasurable(n, ks) == |ks| <==> forall k | k in n.total :: k in n.used && n.total[k] != 0.0
  {
    var i := FirstUnmeasurable(n, ks);
    if i == |ks| {
      forall k | k in n.total ensures Measurable(n, k) {
        var j :| 0 <= j < |ks| && ks[j] == k;
      }
    } else {
      assert ks[i] in n.total && !Measurable(n, ks[i]);
    }
  }

  /** The exception at the stopping position names the first failing kind. */
  lemma FirstUnmeasurableReported(n: NodeResources, ks: seq<ResourceType>)
    requires FirstUnmeasurable(n, ks) < |ks|
    ensures var i := FirstUnmeasurable(n, ks); ReportsFirst(n, ks, RatioError(n, ks[i]))
  {
    var i := FirstUnmeasurable(n, ks);
    assert RatioError(n, ks[i]).kind == ks[i];
  }

  /**
   * `{rt: allocated[rt] / total[rt] for rt in total}` on one row whose totals were
   * inserted in the order `ks`: the first kind in that order whose ratio cannot be
   * formed is the exception.
   */
  function Utilization(n: NodeResources, ks: seq<ResourceType>): (r: Result<map<ResourceType, real>, AllocError>)
    requires forall k | k in n.total :: k in ks
    ensures r.Ok? <==> forall k | k in n.total :: k in n.used && n.total[k] != 0.0
    ensures r.Ok? ==> r.value.Keys == n.total.Keys && forall k | k in r.value :: r.value[k] * n.total[k] == n.used[k]
    ensures r.Err? ==> Unmeasurable(n, r.error) && ReportsFirst(n, ks, r.error)
  {
    FirstUnmeasurableAll(n, ks);
    var i := FirstUnmeasurable(n, ks);
    if i < |ks| then
      FirstUnmeasurableReported(n, ks);
      Err(RatioError(n, ks[i]))
    else
      Ok(Ratios(n))
  }

  /** The ratios of a row whose every totalled kind is tracked with a non-zero total. */
  function Ratios(n: NodeResources): (u: map<ResourceType, real>)
    requires forall k | k in n.total :: k in n.used && n.total[k] != 0.0
    ensures u.Keys == n.total.Keys && forall k | k in u :: u[k] * n.total[k] == n.used[k]
  {
    map k | k in n.total :: n.used[k] / n.total[k]
  }

  /**
   * The reported kind follows the merged dict's key order, in which the caller's new
   * kinds come before the old ones: a node registered with a zero CPU total and then
   * given a GPU total fails on the untracked GPU, not on the zero CPU; likewise a node
   * registered with CPU and then given GPU and Memory fails on GPU, the first new key.
   */
  lemma UpdatedKindsReportedFirst()
    ensures var n := FreshNode(map[CPU := 0.0]);
      var ks := [GPU] + Omitted([CPU], map[GPU := 1.0]);
      ks == [GPU, CPU] && Utilization(Updated(n, map[GPU := 1.0]), ks) == Err(MissingKind(GPU))
    ensures var n := FreshNode(map[CPU := 1.0]);
      var ks := [GPU, Memory] + Omitted([CPU], map[GPU := 1.0, Memory := 1.0]);
      ks == [GPU, Memory, CPU] && Utilization(Updated(n, map[GPU := 1.0, Memory := 1.0]), ks) == Err(MissingKind(GPU))
  {
    var n := FreshNode(map[CPU := 0.0]);
    var ks := [GPU] + Omitted([CPU], map[GPU := 1.0]);
    assert [CPU][..0] == [];
    assert !Measurable(Updated(n, map[GPU := 1.0]), GPU);
    var n2 := FreshNode(map[CPU := 1.0]);
    assert !Measurable(Updated(n2, map[GPU := 1.0, Memory := 1.0]), GPU);
  }

  /** On a well-formed row within capacity every utilization is a fraction in [0, 1]. */
  lemma UtilizationIsFraction(n: NodeResources, ks: seq<ResourceType>)
    requires WellFormed(n) && WithinCapacity(n) && n.total.Keys == n.used.Keys
    requires forall k | k in n.total :: k in ks
    ensures Utilization(n, ks).Ok?
    ensures forall k | k in Utilization(n, ks).value :: 0.0 <= Utilization(n, ks).value[k] <= 1.0
  {
    var u := Utilization(n, ks).value;
    forall k | k in u ensures 0.0 <= u[k] <= 1.0 {
      RatioBounds'(n.used[k], n.total[k]);
    }
  }

  lemma RatioBounds'(x: real, y: real)
    requires 0.0 <= x <= y && 0.0 < y
    ensures 0.0 <= x / y <= 1.0
  {
    assert x / y * y == x;
  }

  // ---------------------------------------------------------------------------
  // the ResourceAllocator object
  // ---------------------------------------------------------------------------

  /** Every row's totals are listed by that row's key order. */
  predicate OrderedRows(nodes: map<NodeId, NodeResources>, kinds: map<NodeId, seq<ResourceType>>)
  {
    forall id | id in nodes :: id in kinds && KeyOrder(kinds[id], nodes[id].total)
  }

  /** A table whose rows kept their totals keeps them listed by their key orders. */
  lemma TotalsKept(before: map<NodeId, NodeResources>, after: map<NodeId, NodeResources>, kinds: map<NodeId, seq<ResourceType>>)
    requires OrderedRows(before, kinds)
    requires after.Keys == before.Keys && forall id | id in after :: after[id].total == before[id].total
    ensures OrderedRows(after, kinds)
  {
  }

  /** Replacing one row, and its key order, keeps every row's totals listed by its key order. */
  lemma RowReplaced(nodes: map<NodeId, NodeResources>, kinds: map<NodeId, seq<ResourceType>>, id: NodeId, row: NodeResources, ks: seq<ResourceType>)
    requires OrderedRows(nodes, kinds) && KeyOrder(ks, row.total)
    ensures OrderedRows(nodes[id := row], kinds[id := ks])
  {
  }

  /**
   * `ResourceAllocator`: the node table in registration order, the insertion order
   * of each row's `total` dict, and the selected strategy name.  The lock is not
   * modelled (every method holds it throughout).
   */
  class ResourceAllocator {
    var nodes: map<NodeId, NodeResources>
    var order: seq<NodeId>
    var totalOrder: map<NodeId, seq<ResourceType>>
    var strategy: string

    /** `order` lists every registered node exactly once; `totalOrder` lists each row's totalled kinds once. */
    ghost predicate Valid()
      reads this
    {
      && (forall i, j | 0 <= i < j < |order| :: order[i] != order[j])
      && (forall id :: id in nodes <==> id in order)
      && OrderedRows(nodes, totalOrder)
    }


    /** A fresh allocator with an empty table; the strategy name is not checked here. */
    constructor (allocationStrategy: string)
      ensures Valid() && nodes == map[] && order == [] && totalOrder == map[] && strategy == allocationStrategy
    {
      nodes := map[];
      order := [];
      totalOrder := map[];
      strategy := allocationStrategy;
    }

    /**
     * `register_node`: (re)place the row for `id`, its totals keeping the key order
     * `kinds` of the caller's dict; a new id joins the end of the table.
     */
    method RegisterNode(id: NodeId, resources: map<ResourceType, real>, kinds: seq<ResourceType>)
      requires Valid() && KeyOrder(kinds, resources)
      modifies this
      ensures Valid() && strategy == old(strategy)
      ensures nodes == old(nodes)[id := FreshNode(resources)]
      ensures totalOrder == old(totalOrder)[id := kinds]
      ensures order == if id in old(nodes) then old(order) else old(order) + [id]
    {
      if id !in nodes {
        order := order + [id];
      }
      nodes := nodes[id := FreshNode(resources)];
      totalOrder := totalOrder[id := kinds];
    }

    /** `allocate_resources`: dispatch on the strategy name. */
    method AllocateResources(requirements: Amounts) returns (r: Result<Grant, AllocError>)
      requires Valid()
      modifies this
      ensures Valid() && order == old(order) && totalOrder == old(totalOrder) && strategy == old(strategy)
      ensures strategy == "bin_packing" ==>
        var p := BinPack(old(nodes), old(order), requirements); nodes == p.nodes && r == p.result
      ensures strategy in StrategyNames - {"bin_packing"} ==> nodes == old(nodes) && r == Err(StrategyNotDefined(strategy))
      ensures strategy !in StrategyNames ==> nodes == old(nodes) && r == Err(UnknownStrategy(strategy))
    {
      if strategy == "bin_packing" {
        r := BinPacking(requirements);
      } else if strategy in StrategyNames {
        r := Err(StrategyNotDefined(strategy));
      } else {
        r := Err(UnknownStrategy(strategy));
      }
    }

    /** `_bin_packing_strategy`: rank the nodes, then take from them in that order. */
    method BinPacking(requirements: Amounts) returns (r: Result<Grant, AllocError>)
      requires Valid()
      modifies this
      ensures Valid() && order == old(order) && totalOrder == old(totalOrder) && strategy == old(strategy)
      ensures var p := BinPack(old(nodes), old(order), requirements); nodes == p.nodes && r == p.result
    {
      assert forall i | 0 <= i < |order| :: order[i] in nodes;
      var ranking := Ranking(nodes, order, requirements);
      if ranking.Err? {
        return Err(ranking.error);
      }
      ghost var before := nodes;
      r := PackRanked(ranking.value, requirements);
      BinPackKeepsInvariants(before, order, requirements);
      TotalsKept(before, nodes, totalOrder);
    }

    /** The loop of `_bin_packing_strategy`: visit the ranked nodes, taking from each, until nothing remains. */
    method PackRanked(ranked: seq<NodeId>, requirements: Amounts) returns (r: Result<Grant, AllocError>)
      requires forall j | 0 <= j < |ranked| :: ranked[j] in nodes
      modifies this
      ensures order == old(order) && totalOrder == old(totalOrder) && strategy == old(strategy)
      ensures var p := PackFrom(old(nodes), ranked, requirements, []); nodes == p.nodes && r == p.result
    {
      ghost var target := PackFrom(nodes, ranked, requirements, []);
      var allocations: Grant := [];
      var remaining := requirements;
      var i := 0;
      assert ranked[0..] == ranked;
      while i < |ranked|
        invariant 0 <= i <= |ranked|
        invariant nodes.Keys == old(nodes).Keys && order == old(order) && totalOrder == old(totalOrder) && strategy == old(strategy)
        invariant forall j | 0 <= j < |ranked| :: ranked[j] in nodes
        invariant PackFrom(nodes, ranked[i..], remaining, allocations) == target
      {
        var id := ranked[i];
        assert ranked[i..][1..] == ranked[i + 1..];
        ghost var before := nodes;
        var outcome := AllocateFromNode(id, remaining);
        match outcome {
        case StepKeyError(k) =>
          PackFromKeyError(before, ranked[i..], remaining, allocations);
          return Err(MissingKind(k));
        case Declined =>
          PackFromSkip(before, ranked[i..], remaining, allocations);
        case Granted(a) =>
          if a == map[] {
            PackFromSkip(before, ranked[i..], remaining, allocations);
          } else {
            PackFromGrant(before, ranked[i..], remaining, allocations);
            allocations := allocations + [(id, a)];
            remaining := ShrinkRemaining(remaining, a);
            if remaining == [] {
              return Ok(allocations);
            }
          }
        }
        i := i + 1;
      }
      if remaining != [] {
        return Err(Insufficient(remaining));
      }
      return Ok(allocations);
    }

    /**
     * `_allocate_from_node`: take from one node kind by kind, committing each kind
     * as it goes; a kind with nothing free declines the rest, leaving earlier kinds taken.
     */
    method AllocateFromNode(id: NodeId, requirements: Amounts) returns (outcome: StepOutcome)
      requires id in nodes
      modifies this
      ensures order == old(order) && totalOrder == old(totalOrder) && strategy == old(strategy)
      ensures var step := TakeFrom(old(nodes)[id], requirements, map[]);
        nodes == old(nodes)[id := step.node] && outcome == step.outcome
    {
      var allocation: map<ResourceType, real> := map[];
      var i := 0;
      while i < |requirements|
        invariant 0 <= i <= |requirements|
        invariant id in nodes && nodes == old(nodes)[id := nodes[id]]
        invariant order == old(order) && totalOrder == old(totalOrder) && strategy == old(strategy)
        invariant TakeFrom(nodes[id], requirements[i..], allocation) == TakeFrom(old(nodes)[id], requirements, map[])
      {
        assert requirements[i..][1..] == requirements[i + 1..];
        var k := requirements[i].kind;
        var n := nodes[id];
        if k !in n.total || k !in n.used {
          return StepKeyError(k);
        }
        var available := n.total[k] - n.used[k];
        if available <= 0.0 {
          return Declined;
        }
        var amount := Min(requirements[i].amount, available);
        allocation := allocation[k := amount];
        nodes := nodes[id := n.(used := n.used[k := n.used[k] + amount])];
        i := i + 1;
      }
      return Granted(allocation);
    }

    /** `release_resources`: an unknown node is ignored; untracked kinds are skipped. */
    method ReleaseResources(id: NodeId, resources: map<ResourceType, real>)
      requires Valid()
      modifies this
      ensures Valid() && order == old(order) && totalOrder == old(totalOrder) && strategy == old(strategy)
      ensures nodes == if id in old(nodes) then old(nodes)[id := Released(old(nodes)[id], resources)] else old(nodes)
    {
      if id !in nodes {
        return;
      }
      var n := nodes[id];
      var used := n.used;
      var todo := resources.Keys;
      while todo != {}
        invariant todo <= resources.Keys
        invariant used.Keys == n.used.Keys
        invariant forall k | k in used ::
          used[k] == if k in resources && k !in todo then Max(n.used[k] - resources[k], 0.0) else n.used[k]
        decreases todo
      {
        var k :| k in todo;
        if k in used {
          used := used[k := Max(used[k] - resources[k], 0.0)];
        }
        todo := todo - {k};
      }
      assert used == Released(n, resources).used;
      nodes := nodes[id := n.(used := used)];
    }

    /**
     * `update_node_resources`: the caller's `new_total`, completed in place with the
     * kinds it omits (returned as `merged`, with its key order `mergedKinds`), becomes
     * the row's totals.  Unknown ids are ignored.
     */
    method UpdateNodeResources(id: NodeId, newTotal: map<ResourceType, real>, newKinds: seq<ResourceType>)
      returns (merged: map<ResourceType, real>, mergedKinds: seq<ResourceType>)
      requires Valid() && KeyOrder(newKinds, newTotal)
      modifies this
      ensures Valid() && order == old(order) && strategy == old(strategy)
      ensures id !in old(nodes) ==>
        nodes == old(nodes) && totalOrder == old(totalOrder) && merged == newTotal && mergedKinds == newKinds
      ensures id in old(nodes) ==>
        && merged == old(nodes)[id].total + newTotal
        && mergedKinds == newKinds + Omitted(old(totalOrder)[id], newTotal)
        && nodes == old(nodes)[id := Updated(old(nodes)[id], newTotal)]
        && totalOrder == old(totalOrder)[id := mergedKinds]
    {
      if id !in nodes {
        return newTotal, newKinds;
      }
      var current := nodes[id];
      merged, mergedKinds := MergeTotals(current.total, totalOrder[id], newTotal, newKinds);
      UpdatedKeyOrder(current, totalOrder[id], newKinds, newTotal);
      RowReplaced(nodes, totalOrder, id, NodeResources(merged, current.used), mergedKinds);
      nodes := nodes[id := NodeResources(merged, current.used)];
      totalOrder := totalOrder[id := mergedKinds];
    }

    /** `get_node_utilization`: ValueError for an unknown id, otherwise the row's ratios in its totals' order. */
    function GetNodeUtilization(id: NodeId): (r: Result<map<ResourceType, real>, AllocError>)
      requires Valid()
      reads this
      ensures id !in nodes <==> r == Err(UnknownNode(id))
      ensures id in nodes ==> r == Utilization(nodes[id], totalOrder[id])
    {
      if id !in nodes then Err(UnknownNode(id)) else Utilization(nodes[id], totalOrder[id])
    }

    /** `set_allocation_strategy`: only a name in the strategy table is accepted. */
    method SetAllocationStrategy(name: string) returns (r: Result<(), AllocError>)
      modifies this
      ensures nodes == old(nodes) && order == old(order) && totalOrder == old(totalOrder)
      ensures name in StrategyNames ==> r.Ok? && strategy == name
      ensures name !in StrategyNames ==> r == Err(InvalidStrategy(name)) && strategy == old(strategy)
    {
      if name !in StrategyNames {
        return Err(InvalidStrategy(name));
      }
      strategy := name;
      return Ok(());
    }
  }

  /** The caller's dict after the update loop visited the old kinds `ks` in order. */
  function MergedPrefix(total: map<ResourceType, real>, ks: seq<ResourceType>, newTotal: map<ResourceType, real>): map<ResourceType, real>
  {
    if ks == [] then newTotal
    else
      var m := MergedPrefix(total, ks[..|ks| - 1], newTotal);
      var k := ks[|ks| - 1];
      if k in m || k !in total then m else m[k := total[k]]
  }

  /** Visiting the old kinds `ks` adds exactly those the caller's dict lacks, at their old totals. */
  lemma {:induction false} MergedPrefixIs(total: map<ResourceType, real>, ks: seq<ResourceType>, newTotal: map<ResourceType, real>)
    requires forall k | k in ks :: k in total
    ensures MergedPrefix(total, ks, newTotal) == (map k | k in ks :: total[k]) + newTotal
    decreases |ks|
  {
    if ks != [] {
      var init := ks[..|ks| - 1];
      assert ks == init + [ks[|ks| - 1]];
      MergedPrefixIs(total, init, newTotal);
    }
  }

  /** Once every old kind was visited, the dict is the old totals overridden by the caller's. */
  lemma MergedAll(total: map<ResourceType, real>, kinds: seq<ResourceType>, newTotal: map<ResourceType, real>)
    requires KeyOrder(kinds, total)
    ensures MergedPrefix(total, kinds, newTotal) == total + newTotal
  {
    MergedPrefixIs(total, kinds, newTotal);
    assert (map k | k in kinds :: total[k]) == total;
  }

  /** One visit of the update loop: the next old kind is appended exactly when the dict lacks it. */
  lemma MergeStep(total: map<ResourceType, real>, kinds: seq<ResourceType>, i: nat, newTotal: map<ResourceType, real>, newKinds: seq<ResourceType>)
    requires i < |kinds| && kinds[i] in total
    ensures var m := MergedPrefix(total, kinds[..i], newTotal);
      MergedPrefix(total, kinds[..i + 1], newTotal) == if kinds[i] in m then m else m[kinds[i] := total[kinds[i]]]
    ensures newKinds + Omitted(kinds[..i + 1], newTotal) ==
      if kinds[i] in newTotal then newKinds + Omitted(kinds[..i], newTotal) else newKinds + Omitted(kinds[..i], newTotal) + [kinds[i]]
  {
    assert kinds[..i + 1][..i] == kinds[..i];
  }

  /** Before its own kind is visited, an old kind is in the dict exactly when the caller gave it. */
  lemma MergedLacks(total: map<ResourceType, real>, kinds: seq<ResourceType>, i: nat, newTotal: map<ResourceType, real>)
    requires KeyOrder(kinds, total) && i < |kinds|
    ensures kinds[i] in total
    ensures kinds[i] in MergedPrefix(total, kinds[..i], newTotal) <==> kinds[i] in newTotal
  {
    assert kinds[i] !in kinds[..i];
    MergedPrefixIs(total, kinds[..i], newTotal);
  }

  /**
   * The loop of `update_node_resources`: walk the old totals in their key order and
   * add each kind the caller's dict lacks, at its old total, to the end of that dict.
   */
  method MergeTotals(total: map<ResourceType, real>, kinds: seq<ResourceType>, newTotal: map<ResourceType, real>, newKinds: seq<ResourceType>)
    returns (merged: map<ResourceType, real>, mergedKinds: seq<ResourceType>)
    requires KeyOrder(kinds, total)
    ensures merged == total + newTotal
    ensures mergedKinds == newKinds + Omitted(kinds, newTotal)
  {
    merged, mergedKinds := newTotal, newKinds;
    var i := 0;
    while i < |kinds|
      invariant 0 <= i <= |kinds|
      invariant merged == MergedPrefix(total, kinds[..i], newTotal)
      invariant mergedKinds == newKinds + Omitted(kinds[..i], newTotal)
    {
      var k := kinds[i];
      MergedLacks(total, kinds, i, newTotal);
      MergeStep(total, kinds, i, newTotal, newKinds);
      if k !in merged {
        merged := merged[k := total[k]];
        mergedKinds := mergedKinds + [k];
      }
      i := i + 1;
    }
    assert kinds[..i] == kinds;
    MergedAll(total, kinds, newTotal);
  }

  /** Remainder bookkeeping after a node contributed `a`, as the loop's intended behaviour. */
  lemma ShrinkNext(next: Amounts, remaining: Amounts, a: map<ResourceType, real>, i: nat)
    requires i < |remaining|
    ensures var left := remaining[i].amount - Get(a, remaining[i].kind);
      next + Shrink(remaining[i..], a) ==
        (if left > Tolerance then next + [Entry(remaining[i].kind, left)] else next) + Shrink(remaining[i + 1..], a)
  {
    assert remaining[i..][1..] == remaining[i + 1..];
    var left := remaining[i].amount - Get(a, remaining[i].kind);
    if left > Tolerance {
      assert next + ([Entry(remaining[i].kind, left)] + Shrink(remaining[i + 1..], a))
        == next + [Entry(remaining[i].kind, left)] + Shrink(remaining[i + 1..], a);
    }
  }

  method ShrinkRemaining(remaining: Amounts, a: map<ResourceType, real>) returns (next: Amounts)
    ensures next == Shrink(remaining, a)
  {
    next := [];
    var i := 0;
    while i < |remaining|
      invariant 0 <= i <= |remaining|
      invariant next + Shrink(remaining[i..], a) == Shrink(remaining, a)
    {
      ShrinkNext(next, remaining, a, i);
      var left := remaining[i].amount - Get(a, remaining[i].kind);
      if left > Tolerance {
        next := next + [Entry(remaining[i].kind, left)];
      }
      i := i + 1;
    }
  }
}
