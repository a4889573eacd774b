/**
 * The integer capacity/load orchestrator of src/agent_management/swarm_engine.py:
 * nodes seeded from a topology list, a greedy placement of one task's requirement
 * over the nodes in descending free capacity, and release.
 *
 * Reading and parsing the topology file is I/O and not modelled: the constructor
 * takes the already parsed list of `{id, capacity}` entries.
 */
module SwarmEngine {
  import opened Wrappers
  import opened StableSort

  type NodeId = string

  /** `NodeState`; `last_heartbeat` is never read and not modelled. */
  datatype NodeState = NodeState(capacity: int, load: int)

  /** One `{"id": ..., "capacity": ...}` entry of the topology's node list. */
  datatype TopologyNode = TopologyNode(id: NodeId, capacity: int)

  datatype SwarmError =
    | MissingRequirements      // KeyError: a task without a 'requirements' entry
    | InsufficientResources    // RuntimeError: requirement left over after every node
    | NoExecutorLock           // AttributeError: a ThreadPoolExecutor has no `lock`

  function Free(s: NodeState): int
  {
    s.capacity - s.load
  }

  predicate Distinct(ids: seq<NodeId>)
  {
    forall i, j | 0 <= i < j < |ids| :: ids[i] != ids[j]
  }

  lemma DistinctAppend(ids: seq<NodeId>, x: NodeId)
    requires Distinct(ids) && x !in ids
    ensures Distinct(ids + [x])
  {
    forall i, j | 0 <= i < j < |ids + [x]| ensures (ids + [x])[i] != (ids + [x])[j] {
      if j == |ids| {
        assert (ids + [x])[i] == ids[i];
      }
    }
  }

  /** The node table in insertion order. */
  datatype Swarm = Swarm(nodes: map<NodeId, NodeState>, order: seq<NodeId>)

  ghost predicate SwarmOk(w: Swarm)
  {
    Distinct(w.order) && forall id :: id in w.nodes <==> id in w.order
  }

  /** Every node's load is within `[0, capacity]`. */
  predicate Loaded(nodes: map<NodeId, NodeState>)
  {
    forall id | id in nodes :: 0 <= nodes[id].load <= nodes[id].capacity
  }

  // ---------------------------------------------------------------------------
  // load_topology
  // ---------------------------------------------------------------------------

  function TopologyIds(entries: seq<TopologyNode>): (r: seq<NodeId>)
    ensures |r| == |entries|
  {
    if entries == [] then [] else TopologyIds(entries[..|entries| - 1]) + [entries[|entries| - 1].id]
  }

  /**
   * `{n['id']: NodeState(n['capacity']) for n in nodes}`: one node per distinct id
   * of the topology, in order of first occurrence, each with no load.
   */
  function Seeded(entries: seq<TopologyNode>): (r: Swarm)
    ensures SwarmOk(r)
    ensures forall id :: id in r.nodes <==> id in TopologyIds(entries)
    ensures forall id | id in r.nodes :: r.nodes[id].load == 0
    decreases |entries|
  {
    if entries == [] then Swarm(map[], [])
    else
      var e := entries[|entries| - 1];
      var w := Seeded(entries[..|entries| - 1]);
      if e.id in w.nodes then Swarm(w.nodes[e.id := NodeState(e.capacity, 0)], w.order)
      else
        DistinctAppend(w.order, e.id);
        Swarm(w.nodes[e.id := NodeState(e.capacity, 0)], w.order + [e.id])
  }

  /** `entries[i]` is the last entry for its id: no later entry overwrites it. */
  predicate LastFor(entries: seq<TopologyNode>, i: nat)
    requires i < |entries|
  {
    forall j | i < j < |entries| :: entries[j].id != entries[i].id
  }

  /** When an id occurs several times, the capacity of its last entry wins. */
  lemma {:induction false} SeededCapacity(entries: seq<TopologyNode>, i: nat)
    requires i < |entries| && LastFor(entries, i)
    ensures entries[i].id in Seeded(entries).nodes
    ensures Seeded(entries).nodes[entries[i].id].capacity == entries[i].capacity
    decreases |entries|
  {
    var init := entries[..|entries| - 1];
    if i < |entries| - 1 {
      assert init[i] == entries[i];
      assert LastFor(init, i) by {
        forall j | i < j < |init| ensures init[j].id != init[i].id {
          assert init[j] == entries[j];
        }
      }
      SeededCapacity(init, i);
    }
  }

  // ---------------------------------------------------------------------------
  // allocate_task: the ranking
  // ---------------------------------------------------------------------------

  /** The table's items with their free capacity as the sort key. */
  function Frees(nodes: map<NodeId, NodeState>, order: seq<NodeId>): (r: seq<Scored>)
    requires forall i | 0 <= i < |order| :: order[i] in nodes
    ensures |r| == |order| && forall i | 0 <= i < |order| :: r[i] == (order[i], Free(nodes[order[i]]) as real)
  {
    seq(|order|, i requires 0 <= i < |order| => (order[i], Free(nodes[order[i]]) as real))
  }

  /** Every element of the sorted items is a node paired with its free capacity. */
  lemma SortedFrees(nodes: map<NodeId, NodeState>, order: seq<NodeId>)
    requires forall i | 0 <= i < |order| :: order[i] in nodes
    ensures var t := SortDesc(Frees(nodes, order));
      |t| == |order| && forall k | 0 <= k < |t| :: t[k].0 in nodes && t[k].1 == Free(nodes[t[k].0]) as real
  {
    var f := Frees(nodes, order);
    SortDescKeeps(f);
    var t := SortDesc(f);
    forall k | 0 <= k < |t| ensures t[k].0 in nodes && t[k].1 == Free(nodes[t[k].0]) as real {
      assert t[k] in f;
    }
  }

  /** `sorted(nodes.items(), key=capacity - load, reverse=True)`, as ids. */
  function Ranked(nodes: map<NodeId, NodeState>, order: seq<NodeId>): (r: seq<NodeId>)
    requires forall i | 0 <= i < |order| :: order[i] in nodes
    ensures |r| == |order| && forall k | 0 <= k < |r| :: r[k] in nodes
  {
    SortedFrees(nodes, order);
    Ids(SortDesc(Frees(nodes, order)))
  }

  /** The ids among `ids` whose free capacity is `v`, in order. */
  function Tied(nodes: map<NodeId, NodeState>, ids: seq<NodeId>, v: int): seq<NodeId>
    requires forall k | 0 <= k < |ids| :: ids[k] in nodes
  {
    if ids == [] then []
    else
      assert forall k | 0 <= k < |ids[1..]| :: ids[1..][k] == ids[k + 1];
      if Free(nodes[ids[0]]) == v then [ids[0]] + Tied(nodes, ids[1..], v) else Tied(nodes, ids[1..], v)
  }

  lemma {:induction false} TiedIds(nodes: map<NodeId, NodeState>, t: seq<Scored>, v: int)
    requires forall k | 0 <= k < |t| :: t[k].0 in nodes && t[k].1 == Free(nodes[t[k].0]) as real
    ensures Tied(nodes, Ids(t), v) == Ids(WithKey(t, v as real))
  {
    if t != [] {
      assert Ids(t)[1..] == Ids(t[1..]);
      assert forall k | 0 <= k < |t[1..]| :: t[1..][k] == t[k + 1];
      TiedIds(nodes, t[1..], v);
      if t[0].1 == v as real {
        assert Ids([t[0]] + WithKey(t[1..], v as real)) == [t[0].0] + Ids(WithKey(t[1..], v as real));
      }
    }
  }

  /**
   * The ranking visits every node once, in descending free capacity, and nodes
   * with equal free capacity keep their table order (the sort is stable).
   */
  lemma RankedFacts(nodes: map<NodeId, NodeState>, order: seq<NodeId>)
    requires forall i | 0 <= i < |order| :: order[i] in nodes
    requires Distinct(order)
    ensures var r := Ranked(nodes, order);
      && Distinct(r) && (forall id :: id in r <==> id in order)
      && (forall i, j | 0 <= i < j < |r| :: Free(nodes[r[i]]) >= Free(nodes[r[j]]))
      && forall v :: Tied(nodes, r, v) == Tied(nodes, order, v)
  {
    var f := Frees(nodes, order);
    SortDescIds(f);
    SortDescFacts(f);
    SortedFrees(nodes, order);
    var t := SortDesc(f);
    var r := Ids(t);
    forall id ensures id in r <==> id in order {
      if id in r {
        var k :| 0 <= k < |r| && r[k] == id;
        assert t[k] in f;
      }
      if id in order {
        var k :| 0 <= k < |order| && order[k] == id;
        assert f[k] in t;
      }
    }
    forall i, j | 0 <= i < j < |r| ensures Free(nodes[r[i]]) >= Free(nodes[r[j]]) {
      assert t[i].1 >= t[j].1;
    }
    forall v ensures Tied(nodes, r, v) == Tied(nodes, order, v) {
      TiedIds(nodes, t, v);
      TiedIds(nodes, f, v);
      assert Ids(f) == order;
    }
  }

  // ---------------------------------------------------------------------------
  // allocate_task: the placement
  // ---------------------------------------------------------------------------

  /** The nodes after a placement, the nodes it returns, and what it left unplaced. */
  datatype Placement = Placement(nodes: map<NodeId, NodeState>, placed: seq<NodeId>, remaining: int)

  /**
   * The loop of `allocate_task` over `ranked[from..]`: a node that can absorb the whole
   * remainder takes it and ends the loop; otherwise a node with free capacity is
   * filled to capacity and the remainder shrinks by what it had free; a full node
   * is passed over.  Only loads change.
   */
  function Place(nodes: map<NodeId, NodeState>, ranked: seq<NodeId>, from: nat, remaining: int): (p: Placement)
    requires from <= |ranked|
    requires forall i | 0 <= i < |ranked| :: ranked[i] in nodes
    ensures p.nodes.Keys == nodes.Keys
    ensures forall id | id in nodes :: p.nodes[id].capacity == nodes[id].capacity
    decreases |ranked| - from
  {
    if from == |ranked| then Placement(nodes, [], remaining)
    else
      var id := ranked[from];
      var s := nodes[id];
      if s.load + remaining <= s.capacity then
        Placement(nodes[id := s.(load := s.load + remaining)], [id], 0)
      else if s.capacity - s.load > 0 then
        var p := Place(nodes[id := s.(load := s.capacity)], ranked, from + 1, remaining - (s.capacity - s.load));
        Placement(p.nodes, [id] + p.placed, p.remaining)
      else Place(nodes, ranked, from + 1, remaining)
  }

  /** `a` lists some of the elements of `b`, in the same order. */
  predicate Subsequence(a: seq<NodeId>, b: seq<NodeId>)
    decreases |b|
  {
    if a == [] then true
    else if b == [] then false
    else if a[0] == b[0] then Subsequence(a[1..], b[1..])
    else Subsequence(a, b[1..])
  }

  /** A node with its load raised to its capacity. */
  function Filled(nodes: map<NodeId, NodeState>, id: NodeId): map<NodeId, NodeState>
    requires id in nodes
  {
    nodes[id := nodes[id].(load := nodes[id].capacity)]
  }

  /** `p` returns some of `ranked[from..]`, in ranked order and once each, and changes no other node of `nodes`. */
  predicate PlacedWithin(nodes: map<NodeId, NodeState>, ranked: seq<NodeId>, from: nat, p: Placement)
    requires from <= |ranked|
  {
    && Subsequence(p.placed, ranked[from..]) && Distinct(p.placed)
    && (forall id | id in p.placed :: id in ranked[from..])
    && forall id | id in nodes && id !in p.placed :: id in p.nodes && p.nodes[id] == nodes[id]
  }

  /** A node returned in front of a placement of the later nodes, which it does not change, keeps the shape. */
  lemma ConsWithin(nodes: map<NodeId, NodeState>, nodes': map<NodeId, NodeState>, ranked: seq<NodeId>, from: nat, q: Placement)
    requires from < |ranked| && Distinct(ranked)
    requires forall x | x in nodes && x != ranked[from] :: x in nodes' && nodes'[x] == nodes[x]
    requires PlacedWithin(nodes', ranked, from + 1, q)
    ensures PlacedWithin(nodes, ranked, from, Placement(q.nodes, [ranked[from]] + q.placed, q.remaining))
  {
    var id := ranked[from];
    var rest := ranked[from + 1..];
    var b := ranked[from..];
    assert b == [id] + rest;
    assert forall k | 0 <= k < |rest| :: rest[k] == ranked[from + 1 + k] && rest[k] != id;
    var a := [id] + q.placed;
    assert a[1..] == q.placed && a[0] == id;
    assert id !in q.placed;
    assert Subsequence(a, b);
    assert forall k | 0 <= k < |q.placed| :: a[k + 1] == q.placed[k];
    assert Distinct(a);
    assert forall x | x in a :: x in b;
  }

  /** A full node passed over in front of the rest of the placement keeps the shape. */
  lemma PlaceShapeSkip(nodes: map<NodeId, NodeState>, ranked: seq<NodeId>, from: nat, remaining: int)
    requires from < |ranked|
    requires forall i | 0 <= i < |ranked| :: ranked[i] in nodes
    requires Distinct(ranked)
    requires var s := nodes[ranked[from]]; s.load + remaining > s.capacity && s.capacity - s.load <= 0
    requires PlacedWithin(nodes, ranked, from + 1, Place(nodes, ranked, from + 1, remaining))
    ensures PlacedWithin(nodes, ranked, from, Place(nodes, ranked, from, remaining))
  {
    var rest := ranked[from + 1..];
    assert ranked[from..][1..] == rest && ranked[from..][0] == ranked[from];
    assert forall k | 0 <= k < |rest| :: rest[k] == ranked[from + 1 + k] && rest[k] != ranked[from];
    var p := Place(nodes, ranked, from + 1, remaining);
    assert Place(nodes, ranked, from, remaining) == p;
    if p.placed != [] {
      assert p.placed[0] in rest;
    }
  }

  /**
   * A placement returns some of the ranked nodes, in ranked order and once each,
   * and changes no other node.
   */
  lemma {:induction false} PlaceShape(nodes: map<NodeId, NodeState>, ranked: seq<NodeId>, from: nat, remaining: int)
    requires from <= |ranked|
    requires forall i | 0 <= i < |ranked| :: ranked[i] in nodes
    requires Distinct(ranked)
    ensures PlacedWithin(nodes, ranked, from, Place(nodes, ranked, from, remaining))
    decreases |ranked| - from
  {
    if from < |ranked| {
      var s := nodes[ranked[from]];
      if s.load + remaining <= s.capacity {
        var rest := ranked[from + 1..];
        assert ranked[from..][1..] == rest && ranked[from..][0] == ranked[from];
        assert Subsequence([ranked[from]][1..], rest);
      } else if s.capacity - s.load > 0 {
        var nodes' := Filled(nodes, ranked[from]);
        var p := Place(nodes', ranked, from + 1, remaining - (s.capacity - s.load));
        PlaceShape(nodes', ranked, from + 1, remaining - (s.capacity - s.load));
        ConsWithin(nodes, nodes', ranked, from, p);
        assert Place(nodes, ranked, from, remaining) == Placement(p.nodes, [ranked[from]] + p.placed, p.remaining);
      } else {
        PlaceShape(nodes, ranked, from + 1, remaining);
        PlaceShapeSkip(nodes, ranked, from, remaining);
      }
    }
  }

  /** The node a placement step starts from is not returned by the rest of the placement, which leaves it as it was. */
  lemma PlaceSkipsFirst(nodes: map<NodeId, NodeState>, ranked: seq<NodeId>, from: nat, remaining: int)
    requires from < |ranked|
    requires forall i | 0 <= i < |ranked| :: ranked[i] in nodes
    requires Distinct(ranked)
    ensures var p := Place(nodes, ranked, from + 1, remaining);
      ranked[from] !in p.placed && p.nodes[ranked[from]] == nodes[ranked[from]]
  {
    PlaceShape(nodes, ranked, from + 1, remaining);
    assert forall k | from + 1 <= k < |ranked| :: ranked[k] != ranked[from];
    assert ranked[from] !in ranked[from + 1..];
  }

  /** A non-negative requirement never leaves a negative remainder. */
  lemma {:induction false} PlaceRemainder(nodes: map<NodeId, NodeState>, ranked: seq<NodeId>, from: nat, remaining: int)
    requires from <= |ranked|
    requires forall i | 0 <= i < |ranked| :: ranked[i] in nodes
    requires remaining >= 0
    ensures Place(nodes, ranked, from, remaining).remaining >= 0
    decreases |ranked| - from
  {
    if from < |ranked| {
      var id := ranked[from];
      var s := nodes[id];
      if s.load + remaining > s.capacity && s.capacity - s.load > 0 {
        PlaceRemainder(nodes[id := s.(load := s.capacity)], ranked, from + 1, remaining - (s.capacity - s.load));
      } else if s.load + remaining > s.capacity {
        PlaceRemainder(nodes, ranked, from + 1, remaining);
      }
    }
  }

  /** A non-negative requirement keeps every load within `[0, capacity]`. */
  lemma {:induction false} PlaceKeepsLoaded(nodes: map<NodeId, NodeState>, ranked: seq<NodeId>, from: nat, remaining: int)
    requires from <= |ranked|
    requires forall i | 0 <= i < |ranked| :: ranked[i] in nodes
    requires Loaded(nodes) && remaining >= 0
    ensures Loaded(Place(nodes, ranked, from, remaining).nodes)
    decreases |ranked| - from
  {
    if from < |ranked| {
      var id := ranked[from];
      var s := nodes[id];
      if s.load + remaining > s.capacity && s.capacity - s.load > 0 {
        PlaceKeepsLoaded(nodes[id := s.(load := s.capacity)], ranked, from + 1, remaining - (s.capacity - s.load));
      } else if s.load + remaining > s.capacity {
        PlaceKeepsLoaded(nodes, ranked, from + 1, remaining);
      }
    }
  }

  /** The load the placement added to the listed nodes. */
  function Added(before: map<NodeId, NodeState>, after: map<NodeId, NodeState>, ids: seq<NodeId>): int
    requires forall i | 0 <= i < |ids| :: ids[i] in before && ids[i] in after
  {
    if ids == [] then 0
    else
      assert forall i | 0 <= i < |ids[1..]| :: ids[1..][i] == ids[i + 1];
      after[ids[0]].load - before[ids[0]].load + Added(before, after, ids[1..])
  }

  lemma {:induction false} AddedFrame(a: map<NodeId, NodeState>, b: map<NodeId, NodeState>, after: map<NodeId, NodeState>, ids: seq<NodeId>)
    requires forall i | 0 <= i < |ids| :: ids[i] in a && ids[i] in b && ids[i] in after && a[ids[i]] == b[ids[i]]
    ensures Added(a, after, ids) == Added(b, after, ids)
  {
    if ids != [] {
      assert forall i | 0 <= i < |ids[1..]| :: ids[1..][i] == ids[i + 1];
      AddedFrame(a, b, after, ids[1..]);
    }
  }

  /** The load added to the returned nodes is the part of `remaining` that was placed. */
  predicate Accounted(nodes: map<NodeId, NodeState>, p: Placement, remaining: int)
  {
    && (forall i | 0 <= i < |p.placed| :: p.placed[i] in nodes && p.placed[i] in p.nodes)
    && Added(nodes, p.nodes, p.placed) == remaining - p.remaining
  }

  /** A node filled to capacity and returned in front of a placement of the rest adds exactly what it had free. */
  lemma ConsAccounted(nodes: map<NodeId, NodeState>, id: NodeId, q: Placement, remaining: int)
    requires id in nodes && id in q.nodes && id !in q.placed
    requires q.nodes[id].load == nodes[id].capacity
    requires Accounted(Filled(nodes, id), q, remaining - (nodes[id].capacity - nodes[id].load))
    ensures Accounted(nodes, Placement(q.nodes, [id] + q.placed, q.remaining), remaining)
  {
    var a := [id] + q.placed;
    assert a[1..] == q.placed && a[0] == id;
    assert forall k | 0 <= k < |q.placed| :: a[k + 1] == q.placed[k] && q.placed[k] != id;
    AddedFrame(nodes, Filled(nodes, id), q.nodes, q.placed);
  }

  /** The load a placement adds to the nodes it returns is exactly the part of the requirement it placed. */
  lemma {:induction false} PlaceAccounts(nodes: map<NodeId, NodeState>, ranked: seq<NodeId>, from: nat, remaining: int)
    requires from <= |ranked|
    requires forall i | 0 <= i < |ranked| :: ranked[i] in nodes
    requires Distinct(ranked)
    ensures Accounted(nodes, Place(nodes, ranked, from, remaining), remaining)
    decreases |ranked| - from
  {
    if from < |ranked| {
      var id := ranked[from];
      var s := nodes[id];
      if s.load + remaining > s.capacity && s.capacity - s.load > 0 {
        var nodes' := Filled(nodes, id);
        var rem' := remaining - (s.capacity - s.load);
        PlaceAccounts(nodes', ranked, from + 1, rem');
        PlaceSkipsFirst(nodes', ranked, from, rem');
        var p := Place(nodes', ranked, from + 1, rem');
        ConsAccounted(nodes, id, p, remaining);
        assert Place(nodes, ranked, from, remaining) == Placement(p.nodes, [id] + p.placed, p.remaining);
      } else if s.load + remaining > s.capacity {
        PlaceAccounts(nodes, ranked, from + 1, remaining);
      } else {
        var a := [id];
        assert Added(nodes, nodes[id := s.(load := s.load + remaining)], a) == remaining;
      }
    }
  }

  /** Every returned node but the last is full. */
  predicate FullButLast(p: Placement)
  {
    forall i | 0 <= i < |p.placed| - 1 :: p.placed[i] in p.nodes && p.nodes[p.placed[i]].load == p.nodes[p.placed[i]].capacity
  }

  /** Every returned node but the last has been filled exactly to capacity. */
  lemma {:induction false} PlaceFillsAllButLast(nodes: map<NodeId, NodeState>, ranked: seq<NodeId>, from: nat, remaining: int)
    requires from <= |ranked|
    requires forall i | 0 <= i < |ranked| :: ranked[i] in nodes
    requires Distinct(ranked)
    ensures FullButLast(Place(nodes, ranked, from, remaining))
    decreases |ranked| - from
  {
    if from < |ranked| {
      var id := ranked[from];
      var s := nodes[id];
      if s.load + remaining > s.capacity && s.capacity - s.load > 0 {
        var nodes' := nodes[id := s.(load := s.capacity)];
        var rem' := remaining - (s.capacity - s.load);
        PlaceFillsAllButLast(nodes', ranked, from + 1, rem');
        PlaceSkipsFirst(nodes', ranked, from, rem');
        var p := Place(nodes', ranked, from + 1, rem');
        var a := [id] + p.placed;
        forall i | 0 <= i < |a| - 1 ensures a[i] in p.nodes && p.nodes[a[i]].load == p.nodes[a[i]].capacity {
          if i > 0 {
            assert a[i] == p.placed[i - 1];
          }
        }
      } else if s.load + remaining > s.capacity {
        PlaceFillsAllButLast(nodes, ranked, from + 1, remaining);
      }
    }
  }

  /** The free capacity of the nodes in `ids[from..]` that have any. */
  function PositiveFree(nodes: map<NodeId, NodeState>, ids: seq<NodeId>, from: nat): (r: int)
    requires from <= |ids|
    requires forall i | 0 <= i < |ids| :: ids[i] in nodes
    ensures r >= 0
    decreases |ids| - from
  {
    if from == |ids| then 0
    else (if Free(nodes[ids[from]]) > 0 then Free(nodes[ids[from]]) else 0) + PositiveFree(nodes, ids, from + 1)
  }

  lemma {:induction false} PositiveFreeFrame(a: map<NodeId, NodeState>, b: map<NodeId, NodeState>, ids: seq<NodeId>, from: nat)
    requires from <= |ids|
    requires forall i | 0 <= i < |ids| :: ids[i] in a && ids[i] in b
    requires forall i | from <= i < |ids| :: a[ids[i]] == b[ids[i]]
    ensures PositiveFree(a, ids, from) == PositiveFree(b, ids, from)
    decreases |ids| - from
  {
    if from < |ids| {
      PositiveFreeFrame(a, b, ids, from + 1);
    }
  }

  /**
   * `p` falls short of `remaining` exactly when the free capacity of `ranked[from..]`,
   * counting only nodes that have any, is below it; it then falls short by the
   * difference, and every such node is full in `p`.
   */
  predicate FallsShort(nodes: map<NodeId, NodeState>, ranked: seq<NodeId>, from: nat, remaining: int, p: Placement)
    requires from <= |ranked|
    requires forall i | 0 <= i < |ranked| :: ranked[i] in nodes
  {
    && (p.remaining > 0 <==> PositiveFree(nodes, ranked, from) < remaining)
    && (p.remaining > 0 ==> p.remaining == remaining - PositiveFree(nodes, ranked, from))
    && (p.remaining > 0 ==> forall k | from <= k < |ranked| && Free(nodes[ranked[k]]) > 0 ::
          ranked[k] in p.nodes && p.nodes[ranked[k]].load == p.nodes[ranked[k]].capacity)
  }

  /** A node filled to capacity in front of a placement of the rest, which leaves it full, keeps the shortfall account. */
  lemma ConsFallsShort(nodes: map<NodeId, NodeState>, ranked: seq<NodeId>, from: nat, remaining: int, q: Placement)
    requires from < |ranked|
    requires forall i | 0 <= i < |ranked| :: ranked[i] in nodes
    requires Distinct(ranked)
    requires Free(nodes[ranked[from]]) > 0
    requires FallsShort(Filled(nodes, ranked[from]), ranked, from + 1, remaining - Free(nodes[ranked[from]]), q)
    requires ranked[from] in q.nodes && q.nodes[ranked[from]] == Filled(nodes, ranked[from])[ranked[from]]
    ensures FallsShort(nodes, ranked, from, remaining, Placement(q.nodes, [ranked[from]] + q.placed, q.remaining))
  {
    var id := ranked[from];
    var nodes' := Filled(nodes, id);
    assert forall i | from + 1 <= i < |ranked| :: ranked[i] != id && nodes'[ranked[i]] == nodes[ranked[i]];
    PositiveFreeFrame(nodes, nodes', ranked, from + 1);
  }

  /**
   * The placement falls short exactly when the free capacity of the remaining nodes,
   * counting only nodes that have any, is below the requirement; it then falls short
   * by the difference, and every such node has been filled to capacity, not rolled back.
   */
  lemma {:induction false} PlaceShortfall(nodes: map<NodeId, NodeState>, ranked: seq<NodeId>, from: nat, remaining: int)
    requires from <= |ranked|
    requires forall i | 0 <= i < |ranked| :: ranked[i] in nodes
    requires Distinct(ranked)
    ensures FallsShort(nodes, ranked, from, remaining, Place(nodes, ranked, from, remaining))
    decreases |ranked| - from
  {
    if from < |ranked| {
      var id := ranked[from];
      var s := nodes[id];
      if s.load + remaining > s.capacity && s.capacity - s.load > 0 {
        var nodes' := Filled(nodes, id);
        var rem' := remaining - (s.capacity - s.load);
        PlaceShortfall(nodes', ranked, from + 1, rem');
        PlaceSkipsFirst(nodes', ranked, from, rem');
        var p := Place(nodes', ranked, from + 1, rem');
        ConsFallsShort(nodes, ranked, from, remaining, p);
        assert Place(nodes, ranked, from, remaining) == Placement(p.nodes, [id] + p.placed, p.remaining);
      } else if s.load + remaining > s.capacity {
        PlaceShortfall(nodes, ranked, from + 1, remaining);
      }
    }
  }

  // ---------------------------------------------------------------------------
  // allocate_task as a whole
  // ---------------------------------------------------------------------------

  /** The nodes after `allocate_task` and what it returns or raises. */
  datatype Outcome = Outcome(nodes: map<NodeId, NodeState>, result: Result<seq<NodeId>, SwarmError>)

  function Allocation(w: Swarm, requirement: int): Outcome
    requires forall i | 0 <= i < |w.order| :: w.order[i] in w.nodes
  {
    var p := Place(w.nodes, Ranked(w.nodes, w.order), 0, requirement);
    Outcome(p.nodes, if p.remaining > 0 then Err(InsufficientResources) else Ok(p.placed))
  }

  /** The listed nodes come in descending free capacity. */
  predicate DescendingFree(nodes: map<NodeId, NodeState>, ids: seq<NodeId>)
    requires forall i | 0 <= i < |ids| :: ids[i] in nodes
  {
    forall i, j | 0 <= i < j < |ids| :: Free(nodes[ids[i]]) >= Free(nodes[ids[j]])
  }

  lemma {:induction false} SubsequenceDescending(nodes: map<NodeId, NodeState>, a: seq<NodeId>, b: seq<NodeId>)
    requires forall i | 0 <= i < |b| :: b[i] in nodes
    requires Subsequence(a, b) && DescendingFree(nodes, b)
    ensures (forall i | 0 <= i < |a| :: a[i] in b) && forall i | 0 <= i < |a| :: a[i] in nodes
    ensures DescendingFree(nodes, a)
    decreases |b|
  {
    if a != [] {
      var b' := b[1..];
      assert forall k | 0 <= k < |b'| :: b'[k] == b[k + 1];
      if a[0] == b[0] {
        SubsequenceDescending(nodes, a[1..], b');
        assert forall k | 0 <= k < |a[1..]| :: a[1..][k] == a[k + 1];
        forall j | 0 < j < |a| ensures Free(nodes[a[0]]) >= Free(nodes[a[j]]) {
          assert a[1..][j - 1] in b';
        }
      } else {
        SubsequenceDescending(nodes, a, b');
      }
    }
  }

  /**
   * `allocate_task` raises exactly when the free capacity of the nodes, counting
   * only nodes that have any, falls short of the requirement; and when it raises,
   * every such node has been left full: the partial placement is not rolled back.
   */
  lemma AllocationShortfall(w: Swarm, requirement: int)
    requires forall i | 0 <= i < |w.order| :: w.order[i] in w.nodes
    requires Distinct(w.order)
    ensures Allocation(w, requirement).result.Err? <==> PositiveFree(w.nodes, w.order, 0) < requirement
    ensures Allocation(w, requirement).result.Err? ==>
      forall k | 0 <= k < |w.order| && Free(w.nodes[w.order[k]]) > 0 ::
        Allocation(w, requirement).nodes[w.order[k]].load == Allocation(w, requirement).nodes[w.order[k]].capacity
  {
    RankedFacts(w.nodes, w.order);
    var r := Ranked(w.nodes, w.order);
    PlaceShortfall(w.nodes, r, 0, requirement);
    PositiveFreeOrder(w.nodes, r, w.order);
    var p := Place(w.nodes, r, 0, requirement);
    if p.remaining > 0 {
      forall k | 0 <= k < |w.order| && Free(w.nodes[w.order[k]]) > 0
        ensures p.nodes[w.order[k]].load == p.nodes[w.order[k]].capacity
      {
        assert w.order[k] in r;
        var j :| 0 <= j < |r| && r[j] == w.order[k];
      }
    }
  }

  /**
   * What a successful placement promises: the returned nodes are distinct table
   * nodes in descending free capacity, the load added to them is the requirement,
   * all but the last are full, and no other node changed.
   */
  ghost predicate Fulfilled(before: map<NodeId, NodeState>, after: map<NodeId, NodeState>, a: seq<NodeId>, requirement: int)
  {
    && Distinct(a)
    && (forall i | 0 <= i < |a| :: a[i] in before && a[i] in after)
    && DescendingFree(before, a)
    && Added(before, after, a) == requirement
    && (forall i | 0 <= i < |a| - 1 :: after[a[i]].load == after[a[i]].capacity)
    && forall id | id in before && id !in a :: id in after && after[id] == before[id]
  }

  /** A successful `allocate_task` with a non-negative requirement fulfils it. */
  lemma AllocationSucceeds(w: Swarm, requirement: int)
    requires forall i | 0 <= i < |w.order| :: w.order[i] in w.nodes
    requires Distinct(w.order) && requirement >= 0
    requires Allocation(w, requirement).result.Ok?
    ensures Fulfilled(w.nodes, Allocation(w, requirement).nodes, Allocation(w, requirement).result.value, requirement)
  {
    RankedFacts(w.nodes, w.order);
    var r := Ranked(w.nodes, w.order);
    assert r[0..] == r;
    PlaceShape(w.nodes, r, 0, requirement);
    PlaceRemainder(w.nodes, r, 0, requirement);
    PlaceAccounts(w.nodes, r, 0, requirement);
    PlaceFillsAllButLast(w.nodes, r, 0, requirement);
    var p := Place(w.nodes, r, 0, requirement);
    SubsequenceDescending(w.nodes, p.placed, r);
  }

  /** A non-negative requirement keeps every load of a table within capacity. */
  lemma AllocationKeepsLoaded(w: Swarm, requirement: int)
    requires forall i | 0 <= i < |w.order| :: w.order[i] in w.nodes
    requires Loaded(w.nodes) && requirement >= 0
    ensures Loaded(Allocation(w, requirement).nodes)
  {
    PlaceKeepsLoaded(w.nodes, Ranked(w.nodes, w.order), 0, requirement);
  }

  /**
   * Nothing rejects a negative requirement: it fits the first node, whose load then
   * drops below zero, and the allocation still succeeds.
   */
  lemma NegativeRequirementUnloads()
    ensures var w := Swarm(map["a" := NodeState(4, 0)], ["a"]);
      var out := Allocation(w, -1);
      Loaded(w.nodes) && out.result == Ok(["a"]) && out.nodes["a"].load == -1 && !Loaded(out.nodes)
  {
    var w := Swarm(map["a" := NodeState(4, 0)], ["a"]);
    assert Ranked(w.nodes, w.order) == ["a"];
  }

  /** The positive free capacity of a set of nodes. */
  ghost function SetFree(nodes: map<NodeId, NodeState>, ids: set<NodeId>): (r: int)
    requires ids <= nodes.Keys
    ensures r >= 0
    decreases ids
  {
    if ids == {} then 0
    else
      var id :| id in ids;
      (if Free(nodes[id]) > 0 then Free(nodes[id]) else 0) + SetFree(nodes, ids - {id})
  }

  /** Removing any one element first gives the same sum. */
  lemma {:induction false} SetFreeRemove(nodes: map<NodeId, NodeState>, ids: set<NodeId>, x: NodeId)
    requires ids <= nodes.Keys && x in ids
    ensures SetFree(nodes, ids) == (if Free(nodes[x]) > 0 then Free(nodes[x]) else 0) + SetFree(nodes, ids - {x})
    decreases ids
  {
    var id :| id in ids && SetFree(nodes, ids) == (if Free(nodes[id]) > 0 then Free(nodes[id]) else 0) + SetFree(nodes, ids - {id});
    if id != x {
      SetFreeRemove(nodes, ids - {id}, x);
      SetFreeRemove(nodes, ids - {x}, id);
      assert ids - {id} - {x} == ids - {x} - {id};
    }
  }

  lemma {:induction false} PositiveFreeSet(nodes: map<NodeId, NodeState>, ids: seq<NodeId>, from: nat)
    requires from <= |ids|
    requires forall i | 0 <= i < |ids| :: ids[i] in nodes
    requires Distinct(ids)
    ensures (set k | from <= k < |ids| :: ids[k]) <= nodes.Keys
    ensures PositiveFree(nodes, ids, from) == SetFree(nodes, set k | from <= k < |ids| :: ids[k])
    decreases |ids| - from
  {
    if from < |ids| {
      PositiveFreeSet(nodes, ids, from + 1);
      var s := set k | from <= k < |ids| :: ids[k];
      assert forall k | from + 1 <= k < |ids| :: ids[k] != ids[from];
      assert s - {ids[from]} == set k | from + 1 <= k < |ids| :: ids[k];
      SetFreeRemove(nodes, s, ids[from]);
    }
  }

  /** Summing the positive free capacity does not depend on the order of the nodes. */
  lemma PositiveFreeOrder(nodes: map<NodeId, NodeState>, a: seq<NodeId>, b: seq<NodeId>)
    requires forall i | 0 <= i < |a| :: a[i] in nodes
    requires forall i | 0 <= i < |b| :: b[i] in nodes
    requires Distinct(a) && Distinct(b) && forall id :: id in a <==> id in b
    ensures PositiveFree(nodes, a, 0) == PositiveFree(nodes, b, 0)
  {
    PositiveFreeSet(nodes, a, 0);
    PositiveFreeSet(nodes, b, 0);
    var sa := set k | 0 <= k < |a| :: a[k];
    var sb := set k | 0 <= k < |b| :: b[k];
    forall x ensures x in sa <==> x in sb {
      if x in sa {
        var k :| 0 <= k < |a| && a[k] == x;
        assert x in b;
        var m :| 0 <= m < |b| && b[m] == x;
      }
      if x in sb {
        var k :| 0 <= k < |b| && b[k] == x;
        assert x in a;
        var m :| 0 <= m < |a| && a[m] == x;
      }
    }
    assert sa == sb;
  }

  // ---------------------------------------------------------------------------
  // release_resources
  // ---------------------------------------------------------------------------

  /** The listed known nodes with their load set to 0; every other node unchanged. */
  function Released(nodes: map<NodeId, NodeState>, ids: seq<NodeId>): (r: map<NodeId, NodeState>)
    ensures r.Keys == nodes.Keys
    ensures forall id | id in nodes && id in ids :: r[id] == nodes[id].(load := 0)
    ensures forall id | id in nodes && id !in ids :: r[id] == nodes[id]
  {
    map id | id in nodes :: if id in ids then nodes[id].(load := 0) else nodes[id]
  }

  /**
   * Allocation and release round-trip on an idle swarm: releasing the nodes a
   * successful allocation returned restores every node.
   */
  lemma ReleaseUndoesAllocation(w: Swarm, requirement: int)
    requires forall i | 0 <= i < |w.order| :: w.order[i] in w.nodes
    requires Distinct(w.order)
    requires forall id | id in w.nodes :: w.nodes[id].load == 0
    requires Allocation(w, requirement).result.Ok?
    ensures Released(Allocation(w, requirement).nodes, Allocation(w, requirement).result.value) == w.nodes
  {
    RankedFacts(w.nodes, w.order);
    var r := Ranked(w.nodes, w.order);
    PlaceShape(w.nodes, r, 0, requirement);
  }

  /**
   * `release_resources` as written: `self.executor` is a ThreadPoolExecutor, which
   * has no `lock` attribute, so the `with` statement raises before any load changes.
   */
  function ReleaseAsWritten(nodes: map<NodeId, NodeState>, ids: seq<NodeId>): Result<map<NodeId, NodeState>, SwarmError>
  {
    Err(NoExecutorLock)
  }

  /** As written, releasing a busy node never frees it; the intended release does. */
  lemma ReleaseAsWrittenNeverFrees(nodes: map<NodeId, NodeState>, id: NodeId)
    requires id in nodes && nodes[id].load != 0
    ensures ReleaseAsWritten(nodes, [id]).Err?
    ensures Released(nodes, [id])[id].load == 0 && Released(nodes, [id]) != nodes
  {
  }

  // ---------------------------------------------------------------------------
  // the SwarmOrchestrator object
  // ---------------------------------------------------------------------------

  /** `SwarmOrchestrator`: the node table in insertion order.  The executor is not modelled. */
  class SwarmOrchestrator {
    var nodes: map<NodeId, NodeState>
    var order: seq<NodeId>

    ghost predicate Valid()
      reads this
    {
      SwarmOk(Swarm(nodes, order))
    }

    /** `__init__` with the already parsed topology. */
    constructor (topology: seq<TopologyNode>)
      ensures Valid() && Swarm(nodes, order) == Seeded(topology)
    {
      var w := Seeded(topology);
      nodes := w.nodes;
      order := w.order;
    }

    /** `load_topology`: the table is replaced by the seeded one. */
    method LoadTopology(topology: seq<TopologyNode>)
      modifies this
      ensures Valid() && Swarm(nodes, order) == Seeded(topology)
    {
      var w := Seeded(topology);
      nodes := w.nodes;
      order := w.order;
    }

    /** `allocate_task`: rank, read the requirement, then place it. */
    method AllocateTask(taskResources: map<string, int>) returns (r: Result<seq<NodeId>, SwarmError>)
      requires Valid()
      modifies this
      ensures Valid() && order == old(order)
      ensures forall i | 0 <= i < |order| :: order[i] in old(nodes)
      ensures "requirements" !in taskResources ==> nodes == old(nodes) && r == Err(MissingRequirements)
      ensures "requirements" in taskResources ==>
        var o := Allocation(Swarm(old(nodes), old(order)), taskResources["requirements"]);
        nodes == o.nodes && r == o.result
    {
      assert forall i | 0 <= i < |order| :: order[i] in nodes;
      var ranked := Ranked(nodes, order);
      if "requirements" !in taskResources {
        return Err(MissingRequirements);
      }
      r := PlaceEach(ranked, taskResources["requirements"]);
    }

    /** The loop of `allocate_task`. */
    method PlaceEach(ranked: seq<NodeId>, requirement: int) returns (r: Result<seq<NodeId>, SwarmError>)
      requires forall i | 0 <= i < |ranked| :: ranked[i] in nodes
      modifies this
      ensures order == old(order)
      ensures var p := Place(old(nodes), ranked, 0, requirement);
        nodes == p.nodes && r == if p.remaining > 0 then Err(InsufficientResources) else Ok(p.placed)
    {
      ghost var target := Place(nodes, ranked, 0, requirement);
      var placed: seq<NodeId> := [];
      var remaining := requirement;
      var i := 0;
      while i < |ranked|
        invariant 0 <= i <= |ranked|
        invariant order == old(order) && nodes.Keys == old(nodes).Keys
        invariant var p := Place(nodes, ranked, i, remaining);
          p.nodes == target.nodes && placed + p.placed == target.placed && p.remaining == target.remaining
      {
        var id := ranked[i];
        var state := nodes[id];
        if state.load + remaining <= state.capacity {
          nodes := nodes[id := state.(load := state.load + remaining)];
          placed := placed + [id];
          remaining := 0;
          assert nodes == target.nodes && placed == target.placed && remaining == target.remaining;
          break;
        } else if state.capacity - state.load > 0 {
          placed := placed + [id];
          remaining := remaining - (state.capacity - state.load);
          nodes := nodes[id := state.(load := state.capacity)];
        }
        i := i + 1;
      }
      assert nodes == target.nodes && placed == target.placed && remaining == target.remaining;
      if remaining > 0 {
        return Err(InsufficientResources);
      }
      return Ok(placed);
    }

    /** `release_resources` as intended: every listed known node goes back to load 0. */
    method ReleaseResources(nodeIds: seq<NodeId>)
      requires Valid()
      modifies this
      ensures Valid() && order == old(order)
      ensures nodes == Released(old(nodes), nodeIds)
    {
      var i := 0;
      while i < |nodeIds|
        invariant 0 <= i <= |nodeIds|
        invariant order == old(order) && nodes.Keys == old(nodes).Keys
        invariant forall id | id in nodes :: nodes[id] == if id in nodeIds[..i] then old(nodes)[id].(load := 0) else old(nodes)[id]
      {
        var nid := nodeIds[i];
        assert nodeIds[..i + 1] == nodeIds[..i] + [nid];
        if nid in nodes {
          nodes := nodes[nid := nodes[nid].(load := 0)];
        }
        i := i + 1;
      }
      assert nodeIds[..|nodeIds|] == nodeIds;
    }
  }
}
