/**
 * The heartbeat and retry state machine of src/agent_management/agent_lifecycle.py.
 *
 * Time is an integer number of seconds passed in by the caller (the source reads the
 * wall clock).  The swarm's `redistribute_tasks` hook is a call into code that is not
 * part of this model: a tick reports the agents it was called for, in table order,
 * and the set `raising` names the agents for which the hook raises.  An exception
 * from the hook leaves `_check_agent_health` and is caught by the monitor loop,
 * which then skips cleanup and recovery for that tick.  `_restart_agent` always
 * answers True in the source.
 */
module AgentLifecycle {

  type AgentId = string

  /** `resource_usage`: whatever dict the agent last reported; it is stored, never read. */
  type Metrics = map<string, real>

  datatype AgentStatus = AgentStatus(lastHeartbeat: int, resourceUsage: Metrics, active: bool, retryCount: int)

  /** An agent is deactivated once its retry count exceeds this. */
  const MaxRetries: int := 2

  /** Recovery only considers agents with at most this many retries. */
  const RecoveryRetryLimit: int := 5

  /** A heartbeat is stale once it is older than this many check intervals. */
  const StaleIntervals: int := 3

  /** `now - timedelta(seconds=check_interval * 3)` */
  function Threshold(now: int, checkInterval: int): int
  {
    now - checkInterval * StaleIntervals
  }

  predicate Stale(s: AgentStatus, threshold: int)
  {
    s.lastHeartbeat < threshold
  }

  /** The health check deactivates this agent and calls the redistribution hook for it. */
  predicate Fails(s: AgentStatus, threshold: int)
  {
    Stale(s, threshold) && s.retryCount + 1 > MaxRetries
  }

  /** One agent's row after the health check. */
  function Checked(s: AgentStatus, threshold: int): (r: AgentStatus)
    ensures r.lastHeartbeat == s.lastHeartbeat && r.resourceUsage == s.resourceUsage
    ensures r.retryCount == s.retryCount + 1 <==> Stale(s, threshold)
    ensures r.retryCount == s.retryCount <==> !Stale(s, threshold)
    ensures r.active <==> s.active && !Fails(s, threshold)
  {
    if !Stale(s, threshold) then s
    else
      var t := s.(retryCount := s.retryCount + 1);
      if t.retryCount > MaxRetries then t.(active := false) else t
  }

  /** A retry count at most `MaxRetries` after the increment never deactivates. */
  lemma FewRetriesKeepActive(s: AgentStatus, threshold: int)
    requires s.active && s.retryCount + 1 <= MaxRetries
    ensures Checked(s, threshold).active
  {
  }

  /** No agent occurs twice. */
  predicate Distinct(ids: seq<AgentId>)
  {
    forall i, j | 0 <= i < j < |ids| :: ids[i] != ids[j]
  }

  /** The agent table in insertion order. */
  datatype Table = Table(agents: map<AgentId, AgentStatus>, order: seq<AgentId>)

  ghost predicate TableOk(t: Table)
  {
    Distinct(t.order) && forall id :: id in t.agents <==> id in t.order
  }

  // ---------------------------------------------------------------------------
  // _check_agent_health
  // ---------------------------------------------------------------------------

  /** The table after the check, the agents the hook was called for, and whether it raised. */
  datatype HealthReport = HealthReport(agents: map<AgentId, AgentStatus>, notified: seq<AgentId>, raised: bool)

  /** The health check over `ids`, with the hook already called for `notified`. */
  function HealthFrom(agents: map<AgentId, AgentStatus>, ids: seq<AgentId>, threshold: int,
                      raising: set<AgentId>, notified: seq<AgentId>): HealthReport
    requires forall i | 0 <= i < |ids| :: ids[i] in agents
    decreases |ids|
  {
    if ids == [] then HealthReport(agents, notified, false)
    else
      var id := ids[0];
      var s := agents[id];
      var agents' := agents[id := Checked(s, threshold)];
      if Fails(s, threshold) && id in raising then HealthReport(agents', notified + [id], true)
      else HealthFrom(agents', ids[1..], threshold, raising, if Fails(s, threshold) then notified + [id] else notified)
  }

  // One unfolding of the check, as the loop takes it.

  lemma HealthFromRaise(agents: map<AgentId, AgentStatus>, ids: seq<AgentId>, threshold: int,
                        raising: set<AgentId>, notified: seq<AgentId>)
    requires ids != [] && forall i | 0 <= i < |ids| :: ids[i] in agents
    requires Fails(agents[ids[0]], threshold) && ids[0] in raising
    ensures HealthFrom(agents, ids, threshold, raising, notified)
      == HealthReport(agents[ids[0] := Checked(agents[ids[0]], threshold)], notified + [ids[0]], true)
  {
  }

  lemma HealthFromPass(agents: map<AgentId, AgentStatus>, ids: seq<AgentId>, threshold: int,
                       raising: set<AgentId>, notified: seq<AgentId>)
    requires ids != [] && forall i | 0 <= i < |ids| :: ids[i] in agents
    requires !(Fails(agents[ids[0]], threshold) && ids[0] in raising)
    ensures HealthFrom(agents, ids, threshold, raising, notified)
      == HealthFrom(agents[ids[0] := Checked(agents[ids[0]], threshold)], ids[1..], threshold, raising,
                    if Fails(agents[ids[0]], threshold) then notified + [ids[0]] else notified)
  {
  }

  /** The agents of `ids` that the check deactivates, in order. */
  function FailingIn(agents: map<AgentId, AgentStatus>, ids: seq<AgentId>, threshold: int): (r: seq<AgentId>)
    requires forall i | 0 <= i < |ids| :: ids[i] in agents
    ensures forall id :: id in r <==> id in ids && Fails(agents[id], threshold)
    ensures Distinct(ids) ==> Distinct(r)
  {
    if ids == [] then []
    else
      assert forall i | 1 <= i < |ids| :: ids[i] == ids[1..][i - 1];
      var rest := FailingIn(agents, ids[1..], threshold);
      if Fails(agents[ids[0]], threshold) then [ids[0]] + rest else rest
  }

  /**
   * `h` is the effect of the health check of `ids` over distinct agents: only listed
   * rows change, each exactly once as `Checked` says, and the hook is called for
   * exactly the failing agents, in order.  It raises exactly when a failing agent's
   * hook raises.
   */
  predicate HealthEffect(agents: map<AgentId, AgentStatus>, ids: seq<AgentId>, threshold: int,
                         raising: set<AgentId>, notified: seq<AgentId>, h: HealthReport)
    requires forall i | 0 <= i < |ids| :: ids[i] in agents
  {
    && h.agents.Keys == agents.Keys
    && (forall id | id in agents && id !in ids :: h.agents[id] == agents[id])
    && (h.raised <==> exists id | id in ids :: Fails(agents[id], threshold) && id in raising)
    && (!h.raised ==> forall id | id in ids :: h.agents[id] == Checked(agents[id], threshold))
    && (!h.raised ==> h.notified == notified + FailingIn(agents, ids, threshold))
  }

  /** Checking a first agent whose hook does not raise, in front of the check of the rest, keeps the effect. */
  lemma HealthEffectCons(agents: map<AgentId, AgentStatus>, ids: seq<AgentId>, threshold: int,
                         raising: set<AgentId>, notified: seq<AgentId>, h: HealthReport)
    requires ids != [] && forall i | 0 <= i < |ids| :: ids[i] in agents
    requires Distinct(ids)
    requires !(Fails(agents[ids[0]], threshold) && ids[0] in raising)
    requires HealthEffect(agents[ids[0] := Checked(agents[ids[0]], threshold)], ids[1..], threshold, raising,
      if Fails(agents[ids[0]], threshold) then notified + [ids[0]] else notified, h)
    ensures HealthEffect(agents, ids, threshold, raising, notified, h)
  {
    var id := ids[0];
    var agents' := agents[id := Checked(agents[id], threshold)];
    var tail := ids[1..];
    assert forall i | 0 <= i < |tail| :: tail[i] == ids[i + 1] && tail[i] != id;
    assert forall x | x in tail :: x in agents && agents'[x] == agents[x];
    FailingInFrame(agents, agents', tail, threshold);
    assert forall x | x in ids && x != id :: x in tail;
    RaisedCons(agents, ids, threshold, raising, h.raised);
    FailingInCons(agents, ids, threshold);
    AppendAssoc(notified, [id], FailingIn(agents, tail, threshold));
  }

  lemma AppendAssoc(a: seq<AgentId>, b: seq<AgentId>, c: seq<AgentId>)
    ensures a + b + c == a + (b + c)
  {
  }

  /** A first agent that fails is notified before the failing agents of the rest. */
  lemma FailingInCons(agents: map<AgentId, AgentStatus>, ids: seq<AgentId>, threshold: int)
    requires ids != [] && forall i | 0 <= i < |ids| :: ids[i] in agents
    ensures FailingIn(agents, ids, threshold)
      == (if Fails(agents[ids[0]], threshold) then [ids[0]] else []) + FailingIn(agents, ids[1..], threshold)
  {
    if !Fails(agents[ids[0]], threshold) {
      assert [] + FailingIn(agents, ids[1..], threshold) == FailingIn(agents, ids[1..], threshold);
    }
  }

  /** A first agent whose hook does not raise leaves the raise to the rest. */
  lemma RaisedCons(agents: map<AgentId, AgentStatus>, ids: seq<AgentId>, threshold: int, raising: set<AgentId>, raised: bool)
    requires ids != [] && forall i | 0 <= i < |ids| :: ids[i] in agents
    requires Distinct(ids)
    requires !(Fails(agents[ids[0]], threshold) && ids[0] in raising)
    requires var agents' := agents[ids[0] := Checked(agents[ids[0]], threshold)];
      raised <==> exists id | id in ids[1..] :: Fails(agents'[id], threshold) && id in raising
    ensures raised <==> exists id | id in ids :: Fails(agents[id], threshold) && id in raising
  {
    var agents' := agents[ids[0] := Checked(agents[ids[0]], threshold)];
    assert forall i | 0 <= i < |ids[1..]| :: ids[1..][i] == ids[i + 1] && ids[1..][i] != ids[0];
    if raised {
      var x :| x in ids[1..] && Fails(agents'[x], threshold) && x in raising;
      assert x in ids && agents'[x] == agents[x];
    }
    if exists id | id in ids :: Fails(agents[id], threshold) && id in raising {
      var x :| x in ids && Fails(agents[x], threshold) && x in raising;
      assert x in ids[1..] && agents'[x] == agents[x];
    }
  }

  /** The effect of the health check over distinct agents (see `HealthEffect`). */
  lemma {:induction false} HealthFromEffect(agents: map<AgentId, AgentStatus>, ids: seq<AgentId>, threshold: int,
                                            raising: set<AgentId>, notified: seq<AgentId>)
    requires forall i | 0 <= i < |ids| :: ids[i] in agents
    requires Distinct(ids)
    ensures HealthEffect(agents, ids, threshold, raising, notified, HealthFrom(agents, ids, threshold, raising, notified))
    decreases |ids|
  {
    if ids != [] {
      var id := ids[0];
      var s := agents[id];
      var agents' := agents[id := Checked(s, threshold)];
      var tail := ids[1..];
      if !(Fails(s, threshold) && id in raising) {
        assert forall i | 0 <= i < |tail| :: tail[i] == ids[i + 1] && tail[i] != id;
        var acc := if Fails(s, threshold) then notified + [id] else notified;
        HealthFromEffect(agents', tail, threshold, raising, acc);
        HealthEffectCons(agents, ids, threshold, raising, notified, HealthFrom(agents', tail, threshold, raising, acc));
      }
    }
  }

  lemma {:induction false} FailingInFrame(a: map<AgentId, AgentStatus>, b: map<AgentId, AgentStatus>, ids: seq<AgentId>, threshold: int)
    requires forall i | 0 <= i < |ids| :: ids[i] in a && ids[i] in b && a[ids[i]] == b[ids[i]]
    ensures FailingIn(a, ids, threshold) == FailingIn(b, ids, threshold)
  {
    if ids != [] {
      assert forall i | 0 <= i < |ids[1..]| :: ids[1..][i] == ids[i + 1];
      FailingInFrame(a, b, ids[1..], threshold);
    }
  }

  // ---------------------------------------------------------------------------
  // _cleanup_inactive_agents
  // ---------------------------------------------------------------------------

  /** The ids of inactive agents. */
  function InactiveIds(agents: map<AgentId, AgentStatus>): (r: set<AgentId>)
    ensures forall id :: id in r <==> id in agents && !agents[id].active
  {
    set id | id in agents && !agents[id].active
  }

  /** `s` without the members of `gone`, in order. */
  function Drop(s: seq<AgentId>, gone: set<AgentId>): (r: seq<AgentId>)
    ensures forall x :: x in r <==> x in s && x !in gone
    ensures Distinct(s) ==> Distinct(r)
  {
    if s == [] then []
    else
      assert forall i | 1 <= i < |s| :: s[i] == s[1..][i - 1];
      if s[0] in gone then Drop(s[1..], gone) else [s[0]] + Drop(s[1..], gone)
  }

  /** The members of a sequence. */
  function Members(s: seq<AgentId>): (r: set<AgentId>)
    ensures forall x :: x in r <==> x in s
  {
    set x | x in s
  }

  lemma {:induction false} DropNothing(s: seq<AgentId>)
    ensures Drop(s, {}) == s
  {
    if s != [] {
      DropNothing(s[1..]);
    }
  }

  lemma {:induction false} DropTwice(s: seq<AgentId>, a: set<AgentId>, b: set<AgentId>)
    ensures Drop(Drop(s, a), b) == Drop(s, a + b)
  {
    if s != [] {
      DropTwice(s[1..], a, b);
      if s[0] !in a {
        assert Drop(s, a)[1..] == Drop(s[1..], a);
      }
    }
  }

  /** Deleting the ids of a list one at a time: one more id removes it from what the earlier ones left. */
  lemma DeleteNext(agents: map<AgentId, AgentStatus>, order: seq<AgentId>, ids: seq<AgentId>, j: nat)
    requires j < |ids|
    ensures agents - Members(ids[..j + 1]) == (agents - Members(ids[..j])) - {ids[j]}
    ensures Drop(order, Members(ids[..j + 1])) == Drop(Drop(order, Members(ids[..j])), {ids[j]})
  {
    assert ids[..j + 1] == ids[..j] + [ids[j]];
    assert Members(ids[..j + 1]) == Members(ids[..j]) + {ids[j]};
    DropTwice(order, Members(ids[..j]), {ids[j]});
  }

  /** `[aid for aid, status in agents.items() if not status.active]` */
  function InactiveIn(agents: map<AgentId, AgentStatus>, ids: seq<AgentId>): (r: seq<AgentId>)
    requires forall i | 0 <= i < |ids| :: ids[i] in agents
    ensures forall id :: id in r <==> id in ids && !agents[id].active
  {
    if ids == [] then []
    else
      assert forall i | 1 <= i < |ids| :: ids[i] == ids[1..][i - 1];
      var rest := InactiveIn(agents, ids[1..]);
      if !agents[ids[0]].active then [ids[0]] + rest else rest
  }

  /** The table after cleanup: every inactive agent deleted, the rest untouched and in order. */
  function Cleaned(t: Table): (r: Table)
    ensures r.agents.Keys == t.agents.Keys - InactiveIds(t.agents)
    ensures forall id | id in r.agents :: r.agents[id] == t.agents[id] && r.agents[id].active
    ensures TableOk(t) ==> TableOk(r)
  {
    var gone := InactiveIds(t.agents);
    Table(t.agents - gone, Drop(t.order, gone))
  }

  // ---------------------------------------------------------------------------
  // _recover_failed_agents
  // ---------------------------------------------------------------------------

  /** An inactive agent with few enough retries, which recovery restarts. */
  predicate Recoverable(s: AgentStatus)
  {
    !s.active && s.retryCount <= RecoveryRetryLimit
  }

  /** `_restart_agent` answers True: every candidate is reactivated with its retries reset. */
  function Recovered(agents: map<AgentId, AgentStatus>): (r: map<AgentId, AgentStatus>)
    ensures r.Keys == agents.Keys
    ensures forall id | id in agents && Recoverable(agents[id]) :: r[id] == agents[id].(active := true, retryCount := 0)
    ensures forall id | id in agents && !Recoverable(agents[id]) :: r[id] == agents[id]
  {
    map id | id in agents :: if Recoverable(agents[id]) then agents[id].(active := true, retryCount := 0) else agents[id]
  }

  /** `[aid for aid, status in agents.items() if not status.active and status.retry_count <= 5]` */
  function RecoverableIn(agents: map<AgentId, AgentStatus>, ids: seq<AgentId>): (r: seq<AgentId>)
    requires forall i | 0 <= i < |ids| :: ids[i] in agents
    ensures forall id :: id in r <==> id in ids && Recoverable(agents[id])
  {
    if ids == [] then []
    else
      assert forall i | 1 <= i < |ids| :: ids[i] == ids[1..][i - 1];
      var rest := RecoverableIn(agents, ids[1..]);
      if !agents[ids[0]].active && agents[ids[0]].retryCount <= 5 then [ids[0]] + rest else rest
  }

  /** The agents after restarting every listed known agent. */
  function Restarted(agents: map<AgentId, AgentStatus>, ids: seq<AgentId>): (r: map<AgentId, AgentStatus>)
    ensures r.Keys == agents.Keys
  {
    map id | id in agents :: if id in ids then agents[id].(active := true, retryCount := 0) else agents[id]
  }

  /** Restarting one more listed agent after the ones before it. */
  lemma RestartedNext(agents: map<AgentId, AgentStatus>, ids: seq<AgentId>, j: nat)
    requires j < |ids| && ids[j] in agents
    ensures var r := Restarted(agents, ids[..j]);
      Restarted(agents, ids[..j + 1]) == r[ids[j] := r[ids[j]].(active := true, retryCount := 0)]
  {
    assert ids[..j + 1] == ids[..j] + [ids[j]];
  }

  /** Restarting the recoverable agents of a listing that covers the table is the recovery pass. */
  lemma RestartedRecoverable(agents: map<AgentId, AgentStatus>, order: seq<AgentId>)
    requires forall i | 0 <= i < |order| :: order[i] in agents
    requires forall id | id in agents :: id in order
    ensures Restarted(agents, RecoverableIn(agents, order)) == Recovered(agents)
  {
  }

  /** Recovery after cleanup has nothing to do: cleanup has already deleted every inactive agent. */
  lemma RecoveryAfterCleanupIsIdle(t: Table)
    ensures Recovered(Cleaned(t).agents) == Cleaned(t).agents
  {
  }

  // ---------------------------------------------------------------------------
  // one pass of _monitor_loop
  // ---------------------------------------------------------------------------

  datatype TickReport = TickReport(table: Table, notified: seq<AgentId>, raised: bool)

  /** Health check, then cleanup, then recovery; an exception from the hook ends the pass. */
  function Tick(t: Table, threshold: int, raising: set<AgentId>): TickReport
    requires TableOk(t)
  {
    var h := HealthFrom(t.agents, t.order, threshold, raising, []);
    if h.raised then TickReport(Table(h.agents, t.order), h.notified, true)
    else
      var c := Cleaned(Table(h.agents, t.order));
      TickReport(Table(Recovered(c.agents), c.order), h.notified, false)
  }

  /**
   * A pass whose hook does not raise leaves exactly the agents that stay active
   * under the check, each as the check left it; so no inactive agent survives a
   * pass, and every agent the hook was called for has been deleted.
   */
  lemma TickEffect(t: Table, threshold: int, raising: set<AgentId>)
    requires TableOk(t)
    ensures var r := Tick(t, threshold, raising);
      && TableOk(r.table)
      && (r.raised <==> exists id | id in t.agents :: Fails(t.agents[id], threshold) && id in raising)
      && (!r.raised ==> forall id :: id in r.table.agents <==> id in t.agents && Checked(t.agents[id], threshold).active)
      && (!r.raised ==> forall id | id in r.table.agents :: r.table.agents[id] == Checked(t.agents[id], threshold))
      && (!r.raised ==> forall id | id in r.table.agents :: r.table.agents[id].active)
      && (!r.raised ==> forall id :: id in r.notified <==> id in t.agents && Fails(t.agents[id], threshold))
      && (!r.raised ==> Distinct(r.notified))
      && (!r.raised ==> forall id | id in r.notified :: id !in r.table.agents)
  {
    HealthFromEffect(t.agents, t.order, threshold, raising, []);
    var h := HealthFrom(t.agents, t.order, threshold, raising, []);
    if !h.raised {
      assert h.notified == FailingIn(t.agents, t.order, threshold);
      RecoveryAfterCleanupIsIdle(Table(h.agents, t.order));
    }
  }

  /** A pass only ever deletes agents. */
  lemma TickShrinks(t: Table, threshold: int, raising: set<AgentId>)
    requires TableOk(t)
    ensures Tick(t, threshold, raising).table.agents.Keys <= t.agents.Keys
    ensures forall id | id in Tick(t, threshold, raising).notified :: id in t.agents
  {
    HealthFromEffect(t.agents, t.order, threshold, raising, []);
    HealthNotifiedWithin(t.agents, t.order, threshold, raising, []);
  }

  lemma {:induction false} HealthNotifiedWithin(agents: map<AgentId, AgentStatus>, ids: seq<AgentId>, threshold: int,
                                                raising: set<AgentId>, notified: seq<AgentId>)
    requires forall i | 0 <= i < |ids| :: ids[i] in agents
    ensures forall id | id in HealthFrom(agents, ids, threshold, raising, notified).notified :: id in notified || id in ids
    decreases |ids|
  {
    if ids != [] {
      var id := ids[0];
      var s := agents[id];
      var agents' := agents[id := Checked(s, threshold)];
      assert forall i | 0 <= i < |ids[1..]| :: ids[1..][i] == ids[i + 1];
      if !(Fails(s, threshold) && id in raising) {
        HealthNotifiedWithin(agents', ids[1..], threshold, raising, if Fails(s, threshold) then notified + [id] else notified);
      }
    }
  }

  // ---------------------------------------------------------------------------
  // successive passes
  // ---------------------------------------------------------------------------

  /** Passes at the given clock readings with no registration in between: the final table and every hook call. */
  function Run(t: Table, times: seq<int>, checkInterval: int, raising: set<AgentId>): (Table, seq<AgentId>)
    requires TableOk(t)
    decreases |times|
  {
    if times == [] then (t, [])
    else
      var r := Tick(t, Threshold(times[0], checkInterval), raising);
      TickEffect(t, Threshold(times[0], checkInterval), raising);
      var rest := Run(r.table, times[1..], checkInterval, raising);
      (rest.0, r.notified + rest.1)
  }

  lemma {:induction false} RunNotifiedWithin(t: Table, times: seq<int>, checkInterval: int, raising: set<AgentId>)
    requires TableOk(t)
    ensures forall id | id in Run(t, times, checkInterval, raising).1 :: id in t.agents
    decreases |times|
  {
    if times != [] {
      var thr := Threshold(times[0], checkInterval);
      TickEffect(t, thr, raising);
      TickShrinks(t, thr, raising);
      RunNotifiedWithin(Tick(t, thr, raising).table, times[1..], checkInterval, raising);
    }
  }

  /** With a hook that never raises, a pass notifies each failing agent once and deletes it. */
  lemma TickNotifiedLeave(t: Table, threshold: int)
    requires TableOk(t)
    ensures var r := Tick(t, threshold, {});
      && TableOk(r.table) && Distinct(r.notified)
      && forall id | id in r.notified :: id !in r.table.agents
  {
    TickEffect(t, threshold, {});
  }

  /**
   * While the hook never raises and nobody re-registers, the hook is called at most
   * once per agent across any number of passes: an agent it was called for is
   * deleted in the same pass.
   */
  lemma {:induction false} RedistributionAtMostOnce(t: Table, times: seq<int>, checkInterval: int)
    requires TableOk(t)
    ensures Distinct(Run(t, times, checkInterval, {}).1)
    decreases |times|
  {
    if times != [] {
      var thr := Threshold(times[0], checkInterval);
      var r := Tick(t, thr, {});
      TickNotifiedLeave(t, thr);
      RedistributionAtMostOnce(r.table, times[1..], checkInterval);
      RunNotifiedWithin(r.table, times[1..], checkInterval, {});
      var later := Run(r.table, times[1..], checkInterval, {}).1;
      var all := r.notified + later;
      forall i, j | 0 <= i < j < |all| ensures all[i] != all[j] {
        if j >= |r.notified| && i < |r.notified| {
          assert all[j] == later[j - |r.notified|];
          assert all[j] in r.table.agents;
        } else if i >= |r.notified| {
          assert all[i] == later[i - |r.notified|] && all[j] == later[j - |r.notified|];
        }
      }
    }
  }

  /**
   * A raising hook breaks that: the deactivated agent survives the aborted pass and
   * the next pass calls the hook for it again.
   */
  lemma RaisingHookRepeatsRedistribution()
    ensures var t := Table(map["a" := AgentStatus(0, map[], true, 2)], ["a"]);
      Run(t, [200, 230], 30, {"a"}).1 == ["a", "a"]
  {
    var t := Table(map["a" := AgentStatus(0, map[], true, 2)], ["a"]);
    var s1 := AgentStatus(0, map[], false, 3);
    assert Tick(t, Threshold(200, 30), {"a"}) == TickReport(Table(map["a" := s1], ["a"]), ["a"], true);
    var t1 := Table(map["a" := s1], ["a"]);
    assert Tick(t1, Threshold(230, 30), {"a"}).notified == ["a"];
  }

  /** A table holding only agent "a", silent since time 0, with `retries` retries. */
  function Silent(retries: int, active: bool): Table
  {
    Table(map["a" := AgentStatus(0, map[], active, retries)], ["a"])
  }

  lemma QuietPass(retries: int, threshold: int)
    requires 0 <= retries && retries + 1 <= MaxRetries && 0 < threshold
    ensures Tick(Silent(retries, true), threshold, {}) == TickReport(Silent(retries + 1, true), [], false)
  {
    var t := Silent(retries, true);
    var h := HealthFrom(t.agents, t.order, threshold, {}, []);
    assert h == HealthReport(Silent(retries + 1, true).agents, [], false);
    assert InactiveIds(h.agents) == {};
    assert h.agents - {} == h.agents;
    DropNothing(t.order);
  }

  lemma FailingPass(threshold: int)
    requires 0 < threshold
    ensures Tick(Silent(MaxRetries, true), threshold, {}) == TickReport(Table(map[], []), ["a"], false)
  {
    var t := Silent(MaxRetries, true);
    var h := HealthFrom(t.agents, t.order, threshold, {}, []);
    assert h == HealthReport(Silent(MaxRetries + 1, false).agents, ["a"], false);
    assert InactiveIds(h.agents) == {"a"};
    assert h.agents - {"a"} == map[];
    assert Drop(t.order, {"a"}) == [];
  }

  /**
   * Thirty-second interval, an agent registered at time 0 and silent since: passes at
   * 120, 150 and 180 raise its retry count to 1, 2 and 3; the third deactivates it,
   * calls the hook once, and deletes it.
   */
  lemma SilentAgentIsRedistributedOnce()
    ensures var r := Run(Silent(0, true), [120, 150, 180], 30, {});
      r.1 == ["a"] && r.0.agents == map[]
  {
    QuietPass(0, Threshold(120, 30));
    QuietPass(1, Threshold(150, 30));
    FailingPass(Threshold(180, 30));
    assert [120, 150, 180][1..] == [150, 180] && [150, 180][1..] == [180] && [180][1..] == [];
    assert Run(Silent(2, true), [180], 30, {}) == (Table(map[], []), ["a"]);
    assert Run(Silent(1, true), [150, 180], 30, {}) == (Table(map[], []), ["a"]);
  }

  // ---------------------------------------------------------------------------
  // the AgentLifecycleManager object
  // ---------------------------------------------------------------------------

  /**
   * `AgentLifecycleManager`: the agent table in insertion order and the check
   * interval.  The lock, the monitor thread and the running flag are not modelled.
   */
  class AgentLifecycleManager {
    var agents: map<AgentId, AgentStatus>
    var order: seq<AgentId>
    var checkInterval: int

    ghost predicate Valid()
      reads this
    {
      TableOk(Table(agents, order))
    }

    constructor (checkInterval: int)
      ensures Valid() && agents == map[] && order == [] && this.checkInterval == checkInterval
    {
      agents := map[];
      order := [];
      this.checkInterval := checkInterval;
    }

    /** `register_agent`: a fresh active row with no retries, replacing any earlier one. */
    method RegisterAgent(id: AgentId, initialResources: Metrics, now: int)
      requires Valid()
      modifies this
      ensures Valid() && checkInterval == old(checkInterval)
      ensures agents == old(agents)[id := AgentStatus(now, initialResources, true, 0)]
      ensures order == if id in old(agents) then old(order) else old(order) + [id]
    {
      if id !in agents {
        order := order + [id];
      }
      agents := agents[id := AgentStatus(now, initialResources, true, 0)];
    }

    /** `update_heartbeat`: a known agent is refreshed and its retries reset; `active` is left as it was. */
    method UpdateHeartbeat(id: AgentId, metrics: Metrics, now: int)
      requires Valid()
      modifies this
      ensures Valid() && order == old(order) && checkInterval == old(checkInterval)
      ensures id !in old(agents) ==> agents == old(agents)
      ensures id in old(agents) ==>
        agents == old(agents)[id := old(agents)[id].(lastHeartbeat := now, resourceUsage := metrics, retryCount := 0)]
    {
      if id in agents {
        agents := agents[id := agents[id].(lastHeartbeat := now, resourceUsage := metrics, retryCount := 0)];
      }
    }

    /** `_check_agent_health` at clock reading `now`. */
    method CheckAgentHealth(now: int, raising: set<AgentId>) returns (notified: seq<AgentId>, raised: bool)
      requires Valid()
      modifies this
      ensures Valid() && order == old(order) && checkInterval == old(checkInterval)
      ensures var h := HealthFrom(old(agents), old(order), Threshold(now, old(checkInterval)), raising, []);
        agents == h.agents && notified == h.notified && raised == h.raised
    {
      assert forall j | 0 <= j < |order| :: order[j] in agents;
      notified, raised := CheckEach(now - checkInterval * 3, raising);
    }

    /** The loop of `_check_agent_health` against a fixed threshold. */
    method CheckEach(threshold: int, raising: set<AgentId>) returns (notified: seq<AgentId>, raised: bool)
      requires forall j | 0 <= j < |order| :: order[j] in agents
      modifies this
      ensures agents.Keys == old(agents).Keys && order == old(order) && checkInterval == old(checkInterval)
      ensures var h := HealthFrom(old(agents), old(order), threshold, raising, []);
        agents == h.agents && notified == h.notified && raised == h.raised
    {
      ghost var target := HealthFrom(agents, order, threshold, raising, []);
      notified := [];
      var i := 0;
      assert order[0..] == order;
      while i < |order|
        invariant 0 <= i <= |order|
        invariant agents.Keys == old(agents).Keys && order == old(order) && checkInterval == old(checkInterval)
        invariant forall j | 0 <= j < |order| :: order[j] in agents
        invariant HealthFrom(agents, order[i..], threshold, raising, notified) == target
      {
        assert order[i..][1..] == order[i + 1..];
        var id := order[i];
        var status := agents[id];
        ghost var before := agents;
        ghost var prev := notified;
        if status.lastHeartbeat < threshold {
          status := status.(retryCount := status.retryCount + 1);
          if status.retryCount > 2 {
            status := status.(active := false);
            agents := agents[id := status];
            notified := notified + [id];
            if id in raising {
              HealthFromRaise(before, order[i..], threshold, raising, prev);
              return notified, true;
            }
          } else {
            agents := agents[id := status];
          }
        }
        assert agents == before[id := Checked(before[id], threshold)];
        HealthFromPass(before, order[i..], threshold, raising, prev);
        i := i + 1;
      }
      return notified, false;
    }

    /** `_cleanup_inactive_agents`: list the inactive agents, then delete each. */
    method CleanupInactiveAgents()
      requires Valid()
      modifies this
      ensures Valid() && checkInterval == old(checkInterval)
      ensures Table(agents, order) == Cleaned(Table(old(agents), old(order)))
    {
      assert forall j | 0 <= j < |order| :: order[j] in agents;
      var inactive := InactiveIn(agents, order);
      ghost var gone := InactiveIds(agents);
      assert forall id :: id in inactive <==> id in gone;
      DeleteEach(inactive);
      assert Members(inactive) == gone;
      assert agents == old(agents) - gone;
      assert order == Drop(old(order), gone);
    }

    /** The deletion loop of `_cleanup_inactive_agents`. */
    method DeleteEach(inactive: seq<AgentId>)
      modifies this
      ensures agents == old(agents) - Members(inactive) && order == Drop(old(order), Members(inactive))
      ensures checkInterval == old(checkInterval)
    {
      var j := 0;
      DropNothing(order);
      assert Members(inactive[..0]) == {};
      assert agents - {} == agents;
      while j < |inactive|
        invariant 0 <= j <= |inactive|
        invariant agents == old(agents) - Members(inactive[..j])
        invariant order == Drop(old(order), Members(inactive[..j]))
        invariant checkInterval == old(checkInterval)
      {
        var id := inactive[j];
        DeleteNext(old(agents), old(order), inactive, j);
        agents := agents - {id};
        order := Drop(order, {id});
        j := j + 1;
      }
      assert inactive[..|inactive|] == inactive;
    }

    /** `_recover_failed_agents`: list the recoverable agents, then restart each (always successfully). */
    method RecoverFailedAgents()
      requires Valid()
      modifies this
      ensures Valid() && order == old(order) && checkInterval == old(checkInterval)
      ensures agents == Recovered(old(agents))
    {
      assert forall j | 0 <= j < |order| :: order[j] in agents;
      var failed := RecoverableIn(agents, order);
      var j := 0;
      assert failed[..0] == [];
      while j < |failed|
        invariant 0 <= j <= |failed|
        invariant order == old(order) && checkInterval == old(checkInterval)
        invariant agents == Restarted(old(agents), failed[..j])
      {
        var id := failed[j];
        RestartedNext(old(agents), failed, j);
        agents := agents[id := agents[id].(active := true, retryCount := 0)];
        j := j + 1;
      }
      assert failed[..|failed|] == failed;
      RestartedRecoverable(old(agents), old(order));
    }

    /** One pass of `_monitor_loop`: the hook's exception is caught and ends the pass. */
    method MonitorTick(now: int, raising: set<AgentId>) returns (notified: seq<AgentId>, raised: bool)
      requires Valid()
      modifies this
      ensures Valid() && checkInterval == old(checkInterval)
      ensures Tick(Table(old(agents), old(order)), Threshold(now, old(checkInterval)), raising)
        == TickReport(Table(agents, order), notified, raised)
    {
      notified, raised := CheckAgentHealth(now, raising);
      if raised {
        return;
      }
      CleanupInactiveAgents();
      RecoverFailedAgents();
    }
  }
}
