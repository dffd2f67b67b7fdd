/**
 * The collection supervisor: the map from group id to the handle of that
 * group's running collection task. A group is collecting exactly when it has
 * an entry. A task handle is an opaque token; creating and cancelling the
 * task itself is not modelled beyond recording which handles were asked to
 * cancel.
 */
module Supervisor {
  import opened Wrappers

  datatype TaskHandle = TaskHandle(serial: nat)

  type Active = map<int, TaskHandle>

  /**
   * What the supervisor keeps true of its handles: every handle was issued
   * before the `nextSerial` counter, no collecting group's task has been asked
   * to cancel, and no two groups share a task.
   */
  ghost predicate HandlesValid(active: Active, cancelled: set<TaskHandle>, nextSerial: nat)
  {
    && (forall g :: g in active ==> active[g].serial < nextSerial && active[g] !in cancelled)
    && (forall t :: t in cancelled ==> t.serial < nextSerial)
    && (forall g1, g2 :: g1 in active && g2 in active && g1 != g2 ==> active[g1] != active[g2])
  }

  /** The tasks a map holds, one per collecting group. */
  function Tasks(active: Active): set<TaskHandle>
  {
    set g | g in active :: active[g]
  }

  predicate Distinct(xs: seq<int>)
  {
    forall i, j :: 0 <= i < j < |xs| ==> xs[i] != xs[j]
  }

  /** `order` lists the keys of `active` in insertion order, as a Python dict keeps them. */
  ghost predicate OrderMatches(order: seq<int>, active: Active)
  {
    && Distinct(order)
    && (forall i :: 0 <= i < |order| ==> order[i] in active)
    && (forall g :: g in active ==> g in order)
  }

  /** The key order after deleting `g`: the others keep their places. */
  function Without(order: seq<int>, g: int): (r: seq<int>)
    ensures forall h :: h in r <==> h in order && h != g
    ensures Distinct(order) ==> Distinct(r)
  {
    if |order| == 0 then []
    else
      var rest := Without(order[1..], g);
      assert forall h :: h in order <==> h == order[0] || h in order[1..];
      assert Distinct(order) ==> order[0] !in order[1..];
      if order[0] == g then rest else [order[0]] + rest
  }

  /** Deleting a key the order does not hold changes nothing. */
  lemma {:induction false} WithoutAbsent(order: seq<int>, g: int)
    requires g !in order
    ensures Without(order, g) == order
  {
    if |order| > 0 {
      assert order == [order[0]] + order[1..];
      assert order[0] != g && g !in order[1..];
      WithoutAbsent(order[1..], g);
    }
  }

  /** Deleting the first key of an order without repeats leaves the rest. */
  lemma WithoutFirst(order: seq<int>)
    requires |order| > 0 && Distinct(order)
    ensures Without(order, order[0]) == order[1..]
  {
    assert forall k :: 0 <= k < |order[1..]| ==> order[1..][k] == order[k + 1];
    WithoutAbsent(order[1..], order[0]);
  }

  /** A start appends the new key to the order. */
  lemma OrderAfterStart(order: seq<int>, active: Active, g: int, task: TaskHandle)
    requires OrderMatches(order, active) && g !in active
    ensures OrderMatches(order + [g], active[g := task])
  {
    var o := order + [g];
    assert forall i :: 0 <= i < |order| ==> o[i] == order[i];
    assert o[|order|] == g;
  }

  /** A stop deletes the key from the order. */
  lemma OrderAfterStop(order: seq<int>, active: Active, g: int)
    requires OrderMatches(order, active)
    ensures OrderMatches(Without(order, g), active - {g})
  {
    var o := Without(order, g);
    forall i | 0 <= i < |o|
      ensures o[i] in active - {g}
    {
      assert o[i] in o;
    }
  }

  datatype StartResult = StartResult(started: bool, active: Active)

  /** Start collecting group `g` with the freshly created task `task`, unless it already collects. */
  function Start(active: Active, g: int, task: TaskHandle): (r: StartResult)
    ensures r.started <==> g !in active
    ensures r.active.Keys == active.Keys + {g}
    ensures r.active[g] == if r.started then task else active[g]
    ensures forall h :: h in active && h != g ==> r.active[h] == active[h]
  {
    if g !in active then StartResult(true, active[g := task])
    else StartResult(false, active)
  }

  datatype StopResult = StopResult(stopped: bool, active: Active, cancel: Option<TaskHandle>)

  /** Stop collecting group `g`: drop its entry and name the task to cancel, if it had one. */
  function Stop(active: Active, g: int): (r: StopResult)
    ensures r.stopped <==> g in active
    ensures r.active.Keys == active.Keys - {g}
    ensures forall h :: h in r.active ==> r.active[h] == active[h]
    ensures r.cancel == if g in active then Some(active[g]) else None
  {
    if g in active then StopResult(true, active - {g}, Some(active[g]))
    else StopResult(false, active, None)
  }

  /** A second start of the same group reports `false` and changes nothing. */
  lemma StartTwice(active: Active, g: int, t1: TaskHandle, t2: TaskHandle)
    ensures var first := Start(active, g, t1);
            var second := Start(first.active, g, t2);
            !second.started && second.active == first.active && first.active[g] == (if g in active then active[g] else t1)
  {
  }

  /** Stopping a group that never started reports `false` and changes nothing. */
  lemma StopIdle(active: Active, g: int)
    requires g !in active
    ensures Stop(active, g) == StopResult(false, active, None)
  {
  }

  /** Stopping a group right after starting it restores the map and cancels the new task. */
  lemma StopUndoesStart(active: Active, g: int, task: TaskHandle)
    requires g !in active
    ensures var started := Start(active, g, task);
            started.started && Stop(started.active, g) == StopResult(true, active, Some(task))
  {
    var after := Start(active, g, task).active;
    assert after - {g} == active;
  }

  datatype StopAllResult = StopAllResult(results: seq<bool>, active: Active, cancelled: set<TaskHandle>)

  /** Stops the groups of `gs` one after the other, as the shutdown loop does over its snapshot of the keys. */
  function StopEach(active: Active, gs: seq<int>): (r: StopAllResult)
    ensures |r.results| == |gs|
    ensures forall g :: g in r.active ==> g in active && r.active[g] == active[g]
  {
    if |gs| == 0 then StopAllResult([], active, {})
    else
      var first := Stop(active, gs[0]);
      var rest := StopEach(first.active, gs[1..]);
      var cancelled := if first.cancel.Some? then {first.cancel.value} else {};
      StopAllResult([first.stopped] + rest.results, rest.active, cancelled + rest.cancelled)
  }

  /** Stopping the groups of `gs` removes exactly those groups. */
  lemma {:induction false} StopEachRemoves(active: Active, gs: seq<int>)
    ensures StopEach(active, gs).active == active - (set g | g in gs)
  {
    if |gs| > 0 {
      var first := Stop(active, gs[0]);
      StopEachRemoves(first.active, gs[1..]);
      assert forall g :: g in gs <==> g == gs[0] || g in gs[1..];
      assert first.active == active - {gs[0]};
    }
  }

  /** Stopping the groups of `gs` cancels exactly the tasks those groups had. */
  lemma {:induction false} StopEachCancels(active: Active, gs: seq<int>)
    ensures StopEach(active, gs).cancelled == (set g | g in gs && g in active :: active[g])
  {
    if |gs| > 0 {
      var first := Stop(active, gs[0]);
      StopEachCancels(first.active, gs[1..]);
      assert forall g :: g in gs <==> g == gs[0] || g in gs[1..];
      var want := set g | g in gs && g in active :: active[g];
      var restWant := set g | g in gs[1..] && g in first.active :: first.active[g];
      if gs[0] in active {
        assert want == {active[gs[0]]} + restWant;
      } else {
        assert want == restWant;
      }
    }
  }

  /** Stopping distinct groups that are all collecting reports `true` for each. */
  lemma {:induction false} StopEachReportsStopped(active: Active, gs: seq<int>)
    requires forall g :: g in gs ==> g in active
    requires Distinct(gs)
    ensures forall i :: 0 <= i < |gs| ==> StopEach(active, gs).results[i]
  {
    if |gs| > 0 {
      var first := Stop(active, gs[0]);
      forall g | g in gs[1..]
        ensures g in first.active
      {
        var k :| 1 <= k < |gs| && gs[k] == g;
      }
      StopEachReportsStopped(first.active, gs[1..]);
    }
  }

  /**
   * The shutdown loop: stopping every key of a snapshot of the map, each once,
   * reports `true` every time, leaves no group collecting and cancels every
   * task that was running.
   */
  lemma StopAllEmpties(active: Active, gs: seq<int>)
    requires OrderMatches(gs, active)
    ensures var r := StopEach(active, gs);
            r.active == map[] && r.cancelled == Tasks(active)
            && forall i :: 0 <= i < |gs| ==> r.results[i]
  {
    StopEachRemoves(active, gs);
    StopEachCancels(active, gs);
    StopEachReportsStopped(active, gs);
    RemovingEveryKey(active, set g | g in gs);
    assert (set g | g in gs && g in active :: active[g]) == Tasks(active);
  }

  /** Removing a set that holds every key leaves the map empty. */
  lemma RemovingEveryKey(active: Active, keys: set<int>)
    requires forall g :: g in active ==> g in keys
    ensures active - keys == map[]
  {
    assert forall g :: g !in (active - keys);
  }

  /**
   * One turn of the shutdown loop over a snapshot without repeats: the run of
   * stops grows by one, and the remaining key order loses its first key.
   */
  lemma StopAllStep(active: Active, snapshot: seq<int>, i: nat)
    requires i < |snapshot| && Distinct(snapshot[i..])
    ensures var r := StopEach(active, snapshot[..i]);
            var last := Stop(r.active, snapshot[i]);
            StopEach(active, snapshot[..i + 1])
            == StopAllResult(r.results + [last.stopped], last.active,
                             r.cancelled + (if last.cancel.Some? then {last.cancel.value} else {}))
    ensures Without(snapshot[i..], snapshot[i]) == snapshot[i + 1..]
  {
    WithoutFirst(snapshot[i..]);
    assert snapshot[i..][1..] == snapshot[i + 1..];
    StopEachSnoc(active, snapshot[..i], snapshot[i]);
    assert snapshot[..i + 1] == snapshot[..i] + [snapshot[i]];
  }

  /** Stopping one more group after a run of stops. */
  lemma {:induction false} StopEachSnoc(active: Active, gs: seq<int>, g: int)
    ensures var r := StopEach(active, gs);
            var last := Stop(r.active, g);
            StopEach(active, gs + [g])
            == StopAllResult(r.results + [last.stopped], last.active,
                             r.cancelled + (if last.cancel.Some? then {last.cancel.value} else {}))
  {
    if |gs| > 0 {
      var first := Stop(active, gs[0]);
      assert (gs + [g])[1..] == gs[1..] + [g];
      StopEachSnoc(first.active, gs[1..], g);
    } else {
      assert gs + [g] == [g];
    }
  }

  /** Group ids the all-groups status summary covers: 1 through 9. */
  const ReportRange: set<int> := set g | 1 <= g < 10

  /** The all-groups status summary: for each group id 1..9, whether it is collecting. */
  function StatusSnapshot(active: Active): (r: map<int, bool>)
    ensures r.Keys == ReportRange
    ensures forall g :: g in r ==> (r[g] <==> g in active)
  {
    map g | g in ReportRange :: g in active
  }

  /** Starting or stopping a group outside 1..9 does not show in the summary. */
  lemma SnapshotIgnoresOutsideRange(active: Active, g: int, task: TaskHandle)
    requires g !in ReportRange
    ensures StatusSnapshot(Start(active, g, task).active) == StatusSnapshot(active)
    ensures StatusSnapshot(Stop(active, g).active) == StatusSnapshot(active)
  {
  }
}
