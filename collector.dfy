/**
 * The `DataCollector` object: the record store, the per-group read cursor and
 * the map of collecting groups, with the operations that change them.
 */
module Collector {
  import opened Wrappers
  import opened RecordStore
  import opened Fetch
  import opened Cursor
  import opened Supervisor

  class DataCollector {
    /** The `collected_data` table, in id order. */
    var records: seq<Record>
    /** `current_indexes`: group id to the index of its next read. */
    var currentIndexes: CursorMap
    /** `collecting_groups`: group id to the handle of its collection task. */
    var collectingGroups: Active
    /** The keys of `collecting_groups` in insertion order, the order a Python dict lists them in. */
    var groupOrder: seq<int>
    /** The tasks that have been asked to cancel. */
    var cancelled: set<TaskHandle>
    /** Serial number of the next task handle to hand out. */
    var nextSerial: nat

    ghost predicate Valid()
      reads this
    {
      && WellFormed(records)
      && CursorInv(currentIndexes, records)
      && TasksValid()
    }

    /** The supervisor's part of the invariant, framed by the supervisor's own fields. */
    ghost predicate TasksValid()
      reads this`collectingGroups, this`cancelled, this`nextSerial, this`groupOrder
    {
      HandlesValid(collectingGroups, cancelled, nextSerial) && OrderMatches(groupOrder, collectingGroups)
    }

    /** A collector over the rows already in the table, with no cursor and no collecting group. */
    constructor (stored: seq<Record>)
      requires WellFormed(stored)
      ensures Valid()
      ensures records == stored && currentIndexes == map[] && collectingGroups == map[] && cancelled == {}
    {
      records := stored;
      currentIndexes := map[];
      collectingGroups := map[];
      groupOrder := [];
      cancelled := {};
      nextSerial := 0;
    }

    /** Inserts one row; the store gives it an id above every existing one. */
    method SaveToDatabase(payload: Payload, groupId: int := 1)
      requires Valid()
      modifies this`records
      ensures Valid()
      ensures records == Append(old(records), groupId, payload)
    {
      AppendPreservesCursorInv(currentIndexes, records, groupId, payload);
      records := Append(records, groupId, payload);
    }

    /** One collection attempt for `groupId` with the given outcome of the fetch and the insert. */
    method CollectData(outcome: FetchOutcome, groupId: int := 1) returns (data: Option<Payload>)
      requires Valid()
      modifies this`records
      ensures Valid()
      ensures data == Accepted(outcome)
      ensures records == CollectStep(old(records), groupId, outcome)
    {
      match outcome
      case Response(status, body) =>
        if status == 200 && body.Some? {
          SaveToDatabase(body.value, groupId);
          data := body;
        } else {
          data := None;
        }
      case StorageFault =>
        data := None;
      case TransportFault =>
        data := None;
    }

    /** All rows of one group, or of every group, in id order. */
    method GetAllData(groupId: Option<int> := None) returns (result: seq<Record>)
      ensures groupId.None? ==> result == records
      ensures groupId.Some? ==> result == RecordsOf(records, groupId.value)
    {
      result := SelectRows(records, groupId);
    }

    /** The round-robin read of one group; the store and the collecting groups do not change. */
    method GetCurrentData(groupId: int := 1) returns (r: Option<Record>)
      requires Valid()
      modifies this`currentIndexes
      ensures Valid()
      ensures ReadResult(r, currentIndexes) == ReadStep(old(currentIndexes), RecordsOf(records, groupId), groupId)
    {
      var allData := SelectRows(records, Some(groupId));
      if |allData| == 0 {
        return None;
      }
      var indexes := currentIndexes;
      if groupId !in indexes {
        indexes := indexes[groupId := 0];
      }
      var currentIndex := indexes[groupId];
      if currentIndex >= |allData| {
        currentIndex := 0;
      }
      r := Some(allData[currentIndex]);
      assert currentIndex == StartIndex(currentIndexes, groupId, |allData|);
      ReadStepAt(currentIndexes, allData, groupId, currentIndex);
      CursorInvUpdate(currentIndexes, records, groupId, currentIndex);
      currentIndexes := currentIndexes[groupId := currentIndex + 1];
    }

    /** Starts collecting `groupId` with a fresh task, unless it already collects. */
    method StartCollecting(groupId: int := 1) returns (started: bool)
      requires Valid()
      modifies this`collectingGroups, this`groupOrder, this`nextSerial
      ensures Valid()
      ensures var s := Start(old(collectingGroups), groupId, TaskHandle(old(nextSerial)));
              started == s.started && collectingGroups == s.active
      ensures groupOrder == if started then old(groupOrder) + [groupId] else old(groupOrder)
      ensures nextSerial == if started then old(nextSerial) + 1 else old(nextSerial)
    {
      if groupId !in collectingGroups {
        var task := TaskHandle(nextSerial);
        nextSerial := nextSerial + 1;
        OrderAfterStart(groupOrder, collectingGroups, groupId, task);
        collectingGroups := collectingGroups[groupId := task];
        groupOrder := groupOrder + [groupId];
        return true;
      }
      return false;
    }

    /** Stops collecting `groupId`: asks its task to cancel and drops its entry. */
    method StopCollecting(groupId: int := 1) returns (stopped: bool)
      requires Valid()
      modifies this`collectingGroups, this`groupOrder, this`cancelled
      ensures Valid()
      ensures var s := Stop(old(collectingGroups), groupId);
              stopped == s.stopped && collectingGroups == s.active
              && cancelled == old(cancelled) + (if s.cancel.Some? then {s.cancel.value} else {})
      ensures groupOrder == Without(old(groupOrder), groupId)
    {
      OrderAfterStop(groupOrder, collectingGroups, groupId);
      groupOrder := Without(groupOrder, groupId);
      if groupId in collectingGroups {
        var task := collectingGroups[groupId];
        cancelled := cancelled + {task};
        collectingGroups := collectingGroups - {groupId};
        return true;
      }
      return false;
    }

    /** Whether one group is collecting; the all-groups summary agrees with it on 1..9. */
    function GetCollectingStatus(groupId: int): (active: bool)
      reads this
      ensures active <==> groupId in collectingGroups
      ensures groupId in ReportRange ==> GetCollectingStatusAll()[groupId] == active
    {
      groupId in collectingGroups
    }

    /** The status of every group 1..9, whatever other groups collect. */
    function GetCollectingStatusAll(): (r: map<int, bool>)
      reads this
      ensures r.Keys == ReportRange
      ensures forall g :: g in r ==> (r[g] <==> g in collectingGroups)
    {
      StatusSnapshot(collectingGroups)
    }

    /** The groups that have rows, ascending: exactly those a round-robin read finds something in. */
    function GetAvailableGroups(): (gs: seq<int>)
      reads this
      ensures StrictlyAscending(gs)
      ensures forall g :: g in gs <==> |RecordsOf(records, g)| > 0
    {
      AvailableIffHasRecords(records);
      AvailableGroups(records)
    }

    /**
     * The shutdown loop: stops, one by one, every group of a snapshot of the
     * keys taken when it begins.
     */
    method StopAll()
      requires Valid()
      modifies this`collectingGroups, this`groupOrder, this`cancelled
      ensures Valid()
      ensures collectingGroups == map[] && |groupOrder| == 0
      ensures cancelled == old(cancelled) + Tasks(old(collectingGroups))
    {
      ghost var before := collectingGroups;
      var snapshot := groupOrder;
      for i := 0 to |snapshot|
        invariant Valid()
        invariant collectingGroups == StopEach(before, snapshot[..i]).active
        invariant cancelled == old(cancelled) + StopEach(before, snapshot[..i]).cancelled
        invariant groupOrder == snapshot[i..]
      {
        StopAllStep(before, snapshot, i);
        var stopped := StopCollecting(snapshot[i]);
      }
      assert snapshot[..|snapshot|] == snapshot;
      StopAllEmpties(before, snapshot);
      assert collectingGroups == map[];
    }
  }

  /** The query behind `get_all_data`: the rows of one group, or every row, in table order. */
  method SelectRows(rs: seq<Record>, groupId: Option<int>) returns (result: seq<Record>)
    ensures groupId.None? ==> result == rs
    ensures groupId.Some? ==> result == RecordsOf(rs, groupId.value)
    ensures IdsAscending(rs) ==> IdsAscending(result)
  {
    result := [];
    for i := 0 to |rs|
      invariant groupId.None? ==> result == rs[..i]
      invariant groupId.Some? ==> result == RecordsOf(rs[..i], groupId.value)
    {
      assert rs[..i + 1][..i] == rs[..i];
      if groupId.None? || rs[i].groupId == groupId.value {
        result := result + [rs[i]];
      }
    }
    assert rs[..|rs|] == rs;
    if groupId.Some? && IdsAscending(rs) {
      RecordsOfAscending(rs, groupId.value);
    }
  }

  /** A client: starting a group twice reports `true`, then `false`; stopping it then reports `true`. */
  method StartStopScenario()
  {
    var c := new DataCollector([]);
    var first := c.StartCollecting(3);
    var second := c.StartCollecting(3);
    assert first && !second && c.GetCollectingStatus(3);
    var stopped := c.StopCollecting(3);
    var again := c.StopCollecting(3);
    assert stopped && !again && !c.GetCollectingStatus(3);
    var byDefault := c.StartCollecting();
    assert byDefault && c.GetCollectingStatus(1) && !c.GetCollectingStatus(3);
  }
}
