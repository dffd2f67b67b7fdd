/**
 * One collection attempt. The HTTP GET and the insert are not modelled: their
 * outcome is an input. It is a response (status code and, when the body
 * decoded as JSON, its payload) whose insert succeeded if it was attempted; a
 * storage fault (a 200 response with a decodable body whose insert raised,
 * which the attempt's own error handler catches); or a transport fault
 * (timeout, refused connection, ...). Only a status of exactly 200 with a
 * decodable body and a working insert stores a record.
 */
module Fetch {
  import opened Wrappers
  import opened RecordStore

  datatype FetchOutcome =
    | Response(status: int, body: Option<Payload>)
    | StorageFault
    | TransportFault

  /** The payload a collection attempt stores and returns, if any. */
  function Accepted(outcome: FetchOutcome): (p: Option<Payload>)
    ensures p.Some? <==> outcome.Response? && outcome.status == 200 && outcome.body.Some?
    ensures p.Some? ==> p == outcome.body
  {
    match outcome
    case Response(status, body) => if status == 200 then body else None
    case StorageFault => None
    case TransportFault => None
  }

  /** The store after one collection attempt for `groupId`. */
  function CollectStep(rs: seq<Record>, groupId: int, outcome: FetchOutcome): (r: seq<Record>)
    ensures WellFormed(rs) ==> WellFormed(r)
    ensures Accepted(outcome).None? ==> r == rs
    ensures !outcome.Response? ==> r == rs
    ensures Accepted(outcome).Some? ==> r == Append(rs, groupId, Accepted(outcome).value)
  {
    match Accepted(outcome)
    case Some(p) => Append(rs, groupId, p)
    case None => rs
  }

  /**
   * The store after a run of collection attempts for one group, oldest first:
   * the rows already there stay, at most one row is added per attempt, and the
   * table stays well formed.
   */
  function CollectAll(rs: seq<Record>, groupId: int, outcomes: seq<FetchOutcome>): (r: seq<Record>)
    ensures |rs| <= |r| <= |rs| + |outcomes| && r[..|rs|] == rs
    ensures WellFormed(rs) ==> WellFormed(r)
  {
    if |outcomes| == 0 then rs
    else CollectStep(CollectAll(rs, groupId, outcomes[..|outcomes| - 1]), groupId, outcomes[|outcomes| - 1])
  }

  /** The payloads of the attempts that succeeded, in attempt order. */
  function Successes(outcomes: seq<FetchOutcome>): (ps: seq<Payload>)
    ensures |ps| <= |outcomes|
  {
    if |outcomes| == 0 then []
    else
      var last := Accepted(outcomes[|outcomes| - 1]);
      Successes(outcomes[..|outcomes| - 1]) + (if last.Some? then [last.value] else [])
  }

  function Payloads(rs: seq<Record>): (ps: seq<Payload>)
  {
    seq(|rs|, i requires 0 <= i < |rs| => rs[i].payload)
  }

  lemma PayloadsSnoc(rs: seq<Record>, r: Record)
    ensures Payloads(rs + [r]) == Payloads(rs) + [r.payload]
  {
    assert forall i :: 0 <= i < |rs| ==> (rs + [r])[i] == rs[i];
  }

  /**
   * A run of collection attempts for group `g` adds to g's records exactly the
   * payloads of the successful attempts, in attempt order.
   */
  lemma {:induction false} CollectAllAppendsSuccesses(rs: seq<Record>, g: int, outcomes: seq<FetchOutcome>)
    ensures Payloads(RecordsOf(CollectAll(rs, g, outcomes), g))
            == Payloads(RecordsOf(rs, g)) + Successes(outcomes)
  {
    if |outcomes| > 0 {
      var init, last := outcomes[..|outcomes| - 1], outcomes[|outcomes| - 1];
      CollectAllAppendsSuccesses(rs, g, init);
      var before := CollectAll(rs, g, init);
      assert CollectAll(rs, g, outcomes) == CollectStep(before, g, last);
      match Accepted(last)
      case None =>
        assert Successes(outcomes) == Successes(init);
      case Some(p) =>
        var after := Append(before, g, p);
        RecordsOfAppend(before, g, p, g);
        PayloadsSnoc(RecordsOf(before, g), after[|before|]);
        assert Successes(outcomes) == Successes(init) + [p];
        calc {
          Payloads(RecordsOf(after, g));
          Payloads(RecordsOf(before, g)) + [p];
          (Payloads(RecordsOf(rs, g)) + Successes(init)) + [p];
          Payloads(RecordsOf(rs, g)) + (Successes(init) + [p]);
        }
    }
  }

  /** Collecting for group `g` adds nothing to any other group. */
  lemma {:induction false} CollectAllLeavesOtherGroups(rs: seq<Record>, g: int, outcomes: seq<FetchOutcome>, h: int)
    requires h != g
    ensures RecordsOf(CollectAll(rs, g, outcomes), h) == RecordsOf(rs, h)
  {
    if |outcomes| > 0 {
      var init, last := outcomes[..|outcomes| - 1], outcomes[|outcomes| - 1];
      CollectAllLeavesOtherGroups(rs, g, init, h);
      var before := CollectAll(rs, g, init);
      match Accepted(last)
      case None =>
      case Some(p) =>
        RecordsOfAppend(before, g, p, h);
    }
  }

  /** Attempts that all fail leave the store exactly as it was. */
  lemma {:induction false} FailuresStoreNothing(rs: seq<Record>, g: int, outcomes: seq<FetchOutcome>)
    requires forall i :: 0 <= i < |outcomes| ==> Accepted(outcomes[i]).None?
    ensures CollectAll(rs, g, outcomes) == rs
  {
    if |outcomes| > 0 {
      FailuresStoreNothing(rs, g, outcomes[..|outcomes| - 1]);
    }
  }
}
