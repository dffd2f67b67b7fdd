/**
 * The record store: the `collected_data` table, an append-only sequence of
 * rows `(id, group_id, data)` whose `id` is an auto-incremented primary key.
 * Rows are only ever inserted, never updated or deleted, so the table is a
 * sequence in id order.
 */
module RecordStore {

  /** The `data` column: the fetched payload, kept as the JSON text it was stored as. */
  type Payload = string

  datatype Record = Record(id: int, groupId: int, payload: Payload)

  /** Ids ascend strictly along the sequence. */
  predicate IdsAscending(rs: seq<Record>)
  {
    forall i, j :: 0 <= i < j < |rs| ==> rs[i].id < rs[j].id
  }

  /** What the table looks like: ids start at 1 and ascend strictly. */
  predicate WellFormed(rs: seq<Record>)
  {
    IdsAscending(rs) && forall i :: 0 <= i < |rs| ==> rs[i].id >= 1
  }

  /** The id the store gives the next row: one more than the largest id, 1 for an empty table. */
  function NextId(rs: seq<Record>): (id: int)
    ensures WellFormed(rs) ==> id >= 1 && forall i :: 0 <= i < |rs| ==> rs[i].id < id
  {
    if |rs| == 0 then 1 else rs[|rs| - 1].id + 1
  }

  /** `INSERT INTO collected_data (group_id, data) VALUES (?, ?)`. */
  function Append(rs: seq<Record>, groupId: int, payload: Payload): (r: seq<Record>)
    ensures |r| == |rs| + 1 && r[..|rs|] == rs
    ensures r[|rs|].groupId == groupId && r[|rs|].payload == payload
    ensures WellFormed(rs) ==> WellFormed(r) && forall i :: 0 <= i < |rs| ==> rs[i].id < r[|rs|].id
  {
    rs + [Record(NextId(rs), groupId, payload)]
  }

  /** `SELECT ... WHERE group_id = ? ORDER BY id`: the rows of one group, in table order. */
  function RecordsOf(rs: seq<Record>, groupId: int): (r: seq<Record>)
    ensures |r| <= |rs|
    ensures forall k :: 0 <= k < |r| ==> r[k].groupId == groupId
  {
    if |rs| == 0 then []
    else
      var last := rs[|rs| - 1];
      RecordsOf(rs[..|rs| - 1], groupId) + (if last.groupId == groupId then [last] else [])
  }

  /** A group's list holds exactly the table's rows of that group. */
  lemma {:induction false} RecordsOfMembers(rs: seq<Record>, groupId: int)
    ensures forall x :: x in RecordsOf(rs, groupId) <==> x in rs && x.groupId == groupId
  {
    if |rs| > 0 {
      var init, last := rs[..|rs| - 1], rs[|rs| - 1];
      RecordsOfMembers(init, groupId);
      assert rs == init + [last];
      assert forall x :: x in rs <==> x in init || x == last;
    }
  }

  /** A group's list keeps the table's id order. */
  lemma {:induction false} RecordsOfAscending(rs: seq<Record>, groupId: int)
    requires IdsAscending(rs)
    ensures IdsAscending(RecordsOf(rs, groupId))
  {
    if |rs| > 0 {
      var init, last := rs[..|rs| - 1], rs[|rs| - 1];
      assert IdsAscending(init);
      RecordsOfAscending(init, groupId);
      RecordsOfMembers(init, groupId);
      var prev := RecordsOf(init, groupId);
      forall k | 0 <= k < |prev|
        ensures prev[k].id < last.id
      {
        assert prev[k] in init;
        var j :| 0 <= j < |init| && init[j] == prev[k];
        assert rs[j] == init[j];
      }
    }
  }

  /** Appending a row extends its own group's list by that row and leaves every other group's list alone. */
  lemma RecordsOfAppend(rs: seq<Record>, groupId: int, payload: Payload, h: int)
    ensures RecordsOf(Append(rs, groupId, payload), h)
            == RecordsOf(rs, h) + (if h == groupId then [Append(rs, groupId, payload)[|rs|]] else [])
  {
    var r := Append(rs, groupId, payload);
    assert r[..|r| - 1] == rs;
  }

  /** The number of rows of a group never shrinks as rows are appended. */
  lemma CountGrowsOnAppend(rs: seq<Record>, groupId: int, payload: Payload, h: int)
    ensures |RecordsOf(Append(rs, groupId, payload), h)| >= |RecordsOf(rs, h)|
  {
    RecordsOfAppend(rs, groupId, payload, h);
  }

  predicate StrictlyAscending(xs: seq<int>)
  {
    forall i, j :: 0 <= i < j < |xs| ==> xs[i] < xs[j]
  }

  /** Puts `x` into its place in a strictly ascending list, unless it is already there. */
  function InsertAscending(xs: seq<int>, x: int): (r: seq<int>)
    requires StrictlyAscending(xs)
    ensures StrictlyAscending(r)
    ensures forall y :: y in r <==> y in xs || y == x
  {
    if |xs| == 0 then [x]
    else if x < xs[0] then [x] + xs
    else if x == xs[0] then xs
    else
      var rest := InsertAscending(xs[1..], x);
      assert forall y :: y in xs <==> y == xs[0] || y in xs[1..];
      assert forall k :: 0 <= k < |rest| ==> rest[k] in rest;
      assert forall k :: 0 <= k < |rest| ==> xs[0] < rest[k];
      [xs[0]] + rest
  }

  /** `SELECT DISTINCT group_id ... ORDER BY group_id`: the groups that have rows, ascending, each once. */
  function AvailableGroups(rs: seq<Record>): (gs: seq<int>)
    ensures StrictlyAscending(gs)
    ensures forall g :: g in gs <==> exists i :: 0 <= i < |rs| && rs[i].groupId == g
  {
    if |rs| == 0 then []
    else
      var init := rs[..|rs| - 1];
      assert forall i :: 0 <= i < |init| ==> init[i] == rs[i];
      InsertAscending(AvailableGroups(init), rs[|rs| - 1].groupId)
  }

  /** A group is listed as available exactly when a read of it finds records. */
  lemma AvailableIffHasRecords(rs: seq<Record>)
    ensures forall g :: g in AvailableGroups(rs) <==> |RecordsOf(rs, g)| > 0
  {
    forall g | g in AvailableGroups(rs)
      ensures |RecordsOf(rs, g)| > 0
    {
      RecordsOfMembers(rs, g);
      var i :| 0 <= i < |rs| && rs[i].groupId == g;
      assert rs[i] in RecordsOf(rs, g);
    }
  }

  /** Appends a whole run of rows, in order, as the store would receive them. */
  function AppendAll(rs: seq<Record>, batch: seq<(int, Payload)>): (r: seq<Record>)
    ensures |r| == |rs| + |batch|
  {
    if |batch| == 0 then rs
    else
      var last := batch[|batch| - 1];
      Append(AppendAll(rs, batch[..|batch| - 1]), last.0, last.1)
  }

  /**
   * Starting from an empty table, N appends in any interleaving of groups get
   * the ids 1..N, in order, with no gap and no repetition, and each row keeps
   * the group and payload it was appended with.
   */
  lemma {:induction false} AppendAllFromEmpty(batch: seq<(int, Payload)>)
    ensures var r := AppendAll([], batch);
            forall i :: 0 <= i < |r| ==> r[i] == Record(i + 1, batch[i].0, batch[i].1)
  {
    if |batch| > 0 {
      var n := |batch| - 1;
      var init := batch[..n];
      AppendAllFromEmpty(init);
      var prev := AppendAll([], init);
      assert n > 0 ==> prev[n - 1].id == n;
      var r := prev + [Record(n + 1, batch[n].0, batch[n].1)];
      assert AppendAll([], batch) == r;
      forall i | 0 <= i < n
        ensures r[i] == Record(i + 1, batch[i].0, batch[i].1)
      {
        assert init[i] == batch[i];
      }
    }
  }

  /** A run of appends keeps the table well formed. */
  lemma {:induction false} AppendAllWellFormed(rs: seq<Record>, batch: seq<(int, Payload)>)
    requires WellFormed(rs)
    ensures WellFormed(AppendAll(rs, batch))
  {
    if |batch| > 0 {
      AppendAllWellFormed(rs, batch[..|batch| - 1]);
    }
  }
}
