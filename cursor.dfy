/**
 * The round-robin read cursor: an in-memory map from group id to the index
 * of the record the next read of that group returns. A read wraps the stored
 * index to 0 once it has run past the group's records, returns the record at
 * that index, and stores the index plus one.
 */
module Cursor {
  import opened Wrappers
  import opened RecordStore

  type CursorMap = map<int, nat>

  /** The stored index of a group; a group never read counts as 0. */
  function StoredIndex(cursor: CursorMap, g: int): nat
  {
    if g in cursor then cursor[g] else 0
  }

  /** The index a read of a group with `n` records uses: the stored one, or 0 once it has run past the end. */
  function StartIndex(cursor: CursorMap, g: int, n: nat): (i: nat)
    requires n > 0
    ensures i < n
    ensures StoredIndex(cursor, g) < n ==> i == StoredIndex(cursor, g)
    ensures StoredIndex(cursor, g) >= n ==> i == 0
  {
    var stored := StoredIndex(cursor, g);
    if stored >= n then 0 else stored
  }

  datatype ReadResult = ReadResult(record: Option<Record>, cursor: CursorMap)

  /**
   * One read of group `g`, whose records in id order are `group`. With no
   * records there is nothing to return and no cursor entry is created.
   */
  function ReadStep(cursor: CursorMap, group: seq<Record>, g: int): (r: ReadResult)
    ensures r.record.None? <==> |group| == 0
    ensures |group| == 0 ==> r.cursor == cursor
    ensures |group| > 0 ==>
              var i := StartIndex(cursor, g, |group|);
              r.record == Some(group[i]) && g in r.cursor && r.cursor[g] == i + 1 && 1 <= r.cursor[g] <= |group|
    ensures forall h :: h != g ==> (h in r.cursor <==> h in cursor) && StoredIndex(r.cursor, h) == StoredIndex(cursor, h)
  {
    if |group| == 0 then ReadResult(None, cursor)
    else
      var i := StartIndex(cursor, g, |group|);
      ReadResult(Some(group[i]), cursor[g := i + 1])
  }

  /** A read that used index `i` returns the record there and stores `i + 1`. */
  lemma ReadStepAt(cursor: CursorMap, group: seq<Record>, g: int, i: nat)
    requires 0 < |group| && i == StartIndex(cursor, g, |group|)
    ensures ReadStep(cursor, group, g) == ReadResult(Some(group[i]), cursor[g := i + 1])
  {
  }

  datatype Run = Run(returned: seq<Option<Record>>, cursor: CursorMap)

  /** `k` consecutive reads of group `g` while its records stay `group`. */
  function ReadMany(cursor: CursorMap, group: seq<Record>, g: int, k: nat): (run: Run)
    ensures |run.returned| == k
    decreases k
  {
    if k == 0 then Run([], cursor)
    else
      var first := ReadStep(cursor, group, g);
      var rest := ReadMany(first.cursor, group, g, k - 1);
      Run([first.record] + rest.returned, rest.cursor)
  }

  /** Position `s + i` on a ring of `n` slots, for at most one turn. */
  function Rotate(s: nat, i: nat, n: nat): (r: nat)
    requires s < n && i <= n
  {
    if s + i < n then s + i else s + i - n
  }

  /**
   * The i-th of k <= n consecutive reads of a group with n records returns the
   * record at (s + i) mod n, where s is the index the first read uses; the
   * next read after them starts at (s + k) mod n.
   */
  lemma {:induction false} ReadManyRotates(cursor: CursorMap, group: seq<Record>, g: int, k: nat)
    requires 0 < |group| && k <= |group|
    ensures var n, s := |group|, StartIndex(cursor, g, |group|);
            var run := ReadMany(cursor, group, g, k);
            (forall i :: 0 <= i < k ==> run.returned[i] == Some(group[Rotate(s, i, n)]))
            && StartIndex(run.cursor, g, n) == Rotate(s, k, n)
    decreases k
  {
    if k > 0 {
      var n, s := |group|, StartIndex(cursor, g, |group|);
      var first := ReadStep(cursor, group, g);
      ReadManyRotates(first.cursor, group, g, k - 1);
      assert StartIndex(first.cursor, g, n) == Rotate(s, 1, n);
    }
  }

  /** Reads of group `g` leave every other group's cursor entry as it was. */
  lemma {:induction false} ReadManyLeavesOthers(cursor: CursorMap, group: seq<Record>, g: int, k: nat, h: int)
    requires h != g
    ensures var run := ReadMany(cursor, group, g, k);
            (h in run.cursor <==> h in cursor) && StoredIndex(run.cursor, h) == StoredIndex(cursor, h)
    decreases k
  {
    if k > 0 {
      ReadManyLeavesOthers(ReadStep(cursor, group, g).cursor, group, g, k - 1, h);
    }
  }

  /** k + 1 reads are k reads followed by one more. */
  lemma {:induction false} ReadManySnoc(cursor: CursorMap, group: seq<Record>, g: int, k: nat)
    ensures var run := ReadMany(cursor, group, g, k);
            var next := ReadStep(run.cursor, group, g);
            ReadMany(cursor, group, g, k + 1) == Run(run.returned + [next.record], next.cursor)
    decreases k
  {
    if k > 0 {
      var first := ReadStep(cursor, group, g);
      ReadManySnoc(first.cursor, group, g, k - 1);
      var rest := ReadMany(first.cursor, group, g, k - 1);
      var next := ReadStep(rest.cursor, group, g);
      assert [first.record] + (rest.returned + [next.record]) == ([first.record] + rest.returned) + [next.record];
    }
  }

  /**
   * From no cursor entry, n reads of a group with n records return its records
   * one by one in id order, and read n + 1 returns the first record again.
   */
  lemma RoundRobinFromStart(cursor: CursorMap, group: seq<Record>, g: int)
    requires g !in cursor && 0 < |group|
    ensures var run := ReadMany(cursor, group, g, |group|);
            forall i :: 0 <= i < |group| ==> run.returned[i] == Some(group[i])
    ensures ReadMany(cursor, group, g, |group| + 1).returned[|group|] == Some(group[0])
  {
    var n := |group|;
    ReadManyRotates(cursor, group, g, n);
    ReadManySnoc(cursor, group, g, n);
    assert StartIndex(cursor, g, n) == 0;
  }

  /**
   * Whatever the cursor, n consecutive reads of a group with n records return
   * every record of the group, and no record twice.
   */
  lemma RoundRobinEachOnce(cursor: CursorMap, group: seq<Record>, g: int)
    requires 0 < |group| && IdsAscending(group)
    ensures var run := ReadMany(cursor, group, g, |group|);
            (forall j :: 0 <= j < |group| ==> Some(group[j]) in run.returned)
            && forall i1, i2 :: 0 <= i1 < i2 < |group| ==> run.returned[i1] != run.returned[i2]
  {
    var n, s := |group|, StartIndex(cursor, g, |group|);
    var run := ReadMany(cursor, group, g, n);
    ReadManyRotates(cursor, group, g, n);
    forall j | 0 <= j < n
      ensures Some(group[j]) in run.returned
    {
      var i := if j >= s then j - s else j + n - s;
      assert run.returned[i] == Some(group[Rotate(s, i, n)]);
    }
    forall i1, i2 | 0 <= i1 < i2 < n
      ensures run.returned[i1] != run.returned[i2]
    {
      var a, b := Rotate(s, i1, n), Rotate(s, i2, n);
      assert a != b;
      assert group[a].id != group[b].id;
    }
  }

  /** Every cursor entry lies between 1 and the number of records of its group. */
  predicate CursorInv(cursor: CursorMap, rs: seq<Record>)
  {
    forall g :: g in cursor ==> 1 <= cursor[g] <= |RecordsOf(rs, g)|
  }

  /** A read keeps every cursor entry within its group's records. */
  lemma ReadPreservesCursorInv(cursor: CursorMap, rs: seq<Record>, g: int)
    requires CursorInv(cursor, rs)
    ensures CursorInv(ReadStep(cursor, RecordsOf(rs, g), g).cursor, rs)
  {
    var after := ReadStep(cursor, RecordsOf(rs, g), g).cursor;
    forall h | h in after
      ensures 1 <= after[h] <= |RecordsOf(rs, h)|
    {
      if h != g {
        assert StoredIndex(after, h) == StoredIndex(cursor, h);
      }
    }
  }

  /** Storing `i + 1` for a group with more than `i` records keeps the invariant. */
  lemma CursorInvUpdate(cursor: CursorMap, rs: seq<Record>, g: int, i: nat)
    requires CursorInv(cursor, rs) && i < |RecordsOf(rs, g)|
    ensures CursorInv(cursor[g := i + 1], rs)
  {
  }

  /** Appending a record keeps every cursor entry within its group's records. */
  lemma AppendPreservesCursorInv(cursor: CursorMap, rs: seq<Record>, groupId: int, payload: Payload)
    requires CursorInv(cursor, rs)
    ensures CursorInv(cursor, Append(rs, groupId, payload))
  {
    forall h | h in cursor
      ensures cursor[h] <= |RecordsOf(Append(rs, groupId, payload), h)|
    {
      CountGrowsOnAppend(rs, groupId, payload, h);
    }
  }
}
