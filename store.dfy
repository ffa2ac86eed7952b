/**
 * The relational store as the ingestion sees it: the `toilets` table keyed by
 * record id, and the one-cell `fetch_progress` checkpoint. SQL text and
 * connection handling are reduced to their effect on these two values.
 */
module Store {
  import opened Records

  /** A row of the `toilets` table: the record's fields and `updated_at`. */
  datatype Row = Row(toilet: Toilet, updatedAt: int)

  /** Every row sits under its record's id: the id is the table's key. */
  ghost predicate RowsKeyed(rows: map<int, Row>)
  {
    forall id :: id in rows ==> rows[id].toilet.id == id
  }

  /** The table after upserting the records of ts in order, all in a transaction stamped `now`. */
  function UpsertAll(rows: map<int, Row>, ts: seq<Toilet>, now: int): map<int, Row>
    decreases |ts|
  {
    if ts == [] then rows
    else
      var t := ts[|ts| - 1];
      UpsertAll(rows, ts[..|ts| - 1], now)[t.id := Row(t, now)]
  }

  /**
   * Upsert semantics: an id of ts holds the fields of its last occurrence and
   * the new timestamp; every other id keeps its row; no other id appears.
   */
  lemma {:induction false} UpsertAllAt(rows: map<int, Row>, ts: seq<Toilet>, now: int, id: int)
    ensures id in UpsertAll(rows, ts, now) <==> id in rows || LastKept(ts, id, KeepAll).Some?
    ensures id in UpsertAll(rows, ts, now) ==>
      UpsertAll(rows, ts, now)[id] ==
        if LastKept(ts, id, KeepAll).Some? then Row(LastKept(ts, id, KeepAll).value, now) else rows[id]
    decreases |ts|
  {
    if ts != [] {
      UpsertAllAt(rows, ts[..|ts| - 1], now, id);
      var t := ts[|ts| - 1];
      assert KeepAll(t.latitude, t.longitude);
    }
  }

  /** Upserting keeps the table keyed by id: one row per id. */
  lemma {:induction false} UpsertAllKeyed(rows: map<int, Row>, ts: seq<Toilet>, now: int)
    requires RowsKeyed(rows)
    ensures RowsKeyed(UpsertAll(rows, ts, now))
    ensures rows.Keys <= UpsertAll(rows, ts, now).Keys
    decreases |ts|
  {
    if ts != [] {
      UpsertAllKeyed(rows, ts[..|ts| - 1], now);
    }
  }

  /** The table after saving every record of the accumulator in one transaction stamped `now`. */
  function Merge(rows: map<int, Row>, acc: map<int, Toilet>, now: int): map<int, Row>
  {
    rows + map id | id in acc :: Row(acc[id], now)
  }

  /** Merging: the accumulator's ids take its records with the new timestamp; every other row stays. */
  lemma MergeAt(rows: map<int, Row>, acc: map<int, Toilet>, now: int)
    ensures Merge(rows, acc, now).Keys == rows.Keys + acc.Keys
    ensures forall id :: id in acc ==> Merge(rows, acc, now)[id] == Row(acc[id], now)
    ensures forall id :: id in rows && id !in acc ==> Merge(rows, acc, now)[id] == rows[id]
  {
  }

  /**
   * Saving the values of an accumulator, as a list that holds each of them
   * once, in any order, is merging the accumulator into the table.
   */
  lemma UpsertValuesIsMerge(rows: map<int, Row>, acc: map<int, Toilet>, ts: seq<Toilet>, now: int)
    requires DistinctIds(ts)
    requires forall i :: 0 <= i < |ts| ==> ts[i].id in acc && acc[ts[i].id] == ts[i]
    requires forall id :: id in acc ==> exists i :: 0 <= i < |ts| && ts[i].id == id
    ensures UpsertAll(rows, ts, now) == Merge(rows, acc, now)
  {
    MergeAt(rows, acc, now);
    forall id | id in rows || id in acc || id in UpsertAll(rows, ts, now)
      ensures id in UpsertAll(rows, ts, now) <==> id in Merge(rows, acc, now)
      ensures id in Merge(rows, acc, now) ==> UpsertAll(rows, ts, now)[id] == Merge(rows, acc, now)[id]
    {
      UpsertAllAt(rows, ts, now, id);
      var last := LastKept(ts, id, KeepAll);
      if id in acc {
        var i :| 0 <= i < |ts| && ts[i].id == id;
        assert KeepAll(ts[i].latitude, ts[i].longitude);
        assert last.Some?;
        var k :| 0 <= k < |ts| && ts[k] == last.value;
        assert k == i;
      }
    }
  }

  /**
   * Whether a transaction over n upserts fails when statement `fault` raises:
   * 0 is acquiring the connection and BEGIN, 1 to n the upserts, n + 1 the COMMIT.
   */
  predicate Raises(fault: Option<nat>, n: nat)
  {
    fault.Some? && fault.value <= n + 1
  }

  /** What `getLastProcessedPage` reads: the stored last page, or 0 when there is no checkpoint. */
  function LastProcessedPage(progress: Option<int>): int
  {
    match progress
    case None => 0
    case Some(last) => last
  }

  /** The database the service is given: both tables, updated in place. */
  class Database {
    var toilets: map<int, Row>
    /** `fetch_progress.last_page`; None while no checkpoint row exists. */
    var progress: Option<int>

    ghost predicate Valid()
      reads this
    {
      RowsKeyed(toilets)
    }

    constructor (toilets: map<int, Row>, progress: Option<int>)
      requires RowsKeyed(toilets)
      ensures Valid() && this.toilets == toilets && this.progress == progress
    {
      this.toilets := toilets;
      this.progress := progress;
    }
  }
}
