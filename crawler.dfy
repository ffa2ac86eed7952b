/**
 * The resumable batched crawl `fetchAllToilets` as a state machine: the cursor
 * `page`, the retry budget, the `hasMore` flag and the accumulator, together
 * with the two tables it writes. One `Step` is one pass of the `while` loop.
 *
 * The network and the database are oracles collected in `Env`: each is asked
 * with the loop iteration it serves, so a batch that is fetched again after a
 * failure may be answered differently.
 */
module Crawler {
  import opened Records
  import opened Store

  /** `this.BATCH_SIZE`: pages requested per iteration. */
  const BATCH_SIZE: int := 10
  /** The initial retry budget of the crawl. */
  const MAX_RETRIES: int := 3

  datatype Env = Env(
    /** fetch(n, p): how `fetchPage(p)` settles in iteration n. */
    fetch: (nat, int) -> PageResult,
    /** saveFault(n): the statement at which `saveToilets` raises in iteration n, if any (see Raises). */
    saveFault: nat -> Option<nat>,
    /** progressFails(n): whether `saveProgress` raises in iteration n. */
    progressFails: nat -> bool,
    /** clock(n): CURRENT_TIMESTAMP of iteration n's transaction. */
    clock: nat -> int,
    /** No page after this one holds records. */
    lastPage: int)

  /** The directory is finite: past `lastPage` every page is empty or fails. */
  ghost predicate Finite(env: Env)
  {
    forall n: nat, p: int :: p > env.lastPage ==> !HasRecords(env.fetch(n, p))
  }

  /** The crawl's local variables, and the two tables it writes. */
  datatype CrawlState = CrawlState(
    page: int,
    retries: int,
    hasMore: bool,
    acc: map<int, Toilet>,
    store: map<int, Row>,
    checkpoint: Option<int>,
    iteration: nat,
    requested: seq<int>)

  /** The state on entry: the cursor one past the last processed page, a full retry budget. */
  function Init(lastProcessedPage: int, store: map<int, Row>, checkpoint: Option<int>): CrawlState
  {
    CrawlState(lastProcessedPage + 1, MAX_RETRIES, true, map[], store, checkpoint, 0, [])
  }

  /** The page numbers of one batch. */
  function BatchPages(page: int): (r: seq<int>)
    ensures |r| == BATCH_SIZE && r[0] == page && r[BATCH_SIZE - 1] == page + BATCH_SIZE - 1
    ensures forall i :: 0 < i < |r| ==> r[i] == r[i - 1] + 1
  {
    seq(BATCH_SIZE, i => page + i)
  }

  /** How each page of a batch settles in iteration n, in batch order. */
  function Fetched(env: Env, n: nat, pages: seq<int>): seq<PageResult>
  {
    seq(|pages|, i requires 0 <= i < |pages| => env.fetch(n, pages[i]))
  }

  /** The settled results the crawl sees in the iteration it is about to run. */
  function BatchResults(env: Env, s: CrawlState): seq<PageResult>
  {
    Fetched(env, s.iteration, BatchPages(s.page))
  }

  /** The accumulator, retry budget and `batchHasData` after the `results.forEach` pass. */
  datatype Settled = Settled(acc: map<int, Toilet>, retries: int, hasData: bool)

  function Settle(results: seq<PageResult>, acc: map<int, Toilet>, retries: int, inArea: (real, real) -> bool): Settled
    decreases |results|
  {
    if results == [] then Settled(acc, retries, false)
    else
      var prev := Settle(results[..|results| - 1], acc, retries, inArea);
      match results[|results| - 1]
      case Rejected => prev.(retries := prev.retries - 1)
      case Fulfilled(ts) =>
        if |ts| > 0 then Settled(Absorb(prev.acc, ts, inArea), prev.retries, true) else prev
  }

  /** The records of the fulfilled pages, page after page. */
  function Delivered(results: seq<PageResult>): (r: seq<Toilet>)
    ensures forall t :: t in r ==> exists i :: 0 <= i < |results| && HasRecords(results[i]) && t in results[i].toilets
    decreases |results|
  {
    if results == [] then []
    else
      var prev := Delivered(results[..|results| - 1]);
      var last := results[|results| - 1];
      assert forall i :: 0 <= i < |results| - 1 ==> results[..|results| - 1][i] == results[i];
      if last.Fulfilled? then prev + last.toilets else prev
  }

  /** Pages without records deliver nothing. */
  lemma {:induction false} DeliveredNothing(results: seq<PageResult>)
    requires forall i :: 0 <= i < |results| ==> !HasRecords(results[i])
    ensures Delivered(results) == []
    decreases |results|
  {
    if results != [] {
      DeliveredNothing(results[..|results| - 1]);
    }
  }

  /**
   * What the pass over the settled results does: one retry is spent per
   * rejected page; the batch has data iff some page came back non-empty; the
   * accumulator takes the in-area records of the fulfilled pages in page order.
   */
  lemma {:induction false} SettleSpec(results: seq<PageResult>, acc: map<int, Toilet>, retries: int, inArea: (real, real) -> bool)
    ensures Settle(results, acc, retries, inArea).retries == retries - multiset(results)[Rejected]
    ensures Settle(results, acc, retries, inArea).hasData <==> exists i :: 0 <= i < |results| && HasRecords(results[i])
    ensures Settle(results, acc, retries, inArea).acc == Absorb(acc, Delivered(results), inArea)
    decreases |results|
  {
    if results != [] {
      var front := results[..|results| - 1];
      var last := results[|results| - 1];
      SettleSpec(front, acc, retries, inArea);
      assert results == front + [last];
      assert multiset(results) == multiset(front) + multiset{last};
      assert forall i :: 0 <= i < |front| ==> front[i] == results[i];
      if last.Fulfilled? {
        AbsorbConcat(acc, Delivered(front), last.toilets, inArea);
        if |last.toilets| == 0 {
          assert Delivered(front) + last.toilets == Delivered(front);
        }
      }
    }
  }

  /** The `catch` block: spend a retry, and give up once the budget is gone. */
  function Catch(s: CrawlState): CrawlState
  {
    var r := s.retries - 1;
    if r > 0 then s.(retries := r) else s.(retries := r, hasMore := false)
  }

  /** One pass of the `while` body of `fetchAllToilets`. */
  function Step(env: Env, inArea: (real, real) -> bool, s: CrawlState): CrawlState
  {
    var batch := BatchPages(s.page);
    var settled := Settle(Fetched(env, s.iteration, batch), s.acc, s.retries, inArea);
    var s1 := s.(acc := settled.acc, retries := settled.retries, iteration := s.iteration + 1,
                 requested := s.requested + batch);
    if settled.hasData then Persist(env, s.iteration, s1) else s1.(hasMore := false)
  }

  /**
   * The rest of the body once the batch had data: save a non-empty accumulator
   * and clear it, advance the cursor, write the checkpoint. A failing save or
   * checkpoint write lands in the `catch` block.
   */
  function Persist(env: Env, n: nat, s: CrawlState): CrawlState
  {
    if |s.acc| > 0 && Raises(env.saveFault(n), |s.acc|) then
      Catch(s)
    else
      var saved := if |s.acc| > 0
        then s.(store := Merge(s.store, s.acc, env.clock(n)), acc := map[])
        else s;
      var advanced := saved.(page := saved.page + BATCH_SIZE);
      if env.progressFails(n) then Catch(advanced) else advanced.(checkpoint := Some(advanced.page))
  }

  /** The pass over a batch never raises the budget, and has data only if some page had records. */
  lemma {:induction false} SettleBounds(results: seq<PageResult>, acc: map<int, Toilet>, retries: int, inArea: (real, real) -> bool)
    ensures Settle(results, acc, retries, inArea).retries <= retries
    ensures Settle(results, acc, retries, inArea).hasData ==> exists i :: 0 <= i < |results| && HasRecords(results[i])
    decreases |results|
  {
    if results != [] {
      var front := results[..|results| - 1];
      SettleBounds(front, acc, retries, inArea);
      if Settle(front, acc, retries, inArea).hasData {
        var i :| 0 <= i < |front| && HasRecords(front[i]);
        assert results[i] == front[i];
      }
    }
  }

  /** Every iteration either moves the cursor towards the end of the data, spends retries, or stops. */
  lemma StepDecreases(env: Env, inArea: (real, real) -> bool, s: CrawlState)
    requires Finite(env) && s.hasMore && s.retries > 0
    ensures var t := Step(env, inArea, s);
      Remaining(env.lastPage, t.page) < Remaining(env.lastPage, s.page) ||
      (Remaining(env.lastPage, t.page) == Remaining(env.lastPage, s.page) &&
        (RetriesLeft(t.retries) < RetriesLeft(s.retries) ||
          (RetriesLeft(t.retries) == RetriesLeft(s.retries) && !t.hasMore)))
  {
    var results := BatchResults(env, s);
    SettleBounds(results, s.acc, s.retries, inArea);
    StepFacts(env, inArea, s);
    if Step(env, inArea, s).page != s.page {
      var i :| 0 <= i < |results| && HasRecords(results[i]);
      assert results[i] == env.fetch(s.iteration, s.page + i);
    }
  }

  /** The `while (hasMore && retries > 0)` loop, run to its end. */
  function CrawlFrom(env: Env, inArea: (real, real) -> bool, s: CrawlState): CrawlState
    requires Finite(env)
    decreases Remaining(env.lastPage, s.page), RetriesLeft(s.retries), if s.hasMore then 1 else 0
  {
    if s.hasMore && s.retries > 0 then
      StepDecreases(env, inArea, s);
      CrawlFrom(env, inArea, Step(env, inArea, s))
    else s
  }

  /** How `fetchAllToilets` settles: it returns `page - 1`, or rejects when the final save fails. */
  datatype Outcome = Completed(lastPage: int) | Failed

  datatype Run = Run(final: CrawlState, outcome: Outcome)

  /** After the loop: flush a non-empty accumulator once, then return `page - 1`. */
  function Finish(env: Env, s: CrawlState): Run
  {
    if |s.acc| > 0 && Raises(env.saveFault(s.iteration), |s.acc|) then Run(s, Failed)
    else if |s.acc| > 0 then Run(s.(store := Merge(s.store, s.acc, env.clock(s.iteration))), Completed(s.page - 1))
    else Run(s, Completed(s.page - 1))
  }

  /** `fetchAllToilets(lastProcessedPage)` from entry to return. */
  function FetchAll(env: Env, inArea: (real, real) -> bool, lastProcessedPage: int,
                    store: map<int, Row>, checkpoint: Option<int>): Run
    requires Finite(env)
  {
    Finish(env, CrawlFrom(env, inArea, Init(lastProcessedPage, store, checkpoint)))
  }

  /** The table still holds every id it held before, and every row written since was an in-area record. */
  ghost predicate OnlyInAreaAdded(store0: map<int, Row>, store: map<int, Row>, inArea: (real, real) -> bool)
  {
    && store0.Keys <= store.Keys
    && forall id :: id in store ==>
         (id in store0 && store[id] == store0[id]) ||
         inArea(store[id].toilet.latitude, store[id].toilet.longitude)
  }

  /** Every record in the accumulator is an in-area record under its own id. */
  ghost predicate AccInArea(acc: map<int, Toilet>, inArea: (real, real) -> bool)
  {
    KeyedById(acc) && forall id :: id in acc ==> inArea(acc[id].latitude, acc[id].longitude)
  }

  /** What the part after a batch with data can change, whichever way it goes. */
  lemma PersistFacts(env: Env, n: nat, s: CrawlState)
    ensures var t := Persist(env, n, s);
      && t.requested == s.requested && t.iteration == s.iteration
      && (t.page == s.page || t.page == s.page + BATCH_SIZE)
      && t.retries <= s.retries
      && (t.page == s.page ==> t.retries == s.retries - 1)
      && (t.acc == s.acc || t.acc == map[])
      && (t.store == s.store || t.store == Merge(s.store, s.acc, env.clock(n)))
      && (t.checkpoint == s.checkpoint || (t.checkpoint == Some(t.page) && t.page == s.page + BATCH_SIZE))
  {
    if |s.acc| > 0 && Raises(env.saveFault(n), |s.acc|) {
      assert Persist(env, n, s) == Catch(s);
    } else {
      var saved := if |s.acc| > 0
        then s.(store := Merge(s.store, s.acc, env.clock(n)), acc := map[])
        else s;
      var advanced := saved.(page := saved.page + BATCH_SIZE);
      if env.progressFails(n) {
        assert Persist(env, n, s) == Catch(advanced);
      } else {
        assert Persist(env, n, s) == advanced.(checkpoint := Some(advanced.page));
      }
    }
  }

  /** What one iteration can change, whichever way it goes. */
  lemma StepFacts(env: Env, inArea: (real, real) -> bool, s: CrawlState)
    ensures var settled := Settle(BatchResults(env, s), s.acc, s.retries, inArea);
            var t := Step(env, inArea, s);
      && t.requested == s.requested + BatchPages(s.page)
      && t.iteration == s.iteration + 1
      && (t.page == s.page || (t.page == s.page + BATCH_SIZE && settled.hasData))
      && t.retries <= settled.retries
      && (t.page == s.page ==> !t.hasMore || t.retries < settled.retries)
      && (t.acc == settled.acc || t.acc == map[])
      && (t.store == s.store || t.store == Merge(s.store, settled.acc, env.clock(s.iteration)))
      && (t.checkpoint == s.checkpoint || (t.checkpoint == Some(t.page) && t.page == s.page + BATCH_SIZE))
  {
    var settled := Settle(BatchResults(env, s), s.acc, s.retries, inArea);
    var s1 := s.(acc := settled.acc, retries := settled.retries, iteration := s.iteration + 1,
                 requested := s.requested + BatchPages(s.page));
    if settled.hasData {
      assert Step(env, inArea, s) == Persist(env, s.iteration, s1);
      PersistFacts(env, s.iteration, s1);
    } else {
      assert Step(env, inArea, s) == s1.(hasMore := false);
    }
  }

  /**
   * The cursor sits on a batch boundary after lp; the first batch requested
   * was lp + 1 .. lp + 10; every page requested lies after lp and before the
   * end of the cursor's batch; every page between lp and the cursor was requested.
   */
  ghost predicate CursorInv(lp: int, page: int, requested: seq<int>)
  {
    && lp < page && (page - lp - 1) % BATCH_SIZE == 0
    && (requested == [] ==> page == lp + 1)
    && (requested != [] ==> |requested| >= BATCH_SIZE && requested[..BATCH_SIZE] == BatchPages(lp + 1))
    && (forall i :: 0 <= i < |requested| ==> lp < requested[i] < page + BATCH_SIZE)
    && (forall p :: lp < p < page ==> p in requested)
  }

  /** One row per id, and only in-area records written since the crawl began. */
  ghost predicate StoreInv(store0: map<int, Row>, store: map<int, Row>, inArea: (real, real) -> bool)
  {
    RowsKeyed(store) && OnlyInAreaAdded(store0, store, inArea)
  }

  /** Any checkpoint this crawl wrote is a batch boundary after lp, no later than the cursor. */
  ghost predicate CheckpointInv(lp: int, cp0: Option<int>, checkpoint: Option<int>, page: int)
  {
    checkpoint == cp0 ||
    (checkpoint.Some? && lp + BATCH_SIZE < checkpoint.value <= page &&
     (checkpoint.value - lp - 1) % BATCH_SIZE == 0)
  }

  /** The invariant of the crawl loop, for a crawl entered with `lp` over a table `store0` and checkpoint `cp0`. */
  ghost predicate Inv(inArea: (real, real) -> bool, lp: int, store0: map<int, Row>, cp0: Option<int>, s: CrawlState)
  {
    && CursorInv(lp, s.page, s.requested)
    && s.retries <= MAX_RETRIES
    && AccInArea(s.acc, inArea)
    && StoreInv(store0, s.store, inArea)
    && CheckpointInv(lp, cp0, s.checkpoint, s.page)
  }

  lemma InvInit(inArea: (real, real) -> bool, lp: int, store0: map<int, Row>, cp0: Option<int>)
    requires RowsKeyed(store0)
    ensures Inv(inArea, lp, store0, cp0, Init(lp, store0, cp0))
  {
  }

  /** The pages requested so far stay behind the cursor's batch, and no page below the cursor is skipped. */
  lemma {:induction false} StepRequested(env: Env, inArea: (real, real) -> bool, lp: int, s: CrawlState)
    requires CursorInv(lp, s.page, s.requested)
    ensures var t := Step(env, inArea, s);
      && |t.requested| >= BATCH_SIZE && t.requested[..BATCH_SIZE] == BatchPages(lp + 1)
      && (forall i :: 0 <= i < |t.requested| ==> lp < t.requested[i] < t.page + BATCH_SIZE)
      && (forall p :: lp < p < t.page ==> p in t.requested)
  {
    StepFacts(env, inArea, s);
    var t := Step(env, inArea, s);
    var batch := BatchPages(s.page);
    assert t.requested == s.requested + batch;
    if s.requested == [] {
      assert t.requested == batch;
    } else {
      assert t.requested[..BATCH_SIZE] == s.requested[..BATCH_SIZE];
    }
    forall i | 0 <= i < |t.requested|
      ensures lp < t.requested[i] < t.page + BATCH_SIZE
    {
      if i >= |s.requested| {
        assert t.requested[i] == batch[i - |s.requested|] == s.page + (i - |s.requested|);
      } else {
        assert t.requested[i] == s.requested[i];
      }
    }
    forall p | lp < p < t.page
      ensures p in t.requested
    {
      if p >= s.page {
        assert batch[p - s.page] == p;
        assert t.requested[|s.requested| + (p - s.page)] == p;
      } else {
        assert p in s.requested;
      }
    }
  }

  /** One iteration keeps the loop invariant. */
  lemma StepInv(env: Env, inArea: (real, real) -> bool, lp: int, store0: map<int, Row>, cp0: Option<int>, s: CrawlState)
    requires Inv(inArea, lp, store0, cp0, s)
    ensures Inv(inArea, lp, store0, cp0, Step(env, inArea, s))
  {
    var results := BatchResults(env, s);
    SettleSpec(results, s.acc, s.retries, inArea);
    StepFacts(env, inArea, s);
    StepRequested(env, inArea, lp, s);
    AbsorbKeeps(s.acc, Delivered(results), inArea);
    InvAfter(inArea, lp, store0, cp0, s, Settle(results, s.acc, s.retries, inArea), env.clock(s.iteration),
             Step(env, inArea, s));
  }

  /** The invariant holds of any state that differs from an invariant state only as an iteration may. */
  lemma InvAfter(inArea: (real, real) -> bool, lp: int, store0: map<int, Row>, cp0: Option<int>,
                 s: CrawlState, settled: Settled, now: int, t: CrawlState)
    requires Inv(inArea, lp, store0, cp0, s)
    requires settled.retries <= s.retries && AccInArea(settled.acc, inArea)
    requires t.page == s.page || t.page == s.page + BATCH_SIZE
    requires t.retries <= settled.retries
    requires t.acc == settled.acc || t.acc == map[]
    requires t.store == s.store || t.store == Merge(s.store, settled.acc, now)
    requires t.checkpoint == s.checkpoint || (t.checkpoint == Some(t.page) && t.page == s.page + BATCH_SIZE)
    requires |t.requested| >= BATCH_SIZE && t.requested[..BATCH_SIZE] == BatchPages(lp + 1)
    requires forall i :: 0 <= i < |t.requested| ==> lp < t.requested[i] < t.page + BATCH_SIZE
    requires forall p :: lp < p < t.page ==> p in t.requested
    ensures Inv(inArea, lp, store0, cp0, t)
  {
    MergeAt(s.store, settled.acc, now);
    assert StoreInv(store0, Merge(s.store, settled.acc, now), inArea);
    assert (t.page - lp - 1) % BATCH_SIZE == 0;
    assert CursorInv(lp, t.page, t.requested);
    assert CheckpointInv(lp, cp0, t.checkpoint, t.page);
  }

  /**
   * The loop keeps its invariant, never raises the retry budget, and ends only
   * when `hasMore` is false or the budget is spent.
   */
  lemma {:induction false} CrawlFromInv(env: Env, inArea: (real, real) -> bool, lp: int, store0: map<int, Row>, cp0: Option<int>, s: CrawlState)
    requires Finite(env) && Inv(inArea, lp, store0, cp0, s)
    ensures var f := CrawlFrom(env, inArea, s);
      && Inv(inArea, lp, store0, cp0, f) && f.retries <= s.retries && (!f.hasMore || f.retries <= 0)
      && |f.requested| >= |s.requested|
    decreases Remaining(env.lastPage, s.page), RetriesLeft(s.retries), if s.hasMore then 1 else 0
  {
    if s.hasMore && s.retries > 0 {
      var t := Step(env, inArea, s);
      StepDecreases(env, inArea, s);
      StepInv(env, inArea, lp, store0, cp0, s);
      SettleSpec(BatchResults(env, s), s.acc, s.retries, inArea);
      StepFacts(env, inArea, s);
      CrawlFromInv(env, inArea, lp, store0, cp0, t);
    }
  }

  /**
   * The whole of `fetchAllToilets(lp)`: it starts with pages lp + 1 .. lp + 10,
   * requests only pages after lp and skips none below its final cursor, keeps
   * one row per id and adds only in-area records to the table, leaves any
   * checkpoint it writes on a batch boundary no later than its cursor, never
   * raises the retry budget above its initial 3, stops only on `!hasMore` or a
   * spent budget, and returns `page - 1` unless the final save fails. On
   * exit a non-empty accumulator is flushed once, merged into the table
   * unless the save fails; an empty one changes nothing. The call fails
   * exactly when that final save raises.
   */
  lemma FetchAllSpec(env: Env, inArea: (real, real) -> bool, lp: int, store0: map<int, Row>, cp0: Option<int>)
    requires Finite(env) && RowsKeyed(store0)
    ensures var r := FetchAll(env, inArea, lp, store0, cp0);
            var f := r.final;
      && (!f.hasMore || f.retries <= 0)
      && f.retries <= MAX_RETRIES
      && f.requested != []
      && CursorInv(lp, f.page, f.requested)
      && StoreInv(store0, f.store, inArea)
      && CheckpointInv(lp, cp0, f.checkpoint, f.page)
      && (r.outcome.Completed? ==> r.outcome.lastPage == f.page - 1)
      && (r.outcome.Failed? ==> |f.acc| > 0)
      && (var l := CrawlFrom(env, inArea, Init(lp, store0, cp0));
          && f == l.(store := f.store)
          && (r.outcome.Failed? ==> f.store == l.store)
          && (r.outcome.Failed? <==> |l.acc| > 0 && Raises(env.saveFault(l.iteration), |l.acc|))
          && (|l.acc| > 0 && r.outcome.Completed? ==> f.store == Merge(l.store, l.acc, env.clock(l.iteration)))
          && (|l.acc| == 0 ==> f == l && r.outcome.Completed?))
  {
    CrawlSpec(env, inArea, lp, store0, cp0);
    var f := CrawlFrom(env, inArea, Init(lp, store0, cp0));
    FinishFacts(env, inArea, lp, store0, cp0, f);
  }

  /** The loop of `fetchAllToilets(lp)` runs at least once and ends in a state that keeps the invariant. */
  lemma CrawlSpec(env: Env, inArea: (real, real) -> bool, lp: int, store0: map<int, Row>, cp0: Option<int>)
    requires Finite(env) && RowsKeyed(store0)
    ensures var f := CrawlFrom(env, inArea, Init(lp, store0, cp0));
      && Inv(inArea, lp, store0, cp0, f) && f.requested != [] && (!f.hasMore || f.retries <= 0)
  {
    var s0 := Init(lp, store0, cp0);
    InvInit(inArea, lp, store0, cp0);
    StepInv(env, inArea, lp, store0, cp0, s0);
    StepFacts(env, inArea, s0);
    var s1 := Step(env, inArea, s0);
    CrawlFromUnfold(env, inArea, s0);
    CrawlFromInv(env, inArea, lp, store0, cp0, s1);
  }

  lemma CrawlFromUnfold(env: Env, inArea: (real, real) -> bool, s: CrawlState)
    requires Finite(env) && s.hasMore && s.retries > 0
    ensures CrawlFrom(env, inArea, s) == CrawlFrom(env, inArea, Step(env, inArea, s))
  {
  }

  /**
   * The final flush: a non-empty accumulator is saved once, merged into the
   * table unless the save raises, in which case the call fails; an empty one
   * leaves everything as it is. It
   * changes only the table, keeps the invariant, and returns `page - 1` unless it fails.
   */
  lemma FinishFacts(env: Env, inArea: (real, real) -> bool, lp: int, store0: map<int, Row>, cp0: Option<int>, s: CrawlState)
    requires Inv(inArea, lp, store0, cp0, s)
    ensures var r := Finish(env, s);
      && r.final == s.(store := r.final.store)
      && Inv(inArea, lp, store0, cp0, r.final)
      && (r.outcome.Completed? ==> r.outcome.lastPage == s.page - 1)
      && (r.outcome.Failed? ==> |s.acc| > 0 && r.final.store == s.store)
      && (r.outcome.Failed? <==> |s.acc| > 0 && Raises(env.saveFault(s.iteration), |s.acc|))
      && (|s.acc| > 0 && r.outcome.Completed? ==> r.final.store == Merge(s.store, s.acc, env.clock(s.iteration)))
      && (|s.acc| == 0 ==> r == Run(s, Completed(s.page - 1)))
  {
    var merged := Merge(s.store, s.acc, env.clock(s.iteration));
    MergeAt(s.store, s.acc, env.clock(s.iteration));
    assert StoreInv(store0, merged, inArea);
  }

  /** Some page of the batch at the cursor comes back with records. */
  ghost predicate BatchHasData(env: Env, s: CrawlState)
  {
    exists p :: s.page <= p < s.page + BATCH_SIZE && HasRecords(env.fetch(s.iteration, p))
  }

  /** The number of pages of the batch at the cursor that are rejected. */
  function RejectedIn(env: Env, s: CrawlState): nat
  {
    multiset(BatchResults(env, s))[Rejected]
  }

  /** The accumulator once the batch at the cursor has been settled. */
  function Kept(env: Env, inArea: (real, real) -> bool, s: CrawlState): map<int, Toilet>
  {
    Absorb(s.acc, Delivered(BatchResults(env, s)), inArea)
  }

  lemma SettledIs(env: Env, inArea: (real, real) -> bool, s: CrawlState)
    ensures Settle(BatchResults(env, s), s.acc, s.retries, inArea) ==
            Settled(Kept(env, inArea, s), s.retries - RejectedIn(env, s), BatchHasData(env, s))
  {
    var results := BatchResults(env, s);
    SettleSpec(results, s.acc, s.retries, inArea);
    if BatchHasData(env, s) {
      var p :| s.page <= p < s.page + BATCH_SIZE && HasRecords(env.fetch(s.iteration, p));
      assert results[p - s.page] == env.fetch(s.iteration, p);
    }
    if exists i :: 0 <= i < |results| && HasRecords(results[i]) {
      var i :| 0 <= i < |results| && HasRecords(results[i]);
      assert results[i] == env.fetch(s.iteration, s.page + i);
    }
  }

  /**
   * A batch in which no page came back with records ends the crawl: no save,
   * the cursor and the checkpoint stay, the rejected pages still cost retries.
   */
  lemma EmptyBatchStops(env: Env, inArea: (real, real) -> bool, s: CrawlState)
    requires !BatchHasData(env, s)
    ensures var t := Step(env, inArea, s);
      && !t.hasMore && t.page == s.page && t.acc == s.acc
      && t.store == s.store && t.checkpoint == s.checkpoint
      && t.retries == s.retries - RejectedIn(env, s)
  {
    SettledIs(env, inArea, s);
    var results := BatchResults(env, s);
    forall i | 0 <= i < |results| ensures !HasRecords(results[i]) {
      assert results[i] == env.fetch(s.iteration, s.page + i);
    }
    DeliveredNothing(results);
  }

  /**
   * A batch with data whose writes succeed: the in-area records are saved if
   * there are any and the accumulator is cleared, the cursor advances by one
   * batch and the checkpoint becomes the new cursor (even when the filter kept
   * nothing); only rejected pages cost retries.
   */
  lemma DataBatchAdvances(env: Env, inArea: (real, real) -> bool, s: CrawlState)
    requires BatchHasData(env, s)
    requires |Kept(env, inArea, s)| == 0 || !Raises(env.saveFault(s.iteration), |Kept(env, inArea, s)|)
    requires !env.progressFails(s.iteration)
    ensures var t := Step(env, inArea, s);
            var kept := Kept(env, inArea, s);
      && t.hasMore == s.hasMore && t.page == s.page + BATCH_SIZE && t.checkpoint == Some(t.page)
      && t.acc == map[]
      && t.store == (if |kept| > 0 then Merge(s.store, kept, env.clock(s.iteration)) else s.store)
      && t.retries == s.retries - RejectedIn(env, s)
  {
    SettledIs(env, inArea, s);
  }

  /**
   * A failing save of a batch with data is caught: the table is rolled back,
   * the accumulator keeps its records, the cursor and checkpoint stay (the same
   * batch is fetched again), and one more retry is spent.
   */
  lemma SaveFailureRefetches(env: Env, inArea: (real, real) -> bool, s: CrawlState)
    requires BatchHasData(env, s)
    requires |Kept(env, inArea, s)| > 0 && Raises(env.saveFault(s.iteration), |Kept(env, inArea, s)|)
    ensures var t := Step(env, inArea, s);
      && t.page == s.page && t.checkpoint == s.checkpoint && t.store == s.store
      && t.acc == Kept(env, inArea, s)
      && t.retries == s.retries - RejectedIn(env, s) - 1
      && t.hasMore == (s.hasMore && t.retries > 0)
  {
    SettledIs(env, inArea, s);
  }

  /**
   * A failing checkpoint write is caught after the cursor was already moved:
   * the records are saved, the cursor has advanced by one batch, the
   * checkpoint keeps its old value, and one more retry is spent.
   */
  lemma ProgressFailureAdvances(env: Env, inArea: (real, real) -> bool, s: CrawlState)
    requires BatchHasData(env, s)
    requires |Kept(env, inArea, s)| == 0 || !Raises(env.saveFault(s.iteration), |Kept(env, inArea, s)|)
    requires env.progressFails(s.iteration)
    ensures var t := Step(env, inArea, s);
            var kept := Kept(env, inArea, s);
      && t.page == s.page + BATCH_SIZE && t.checkpoint == s.checkpoint
      && t.acc == map[]
      && t.store == (if |kept| > 0 then Merge(s.store, kept, env.clock(s.iteration)) else s.store)
      && t.retries == s.retries - RejectedIn(env, s) - 1
      && t.hasMore == (s.hasMore && t.retries > 0)
  {
    SettledIs(env, inArea, s);
  }

  /**
   * The checkpoint holds the new cursor, not the last page processed, and a
   * resumed crawl starts one page after the checkpoint. So after a batch that
   * completes, the page at the cursor has not been requested, and the crawl
   * resumed from this checkpoint does not request it either: it starts past it
   * and, by FetchAllSpec, never goes back.
   */
  lemma ResumeSkipsCursorPage(env: Env, inArea: (real, real) -> bool, lp: int, s: CrawlState)
    requires CursorInv(lp, s.page, s.requested)
    requires BatchHasData(env, s)
    requires |Kept(env, inArea, s)| == 0 || !Raises(env.saveFault(s.iteration), |Kept(env, inArea, s)|)
    requires !env.progressFails(s.iteration)
    ensures var t := Step(env, inArea, s);
            var resumed := Init(LastProcessedPage(t.checkpoint), t.store, t.checkpoint);
      && t.checkpoint == Some(t.page)
      && t.page !in t.requested
      && resumed.page == t.page + 1
  {
    DataBatchAdvances(env, inArea, s);
    StepRequested(env, inArea, lp, s);
    var t := Step(env, inArea, s);
    StepFacts(env, inArea, s);
    assert forall i :: 0 <= i < |t.requested| ==> t.requested[i] < t.page by {
      var batch := BatchPages(s.page);
      forall i | 0 <= i < |t.requested| ensures t.requested[i] < t.page {
        if i < |s.requested| {
          assert t.requested[i] == s.requested[i];
        } else {
          assert t.requested[i] == batch[i - |s.requested|];
        }
      }
    }
  }
}
