/**
 * ToiletService: the two crawls and the three persistence operations, as
 * methods over the database they are given. The network is an oracle passed
 * in (`Env` for the batched crawl, `Search` for the per-location crawl), and
 * the geofilter `isInLAArea` is an uninterpreted predicate fixed at construction.
 */
module Service {
  import opened Records
  import opened Store
  import opened Crawler
  import opened LocationCrawl

  class ToiletService {
    const db: Database
    /** `isInLAArea(latitude, longitude)`. */
    const inArea: (real, real) -> bool

    constructor (db: Database, inArea: (real, real) -> bool)
      ensures this.db == db && this.inArea == inArea
    {
      this.db := db;
      this.inArea := inArea;
    }

    /**
     * `saveToilets(toilets)`: one transaction that upserts every record in
     * order. If statement `fault` raises (0: connection and BEGIN, 1 to |ts|:
     * the upserts, |ts| + 1: COMMIT) it rolls back and the table is as before.
     */
    method SaveToilets(ts: seq<Toilet>, now: int, fault: Option<nat>) returns (ok: bool)
      requires db.Valid()
      modifies db`toilets
      ensures db.Valid()
      ensures ok == !Raises(fault, |ts|)
      ensures db.toilets == if ok then UpsertAll(old(db.toilets), ts, now) else old(db.toilets)
    {
      if fault == Some(0) {
        return false;
      }
      var staged := db.toilets;
      for i := 0 to |ts|
        invariant staged == UpsertAll(db.toilets, ts[..i], now)
        invariant fault.Some? ==> fault.value == 0 || fault.value > i
      {
        if fault == Some(i + 1) {
          return false;
        }
        assert ts[..i + 1][..i] == ts[..i];
        staged := staged[ts[i].id := Row(ts[i], now)];
      }
      assert ts[..|ts|] == ts;
      if fault == Some(|ts| + 1) {
        return false;
      }
      UpsertAllKeyed(db.toilets, ts, now);
      db.toilets := staged;
      ok := true;
    }

    /** `saveProgress(lastPage)`: overwrite the checkpoint cell, unless the write raises. */
    method SaveProgress(lastPage: int, fails: bool) returns (ok: bool)
      modifies db`progress
      ensures ok == !fails
      ensures db.progress == if ok then Some(lastPage) else old(db.progress)
    {
      if fails {
        return false;
      }
      db.progress := Some(lastPage);
      ok := true;
    }

    /**
     * `getLastProcessedPage()`: the checkpoint, or 0 when none was ever written.
     * `fails` says whether acquiring the connection or the query raises; the
     * error then propagates to the caller and no page is read.
     */
    method GetLastProcessedPage(fails: bool) returns (ok: bool, p: int)
      ensures ok == !fails
      ensures ok ==> p == LastProcessedPage(db.progress)
    {
      if fails {
        return false, 0;
      }
      ok := true;
      match db.progress
      case None => p := 0;
      case Some(last) => p := last;
    }

    /** The page numbers of the batch starting at `page`. */
    method BuildBatch(page: int) returns (batch: seq<int>)
      ensures batch == BatchPages(page)
    {
      batch := [];
      for i := 0 to BATCH_SIZE
        invariant |batch| == i
        invariant forall k :: 0 <= k < i ==> batch[k] == page + k
      {
        batch := batch + [page + i];
      }
    }

    /** The `results.forEach` pass of one batch over the accumulator and the retry budget. */
    method SettleBatch(results: seq<PageResult>, acc0: map<int, Toilet>, retries0: int)
      returns (acc: map<int, Toilet>, retries: int, batchHasData: bool)
      requires KeyedById(acc0)
      ensures Settled(acc, retries, batchHasData) == Settle(results, acc0, retries0, inArea)
      ensures KeyedById(acc)
    {
      acc, retries, batchHasData := acc0, retries0, false;
      for i := 0 to |results|
        invariant Settled(acc, retries, batchHasData) == Settle(results[..i], acc0, retries0, inArea)
        invariant KeyedById(acc)
      {
        assert results[..i + 1][..i] == results[..i];
        match results[i]
        case Rejected =>
          retries := retries - 1;
        case Fulfilled(ts) =>
          if |ts| > 0 {
            batchHasData := true;
            ghost var before := acc;
            for j := 0 to |ts|
              invariant acc == Absorb(before, ts[..j], inArea)
              invariant KeyedById(acc)
            {
              assert ts[..j + 1][..j] == ts[..j];
              if inArea(ts[j].latitude, ts[j].longitude) {
                acc := acc[ts[j].id := ts[j]];
              }
            }
            assert ts[..|ts|] == ts;
          }
      }
      assert results[..|results|] == results;
    }

    /**
     * `saveToilets(Array.from(allToilets.values()))`: save every record of the
     * accumulator, each once, in one transaction; on success the table is the
     * accumulator merged into it.
     */
    method SaveAccumulated(acc: map<int, Toilet>, now: int, fault: Option<nat>) returns (ok: bool)
      requires db.Valid() && KeyedById(acc)
      modifies db`toilets
      ensures db.Valid()
      ensures ok == !Raises(fault, |acc|)
      ensures db.toilets == if ok then Merge(old(db.toilets), acc, now) else old(db.toilets)
    {
      var ts := ValuesOf(acc);
      UpsertValuesIsMerge(db.toilets, acc, ts, now);
      ok := SaveToilets(ts, now, fault);
    }

    /**
     * The part of the `while` body after a batch had data: save a non-empty
     * accumulator and clear it, advance the cursor, write the checkpoint; a
     * failing write is caught and spends a retry. Its effect is `Persist`.
     */
    method PersistBatch(env: Env, n: nat, page0: int, retries0: int, hasMore0: bool, acc0: map<int, Toilet>,
                        ghost requested: seq<int>)
      returns (page: int, retries: int, hasMore: bool, acc: map<int, Toilet>)
      requires db.Valid() && KeyedById(acc0)
      modifies db
      ensures db.Valid() && KeyedById(acc)
      ensures CrawlState(page, retries, hasMore, acc, db.toilets, db.progress, n + 1, requested)
           == Persist(env, n, CrawlState(page0, retries0, hasMore0, acc0, old(db.toilets), old(db.progress), n + 1, requested))
    {
      page, retries, hasMore, acc := page0, retries0, hasMore0, acc0;
      var threw := false;
      if |acc| > 0 {
        var saved := SaveAccumulated(acc, env.clock(n), env.saveFault(n));
        if saved {
          acc := map[];
        } else {
          threw := true;
        }
      }
      if !threw {
        page := page + BATCH_SIZE;
        var written := SaveProgress(page, env.progressFails(n));
        threw := !written;
      }
      if threw {
        retries := retries - 1;
        if retries <= 0 {
          hasMore := false;
        }
      }
    }

    /** One pass of the `while` body of `fetchAllToilets`; its effect is `Step`. */
    method Iterate(env: Env, n: nat, page0: int, retries0: int, hasMore0: bool, acc0: map<int, Toilet>,
                   ghost requested0: seq<int>)
      returns (page: int, retries: int, hasMore: bool, acc: map<int, Toilet>, ghost requested: seq<int>)
      requires db.Valid() && KeyedById(acc0)
      modifies db
      ensures db.Valid() && KeyedById(acc)
      ensures CrawlState(page, retries, hasMore, acc, db.toilets, db.progress, n + 1, requested)
           == Step(env, inArea, CrawlState(page0, retries0, hasMore0, acc0, old(db.toilets), old(db.progress), n, requested0))
    {
      var batch := BuildBatch(page0);
      requested := requested0 + batch;
      var results := Fetched(env, n, batch);
      var batchHasData;
      acc, retries, batchHasData := SettleBatch(results, acc0, retries0);
      page, hasMore := page0, hasMore0;
      if !batchHasData {
        hasMore := false;
      } else {
        page, retries, hasMore, acc := PersistBatch(env, n, page, retries, hasMore, acc, requested);
      }
    }

    /**
     * `fetchAllToilets(lastProcessedPage)`: the batched crawl, with the final
     * flush. It ends in the state `FetchAll` describes; the ghost `requested`
     * records the pages it requested, in order.
     */
    method FetchAllToilets(env: Env, lastProcessedPage: int) returns (outcome: Outcome, ghost requested: seq<int>)
      requires Finite(env) && db.Valid()
      modifies db
      ensures db.Valid()
      ensures var r := FetchAll(env, inArea, lastProcessedPage, old(db.toilets), old(db.progress));
        && outcome == r.outcome && requested == r.final.requested
        && db.toilets == r.final.store && db.progress == r.final.checkpoint
    {
      var acc: map<int, Toilet> := map[];
      var page := lastProcessedPage + 1;
      var hasMore := true;
      var retries := MAX_RETRIES;
      var n: nat := 0;
      requested := [];
      ghost var s0 := Init(lastProcessedPage, db.toilets, db.progress);

      while hasMore && retries > 0
        invariant db.Valid() && KeyedById(acc)
        invariant CrawlFrom(env, inArea, CrawlState(page, retries, hasMore, acc, db.toilets, db.progress, n, requested))
               == CrawlFrom(env, inArea, s0)
        decreases Remaining(env.lastPage, page), RetriesLeft(retries), if hasMore then 1 else 0
      {
        StepDecreases(env, inArea, CrawlState(page, retries, hasMore, acc, db.toilets, db.progress, n, requested));
        page, retries, hasMore, acc, requested := Iterate(env, n, page, retries, hasMore, acc, requested);
        n := n + 1;
      }

      if |acc| > 0 {
        var saved := SaveAccumulated(acc, env.clock(n), env.saveFault(n));
        if !saved {
          return Failed, requested;
        }
      }
      outcome := Completed(page - 1);
    }

    /** `response.data.forEach(toilet => allToilets.set(toilet.id, toilet))`. */
    method AddAll(acc0: map<int, Toilet>, ts: seq<Toilet>) returns (acc: map<int, Toilet>)
      requires KeyedById(acc0)
      ensures acc == Absorb(acc0, ts, KeepAll) && KeyedById(acc)
    {
      acc := acc0;
      for j := 0 to |ts|
        invariant acc == Absorb(acc0, ts[..j], KeepAll)
        invariant KeyedById(acc)
      {
        assert ts[..j + 1][..j] == ts[..j];
        acc := acc[ts[j].id := ts[j]];
      }
      assert ts[..|ts|] == ts;
    }

    /**
     * The inner `while` loop of `fetchToiletsByLocation` for one location:
     * its map and request count are those of `WalkFrom` from page 1.
     */
    method WalkLocation(search: Search, ghost lastPage: int, location: Location, acc0: map<int, Toilet>, k0: nat)
      returns (acc: map<int, Toilet>, k: nat)
      requires FiniteSearch(search, lastPage) && KeyedById(acc0)
      ensures KeyedById(acc)
      ensures var w := WalkFrom(search, lastPage, location, Start(acc0, k0)); acc == w.acc && k == w.requests
    {
      acc, k := acc0, k0;
      var page := 1;
      var hasMore := true;
      var retries := LOCATION_RETRIES;

      while hasMore && retries > 0
        invariant KeyedById(acc)
        invariant WalkFrom(search, lastPage, location, Walk(page, retries, hasMore, acc, k))
               == WalkFrom(search, lastPage, location, Start(acc0, k0))
        decreases Remaining(lastPage, page), RetriesLeft(retries), if hasMore then 1 else 0
      {
        ghost var w := Walk(page, retries, hasMore, acc, k);
        WalkStepDecreases(search, lastPage, location, w);
        var response := search(location, page, k);
        k := k + 1;
        match response
        case Rejected =>
          retries := retries - 1;
          if retries <= 0 {
            hasMore := false;
          }
        case Fulfilled(ts) =>
          if |ts| == 0 {
            hasMore := false;
          } else {
            acc := AddAll(acc, ts);
            page := page + 1;
            retries := LOCATION_RETRIES;
          }
        assert Walk(page, retries, hasMore, acc, k) == WalkStep(search, location, w);
      }
    }

    /**
     * `fetchToiletsByLocation()`: every record found for any search location,
     * each id once, as `ByLocation` collects them. `lastPage` bounds the
     * search results and only serves the termination argument.
     */
    method FetchToiletsByLocation(search: Search, ghost lastPage: int) returns (toilets: seq<Toilet>)
      requires FiniteSearch(search, lastPage)
      ensures var all := ByLocation(search, lastPage, SearchLocations, map[], 0).0;
        && DistinctIds(toilets) && |toilets| == |all|
        && (forall i :: 0 <= i < |toilets| ==> toilets[i].id in all && all[toilets[i].id] == toilets[i])
        && (forall id :: id in all ==> exists i :: 0 <= i < |toilets| && toilets[i].id == id)
      ensures forall i :: 0 <= i < |toilets| ==> FoundIn(search, SearchLocations, toilets[i])
    {
      var allToilets: map<int, Toilet> := map[];
      var k: nat := 0;
      for li := 0 to |SearchLocations|
        invariant (allToilets, k) == ByLocation(search, lastPage, SearchLocations[..li], map[], 0)
        invariant KeyedById(allToilets)
      {
        assert SearchLocations[..li + 1][..li] == SearchLocations[..li];
        allToilets, k := WalkLocation(search, lastPage, SearchLocations[li], allToilets, k);
      }
      assert SearchLocations[..|SearchLocations|] == SearchLocations;
      toilets := ValuesOf(allToilets);
      ByLocationKeeps(search, lastPage, SearchLocations, map[], 0);
    }
  }
}
