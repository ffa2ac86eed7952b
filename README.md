# toilets.fyi ingestion core in Dafny

This project models `ToiletService`, the ingestion core of the toilets.fyi
backend. The service crawls a public restroom directory, keeps the records
that lie in the Los Angeles area, and upserts them into a relational store,
writing a checkpoint so that a later run can resume.

The model has five modules:

- `Records`: a restroom record, how a page request settles (`Fulfilled` with
  records, or `Rejected`), and the in-memory accumulator. The accumulator is a
  JavaScript `Map` from id to record, modelled as a Dafny `map`.
- `Store`: the `toilets` table as a map from id to row, the upsert of a
  record list (`UpsertAll`), and the `Database` class. The class holds the
  table and the one-cell `fetch_progress` checkpoint as fields.
- `Crawler`: the batched, resumable crawl `fetchAllToilets` as a pure state
  machine. `Step` is one pass of the `while` body, `CrawlFrom` runs the loop
  to its end, and `FetchAll` adds the final flush. Lemmas state its rules:
  cursor arithmetic, retry consumption, termination, what reaches the store,
  and what the checkpoint holds.
- `LocationCrawl`: the per-location crawl `fetchToiletsByLocation` as a pure
  state machine (`WalkStep`, `WalkFrom`, `ByLocation`), with its lemmas.
- `Service`: the `ToiletService` class. Its methods are imperative, with
  the loops and in-place updates of `ToiletService` in src/services/toiletService.js. Each method is proved
  against the matching specification function.

The network is an oracle. `Env.fetch(n, p)` says how page `p` settles in
loop iteration `n`, so a batch fetched again after a failure may be answered
differently. Database failures are oracles too. `Env.saveFault(n)` names the
statement at which a save raises, and `Env.progressFails(n)` says whether
the checkpoint write raises. The geofilter `isInLAArea` is a predicate
parameter, fixed when the service is constructed.

Points where the code does something a reader might not expect (the model
follows the code in each case):

- The checkpoint is written with the new cursor `page`, after
  `page += BATCH_SIZE` (src/services/toiletService.js:185-186). It is not
  `page - 1`, although the log line after it says so. A resumed crawl starts
  at the stored value + 1 (line 122), so it never requests the page at the
  stored cursor. The run that wrote the checkpoint requests that page only if
  it goes on to another batch. If it stops on a spent budget, or the process
  dies right after the write, that page is lost for good.
  `Crawler.ResumeSkipsCursorPage` proves that the page has not been requested
  when the checkpoint is written and that the resumed crawl starts after it.
- `retries` in `fetchAllToilets` is never reset after a successful batch.
  Across the whole crawl, three failures end it, whether they are rejected
  pages or thrown saves.
- When `saveProgress` raises, the cursor has already advanced. The catch
  block then spends a retry but does not refetch the batch
  (`Crawler.ProgressFailureAdvances`). Within the model, only a failing
  `saveToilets` makes the same batch be fetched again
  (`Crawler.SaveFailureRefetches`). In the code, a malformed page body that
  makes the `forEach` over a batch throw also does so; that case is listed
  under "## Left out".
- A batch with data but no in-area records still advances the cursor and
  writes the checkpoint (`Crawler.DataBatchAdvances`).

## Model

| member | source | states |
|---|---|---|
| Records.LastKept | src/services/toiletService.js:156-160 | The last admitted record of a list with a given id: it has that id, passes the filter, and no later record with that id passes; None when no record qualifies |
| Records.AbsorbAt | src/services/toiletService.js:156-160 | Last write wins in the accumulator: an id maps to the last admitted record with that id, and otherwise keeps its entry; nothing else enters |
| Records.AbsorbKeeps | src/services/toiletService.js:156-160 | The accumulator stays keyed by id and loses no id; every new entry is an admitted record from the list |
| Records.AbsorbConcat | src/services/toiletService.js:148-160 | Adding two record lists one after the other is adding their concatenation |
| Records.ValuesOf | src/services/toiletService.js:179 | `Array.from(map.values())` lists every record of the map exactly once, each under its own id |
| Store.UpsertAllAt | src/services/toiletService.js:83-109 | After upserting a list, each id of the list holds its last occurrence's fields and the new timestamp; every other id keeps its row; no other id appears |
| Store.UpsertAllKeyed | src/services/toiletService.js:85-87 | Upserting keeps exactly one row per id and loses no row |
| Store.MergeAt | src/services/toiletService.js:179 | Saving an accumulator: its ids take its records with the new timestamp; other rows stay; no other id appears |
| Store.UpsertValuesIsMerge | src/services/toiletService.js:179 | Upserting the accumulator's values, in any order that lists each once, is merging the accumulator into the table |
| Crawler.BatchPages | src/services/toiletService.js:132-137 | A batch is `BATCH_SIZE` consecutive ascending pages, from the cursor to cursor + 9 |
| Crawler.Delivered | src/services/toiletService.js:148-161 | Every record handed to the filter came from a fulfilled page with records |
| Crawler.DeliveredNothing | src/services/toiletService.js:154 | Pages without records hand nothing to the filter |
| Crawler.SettleSpec | src/services/toiletService.js:143-166 | The pass over a batch spends exactly one retry per rejected page, has data iff some page came back non-empty, and adds the in-area records of all fulfilled pages in page order |
| Crawler.SettleBounds | src/services/toiletService.js:145-166 | The pass over a batch never raises the retry budget, and reports data only when some page had records |
| Crawler.SettledIs | src/services/toiletService.js:142-166 | The same facts for the batch at the cursor, stated per page number |
| Crawler.PersistFacts | src/services/toiletService.js:176-204 | After a batch with data the cursor either stays, with exactly one retry spent, or advances by one batch; the accumulator is kept or cleared, the table is kept or the accumulator is merged in, and the checkpoint is kept or becomes the new cursor |
| Crawler.StepFacts | src/services/toiletService.js:129-205 | One iteration requests the batch at the cursor, moves the cursor only after a batch with data, and never raises the retry budget |
| Crawler.StepDecreases | src/services/toiletService.js:129-205 | Each iteration moves the cursor towards the end of the data, spends a retry, or stops the loop: the crawl terminates |
| Crawler.StepRequested | src/services/toiletService.js:122-137 | Requested pages stay after the start and before the end of the cursor's batch, and no page below the cursor is skipped |
| Crawler.InvInit | src/services/toiletService.js:121-124 | The loop invariant holds on entry |
| Crawler.StepInv | src/services/toiletService.js:129-205 | One iteration keeps the loop invariant: cursor on a batch boundary, retries at most 3, accumulator in area, one row per id, only in-area rows added, checkpoint on a batch boundary |
| Crawler.InvAfter | src/services/toiletService.js:176-204 | Any state an iteration can produce keeps the loop invariant |
| Crawler.CrawlFromInv | src/services/toiletService.js:129-205 | The loop keeps its invariant, never raises the retry budget, and ends only when `hasMore` is false or the budget is spent |
| Crawler.CrawlSpec | src/services/toiletService.js:120-205 | The loop runs at least once and ends in a state that keeps the invariant |
| Crawler.FinishFacts | src/services/toiletService.js:207-216 | The final flush saves a non-empty accumulator once: on success the table is the accumulator merged in, the call fails exactly when that save raises, and then the table is unchanged; an empty accumulator changes nothing and the call returns `page - 1`; only the table changes and one row per id is kept |
| Crawler.FetchAllSpec | src/services/toiletService.js:120-217 | The whole crawl starts at `lastProcessedPage + 1`, requests only pages after it and skips none below the final cursor, leaves the cursor on a batch boundary, keeps one row per id, adds only in-area records, writes only batch-boundary checkpoints, keeps retries at most 3, stops only on `!hasMore` or a spent budget, flushes a non-empty accumulator once on exit (merged unless the save raises), and fails exactly when that final save raises, else returns `page - 1` |
| Crawler.EmptyBatchStops | src/services/toiletService.js:145-173 | A batch with no records ends the loop without saving, moving the cursor or writing a checkpoint; rejected pages still cost retries |
| Crawler.DataBatchAdvances | src/services/toiletService.js:175-186 | A batch with data whose writes succeed saves the in-area records only if there are any, clears the accumulator, advances the cursor by 10 and stores the new cursor as the checkpoint |
| Crawler.SaveFailureRefetches | src/services/toiletService.js:176-204 | A failing save leaves the table, accumulator, cursor and checkpoint unchanged and spends one more retry, so the same batch is fetched again |
| Crawler.ProgressFailureAdvances | src/services/toiletService.js:184-204 | A failing checkpoint write comes after the save and the cursor advance; the old checkpoint stays and one more retry is spent |
| Crawler.ResumeSkipsCursorPage | src/services/toiletService.js:122-186 | The checkpoint holds the new cursor, that page has not been requested, and a resumed crawl starts one page after it |
| LocationCrawl.WalkStepRules | src/services/toiletService.js:32-70 | The page advances iff the response has records, which also resets the budget to 3; an empty response ends the location; a failure spends one retry on the same page and ends the location when the budget is gone |
| LocationCrawl.WalkStepDecreases | src/services/toiletService.js:32-70 | Each request moves the page towards the end of the results, spends a retry, or ends the location: the loop terminates |
| LocationCrawl.ThreeFailuresAbandon | src/services/toiletService.js:60-69 | From a full budget, three failed requests in a row abandon the location, with page and map unchanged |
| LocationCrawl.WalkFromKeeps | src/services/toiletService.js:32-71 | A location's walk ends with `hasMore` false, keeps the map keyed by id, loses no id, and every entry it changes or adds is a record a search for that location returned |
| LocationCrawl.ByLocationKeeps | src/services/toiletService.js:25-72 | Across all locations the map stays keyed by id, loses no id, and holds only records from the starting map or returned by a search for one of the locations |
| LocationCrawl.ByLocationGrows | src/services/toiletService.js:25-72 | Ids found for earlier locations survive the later ones: the map after a prefix of the locations is contained in the final map |
| Store.Database.constructor | src/services/toiletService.js:4-5 | The database the service is given, with one row per id |
| Service.ToiletService.constructor | src/services/toiletService.js:4-22 | The service holds its database and the geofilter |
| Service.ToiletService.SaveToilets | src/services/toiletService.js:77-118 | The transaction succeeds iff no statement raises; then the table is the list upserted in order, else it is exactly as before; one row per id either way |
| Service.ToiletService.SaveProgress | src/services/toiletService.js:227-241 | On success the checkpoint holds the given page; on failure it is unchanged |
| Service.ToiletService.GetLastProcessedPage | src/services/toiletService.js:243-251 | Fails exactly when the connection or query raises; otherwise returns the stored page, or 0 when no checkpoint exists: the `LastProcessedPage` a resumed crawl starts after |
| Service.ToiletService.BuildBatch | src/services/toiletService.js:132-137 | The loop builds exactly `BatchPages(page)` |
| Service.ToiletService.SettleBatch | src/services/toiletService.js:145-166 | The `forEach` over the settled results computes `Settle`, whose meaning `SettleSpec` states |
| Service.ToiletService.SaveAccumulated | src/services/toiletService.js:177-182 | Saving the accumulator's values succeeds iff no statement raises, and then merges the accumulator into the table |
| Service.ToiletService.PersistBatch | src/services/toiletService.js:175-204 | The rest of the loop body after a batch with data has the effect `Persist` describes |
| Service.ToiletService.Iterate | src/services/toiletService.js:130-204 | One pass of the loop body has the effect `Step` describes |
| Service.ToiletService.FetchAllToilets | src/services/toiletService.js:120-217 | The crawl ends with the outcome, table and checkpoint of `FetchAll`, whose properties `FetchAllSpec` states; a ghost out-parameter records the pages requested |
| Service.ToiletService.AddAll | src/services/toiletService.js:51-53 | Adding a response keeps every record, last write wins, and the map stays keyed by id |
| Service.ToiletService.WalkLocation | src/services/toiletService.js:28-71 | The inner loop of one location ends with the map and request count of `WalkFrom` from page 1 |
| Service.ToiletService.FetchToiletsByLocation | src/services/toiletService.js:24-75 | Returns each id of the per-location crawl exactly once, each with the record `ByLocation` collected for it, and every returned record came back from a search for one of the locations |

## Left out

- HTTP requests through axios (`fetchPage`, the search request), their timeouts and every `setTimeout` delay: page results are the oracle `Env.fetch` or `Search`, and delays change no state.
- `Promise.allSettled` concurrency: a batch's results are a sequence processed in page order, as the `forEach` over them does.
- `isInLAArea` and `toRad`: floating-point haversine trigonometry; the geofilter is a predicate parameter of the service.
- SQL text, connection acquire and release, BEGIN, COMMIT and ROLLBACK: only their effect on the table map and the checkpoint cell is modelled. Which statement raises, if any, is an oracle.
- The `fetch_progress` schema is not part of this model. The upsert names `ON CONFLICT (id)` without supplying an id, and `getLastProcessedPage` reads `LIMIT 1`. The model treats the table as one cell holding the last written page.
- Service.ToiletService.FetchAllToilets: termination is proved only for directories where no page past some `lastPage` returns records (`Finite`). The code loops forever on an endless directory, and this model does not capture that run.
- Service.ToiletService.FetchToiletsByLocation: likewise assumes `FiniteSearch`, that no search page past `lastPage` returns records. It also returns the records as a list without their `Map` insertion order.
- Service.ToiletService.WalkLocation: assumes `FiniteSearch` for the same reason, so a location whose search never runs dry is not modelled.
- Service.ToiletService.FetchAllToilets: the default argument `lastProcessedPage = 0` is not modelled; callers always pass the page explicitly.
- Page bodies are assumed to be well-formed arrays of non-null records. In the code, a fulfilled response whose body is not such an array (a raw string from a non-JSON 200 response, or a null entry) makes `toilets.forEach` or the `isInLAArea` call throw inside the batch pass. The catch block then spends one retry and skips the rest of the batch. The accumulator keeps the records added before the throw, and the same batch is fetched again. `fetchToiletsByLocation` behaves the same way: a null entry throws after earlier `set` calls, so the map changes but the page does not advance. `PageResult` has no such case, so the model captures neither partial update.
- Records.ValuesOf: the order of the returned list is not modelled; it holds each record once.
- The column `created_at` and the nullability of record fields: a record's fields are always present and coordinates are reals.
- The timestamp `updated_at` is one value per transaction, supplied by `Env.clock`.
- Logging, the `totalToilets` counter (it is only logged), `baseUrl` and `LA_COORDS`.
- The Express routes, the cron job and the server bootstrap: they call the service but hold no ingestion logic.
