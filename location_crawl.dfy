/**
 * The per-location crawl `fetchToiletsByLocation`: for each configured search
 * location, page through the search endpoint from page 1 until a page comes
 * back empty, giving up on a location after three failed requests in a row
 * (a budget of three attempts, restored by every success), and collect
 * every record into one map keyed by id.
 */
module LocationCrawl {
  import opened Records

  /** A named search location. */
  datatype Location = Location(lat: real, lng: real, name: string)

  /** `this.searchLocations`, in order. */
  const SearchLocations: seq<Location> := [
    Location(34.0522, -118.2437, "Los Angeles"),
    Location(34.1478, -118.1445, "Pasadena"),
    Location(33.9416, -118.4085, "Santa Monica"),
    Location(34.0025, -118.4116, "Culver City"),
    Location(33.9812, -118.4742, "Venice"),
    Location(34.1808, -118.3090, "Burbank"),
    Location(34.0195, -118.4912, "Glendale"),
    Location(33.8869, -118.4095, "Manhattan Beach")
  ]

  /** The retry budget of one location, restored after every successful page. */
  const LOCATION_RETRIES: int := 3

  /**
   * search(loc, p, k): how the k-th search request of the run, for page p of
   * location loc, settles; a thrown error (timeout, non-success status) is Rejected.
   */
  type Search = (Location, int, nat) -> PageResult

  /** The search results are finite: past `lastPage` no page holds records. */
  ghost predicate FiniteSearch(search: Search, lastPage: int)
  {
    forall loc: Location, p: int, k: nat :: p > lastPage ==> !HasRecords(search(loc, p, k))
  }

  /** The loop variables of one location, the shared map, and the number of requests made so far. */
  datatype Walk = Walk(page: int, retries: int, hasMore: bool, acc: map<int, Toilet>, requests: nat)

  /** The walk at the start of a location: page 1, a full budget. */
  function Start(acc: map<int, Toilet>, requests: nat): Walk
  {
    Walk(1, LOCATION_RETRIES, true, acc, requests)
  }

  /** One pass of the inner `while` body: one request for the current page. */
  function WalkStep(search: Search, loc: Location, w: Walk): Walk
  {
    var next := w.(requests := w.requests + 1);
    match search(loc, w.page, w.requests)
    case Rejected =>
      var r := w.retries - 1;
      if r > 0 then next.(retries := r) else next.(retries := r, hasMore := false)
    case Fulfilled(ts) =>
      if |ts| == 0 then next.(hasMore := false)
      else next.(acc := Absorb(w.acc, ts, KeepAll), page := w.page + 1, retries := LOCATION_RETRIES)
  }

  /**
   * The rules of one request: the page advances exactly when the response has
   * records, and such a response restores the full budget; an empty response
   * ends the location; a failure spends one retry, retries the same page, and
   * ends the location once the budget is gone.
   */
  lemma WalkStepRules(search: Search, loc: Location, w: Walk)
    ensures var r := WalkStep(search, loc, w);
            var response := search(loc, w.page, w.requests);
      && r.requests == w.requests + 1
      && (r.page == w.page + 1 <==> HasRecords(response))
      && (r.page == w.page <==> !HasRecords(response))
      && (HasRecords(response) ==>
            r.retries == LOCATION_RETRIES && r.hasMore == w.hasMore &&
            r.acc == Absorb(w.acc, response.toilets, KeepAll))
      && (response == Fulfilled([]) ==> !r.hasMore && r.retries == w.retries && r.acc == w.acc)
      && (response.Rejected? ==>
            r.retries == w.retries - 1 && r.hasMore == (w.hasMore && r.retries > 0) && r.acc == w.acc)
  {
  }

  lemma WalkStepDecreases(search: Search, lastPage: int, loc: Location, w: Walk)
    requires FiniteSearch(search, lastPage) && w.hasMore && w.retries > 0
    ensures var r := WalkStep(search, loc, w);
      Remaining(lastPage, r.page) < Remaining(lastPage, w.page) ||
      (Remaining(lastPage, r.page) == Remaining(lastPage, w.page) &&
        (RetriesLeft(r.retries) < RetriesLeft(w.retries) ||
          (RetriesLeft(r.retries) == RetriesLeft(w.retries) && !r.hasMore)))
  {
    if HasRecords(search(loc, w.page, w.requests)) {
      assert w.page <= lastPage;
    }
  }

  /** The inner `while (hasMore && retries > 0)` loop of one location, run to its end. */
  function WalkFrom(search: Search, lastPage: int, loc: Location, w: Walk): Walk
    requires FiniteSearch(search, lastPage)
    decreases Remaining(lastPage, w.page), RetriesLeft(w.retries), if w.hasMore then 1 else 0
  {
    if w.hasMore && w.retries > 0 then
      WalkStepDecreases(search, lastPage, loc, w);
      WalkFrom(search, lastPage, loc, WalkStep(search, loc, w))
    else w
  }

  /** The map and request count after walking each of `locs` in order. */
  function ByLocation(search: Search, lastPage: int, locs: seq<Location>, acc: map<int, Toilet>, requests: nat)
    : (map<int, Toilet>, nat)
    requires FiniteSearch(search, lastPage)
    decreases |locs|
  {
    if locs == [] then (acc, requests)
    else
      var before := ByLocation(search, lastPage, locs[..|locs| - 1], acc, requests);
      var w := WalkFrom(search, lastPage, locs[|locs| - 1], Start(before.0, before.1));
      (w.acc, w.requests)
  }

  /**
   * Three failures in a row abandon a location: from a full budget, if the
   * next three requests for the current page fail, the location ends after
   * exactly those three requests, with its page and the map unchanged.
   */
  lemma ThreeFailuresAbandon(search: Search, lastPage: int, loc: Location, w: Walk)
    requires FiniteSearch(search, lastPage)
    requires w.hasMore && w.retries == LOCATION_RETRIES
    requires forall k :: w.requests <= k < w.requests + 3 ==> search(loc, w.page, k).Rejected?
    ensures var f := WalkFrom(search, lastPage, loc, w);
      !f.hasMore && f.requests == w.requests + 3 && f.page == w.page && f.acc == w.acc
  {
    var w1 := WalkStep(search, loc, w);
    assert search(loc, w.page, w.requests).Rejected?;
    var w2 := WalkStep(search, loc, w1);
    assert search(loc, w1.page, w1.requests).Rejected?;
    var w3 := WalkStep(search, loc, w2);
    assert search(loc, w2.page, w2.requests).Rejected?;
    assert WalkFrom(search, lastPage, loc, w2) == WalkFrom(search, lastPage, loc, w3) == w3;
  }

  /** The record t came back in some search response for location loc. */
  ghost predicate FoundAt(search: Search, loc: Location, t: Toilet)
  {
    exists p: int, k: nat :: search(loc, p, k).Fulfilled? && t in search(loc, p, k).toilets
  }

  /**
   * A location's walk ends with `hasMore` false, keeps the map keyed by id,
   * loses no id from it, and every entry it changes or adds is a record that
   * a search for that location returned.
   */
  lemma {:induction false} WalkFromKeeps(search: Search, lastPage: int, loc: Location, w: Walk)
    requires FiniteSearch(search, lastPage) && KeyedById(w.acc)
    ensures var f := WalkFrom(search, lastPage, loc, w);
      && (w.hasMore && w.retries > 0 ==> !f.hasMore)
      && KeyedById(f.acc) && w.acc.Keys <= f.acc.Keys && f.requests >= w.requests
      && (forall id :: id in f.acc ==> (id in w.acc && f.acc[id] == w.acc[id]) || FoundAt(search, loc, f.acc[id]))
    decreases Remaining(lastPage, w.page), RetriesLeft(w.retries), if w.hasMore then 1 else 0
  {
    if w.hasMore && w.retries > 0 {
      WalkStepDecreases(search, lastPage, loc, w);
      var r := WalkStep(search, loc, w);
      var response := search(loc, w.page, w.requests);
      if response.Fulfilled? {
        AbsorbKeeps(w.acc, response.toilets, KeepAll);
      }
      WalkFromKeeps(search, lastPage, loc, r);
    }
  }

  /** The record t came back in some search response for one of the locations locs. */
  ghost predicate FoundIn(search: Search, locs: seq<Location>, t: Toilet)
  {
    exists i :: 0 <= i < |locs| && FoundAt(search, locs[i], t)
  }

  /**
   * Across all locations the map stays keyed by id, so it holds each id once;
   * no id is lost; and every entry not in the starting map is a record that
   * a search for one of the locations returned.
   */
  lemma {:induction false} ByLocationKeeps(search: Search, lastPage: int, locs: seq<Location>, acc: map<int, Toilet>, requests: nat)
    requires FiniteSearch(search, lastPage) && KeyedById(acc)
    ensures var (all, k) := ByLocation(search, lastPage, locs, acc, requests);
      && KeyedById(all) && acc.Keys <= all.Keys && k >= requests
      && (forall id :: id in all ==> (id in acc && all[id] == acc[id]) || FoundIn(search, locs, all[id]))
    decreases |locs|
  {
    if locs != [] {
      var front := locs[..|locs| - 1];
      var loc := locs[|locs| - 1];
      ByLocationKeeps(search, lastPage, front, acc, requests);
      var before := ByLocation(search, lastPage, front, acc, requests);
      WalkFromKeeps(search, lastPage, loc, Start(before.0, before.1));
      var all := ByLocation(search, lastPage, locs, acc, requests).0;
      forall id | id in all
        ensures (id in acc && all[id] == acc[id]) || FoundIn(search, locs, all[id])
      {
        if id in before.0 && all[id] == before.0[id] {
          if FoundIn(search, front, all[id]) {
            var i :| 0 <= i < |front| && FoundAt(search, front[i], all[id]);
            assert locs[i] == front[i];
          }
        } else {
          assert FoundAt(search, locs[|locs| - 1], all[id]);
        }
      }
    }
  }

  /** Ids found for earlier locations survive the later ones: the map only grows with the prefix walked. */
  lemma {:induction false} ByLocationGrows(search: Search, lastPage: int, locs: seq<Location>, i: nat,
                                            acc: map<int, Toilet>, requests: nat)
    requires FiniteSearch(search, lastPage) && KeyedById(acc) && i <= |locs|
    ensures ByLocation(search, lastPage, locs[..i], acc, requests).0.Keys
         <= ByLocation(search, lastPage, locs, acc, requests).0.Keys
    decreases |locs|
  {
    if i == |locs| {
      assert locs[..i] == locs;
    } else {
      var front := locs[..|locs| - 1];
      assert front[..i] == locs[..i];
      ByLocationGrows(search, lastPage, front, i, acc, requests);
      ByLocationKeeps(search, lastPage, front, acc, requests);
      var before := ByLocation(search, lastPage, front, acc, requests);
      WalkFromKeeps(search, lastPage, locs[|locs| - 1], Start(before.0, before.1));
    }
  }
}
