/**
 * Restroom records as the directory API serves them, and the accumulator that
 * both crawls of ToiletService fill: a JavaScript Map from record id to record,
 * modelled as a Dafny map.
 */
module Records {

  datatype Option<T> = None | Some(value: T)

  /** One restroom record of the upstream directory. */
  datatype Toilet = Toilet(
    id: int,
    name: string,
    street: string,
    city: string,
    state: string,
    accessible: bool,
    unisex: bool,
    latitude: real,
    longitude: real)

  /** How one page request settles under `Promise.allSettled`: its records, or a rejection. */
  datatype PageResult = Fulfilled(toilets: seq<Toilet>) | Rejected

  /** A page that settled with at least one record. */
  predicate HasRecords(r: PageResult)
  {
    r.Fulfilled? && |r.toilets| > 0
  }

  /** The filter of a crawl that keeps every record (the per-location crawl has no geofilter). */
  const KeepAll: (real, real) -> bool := (lat: real, lng: real) => true

  /** Every record in the accumulator sits under its own id. */
  ghost predicate KeyedById(m: map<int, Toilet>)
  {
    forall id :: id in m ==> m[id].id == id
  }

  predicate DistinctIds(ts: seq<Toilet>)
  {
    forall i, j :: 0 <= i < j < |ts| ==> ts[i].id != ts[j].id
  }

  /** Pages still to come below the last page that can hold records; a termination measure. */
  function Remaining(lastPage: int, page: int): nat
  {
    if page <= lastPage then lastPage + 1 - page else 0
  }

  /** The retry budget as a termination measure. */
  function RetriesLeft(retries: int): nat
  {
    if retries > 0 then retries else 0
  }

  /**
   * `ts.forEach(t => { if (keep(t.latitude, t.longitude)) acc.set(t.id, t) })`:
   * the accumulator after adding, in order, the records of ts that keep admits.
   */
  function Absorb(acc: map<int, Toilet>, ts: seq<Toilet>, keep: (real, real) -> bool): map<int, Toilet>
    decreases |ts|
  {
    if ts == [] then acc
    else
      var t := ts[|ts| - 1];
      var prev := Absorb(acc, ts[..|ts| - 1], keep);
      if keep(t.latitude, t.longitude) then prev[t.id := t] else prev
  }

  /** The last record of ts that has the given id and that keep admits, if there is one. */
  function LastKept(ts: seq<Toilet>, id: int, keep: (real, real) -> bool): (r: Option<Toilet>)
    ensures r.Some? ==> r.value.id == id && keep(r.value.latitude, r.value.longitude)
    ensures r.Some? ==> exists i :: 0 <= i < |ts| && ts[i] == r.value &&
                                    (forall j :: i < j < |ts| ==> !(ts[j].id == id && keep(ts[j].latitude, ts[j].longitude)))
    ensures r.None? ==> forall i :: 0 <= i < |ts| ==> !(ts[i].id == id && keep(ts[i].latitude, ts[i].longitude))
    decreases |ts|
  {
    if ts == [] then None
    else
      var t := ts[|ts| - 1];
      if t.id == id && keep(t.latitude, t.longitude) then Some(t)
      else
        var r := LastKept(ts[..|ts| - 1], id, keep);
        assert forall i :: 0 <= i < |ts| - 1 ==> ts[..|ts| - 1][i] == ts[i];
        r
  }

  /** Last write wins: an id maps to the last admitted record with that id, else to what it had. */
  lemma {:induction false} AbsorbAt(acc: map<int, Toilet>, ts: seq<Toilet>, keep: (real, real) -> bool, id: int)
    ensures id in Absorb(acc, ts, keep) <==> id in acc || LastKept(ts, id, keep).Some?
    ensures id in Absorb(acc, ts, keep) ==>
      Absorb(acc, ts, keep)[id] == if LastKept(ts, id, keep).Some? then LastKept(ts, id, keep).value else acc[id]
    decreases |ts|
  {
    if ts != [] {
      AbsorbAt(acc, ts[..|ts| - 1], keep, id);
    }
  }

  /** Only admitted records enter, each under its own id; what was there stays. */
  lemma AbsorbKeeps(acc: map<int, Toilet>, ts: seq<Toilet>, keep: (real, real) -> bool)
    requires KeyedById(acc)
    ensures KeyedById(Absorb(acc, ts, keep))
    ensures acc.Keys <= Absorb(acc, ts, keep).Keys
    ensures forall id :: id in Absorb(acc, ts, keep) ==>
      (id in acc && Absorb(acc, ts, keep)[id] == acc[id]) ||
      (Absorb(acc, ts, keep)[id] in ts && keep(Absorb(acc, ts, keep)[id].latitude, Absorb(acc, ts, keep)[id].longitude))
  {
    forall id | id in acc || id in Absorb(acc, ts, keep) {
      AbsorbAt(acc, ts, keep, id);
    }
  }

  /** Absorbing two lists one after the other is absorbing their concatenation. */
  lemma {:induction false} AbsorbConcat(acc: map<int, Toilet>, a: seq<Toilet>, b: seq<Toilet>, keep: (real, real) -> bool)
    ensures Absorb(acc, a + b, keep) == Absorb(Absorb(acc, a, keep), b, keep)
    decreases |b|
  {
    if b == [] {
      assert a + b == a;
    } else {
      assert (a + b)[..|a + b| - 1] == a + b[..|b| - 1];
      assert (a + b)[|a + b| - 1] == b[|b| - 1];
      AbsorbConcat(acc, a, b[..|b| - 1], keep);
    }
  }

  /** A set of ids is empty or has an element. */
  lemma EmptyOrElement(s: set<int>)
    ensures s == {} || exists x :: x in s
  {
    if forall x :: x !in s {
      assert s == {};
    }
  }

  /**
   * `Array.from(m.values())`: the records of the accumulator as a list, each
   * once. The list's order (the Map's insertion order) is not modelled.
   */
  method ValuesOf(m: map<int, Toilet>) returns (ts: seq<Toilet>)
    requires KeyedById(m)
    ensures |ts| == |m| && DistinctIds(ts)
    ensures forall i :: 0 <= i < |ts| ==> ts[i].id in m && m[ts[i].id] == ts[i]
    ensures forall id :: id in m ==> exists i :: 0 <= i < |ts| && ts[i].id == id
  {
    ts := [];
    var rest := m.Keys;
    while rest != {}
      invariant rest <= m.Keys
      invariant |ts| + |rest| == |m.Keys|
      invariant forall i :: 0 <= i < |ts| ==> ts[i].id in m.Keys - rest && m[ts[i].id] == ts[i]
      invariant forall id :: id in m.Keys - rest ==> exists i :: 0 <= i < |ts| && ts[i].id == id
      invariant DistinctIds(ts)
      decreases |rest|
    {
      EmptyOrElement(rest);
      var id :| id in rest;
      var before := ts;
      ts := ts + [m[id]];
      assert forall i :: 0 <= i < |before| ==> ts[i] == before[i];
      assert ts[|before|].id == id;
      forall x | x in m.Keys - (rest - {id})
        ensures exists i :: 0 <= i < |ts| && ts[i].id == x
      {
        if x == id {
          assert ts[|before|].id == x;
        } else {
          assert x in m.Keys - rest;
          var i :| 0 <= i < |before| && before[i].id == x;
          assert ts[i].id == x;
        }
      }
      assert rest == (rest - {id}) + {id};
      rest := rest - {id};
    }
    assert m.Keys - rest == m.Keys;
  }
}
