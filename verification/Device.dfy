/** The graphics device, reduced to object lifetimes: creation may be refused and otherwise
    yields an identity never seen before; a release ends an object's life. */
module Devices {
  import opened Basics

  type Id = nat

  /** `answer(n)` says whether the backend grants the n-th creation request. `live` maps each
      object to the objects it was built from. */
  datatype Device = Device(
    answer: nat -> bool,
    calls: nat,
    live: map<Id, set<Id>>,
    doubleReleases: nat,
    earlyReleases: nat)

  /** Every live object is older than the next creation and younger than what it was built from. */
  ghost predicate Sane(d: Device) {
    && (forall id :: id in d.live ==> id < d.calls)
    && (forall id, used :: id in d.live && used in d.live[id] ==> used < id)
  }

  function Create(d: Device, uses: set<Id>): (r: (Option<Id>, Device))
    ensures r.0.Some? <==> d.answer(d.calls)
    ensures r.0.Some? ==> r.0.value == d.calls && r.1.live == d.live[d.calls := uses]
    ensures r.0.None? ==> r.1.live == d.live
    ensures Sane(d) && (forall used :: used in uses ==> used < d.calls) ==> Sane(r.1)
    ensures Sane(d) ==> d.calls !in d.live
    ensures r.1.calls == d.calls + 1 && r.1.answer == d.answer
    ensures r.1.doubleReleases == d.doubleReleases && r.1.earlyReleases == d.earlyReleases
  {
    if d.answer(d.calls) then (Some(d.calls), d.(calls := d.calls + 1, live := d.live[d.calls := uses]))
    else (None, d.(calls := d.calls + 1))
  }

  /** Some live object was built from `id`. */
  predicate InUse(d: Device, id: Id) {
    exists user :: user in d.live && id in d.live[user]
  }

  /** A release of a dead object, or of one that a live object still refers to, is counted. */
  function Release(d: Device, id: Id): (r: Device)
    ensures r.live == d.live - {id} && r.calls == d.calls && r.answer == d.answer
    ensures Sane(d) ==> Sane(r)
  {
    d.(live := d.live - {id},
       doubleReleases := d.doubleReleases + (if id in d.live then 0 else 1),
       earlyReleases := d.earlyReleases + (if InUse(d, id) then 1 else 0))
  }

  /** A first release of an unused object counts as neither; a second one, and one of an object that something
      alive was built from, each count once. */
  lemma ReleaseCounts(d: Device, id: Id)
    ensures id in d.live ==> Release(d, id).doubleReleases == d.doubleReleases
    ensures Release(Release(d, id), id).doubleReleases == Release(d, id).doubleReleases + 1
    ensures (forall user :: user in d.live ==> id !in d.live[user]) ==> Release(d, id).earlyReleases == d.earlyReleases
    ensures (exists user :: user in d.live && id in d.live[user]) ==> Release(d, id).earlyReleases == d.earlyReleases + 1
  {
  }

  function ReleaseAll(d: Device, ids: seq<Id>): (r: Device)
    ensures r.live.Keys <= d.live.Keys && forall id :: id in r.live ==> r.live[id] == d.live[id]
    ensures forall id :: id in r.live <==> id in d.live && id !in ids
    ensures r.calls == d.calls && r.answer == d.answer
    ensures Sane(d) ==> Sane(r)
    decreases |ids|
  {
    if ids == [] then d else ReleaseAll(Release(d, ids[0]), ids[1..])
  }

  /** The object is alive and so is everything it was built from. */
  ghost predicate Usable(d: Device, id: Id) {
    id in d.live && d.live[id] <= d.live.Keys
  }
}
