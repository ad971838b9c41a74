/** The particle emitter's pool: a list of live slots and a stack of free ones. */
module Emitter {
  import opened Basics
  import opened EmissionClock

  datatype Particle = Particle(lifetime: real, maxLifetime: real, emitterId: nat)

  predicate Alive(p: Particle) {
    p.lifetime < p.maxLifetime
  }

  function Aged(p: Particle, dt: real): Particle {
    p.(lifetime := p.lifetime + dt)
  }

  function Min(a: nat, b: nat): nat {
    if a < b then a else b
  }

  function Slots(n: nat): (s: seq<nat>)
    ensures |s| == n && forall k :: 0 <= k < n ==> s[k] == k
  {
    if n == 0 then [] else Slots(n - 1) + [n - 1]
  }

  /** The last k entries of the stack, top first. */
  function Popped(free: seq<nat>, k: nat): (r: seq<nat>)
    requires k <= |free|
    ensures |r| == k && forall j :: 0 <= j < k ==> r[j] == free[|free| - 1 - j]
  {
    if k == 0 then [] else Popped(free, k - 1) + [free[|free| - k]]
  }

  lemma {:induction false} PoppedAgain(free: seq<nat>, a: nat, b: nat)
    requires a + b <= |free|
    ensures Popped(free, a) + Popped(free[..|free| - a], b) == Popped(free, a + b)
    ensures free[..|free| - a][..|free| - a - b] == free[..|free| - (a + b)]
  {
    if b > 0 {
      PoppedAgain(free, a, b - 1);
      var rest := free[..|free| - a];
      assert rest[|rest| - b] == free[|free| - (a + b)];
      assert Popped(free, a) + (Popped(rest, b - 1) + [rest[|rest| - b]])
          == (Popped(free, a) + Popped(rest, b - 1)) + [rest[|rest| - b]];
    }
  }

  /** Slot i is listed once if it exists, and nowhere if it does not. */
  ghost predicate Once(i: nat, active: seq<nat>, free: seq<nat>, n: nat) {
    multiset(active)[i] + multiset(free)[i] == if i < n then 1 else 0
  }

  ghost predicate Partition(active: seq<nat>, free: seq<nat>, n: nat) {
    forall i {:trigger Once(i, active, free, n)} :: Once(i, active, free, n)
  }

  lemma AtMostOnce(s: seq<nat>)
    requires forall i :: multiset(s)[i] <= 1
    ensures Distinct(s)
  {
    forall a, b | 0 <= a < b < |s| ensures s[a] != s[b] {
      assert s == s[..b] + [s[b]] + s[b + 1..];
      var x := s[a];
      assert s[..b][a] == x;
      assert multiset(s[..b])[x] > 0;
      assert multiset(s)[x] == multiset(s[..b])[x] + multiset([s[b]])[x] + multiset(s[b + 1..])[x];
    }
  }

  /** Both lists are duplicate-free, disjoint, and together all the slots. */
  lemma PartitionMeans(active: seq<nat>, free: seq<nat>, n: nat)
    requires Partition(active, free, n)
    ensures Distinct(active) && Distinct(free)
    ensures forall i: nat :: i < n <==> i in active || i in free
    ensures forall i :: i in active ==> i !in free
    ensures |active| + |free| == n
  {
    forall i ensures multiset(active)[i] <= 1 && multiset(free)[i] <= 1 {
      assert Once(i, active, free, n);
    }
    AtMostOnce(active);
    AtMostOnce(free);
    forall i: nat ensures i < n <==> i in active || i in free {
      assert Once(i, active, free, n);
    }
    forall i | i in active ensures i !in free {
      assert Once(i, active, free, n);
    }
    DistinctCount(active);
    DistinctCount(free);
    assert Elements(active) !! Elements(free);
    assert Elements(active) + Elements(free) == Range(n);
  }

  lemma {:induction false} SlotsPartition(n: nat)
    ensures Partition([], Slots(n), n)
  {
    forall i ensures Once(i, [], Slots(n), n) {
      SlotOnce(i, n);
    }
  }

  lemma {:induction false} SlotOnce(i: nat, n: nat)
    ensures multiset(Slots(n))[i] == if i < n then 1 else 0
  {
    if n > 0 {
      SlotOnce(i, n - 1);
    }
  }

  lemma PopKeepsPartition(active: seq<nat>, free: seq<nat>, n: nat)
    requires Partition(active, free, n) && free != []
    ensures Partition(active + [free[|free| - 1]], free[..|free| - 1], n)
    ensures free[|free| - 1] < n
  {
    var rest, top := free[..|free| - 1], free[|free| - 1];
    assert free == rest + [top];
    forall i ensures Once(i, active + [top], rest, n) {
      assert Once(i, active, free, n);
    }
    assert Once(top, active, free, n);
  }

  /** The listed slots whose particle is alive (or is not), in their order. */
  function Sorted(s: seq<nat>, ps: seq<Particle>, alive: bool): (r: seq<nat>) {
    if s == [] then [] else
    var last := s[|s| - 1];
    var before := Sorted(s[..|s| - 1], ps, alive);
    if (last < |ps| && Alive(ps[last])) == alive then before + [last] else before
  }

  lemma {:induction false} SortedCounts(s: seq<nat>, ps: seq<Particle>, i: nat)
    ensures multiset(Sorted(s, ps, true))[i] + multiset(Sorted(s, ps, false))[i] == multiset(s)[i]
    ensures |Sorted(s, ps, true)| + |Sorted(s, ps, false)| == |s|
  {
    if s != [] {
      SortedCounts(s[..|s| - 1], ps, i);
      assert s == s[..|s| - 1] + [s[|s| - 1]];
    }
  }

  /** Exactly the live slots stay, and exactly the dead ones go. */
  lemma {:induction false} SortedIsRetain(s: seq<nat>, ps: seq<Particle>, alive: bool, i: nat)
    ensures i in Sorted(s, ps, alive) <==> i in s && (i < |ps| && ps[i].lifetime < ps[i].maxLifetime) == alive
  {
    if s != [] {
      SortedIsRetain(s[..|s| - 1], ps, alive, i);
      assert s == s[..|s| - 1] + [s[|s| - 1]];
    }
  }

  /** Live and dead slots keep the order they stood in. */
  lemma {:induction false} SortedKeepsOrder(s: seq<nat>, ps: seq<Particle>, alive: bool, a: nat, b: nat) returns (p: nat, q: nat)
    requires a < b < |s|
    requires (s[a] < |ps| && ps[s[a]].lifetime < ps[s[a]].maxLifetime) == alive
    requires (s[b] < |ps| && ps[s[b]].lifetime < ps[s[b]].maxLifetime) == alive
    ensures p < q < |Sorted(s, ps, alive)| && Sorted(s, ps, alive)[p] == s[a] && Sorted(s, ps, alive)[q] == s[b]
  {
    var last := |s| - 1;
    if b < last {
      p, q := SortedKeepsOrder(s[..last], ps, alive, a, b);
    } else {
      SortedIsRetain(s[..last], ps, alive, s[a]);
      assert s[..last][a] == s[a];
      p :| p < |Sorted(s[..last], ps, alive)| && Sorted(s[..last], ps, alive)[p] == s[a];
      q := |Sorted(s[..last], ps, alive)|;
    }
  }

  /** Moving the dead behind the free slots keeps every slot in one place. */
  lemma RetainKeepsPartition(active: seq<nat>, free: seq<nat>, n: nat, ps: seq<Particle>)
    requires Partition(active, free, n)
    ensures Partition(Sorted(active, ps, true), free + Sorted(active, ps, false), n)
  {
    var kept, pool := Sorted(active, ps, true), free + Sorted(active, ps, false);
    forall i ensures Once(i, kept, pool, n) {
      assert Once(i, active, free, n);
      SortedCounts(active, ps, i);
    }
  }

  /** The particles after one pass over the live list, each visit making one of them older. */
  function AgedSlots(ps: seq<Particle>, active: seq<nat>, dt: real): (r: seq<Particle>)
    ensures |r| == |ps|
  {
    if active == [] then ps else
    var before, i := AgedSlots(ps, active[..|active| - 1], dt), active[|active| - 1];
    if i < |ps| then before[i := Aged(before[i], dt)] else before
  }

  /** Over a duplicate-free list that is once for each live particle, and never for a free one. */
  lemma {:induction false} AgedOnce(ps: seq<Particle>, active: seq<nat>, dt: real, i: nat)
    requires Distinct(active) && i < |ps|
    ensures i !in active ==> AgedSlots(ps, active, dt)[i] == ps[i]
    ensures i in active ==> AgedSlots(ps, active, dt)[i] == Particle(ps[i].lifetime + dt, ps[i].maxLifetime, ps[i].emitterId)
  {
    if active != [] {
      var before, last := active[..|active| - 1], active[|active| - 1];
      assert active == before + [last];
      assert last !in before;
      AgedOnce(ps, before, dt, i);
    }
  }

  /** What the burst schedule does on one tick: bursts fired, and the timer it leaves. */
  function BurstTick(emitting: bool, count: nat, configured: real, timer: real, dt: real): (nat, real) {
    if emitting && count > 0 && configured > 0.0 then Bursts(timer + dt, Interval(configured)) else (0, timer)
  }

  /** `count` slots, or all there are, moved from the top of the free stack to the live list. */
  ghost predicate Drawn(active: seq<nat>, free: seq<nat>, count: nat, active': seq<nat>, free': seq<nat>) {
    var k := Min(count, |free|);
    active' == active + Popped(free, k) && free' == free[..|free| - k]
  }

  /** Slots leave the stack from the top, and are listed behind the others in the order they leave. */
  lemma DrawnMeans(active: seq<nat>, free: seq<nat>, count: nat, active': seq<nat>, free': seq<nat>)
    requires Drawn(active, free, count, active', free')
    ensures
      var k := if count < |free| then count else |free|;
      && |active'| == |active| + k && active'[..|active|] == active && free' == free[..|free| - k]
      && active'[|active|..] == Popped(free, k)
  {
  }

  lemma NothingDrawn(active: seq<nat>, free: seq<nat>, ps: seq<Particle>)
    ensures Drawn(active, free, 0, active, free) && Renewed(ps, active, ps, active)
  {
    assert Popped(free, 0) == [] && active[|active|..] == [];
  }

  lemma DrawnAgain(active: seq<nat>, free: seq<nat>, a: nat, active': seq<nat>, free': seq<nat>,
                   b: nat, active'': seq<nat>, free'': seq<nat>)
    requires Drawn(active, free, a, active', free') && Drawn(active', free', b, active'', free'')
    ensures Drawn(active, free, a + b, active'', free'')
  {
    PoppedAgain(free, Min(a, |free|), Min(b, |free'|));
  }

  /** The particles that `fired` bursts of `count` ask for. */
  function Volley(fired: nat, count: nat): nat {
    if fired == 0 then 0 else Volley(fired - 1, count) + count
  }

  lemma {:induction false} VolleyIsProduct(fired: nat, count: nat)
    ensures Volley(fired, count) == fired * count
  {
    if fired > 0 {
      VolleyIsProduct(fired - 1, count);
      assert fired * count == (fired - 1) * count + count;
    }
  }

  /** The burst loop has fired so many times from `start`, and now stands at `timer`. */
  ghost predicate StillDue(start: real, interval: real, fired: nat, timer: real) {
    interval >= 0.001 && Bursts(start, interval) == (fired + Bursts(timer, interval).0, Bursts(timer, interval).1)
  }

  lemma OneLessDue(start: real, interval: real, fired: nat, timer: real)
    requires StillDue(start, interval, fired, timer) && timer >= interval
    ensures StillDue(start, interval, fired + 1, timer - interval)
    ensures Thousandths(timer - interval) < Thousandths(timer)
  {
  }

  /** A 32-bit counter. */
  function Wrapped(n: nat): (w: nat)
    ensures w < 0x1_0000_0000 && (n < 0x1_0000_0000 ==> w == n)
    ensures n == 0x1_0000_0000 ==> w == 0
  {
    n % 0x1_0000_0000
  }

  lemma WrappedAgain(n: nat)
    ensures Wrapped(Wrapped(n) + 1) == Wrapped(n + 1)
  {
  }

  /** Slot i holds a newborn if it is among the new, else the particle it held. */
  ghost predicate RenewedAt(i: nat, ps: seq<Particle>, ps': seq<Particle>, born: seq<nat>) {
    i < |ps| == |ps'| ==> if i in born then ps'[i].lifetime == 0.0 else ps'[i] == ps[i]
  }

  /** Between two pools of slots: the newly listed ones hold newborn particles, every other slot the
      particle it held. */
  ghost predicate Renewed(ps: seq<Particle>, active: seq<nat>, ps': seq<Particle>, active': seq<nat>) {
    && |ps'| == |ps| && |active| <= |active'| && active'[..|active|] == active
    && forall i {:trigger RenewedAt(i, ps, ps', active'[|active|..])} :: RenewedAt(i, ps, ps', active'[|active|..])
  }

  lemma RenewedAgain(ps: seq<Particle>, active: seq<nat>, ps': seq<Particle>, active': seq<nat>,
                     ps'': seq<Particle>, active'': seq<nat>)
    requires Renewed(ps, active, ps', active') && Renewed(ps', active', ps'', active'')
    ensures Renewed(ps, active, ps'', active'')
  {
    var a, b := |active|, |active'|;
    assert active''[..a] == active'[..a];
    var first, second, born := active'[a..], active''[b..], active''[a..];
    assert born == first + second;
    forall i ensures RenewedAt(i, ps, ps'', born) {
      assert RenewedAt(i, ps, ps', first) && RenewedAt(i, ps', ps'', second);
    }
  }

  /** Every particle of the pool carries the emitter's own identity, whatever slot it sits in. */
  ghost predicate Owned(ps: seq<Particle>, id: nat) {
    forall i {:trigger OwnedAt(i, ps, id)} :: OwnedAt(i, ps, id)
  }

  ghost predicate OwnedAt(i: nat, ps: seq<Particle>, id: nat) {
    i < |ps| ==> ps[i].emitterId == id
  }

  lemma OwnedUpdate(ps: seq<Particle>, id: nat, i: nat, p: Particle)
    requires Owned(ps, id) && i < |ps| && (OwnedAt(i, ps, id) ==> p.emitterId == id)
    ensures Owned(ps[i := p], id)
  {
    var qs := ps[i := p];
    forall k ensures OwnedAt(k, qs, id) {
      assert OwnedAt(k, ps, id);
    }
  }

  /** Everything that holds of the pool holds again once the top free slot has moved over. */
  lemma PoolAfterPop(ps: seq<Particle>, active: seq<nat>, free: seq<nat>, n: nat, p: Particle, emitted: nat, recycled: nat)
    requires |ps| == n && Partition(active, free, n) && Owned(ps, p.emitterId) && free != []
    requires emitted == Wrapped(|active| + recycled)
    ensures
      var top := free[|free| - 1];
      && top < n && Partition(active + [top], free[..|free| - 1], n) && Owned(ps[top := p], p.emitterId)
      && Wrapped(emitted + 1) == Wrapped(|active + [top]| + recycled)
  {
    PopKeepsPartition(active, free, n);
    OwnedUpdate(ps, p.emitterId, free[|free| - 1], p);
    WrappedAgain(|active| + recycled);
  }

  class ParticleEmitter {
    const maxParticles: nat
    const emitterId: nat
    var emissionRate: real
    var loopEmission: bool
    /** `None` is the default, an endless emission. */
    var duration: Option<real>
    var burstCount: nat
    var burstInterval: real
    var particles: seq<Particle>
    var active: seq<nat>
    var free: seq<nat>
    var time: real
    var isActive: bool
    var emitting: bool
    var particlesEmitted: nat
    var carry: real
    var burstTimer: real
    var burstsFired: nat
    /** Slots given back since the last reset. */
    ghost var recycled: nat

    ghost predicate Valid()
      reads this
    {
      && |particles| == maxParticles < 0x1_0000_0000
      && Partition(active, free, maxParticles)
      && particlesEmitted == Wrapped(|active| + recycled)
      && burstsFired < 0x1_0000_0000 && burstTimer >= 0.0
      && Owned(particles, emitterId)
    }

    constructor (maxParticles: nat, emitterId: nat)
      requires maxParticles < 0x1_0000_0000
      ensures Valid() && active == [] && free == Slots(maxParticles) && recycled == 0
      ensures this.maxParticles == maxParticles && this.emitterId == emitterId
      ensures carry == 0.0 && burstTimer == 0.0 && burstsFired == 0 && time == 0.0 && isActive && emitting
    {
      this.maxParticles, this.emitterId := maxParticles, emitterId;
      emissionRate, loopEmission, duration, burstCount, burstInterval := 10.0, true, None, 0, 0.0;
      particles := seq(maxParticles, _ => Particle(0.0, 1.0, emitterId));
      active, free := [], Slots(maxParticles);
      time, isActive, emitting, particlesEmitted := 0.0, true, true, 0;
      carry, burstTimer, burstsFired, recycled := 0.0, 0.0, 0, 0;
      SlotsPartition(maxParticles);
    }

    /** Take the top free slot; its new lifetime limit is drawn at random. */
    method EmitParticle()
      requires Valid()
      modifies this`particles, this`active, this`free, this`particlesEmitted
      ensures Valid()
      ensures old(free) == [] ==> active == old(active) && free == old(free) && particles == old(particles)
      ensures old(free) != [] ==>
        var top := old(free)[|old(free)| - 1];
        && active == old(active) + [top] && free == old(free)[..|old(free)| - 1]
        && top < |particles| == |old(particles)|
        && particles == old(particles)[top := particles[top]] && particles[top].lifetime == 0.0 && particles[top].emitterId == emitterId
      ensures old(free) != [] ==> particlesEmitted == (old(particlesEmitted) + 1) % 0x1_0000_0000
    {
      if free == [] {
        return;
      }
      var index := free[|free| - 1];
      var limit: real := *;
      PoolAfterPop(particles, active, free, maxParticles, Particle(0.0, limit, emitterId), particlesEmitted, recycled);
      free := free[..|free| - 1];
      particles := particles[index := Particle(0.0, limit, emitterId)];
      active := active + [index];
      particlesEmitted := Wrapped(particlesEmitted + 1);
    }

    /** Emit up to `count`: the top of the stack, top first, each one newly born. */
    method Burst(count: nat)
      requires Valid()
      modifies this`particles, this`active, this`free, this`particlesEmitted
      ensures Valid()
      ensures Drawn(old(active), old(free), count, active, free)
      ensures Renewed(old(particles), old(active), particles, active)
    {
      var k := Min(count, |free|);
      assert Popped(free, 0) == [];
      for j := 0 to k
        invariant Valid()
        invariant Drawn(old(active), old(free), j, active, free)
        invariant Renewed(old(particles), old(active), particles, active)
      {
        label Before:
        EmitParticle();
        assert active[|old@Before(active)|..] == [old@Before(free)[|old@Before(free)| - 1]];
        forall i ensures RenewedAt(i, old@Before(particles), particles, active[|old@Before(active)|..]) {
        }
        RenewedAgain(old(particles), old(active), old@Before(particles), old@Before(active), particles, active);
      }
    }

    method Reset()
      requires Valid()
      modifies this`time, this`carry, this`burstTimer, this`burstsFired, this`recycled
      modifies this`active, this`free, this`particlesEmitted
      ensures Valid() && active == [] && |free| == maxParticles && forall k :: 0 <= k < maxParticles ==> free[k] == k
      ensures time == 0.0 && carry == 0.0 && burstTimer == 0.0 && burstsFired == 0
      ensures particlesEmitted == 0 && recycled == 0
    {
      time, active, carry, burstTimer, burstsFired := 0.0, [], 0.0, 0.0, 0;
      RefillFree();
      particlesEmitted, recycled := 0, 0;
      SlotsPartition(maxParticles);
    }

    method RefillFree()
      modifies this`free
      ensures free == Slots(maxParticles)
    {
      free := [];
      for i := 0 to maxParticles
        invariant free == Slots(i)
      {
        free := free + [i];
      }
    }

    /** Age the live particles, once each. */
    method AgeParticles(dt: real)
      requires Valid()
      modifies this`particles
      ensures Valid()
      ensures particles == AgedSlots(old(particles), active, dt)
    {
      PartitionMeans(active, free, maxParticles);
      assert active[..0] == [];
      for k := 0 to |active|
        invariant particles == AgedSlots(old(particles), active[..k], dt)
        invariant Owned(particles, emitterId)
      {
        var index := active[k];
        assert index in active;
        assert active[..k + 1][..k] == active[..k];
        OwnedUpdate(particles, emitterId, index, Aged(particles[index], dt));
        particles := particles[index := Aged(particles[index], dt)];
      }
      assert active[..|active|] == active;
    }

    /** Give the dead slots back, keeping both lists' order. */
    method RecycleDead()
      requires Valid()
      modifies this`active, this`free, this`recycled
      ensures Valid()
      ensures active == Sorted(old(active), particles, true)
      ensures free == old(free) + Sorted(old(active), particles, false)
      ensures recycled == old(recycled) + |Sorted(old(active), particles, false)|
    {
      RetainKeepsPartition(active, free, maxParticles, particles);
      SortedCounts(active, particles, 0);
      var died := Sorted(active, particles, false);
      active := Sorted(active, particles, true);
      free := free + died;
      recycled := recycled + |died|;
    }

    /** The first half of a frame: every live particle ages, and the dead give their slots back. */
    method AgeAndRecycle(dt: real)
      requires Valid()
      modifies this`particles, this`active, this`free, this`recycled
      ensures Valid()
      ensures
        var aged := AgedSlots(old(particles), old(active), dt);
        && particles == aged && active == Sorted(old(active), aged, true)
        && free == old(free) + Sorted(old(active), aged, false)
        && recycled == old(recycled) + |Sorted(old(active), aged, false)|
    {
      AgeParticles(dt);
      RecycleDead();
    }

    /** The burst schedule's interval, when there is one. */
    function Schedule(): Option<real>
      reads this`emitting, this`burstCount, this`burstInterval
    {
      if emitting && burstCount > 0 && burstInterval > 0.0 then Some(Interval(burstInterval)) else None
    }

    predicate Gate(now: real)
      reads this
    {
      emitting && (loopEmission || duration.None? || now < duration.value)
    }

    /** What continuous emission asks for on this tick, in whole particles. */
    method EmitDue(charge: real) returns (requested: nat)
      requires Valid()
      modifies this`carry, this`particles, this`active, this`free, this`particlesEmitted
      ensures Valid()
      ensures (requested, carry) == if Gate(time) then Tick(old(carry), charge) else (0, old(carry))
      ensures Drawn(old(active), old(free), requested, active, free)
      ensures Renewed(old(particles), old(active), particles, active)
    {
      requested := 0;
      assert Popped(free, 0) == [];
      if Gate(time) {
        carry := carry + charge;
        requested := AsU32(carry);
        carry := carry - requested as real;
        Burst(requested);
      }
    }

    /** One turn of the burst loop, on top of what this tick has already drawn. */
    method FireOne(interval: real, ghost ps: seq<Particle>, ghost live: seq<nat>, ghost pool: seq<nat>, ghost asked: nat)
      requires Valid() && burstTimer >= interval
      requires Drawn(live, pool, asked, active, free) && Renewed(ps, live, particles, active)
      modifies this`burstTimer, this`burstsFired, this`particles, this`active, this`free, this`particlesEmitted
      ensures Valid() && burstTimer == old(burstTimer) - interval && burstsFired == Wrapped(old(burstsFired) + 1)
      ensures Drawn(live, pool, asked + burstCount, active, free) && Renewed(ps, live, particles, active)
    {
      burstTimer := burstTimer - interval;
      Burst(burstCount);
      burstsFired := Wrapped(burstsFired + 1);
      DrawnAgain(live, pool, asked, old(active), old(free), burstCount, active, free);
      RenewedAgain(ps, live, old(particles), old(active), particles, active);
    }

    /** The burst loop. */
    method FireDue(interval: real) returns (ghost fired: nat)
      requires Valid() && interval >= 0.001
      modifies this`burstTimer, this`burstsFired, this`particles, this`active, this`free, this`particlesEmitted
      ensures Valid() && (fired, burstTimer) == Bursts(old(burstTimer), interval)
      ensures burstsFired == Wrapped(old(burstsFired) + fired)
      ensures Drawn(old(active), old(free), Volley(fired, burstCount), active, free)
      ensures Renewed(old(particles), old(active), particles, active)
    {
      fired := 0;
      NothingDrawn(active, free, particles);
      while burstTimer >= interval
        invariant Valid() && StillDue(old(burstTimer), interval, fired, burstTimer)
        invariant burstsFired == Wrapped(old(burstsFired) + fired)
        invariant Drawn(old(active), old(free), Volley(fired, burstCount), active, free)
        invariant Renewed(old(particles), old(active), particles, active)
        decreases Thousandths(burstTimer)
      {
        OneLessDue(old(burstTimer), interval, fired, burstTimer);
        WrappedAgain(old(burstsFired) + fired);
        FireOne(interval, old(particles), old(active), old(free), Volley(fired, burstCount));
        fired := fired + 1;
      }
    }

    /** Fire every burst that has come due, if bursts are scheduled at all. */
    method FireBursts(dt: real) returns (ghost fired: nat)
      requires Valid() && dt >= 0.0
      modifies this`burstTimer, this`burstsFired, this`particles, this`active, this`free, this`particlesEmitted
      ensures Valid()
      ensures (fired, burstTimer) == BurstTick(emitting, burstCount, burstInterval, old(burstTimer), dt)
      ensures burstsFired == Wrapped(old(burstsFired) + fired)
      ensures Drawn(old(active), old(free), Volley(fired, burstCount), active, free)
      ensures Renewed(old(particles), old(active), particles, active)
    {
      fired := 0;
      NothingDrawn(active, free, particles);
      if emitting && burstCount > 0 && burstInterval > 0.0 {
        burstTimer := burstTimer + dt;
        fired := FireDue(Interval(burstInterval));
      }
    }

    /** Both ways of emitting, continuous first. */
    method Emit(charge: real, dt: real) returns (requested: nat, ghost fired: nat)
      requires Valid() && dt >= 0.0
      modifies this`carry, this`burstTimer, this`burstsFired
      modifies this`particles, this`active, this`free, this`particlesEmitted
      ensures Valid()
      ensures (requested, carry) == if Gate(time) then Tick(old(carry), charge) else (0, old(carry))
      ensures (fired, burstTimer) == BurstTick(emitting, burstCount, burstInterval, old(burstTimer), dt)
      ensures burstsFired == Wrapped(old(burstsFired) + fired)
      ensures Drawn(old(active), old(free), requested + Volley(fired, burstCount), active, free)
      ensures Renewed(old(particles), old(active), particles, active)
    {
      requested := EmitDue(charge);
      label Between:
      fired := FireBursts(dt);
      DrawnAgain(old(active), old(free), requested, old@Between(active), old@Between(free),
                 Volley(fired, burstCount), active, free);
      RenewedAgain(old(particles), old(active), old@Between(particles), old@Between(active), particles, active);
    }

    /** One frame of a running emitter: age, recycle, then emit what the accumulator and the burst
        schedule ask for, as far as the pool goes. */
    method Advance(dt: real) returns (requested: nat, ghost fired: nat)
      requires Valid() && dt >= 0.0
      modifies this`time, this`carry, this`burstTimer, this`burstsFired, this`recycled
      modifies this`particles, this`active, this`free, this`particlesEmitted
      ensures Valid() && time == old(time) + dt
      ensures (requested, carry) == if Gate(time) then Tick(old(carry), Charge(emissionRate, dt)) else (0, old(carry))
      ensures (fired, burstTimer) == BurstTick(emitting, burstCount, burstInterval, old(burstTimer), dt)
      ensures burstsFired == Wrapped(old(burstsFired) + fired)
      ensures
        var aged := AgedSlots(old(particles), old(active), dt);
        var kept, died := Sorted(old(active), aged, true), Sorted(old(active), aged, false);
        && Drawn(kept, old(free) + died, requested + Volley(fired, burstCount), active, free)
        && Renewed(aged, kept, particles, active)
        && recycled == old(recycled) + |died|
    {
      time := time + dt;
      AgeAndRecycle(dt);
      requested, fired := Emit(Charge(emissionRate, dt), dt);
    }

    /** One frame. A stopped emitter keeps everything as it is. A running one ages and recycles whatever it
        does; it asks for particles while it emits, looping, endlessly or before its duration is over, and
        for bursts while it emits and they are scheduled. */
    method Update(dt: real) returns (ghost requested: nat, ghost fired: nat)
      requires Valid() && dt >= 0.0
      modifies this`time, this`carry, this`burstTimer, this`burstsFired, this`recycled
      modifies this`particles, this`active, this`free, this`particlesEmitted
      ensures Valid()
      ensures !old(isActive) ==>
        && active == old(active) && free == old(free) && particles == old(particles) && particlesEmitted == old(particlesEmitted)
        && time == old(time) && carry == old(carry) && burstTimer == old(burstTimer) && burstsFired == old(burstsFired)
        && recycled == old(recycled) && requested == 0 && fired == 0
      ensures old(isActive) ==> time == old(time) + dt
      ensures old(isActive) && emitting && (loopEmission || duration.None? || old(time) + dt < duration.value) ==>
        (requested, carry) == Tick(old(carry), Charge(emissionRate, dt))
      ensures old(isActive) && !loopEmission && duration.Some? && old(time) + dt >= duration.value ==>
        requested == 0 && carry == old(carry)
      ensures old(isActive) && !emitting ==> requested == 0 && carry == old(carry)
      ensures old(isActive) && emitting && burstCount > 0 && burstInterval > 0.0 ==>
        (fired, burstTimer) == Bursts(old(burstTimer) + dt, Interval(burstInterval))
      ensures old(isActive) && !(emitting && burstCount > 0 && burstInterval > 0.0) ==>
        fired == 0 && burstTimer == old(burstTimer)
      ensures burstsFired == Wrapped(old(burstsFired) + fired)
      ensures old(isActive) ==>
        var aged := AgedSlots(old(particles), old(active), dt);
        var kept, died := Sorted(old(active), aged, true), Sorted(old(active), aged, false);
        && Drawn(kept, old(free) + died, requested + Volley(fired, burstCount), active, free)
        && Renewed(aged, kept, particles, active)
        && recycled == old(recycled) + |died|
    {
      requested, fired := 0, 0;
      if !isActive {
        return;
      }
      var asked;
      asked, fired := Advance(dt);
      requested := asked;
    }
  }

  function BurstsOf(interval: Option<real>, timer: real, dt: real): (nat, real)
    requires interval.Some? ==> interval.value >= 0.001
  {
    if interval.Some? then Bursts(timer + dt, interval.value) else (0, timer)
  }

  /** What one frame does to the two accumulators. */
  method Tock(e: ParticleEmitter, dt: real) returns (ghost requested: nat, ghost fired: nat)
    requires e.Valid() && e.isActive && e.emitting && dt >= 0.0
    modifies e`time, e`carry, e`burstTimer, e`burstsFired, e`recycled
    modifies e`particles, e`active, e`free, e`particlesEmitted
    ensures e.Valid() && e.time == old(e.time) + dt
    ensures e.Gate(e.time) ==> (requested, e.carry) == Tick(old(e.carry), Charge(e.emissionRate, dt))
    ensures !e.Gate(e.time) ==> requested == 0 && e.carry == old(e.carry)
    ensures (fired, e.burstTimer) == BurstsOf(e.Schedule(), old(e.burstTimer), dt)
  {
    requested, fired := e.Update(dt);
  }

  lemma TotalStep(ticks: seq<real>, k: nat)
    requires k < |ticks|
    ensures ticks[..k + 1] == ticks[..k] + [ticks[k]] && Total(ticks[..k + 1]) == Total(ticks[..k]) + ticks[k]
  {
    assert ticks[..k + 1][..k] == ticks[..k];
  }

  lemma {:induction false} TotalsRise(ticks: seq<real>, j: nat, k: nat)
    requires NonNegative(ticks) && j <= k <= |ticks|
    ensures Total(ticks[..j]) <= Total(ticks[..k])
    decreases k
  {
    if j < k {
      TotalStep(ticks, k - 1);
      TotalsRise(ticks, j, k - 1);
    }
  }

  /** These are the ticks, a first part of all, that end before the emission does. */
  ghost predicate OpenFor(endless: bool, start: real, limit: real, ticks: seq<real>, inTime: seq<real>) {
    && inTime <= ticks
    && (inTime != [] ==> endless || start + Total(inTime) < limit)
    && (|inTime| < |ticks| ==> !endless && start + Total(ticks[..|inTime| + 1]) >= limit)
  }

  /** In the words of the ticks: the k-th is among them exactly when it ends in time. */
  lemma OpenMeans(endless: bool, start: real, limit: real, ticks: seq<real>, inTime: seq<real>, k: nat)
    requires OpenFor(endless, start, limit, ticks, inTime) && NonNegative(ticks) && 0 < k <= |ticks|
    ensures k <= |inTime| <==> endless || start + Total(ticks[..k]) < limit
  {
    assert inTime == ticks[..|inTime|];
    if k <= |inTime| { TotalsRise(ticks, k, |inTime|); } else { TotalsRise(ticks, |inTime| + 1, k); }
  }

  lemma OpenStep(endless: bool, start: real, limit: real, ticks: seq<real>, inTime: seq<real>, dt: real)
    requires NonNegative(ticks) && dt >= 0.0 && OpenFor(endless, start, limit, ticks, inTime)
    ensures
      var still := endless || start + Total(ticks) + dt < limit;
      OpenFor(endless, start, limit, ticks + [dt], if still then inTime + [dt] else inTime)
  {
    var more := ticks + [dt];
    assert more[..|ticks|] == ticks && more[..|more|] == more;
    if |inTime| < |ticks| {
      TotalsRise(ticks, |inTime| + 1, |ticks|);
      assert ticks[..|ticks|] == ticks && more[..|inTime| + 1] == ticks[..|inTime| + 1];
    } else {
      assert inTime == ticks;
    }
  }

  /** A frame of a run: where the clocks stand after it, and what it asked for. */
  datatype Frame = Frame(time: real, carry: real, timer: real, requested: nat, fired: nat)

  /** Frame j + 1 follows frame j by the j-th tick. */
  ghost predicate FollowsAt(rate: real, interval: Option<real>, endless: bool, limit: real, frames: seq<Frame>, ticks: seq<real>, j: nat) {
    j < |ticks| && j + 1 < |frames| && (interval.Some? ==> interval.value >= 0.001) ==>
      var a, b, dt := frames[j], frames[j + 1], ticks[j];
      && b.time == a.time + dt
      && (endless || b.time < limit ==> (b.requested, b.carry) == Tick(a.carry, Charge(rate, dt)))
      && (!(endless || b.time < limit) ==> b.requested == 0 && b.carry == a.carry)
      && (b.fired, b.timer) == BurstsOf(interval, a.timer, dt)
  }

  ghost predicate Follow(rate: real, interval: Option<real>, endless: bool, limit: real, frames: seq<Frame>, ticks: seq<real>, n: nat) {
    forall j: nat {:trigger FollowsAt(rate, interval, endless, limit, frames, ticks, j)} :: j < n ==>
      FollowsAt(rate, interval, endless, limit, frames, ticks, j)
  }

  lemma FollowOn(rate: real, interval: Option<real>, endless: bool, limit: real, frames: seq<Frame>, ticks: seq<real>, next: Frame)
    requires frames != [] && |frames| <= |ticks| && Follow(rate, interval, endless, limit, frames, ticks, |frames| - 1)
    requires interval.Some? ==> interval.value >= 0.001
    requires
      var a, dt := frames[|frames| - 1], ticks[|frames| - 1];
      && next.time == a.time + dt
      && (endless || next.time < limit ==> (next.requested, next.carry) == Tick(a.carry, Charge(rate, dt)))
      && (!(endless || next.time < limit) ==> next.requested == 0 && next.carry == a.carry)
      && (next.fired, next.timer) == BurstsOf(interval, a.timer, dt)
    ensures Follow(rate, interval, endless, limit, frames + [next], ticks, |frames|)
  {
    var more := frames + [next];
    forall j: nat | j < |frames| ensures FollowsAt(rate, interval, endless, limit, more, ticks, j) {
      assert j < |frames| - 1 ==> FollowsAt(rate, interval, endless, limit, frames, ticks, j);
    }
  }

  // ----- What a run amounts to

  function AskedBy(frames: seq<Frame>, n: nat): nat
    requires n < |frames|
  {
    if n == 0 then 0 else AskedBy(frames, n - 1) + frames[n].requested
  }

  function FiredBy(frames: seq<Frame>, n: nat): nat
    requires n < |frames|
  {
    if n == 0 then 0 else FiredBy(frames, n - 1) + frames[n].fired
  }

  /** The ticks of the first n frames that ended before the emission did. */
  function InTime(endless: bool, limit: real, frames: seq<Frame>, ticks: seq<real>, n: nat): seq<real>
    requires n < |frames| && n <= |ticks|
  {
    if n == 0 then [] else
    InTime(endless, limit, frames, ticks, n - 1) + (if endless || frames[n].time < limit then [ticks[n - 1]] else [])
  }

  lemma {:induction false} TimesAre(rate: real, interval: Option<real>, endless: bool, limit: real, frames: seq<Frame>, ticks: seq<real>, n: nat)
    requires |frames| == |ticks| + 1 && n <= |ticks| && (interval.Some? ==> interval.value >= 0.001)
    requires Follow(rate, interval, endless, limit, frames, ticks, |ticks|)
    ensures frames[n].time == frames[0].time + Total(ticks[..n])
  {
    if n > 0 {
      TimesAre(rate, interval, endless, limit, frames, ticks, n - 1);
      assert FollowsAt(rate, interval, endless, limit, frames, ticks, n - 1);
      TotalStep(ticks, n - 1);
    }
  }

  /** What a frame asks for, and what it leaves. */
  lemma RequestOf(rate: real, interval: Option<real>, endless: bool, limit: real, frames: seq<Frame>, ticks: seq<real>, n: nat)
    requires |frames| == |ticks| + 1 && 0 < n <= |ticks| && (interval.Some? ==> interval.value >= 0.001)
    requires Follow(rate, interval, endless, limit, frames, ticks, |ticks|)
    ensures
      var a, b, dt := frames[n - 1], frames[n], ticks[n - 1];
      if endless || b.time < limit then (b.requested, b.carry) == Tick(a.carry, Charge(rate, dt)) else b.requested == 0 && b.carry == a.carry
  {
    assert FollowsAt(rate, interval, endless, limit, frames, ticks, n - 1);
  }

  lemma InTimeStep(endless: bool, limit: real, frames: seq<Frame>, ticks: seq<real>, n: nat)
    requires 0 < n < |frames| && n <= |ticks|
    ensures
      var before, after := InTime(endless, limit, frames, ticks, n - 1), InTime(endless, limit, frames, ticks, n);
      after == if endless || frames[n].time < limit then before + [ticks[n - 1]] else before
  {
  }

  lemma {:induction false} RequestsAre(rate: real, interval: Option<real>, endless: bool, limit: real, frames: seq<Frame>, ticks: seq<real>, n: nat,
      inTime: seq<real>, asked: nat)
    requires |frames| == |ticks| + 1 && n <= |ticks| && (interval.Some? ==> interval.value >= 0.001)
    requires Follow(rate, interval, endless, limit, frames, ticks, |ticks|)
    requires inTime == InTime(endless, limit, frames, ticks, n) && asked == AskedBy(frames, n)
    ensures (asked, frames[n].carry) == Requests(frames[0].carry, Charges(rate, inTime))
  {
    if n > 0 {
      var before, so := InTime(endless, limit, frames, ticks, n - 1), AskedBy(frames, n - 1);
      RequestsAre(rate, interval, endless, limit, frames, ticks, n - 1, before, so);
      RequestOf(rate, interval, endless, limit, frames, ticks, n);
      InTimeStep(endless, limit, frames, ticks, n);
      if endless || frames[n].time < limit {
        RequestStep(rate, frames[0].carry, before, ticks[n - 1], so, frames[n - 1].carry, frames[n].requested, frames[n].carry, inTime);
      }
    }
  }

  lemma RequestStep(rate: real, start: real, before: seq<real>, dt: real, asked: nat, carry: real, requested: nat, left: real, after: seq<real>)
    requires (asked, carry) == Requests(start, Charges(rate, before)) && after == before + [dt]
    requires (requested, left) == Tick(carry, Charge(rate, dt))
    ensures (asked + requested, left) == Requests(start, Charges(rate, after))
  {
    ChargesAppend(rate, before, dt);
    RequestsAppend(start, Charges(rate, before), Charge(rate, dt));
  }

  lemma {:induction false} FiredAre(rate: real, interval: real, endless: bool, limit: real, frames: seq<Frame>, ticks: seq<real>, n: nat)
    requires |frames| == |ticks| + 1 && n <= |ticks| && interval >= 0.001
    requires Follow(rate, Some(interval), endless, limit, frames, ticks, |ticks|)
    ensures (FiredBy(frames, n), frames[n].timer) == BurstRun(frames[0].timer, interval, ticks[..n])
  {
    if n > 0 {
      FiredAre(rate, interval, endless, limit, frames, ticks, n - 1);
      assert FollowsAt(rate, Some(interval), endless, limit, frames, ticks, n - 1);
      assert ticks[..n][..n - 1] == ticks[..n - 1];
    }
  }

  /** Those ticks are a first part of all, and exactly the ones that end in time. */
  lemma {:induction false} InTimeIsPrefix(rate: real, interval: Option<real>, endless: bool, limit: real, frames: seq<Frame>, ticks: seq<real>, n: nat)
    requires |frames| == |ticks| + 1 && n <= |ticks| && NonNegative(ticks) && (interval.Some? ==> interval.value >= 0.001)
    requires Follow(rate, interval, endless, limit, frames, ticks, |ticks|)
    ensures
      var first := InTime(endless, limit, frames, ticks, n);
      && |first| <= n && first == ticks[..|first|]
      && (first != [] ==> endless || frames[|first|].time < limit)
      && (|first| < n ==> !endless && frames[|first| + 1].time >= limit && frames[n].time >= limit)
  {
    if n > 0 {
      InTimeIsPrefix(rate, interval, endless, limit, frames, ticks, n - 1);
      assert FollowsAt(rate, interval, endless, limit, frames, ticks, n - 1);
      var before := InTime(endless, limit, frames, ticks, n - 1);
      if endless || frames[n].time < limit {
        assert |before| == n - 1;
        assert ticks[..n] == ticks[..n - 1] + [ticks[n - 1]];
      } else {
        assert before + [] == before;
      }
    }
  }

  /** The run law: a run from rest asks for the whole part of rate times the time of the ticks that end before
      the emission does, exactly when those keep up, and for nothing after; and it fires the whole
      intervals of all its time. */
  lemma RunIsTotal(rate: real, interval: Option<real>, endless: bool, limit: real, frames: seq<Frame>, ticks: seq<real>) returns (open: nat)
    requires |frames| == |ticks| + 1 && NonNegative(ticks) && (interval.Some? ==> interval.value >= 0.001)
    requires Follow(rate, interval, endless, limit, frames, ticks, |ticks|) && frames[0].carry == 0.0 && frames[0].timer == 0.0
    ensures open <= |ticks|
    ensures forall k {:trigger ticks[..k]} :: 0 < k <= |ticks| ==>
      (k <= open <==> endless || frames[0].time + Total(ticks[..k]) < limit)
    ensures rate >= 0.0 ==>
      (AskedBy(frames, |ticks|) == Charge(rate, Total(ticks[..open])).Floor <==> KeepsUp(rate, ticks[..open]))
    ensures rate >= 0.0 && KeepsUp(rate, ticks[..open]) ==> 0.0 <= frames[|ticks|].carry < 1.0
    ensures interval.Some? ==> FiredBy(frames, |ticks|) == (Total(ticks) / interval.value).Floor && 0.0 <= frames[|ticks|].timer < interval.value
  {
    var n := |ticks|;
    var first := InTime(endless, limit, frames, ticks, n);
    open := |first|;
    InTimeIsPrefix(rate, interval, endless, limit, frames, ticks, n);
    forall k {:trigger ticks[..k]} | 0 < k <= n ensures k <= open <==> endless || frames[0].time + Total(ticks[..k]) < limit {
      TimesAre(rate, interval, endless, limit, frames, ticks, k);
      TimesAre(rate, interval, endless, limit, frames, ticks, open);
      if k <= open {
        TotalsRise(ticks, k, open);
      } else {
        TimesAre(rate, interval, endless, limit, frames, ticks, open + 1);
        TotalsRise(ticks, open + 1, k);
      }
    }
    RequestsAre(rate, interval, endless, limit, frames, ticks, n, first, AskedBy(frames, n));
    if rate >= 0.0 { FrameRateIndependentIff(rate, first); }
    if interval.Some? {
      FiredAre(rate, interval.value, endless, limit, frames, ticks, n);
      assert ticks[..n] == ticks;
      BurstsAreWholeIntervals(interval.value, ticks);
    }
  }

  /** One update per frame, however the time is split into frames: each frame asks for particles while the
      emission is on and for the bursts that have come due. */
  method Drive(e: ParticleEmitter, ticks: seq<real>) returns (ghost frames: seq<Frame>)
    requires e.Valid() && e.isActive && e.emitting && NonNegative(ticks)
    modifies e`time, e`carry, e`burstTimer, e`burstsFired, e`recycled
    modifies e`particles, e`active, e`free, e`particlesEmitted
    ensures e.Valid() && |frames| == |ticks| + 1 && frames[0] == Frame(old(e.time), old(e.carry), old(e.burstTimer), 0, 0)
    ensures frames[|ticks|].time == e.time && frames[|ticks|].carry == e.carry && frames[|ticks|].timer == e.burstTimer
    ensures Follow(e.emissionRate, e.Schedule(), e.loopEmission || e.duration.None?, if e.duration.Some? then e.duration.value else 0.0, frames, ticks, |ticks|)
  {
    frames := [Frame(e.time, e.carry, e.burstTimer, 0, 0)];
    ghost var endless, limit := e.loopEmission || e.duration.None?, if e.duration.Some? then e.duration.value else 0.0;
    for k := 0 to |ticks|
      invariant e.Valid() && |frames| == k + 1 && frames[0] == Frame(old(e.time), old(e.carry), old(e.burstTimer), 0, 0)
      invariant frames[k].time == e.time && frames[k].carry == e.carry && frames[k].timer == e.burstTimer
      invariant Follow(e.emissionRate, e.Schedule(), endless, limit, frames, ticks, k)
    {
      ghost var requested, fired := Tock(e, ticks[k]);
      ghost var next := Frame(e.time, e.carry, e.burstTimer, requested, fired);
      FollowOn(e.emissionRate, e.Schedule(), endless, limit, frames, ticks, next);
      frames := frames + [next];
    }
  }
}
