/** The reservation allocator of a node: budgets, saturating totals and the local reserve. */
module Admission {
  import opened Wire
  import opened Outcomes

  datatype Resource = Cpu | Memory | Vram | Threads

  /** The largest value of a resource's machine type. */
  function Top(k: Resource): nat {
    if k.Cpu? || k.Threads? then U32_LIMIT - 1 else U64_LIMIT - 1
  }

  datatype Amounts = Amounts(cpu: u32, memory: u64, vram: u64, threads: u32) {
    function Of(k: Resource): (n: nat)
      ensures n <= Top(k)
    {
      match k
      case Cpu => cpu
      case Memory => memory
      case Vram => vram
      case Threads => threads
    }
  }

  datatype Origin = Local | Remote

  datatype Request = Request(id: string, origin: Origin, capabilityVersion: u64, amounts: Amounts, until: u64)

  datatype Budget = Budget(total: Amounts, reserve: Amounts, maxRemotePressure: nat) {
    predicate Sensible() {
      && total.cpu > 0 && total.memory > 0 && total.threads > 0 && maxRemotePressure <= 100
      && forall k: Resource :: reserve.Of(k) <= total.Of(k)
    }
  }

  datatype Outcome =
    | Accept(id: string) | RetryAfter(tick: u64) | Overloaded | InsufficientMemory | CapabilityChanged(current: u64)

  type Reservations = map<string, Request>

  datatype Controller = Controller(budget: Budget, version: u64, pressure: nat, reservations: Reservations)

  // ----- Sums -----

  /** How much of a resource these reservations hold. */
  ghost function Sum(m: Reservations, k: Resource): nat
    decreases |m|
  {
    if m == map[] then 0
    else
      var id :| id in m;
      SmallerMap(m, id);
      m[id].amounts.Of(k) + Sum(m - {id}, k)
  }

  lemma SmallerMap(m: Reservations, id: string)
    requires id in m
    ensures |m - {id}| < |m|
  {
    assert m.Keys == (m - {id}).Keys + {id};
  }

  /** A sum is the same whichever reservation is counted first. */
  lemma {:induction false} SumSplit(m: Reservations, id: string, k: Resource)
    requires id in m
    ensures Sum(m, k) == m[id].amounts.Of(k) + Sum(m - {id}, k)
    decreases |m|
  {
    hide Top;
    var first :| first in m && Sum(m, k) == m[first].amounts.Of(k) + Sum(m - {first}, k);
    if first != id {
      SmallerMap(m, first);
      SmallerMap(m, id);
      SumSplit(m - {first}, id, k);
      SumSplit(m - {id}, first, k);
      assert m - {first} - {id} == m - {id} - {first};
    }
  }

  lemma {:induction false} SumSubset(a: Reservations, b: Reservations, k: Resource)
    requires a.Keys <= b.Keys && forall id <- a :: a[id] == b[id]
    ensures Sum(a, k) <= Sum(b, k)
    decreases |a|
  {
    if a != map[] {
      var id :| id in a;
      SmallerMap(a, id);
      SumSplit(a, id, k);
      SumSplit(b, id, k);
      SumSubset(a - {id}, b - {id}, k);
    }
  }

  function Only(m: Reservations, origin: Origin): Reservations {
    map id <- m | m[id].origin == origin :: m[id]
  }

  /** Every reservation is either local or remote. */
  lemma {:induction false} SumParts(m: Reservations, k: Resource)
    ensures Sum(m, k) == Sum(Only(m, Local), k) + Sum(Only(m, Remote), k)
    decreases |m|
  {
    hide Sum;
    if m == map[] {
      SumNone(k);
      assert Only(m, Local) == map[] && Only(m, Remote) == map[];
    } else {
      var id :| id in m;
      var rest := m - {id};
      SmallerMap(m, id);
      SumSplit(m, id, k);
      SumParts(rest, k);
      var mine := m[id].origin;
      SumSplit(Only(m, mine), id, k);
      assert Only(m, mine) - {id} == Only(rest, mine);
      assert forall other: Origin :: other != mine ==> Only(m, other) == Only(rest, other);
    }
  }

  lemma SumNone(k: Resource)
    ensures Sum(map[], k) == 0
  {
  }

  function Cap(n: nat, k: Resource): nat {
    if n <= Top(k) then n else Top(k)
  }

  // ----- Steps -----

  function Expired(m: Reservations, now: u64): Reservations {
    map id <- m | m[id].until > now :: m[id]
  }

  /** What is left for work of this origin when nothing is reserved. */
  function Limit(b: Budget, origin: Origin, k: Resource): nat {
    var held := if origin.Remote? then b.reserve.Of(k) else 0;
    if held <= b.total.Of(k) then b.total.Of(k) - held else 0
  }

  /** The saturating comparison of `admit`. */
  ghost predicate Exceeds(b: Budget, m: Reservations, r: Request, k: Resource) {
    Cap(Cap(Sum(m, k), k) + r.amounts.Of(k), k) > Limit(b, r.origin, k)
  }

  ghost function Admit(c: Controller, r: Request, now: u64): (Controller, Outcome) {
    var c' := c.(reservations := Expired(c.reservations, now));
    var m, b := c'.reservations, c.budget;
    if r.capabilityVersion != c.version then (c', CapabilityChanged(c.version))
    else if r.until <= now then (c', RetryAfter(SatAdd(now, 1)))
    else if r.origin.Remote? && c.pressure >= b.maxRemotePressure then (c', Overloaded)
    else if Exceeds(b, m, r, Memory) || Exceeds(b, m, r, Vram) then (c', InsufficientMemory)
    else if Exceeds(b, m, r, Cpu) || Exceeds(b, m, r, Threads) then (c', Overloaded)
    else (c'.(reservations := m[r.id := r]), Accept(r.id))
  }

  datatype AdmissionEvent =
    | AdmitEvent(request: Request, now: u64)
    | ReleaseEvent(id: string)
    | ExpireEvent(now: u64)
    | UpdateEvent(version: u64, pressure: nat)

  ghost function AdmissionNext(c: Controller, e: AdmissionEvent): Controller {
    match e
    case AdmitEvent(r, now) => Admit(c, r, now).0
    case ReleaseEvent(id) => c.(reservations := c.reservations - {id})
    case ExpireEvent(now) => c.(reservations := Expired(c.reservations, now))
    case UpdateEvent(version, pressure) => c.(version := version, pressure := if pressure <= 100 then pressure else 100)
  }

  ghost function AdmissionRun(c: Controller, events: seq<AdmissionEvent>): Controller {
    if events == [] then c else AdmissionNext(AdmissionRun(c, events[..|events| - 1]), events[|events| - 1])
  }

  // ----- The object -----

  class LocalAdmissionController {
    const budget: Budget
    var version: u64
    var pressure: nat
    var reservations: Reservations

    function View(): Controller
      reads this
    {
      Controller(budget, version, pressure, reservations)
    }

    constructor (budget: Budget, version: u64)
      requires budget.Sensible() && version > 0
      ensures View() == Controller(budget, version, 0, map[])
    {
      this.budget, this.version, pressure, reservations := budget, version, 0, map[];
    }

    /** `reserved_totals` for one resource: a saturating fold in any order. */
    method Reserved(k: Resource) returns (total: nat)
      ensures total == Cap(Sum(reservations, k), k)
    {
      hide Sum, Top;
      total := 0;
      var rest := reservations;
      ghost var done: nat := 0;
      while rest != map[]
        invariant done + Sum(rest, k) == Sum(reservations, k) && total == Cap(done, k)
        decreases |rest|
      {
        var id :| id in rest;
        SumSplit(rest, id, k);
        SmallerMap(rest, id);
        done := done + rest[id].amounts.Of(k);
        total := Cap(total + rest[id].amounts.Of(k), k);
        rest := rest - {id};
      }
      SumNone(k);
    }

    method Over(r: Request, k: Resource) returns (over: bool)
      ensures over == Exceeds(budget, reservations, r, k)
    {
      hide Sum, Cap, Limit;
      var held := Reserved(k);
      return Cap(held + r.amounts.Of(k), k) > Limit(budget, r.origin, k);
    }

    method Request(r: Request, now: u64) returns (outcome: Outcome)
      modifies this`reservations
      ensures (View(), outcome) == Admit(old(View()), r, now)
    {
      hide Exceeds;
      Expire(now);
      if r.capabilityVersion != version {
        return CapabilityChanged(version);
      }
      if r.until <= now {
        return RetryAfter(SatAdd(now, 1));
      }
      if r.origin.Remote? && pressure >= budget.maxRemotePressure {
        return Outcome.Overloaded;
      }
      var memory := Over(r, Memory);
      var vram := Over(r, Vram);
      if memory || vram {
        return InsufficientMemory;
      }
      var cpu := Over(r, Cpu);
      var threads := Over(r, Threads);
      if cpu || threads {
        return Outcome.Overloaded;
      }
      reservations := reservations[r.id := r];
      return Accept(r.id);
    }

    method Release(id: string) returns (found: bool)
      modifies this`reservations
      ensures View() == AdmissionNext(old(View()), ReleaseEvent(id)) && found == (id in old(reservations))
    {
      found := id in reservations;
      reservations := reservations - {id};
    }

    /** `retain` of the reservations that outlive `now`. */
    method Expire(now: u64)
      modifies this`reservations
      ensures View() == AdmissionNext(old(View()), ExpireEvent(now))
    {
      var rest := reservations.Keys;
      while rest != {}
        invariant rest <= old(reservations).Keys
        invariant reservations == map id <- old(reservations) | id in rest || old(reservations)[id].until > now :: old(reservations)[id]
        decreases rest
      {
        var id :| id in rest;
        if reservations[id].until <= now {
          reservations := reservations - {id};
        }
        rest := rest - {id};
      }
    }

    method Update(version: u64, pressure: nat)
      modifies this`version, this`pressure
      ensures View() == AdmissionNext(old(View()), UpdateEvent(version, pressure))
    {
      this.version, this.pressure := version, if pressure <= 100 then pressure else 100;
    }
  }

  /** `new`: refused exactly for a version or total of zero, a reserve beyond its total, or a pressure limit above a hundred. */
  method OpenController(budget: Budget, version: u64) returns (r: Result<LocalAdmissionController>)
    ensures r.Err? <==>
            || version == 0 || budget.total.cpu == 0 || budget.total.memory == 0 || budget.total.threads == 0
            || budget.reserve.cpu > budget.total.cpu || budget.reserve.memory > budget.total.memory || budget.reserve.vram > budget.total.vram
            || budget.reserve.threads > budget.total.threads || budget.maxRemotePressure > 100
    ensures r.Err? ==> r.error == InvalidConfig
    ensures r.Ok? ==> fresh(r.value) && r.value.View() == Controller(budget, version, 0, map[])
  {
    SensibleExactly(budget);
    if version == 0 || !budget.Sensible() {
      return Err(InvalidConfig);
    }
    var controller := new LocalAdmissionController(budget, version);
    return Ok(controller);
  }

  lemma SensibleExactly(b: Budget)
    ensures b.Sensible() <==>
            && b.total.cpu > 0 && b.total.memory > 0 && b.total.threads > 0 && b.maxRemotePressure <= 100
            && b.reserve.cpu <= b.total.cpu && b.reserve.memory <= b.total.memory && b.reserve.vram <= b.total.vram && b.reserve.threads <= b.total.threads
  {
    assert b.reserve.Of(Cpu) == b.reserve.cpu && b.reserve.Of(Memory) == b.reserve.memory && b.reserve.Of(Vram) == b.reserve.vram && b.reserve.Of(Threads) == b.reserve.threads;
  }

  // ----- What every run keeps -----

  /** A resource is held within its limits, wherever the limit is not the type's own maximum. */
  ghost predicate Fits(c: Controller, k: Resource) {
    && (Limit(c.budget, Local, k) < Top(k) ==> Sum(c.reservations, k) <= Limit(c.budget, Local, k))
    && (Limit(c.budget, Remote, k) < Top(k) ==> Sum(Only(c.reservations, Remote), k) <= Limit(c.budget, Remote, k))
  }

  /** Fewer reservations fit wherever more did. */
  lemma FitsFewer(c: Controller, m: Reservations, k: Resource)
    requires Fits(c, k) && m.Keys <= c.reservations.Keys && forall id <- m :: m[id] == c.reservations[id]
    ensures Fits(c.(reservations := m), k)
  {
    hide Sum, Limit;
    SumSubset(m, c.reservations, k);
    SumSubset(Only(m, Remote), Only(c.reservations, Remote), k);
  }

  /** Replacing a reservation adds at most the new one. */
  lemma SumInsert(m: Reservations, r: Request, k: Resource)
    ensures Sum(m[r.id := r], k) <= Sum(m, k) + r.amounts.Of(k)
  {
    hide Sum;
    var m' := m[r.id := r];
    SumSplit(m', r.id, k);
    assert m' - {r.id} == m - {r.id};
    SumSubset(m - {r.id}, m, k);
  }

  lemma FitsInsert(c: Controller, r: Request, k: Resource)
    requires Fits(c, k) && !Exceeds(c.budget, c.reservations, r, k) && Limit(c.budget, Remote, k) <= Limit(c.budget, Local, k)
    ensures Fits(c.(reservations := c.reservations[r.id := r]), k)
  {
    hide Sum, Limit, Top;
    var m := c.reservations;
    var m' := m[r.id := r];
    SumInsert(m, r, k);
    if r.origin.Remote? {
      SumParts(m, k);
      SumInsert(Only(m, Remote), r, k);
      assert Only(m', Remote) == Only(m, Remote)[r.id := r];
    } else {
      SumSubset(Only(m', Remote), Only(m, Remote), k);
    }
  }

  lemma LimitOrder(b: Budget, k: Resource)
    ensures Limit(b, Remote, k) <= Limit(b, Local, k) <= Top(k)
  {
  }

  lemma AdmissionKeeps(c: Controller, e: AdmissionEvent, k: Resource)
    requires Fits(c, k)
    ensures Fits(AdmissionNext(c, e), k) && AdmissionNext(c, e).budget == c.budget
  {
    hide Fits, Limit, Exceeds;
    match e
    case AdmitEvent(r, now) =>
      var c' := c.(reservations := Expired(c.reservations, now));
      FitsFewer(c, c'.reservations, k);
      LimitOrder(c.budget, k);
      if Admit(c, r, now).1.Accept? {
        FitsInsert(c', r, k);
      }
    case ReleaseEvent(id) => FitsFewer(c, c.reservations - {id}, k);
    case ExpireEvent(now) => FitsFewer(c, Expired(c.reservations, now), k);
    case UpdateEvent(version, pressure) => FitsAside(c, AdmissionNext(c, e), k);
  }

  lemma FitsAside(c: Controller, d: Controller, k: Resource)
    requires Fits(c, k) && d.budget == c.budget && d.reservations == c.reservations
    ensures Fits(d, k)
  {
  }

  /** In every run, reused ids and expiry included, each resource stays within its limits. */
  lemma {:induction false} EveryRunFits(budget: Budget, version: u64, events: seq<AdmissionEvent>, k: Resource)
    ensures var c := AdmissionRun(Controller(budget, version, 0, map[]), events);
            Fits(c, k) && c.budget == budget
    decreases |events|
  {
    hide Fits, AdmissionNext;
    if events == [] {
      FitsNone(Controller(budget, version, 0, map[]), k);
    } else {
      var n := |events| - 1;
      EveryRunFits(budget, version, events[..n], k);
      AdmissionKeeps(AdmissionRun(Controller(budget, version, 0, map[]), events[..n]), events[n], k);
    }
  }

  lemma FitsNone(c: Controller, k: Resource)
    requires c.reservations == map[]
    ensures Fits(c, k)
  {
    SumNone(k);
    assert Only(c.reservations, Remote) == map[];
  }

  // ----- The local guarantee -----

  /** A request within the unused local reserve exceeds nothing, whatever the remote load. */
  lemma WithinReserve(c: Controller, r: Request, k: Resource)
    requires c.budget.Sensible() && Fits(c, k) && r.origin.Local?
    requires Sum(Only(c.reservations, Local), k) + r.amounts.Of(k) <= c.budget.reserve.Of(k)
    ensures !Exceeds(c.budget, c.reservations, r, k)
  {
    hide Sum, Top;
    SumParts(c.reservations, k);
  }

  /** A current, unexpired local request within the reserve is always accepted. */
  lemma LocalGuarantee(budget: Budget, version: u64, events: seq<AdmissionEvent>, r: Request, now: u64)
    requires budget.Sensible() && r.origin.Local? && r.until > now
    requires var c := AdmissionRun(Controller(budget, version, 0, map[]), events);
             && r.capabilityVersion == c.version
             && forall k: Resource :: Sum(Only(Expired(c.reservations, now), Local), k) + r.amounts.Of(k) <= budget.reserve.Of(k)
    ensures Admit(AdmissionRun(Controller(budget, version, 0, map[]), events), r, now).1 == Accept(r.id)
  {
    hide Fits, Exceeds, AdmissionRun, Sum, Only, Expired;
    var c := AdmissionRun(Controller(budget, version, 0, map[]), events);
    var c' := c.(reservations := Expired(c.reservations, now));
    EveryRunFits(budget, version, events, Cpu);
    forall k: Resource
      ensures !Exceeds(budget, c'.reservations, r, k)
    {
      EveryRunFits(budget, version, events, k);
      ExpiredFits(c, now, k);
      WithinReserve(c', r, k);
    }
  }

  lemma ExpiredFits(c: Controller, now: u64, k: Resource)
    requires Fits(c, k)
    ensures Fits(c.(reservations := Expired(c.reservations, now)), k)
  {
    hide Fits;
    FitsFewer(c, Expired(c.reservations, now), k);
  }

  // ----- Exactly what is admitted -----

  /** What a request of this origin may bring a resource to: all of it, or what the local reserve leaves. */
  function Share(b: Budget, origin: Origin, k: Resource): int {
    if origin.Local? then b.total.Of(k) else b.total.Of(k) - b.reserve.Of(k)
  }

  /** The resource has room for a request: its share is not passed, or is the type's maximum and never binds. */
  ghost predicate Room(b: Budget, m: Reservations, r: Request, k: Resource) {
    Share(b, r.origin, k) == Top(k) || Sum(m, k) + r.amounts.Of(k) <= Share(b, r.origin, k)
  }

  /** The saturating arithmetic decides as the exact one does. */
  lemma ExceedsExactly(b: Budget, m: Reservations, r: Request, k: Resource)
    requires b.Sensible()
    ensures Exceeds(b, m, r, k) <==> !Room(b, m, r, k)
  {
    hide Sum;
  }

  /**
   Every answer exactly: a request of either origin is accepted when it is current and unexpired,
   comes under no remote pressure and every resource has room beside what has not expired.
   */
  lemma AdmitsExactly(c: Controller, r: Request, now: u64, live: Reservations)
    requires c.budget.Sensible() && live.Keys <= c.reservations.Keys
    requires forall id <- c.reservations :: if c.reservations[id].until > now then id in live && live[id] == c.reservations[id] else id !in live
    ensures var (c', outcome) := Admit(c, r, now); var b := c.budget;
            var current, pressed := r.capabilityVersion == c.version && now < r.until, r.origin.Remote? && c.pressure >= b.maxRemotePressure;
            var memory, work := Room(b, live, r, Memory) && Room(b, live, r, Vram), Room(b, live, r, Cpu) && Room(b, live, r, Threads);
            && (outcome.Accept? <==> current && !pressed && memory && work)
            && (outcome.CapabilityChanged? <==> r.capabilityVersion != c.version) && (outcome.CapabilityChanged? ==> outcome.current == c.version)
            && (outcome.RetryAfter? <==> r.capabilityVersion == c.version && r.until <= now) && (outcome.RetryAfter? ==> outcome.tick > now || now == U64_LIMIT - 1)
            && (outcome.InsufficientMemory? <==> current && !pressed && !memory)
            && (outcome.Overloaded? <==> current && (pressed || (memory && !work)))
            && (outcome.Accept? ==> outcome.id == r.id)
            && c'.reservations == (if outcome.Accept? then live[r.id := r] else live)
            && c' == c.(reservations := c'.reservations)
  {
    hide Exceeds, Room;
    assert live == Expired(c.reservations, now);
    ExceedsExactly(c.budget, live, r, Memory);
    ExceedsExactly(c.budget, live, r, Vram);
    ExceedsExactly(c.budget, live, r, Cpu);
    ExceedsExactly(c.budget, live, r, Threads);
  }

  /** In every run the pressure that admission looks at is the last one reported, and never above a hundred. */
  lemma {:induction false} EveryRunPressure(budget: Budget, version: u64, events: seq<AdmissionEvent>, pressure: nat)
    ensures AdmissionRun(Controller(budget, version, 0, map[]), events).pressure <= 100
    ensures var c := AdmissionRun(Controller(budget, version, 0, map[]), events + [UpdateEvent(version, pressure)]);
            c.version == version && c.pressure == if pressure <= 100 then pressure else 100
    decreases |events|
  {
    hide Exceeds, Expired;
    assert (events + [UpdateEvent(version, pressure)])[..|events|] == events;
    if events != [] {
      EveryRunPressure(budget, version, events[..|events| - 1], pressure);
    }
  }

  /** A release gives back exactly what the reservation held, of every resource. */
  lemma ReleaseFrees(c: Controller, id: string, k: Resource)
    ensures var after := AdmissionNext(c, ReleaseEvent(id));
            Sum(c.reservations, k) == Sum(after.reservations, k) + if id in c.reservations then c.reservations[id].amounts.Of(k) else 0
  {
    hide Sum;
    if id in c.reservations {
      SumSplit(c.reservations, id, k);
    } else {
      assert c.reservations - {id} == c.reservations;
    }
  }

  // ----- Why a limit at the type's maximum does not bind -----

  function Everything(id: string, version: u64, k: Resource, until: u64): Request {
    Request(id, Local, version, Amounts(
      if k.Cpu? then U32_LIMIT - 1 else 0, if k.Memory? then U64_LIMIT - 1 else 0,
      if k.Vram? then U64_LIMIT - 1 else 0, if k.Threads? then U32_LIMIT - 1 else 0), until)
  }

  lemma EverythingAmounts(id: string, version: u64, k: Resource, until: u64, j: Resource)
    ensures Everything(id, version, k, until).amounts.Of(j) == if j == k then Top(k) else 0
  {
  }

  /** With a total at the type's maximum, saturation accepts anything of that resource. */
  lemma AcceptsEverything(c: Controller, id: string, k: Resource, now: u64, until: u64)
    requires c.budget.total.Of(k) == Top(k) && until > now
    requires forall j: Resource :: j != k ==> Sum(Expired(c.reservations, now), j) == 0
    ensures var r := Everything(id, c.version, k, until);
            Admit(c, r, now) == (c.(reservations := Expired(c.reservations, now)[id := r]), Accept(id))
  {
    hide Sum, Expired, Everything;
    var r := Everything(id, c.version, k, until);
    assert r.id == id && r.origin == Local && r.capabilityVersion == c.version && r.until == until by { EverythingFields(id, c.version, k, until); }
    forall j: Resource
      ensures !Exceeds(c.budget, Expired(c.reservations, now), r, j)
    {
      EverythingAmounts(id, c.version, k, until, j);
    }
  }

  lemma EverythingFields(id: string, version: u64, k: Resource, until: u64)
    ensures var r := Everything(id, version, k, until);
            r.id == id && r.origin == Local && r.capabilityVersion == version && r.until == until
  {
  }

  /** A resource fits its total in every run exactly when that total is below the type's maximum. */
  lemma TotalBindsExactly(budget: Budget, version: u64, k: Resource)
    ensures (forall events :: Sum(AdmissionRun(Controller(budget, version, 0, map[]), events).reservations, k) <= budget.total.Of(k))
            <==> budget.total.Of(k) < Top(k)
  {
    hide Sum, AdmissionRun, Fits, Limit;
    if budget.total.Of(k) < Top(k) {
      forall events
        ensures Sum(AdmissionRun(Controller(budget, version, 0, map[]), events).reservations, k) <= budget.total.Of(k)
      {
        EveryRunFits(budget, version, events, k);
        FitsTotal(AdmissionRun(Controller(budget, version, 0, map[]), events), k);
      }
    } else {
      var events := Twice(budget, version, k);
      TwiceOverflows(budget, version, k);
      assert Sum(AdmissionRun(Controller(budget, version, 0, map[]), events).reservations, k) > budget.total.Of(k);
    }
  }

  lemma FitsTotal(c: Controller, k: Resource)
    requires Fits(c, k) && c.budget.total.Of(k) < Top(k)
    ensures Sum(c.reservations, k) <= c.budget.total.Of(k)
  {
  }

  /** Two requests for all there is, under different ids. */
  function Twice(budget: Budget, version: u64, k: Resource): seq<AdmissionEvent> {
    [AdmitEvent(Everything("a", version, k, 1), 0), AdmitEvent(Everything("b", version, k, 1), 0)]
  }

  lemma TwiceOverflows(budget: Budget, version: u64, k: Resource)
    requires budget.total.Of(k) == Top(k)
    ensures Sum(AdmissionRun(Controller(budget, version, 0, map[]), Twice(budget, version, k)).reservations, k) == 2 * Top(k)
  {
    hide Sum, Admit, Everything, Top;
    var c, x, y := Controller(budget, version, 0, map[]), Everything("a", version, k, 1), Everything("b", version, k, 1);
    forall j: Resource
      ensures Sum(map[], j) == 0
    {
      SumNone(j);
    }
    assert Expired(map[], 0) == map[];
    AcceptsEverything(c, "a", k, 0, 1);
    var c1 := c.(reservations := map["a" := x]);
    EverythingFields("a", version, k, 1);
    assert Expired(c1.reservations, 0) == c1.reservations;
    forall j: Resource
      ensures Sum(c1.reservations, j) == if j == k then Top(k) else 0
    {
      SumSplit(c1.reservations, "a", j);
      assert c1.reservations - {"a"} == map[];
      EverythingAmounts("a", version, k, 1, j);
    }
    AcceptsEverything(c1, "b", k, 0, 1);
    var m := map["a" := x]["b" := y];
    SumSplit(m, "b", k);
    assert m - {"b"} == c1.reservations;
    EverythingAmounts("b", version, k, 1, k);
    var events := Twice(budget, version, k);
    assert events[..1] == [events[0]] && [events[0]][..0] == [];
    assert AdmissionRun(c, []) == c;
    assert AdmissionRun(c, [events[0]]) == c1 by { assert map[]["a" := x] == map["a" := x]; }
    assert AdmissionRun(c, events) == c1.(reservations := m);
  }
}
