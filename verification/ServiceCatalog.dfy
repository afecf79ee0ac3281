/** The service catalogue: one slot per service type, and the deferred initialisation that
    calls `init2` on every registered service once its dependencies are initialised.
    Source: controller/hal/service_catalog.cpp, controller/hal/service_catalog.h. */
module ServiceCatalog {
  import opened Common

  /** `ALWAYS_AT_LAST`: the service types are the slots 1 to 8; slot 0 stays empty. */
  const SLOTS: nat := 9

  type ServiceType = t: nat | 1 <= t < SLOTS witness 1

  /** A service as the catalogue sees it. `initialises` is what its `init2` returns. */
  datatype Service = Service(stype: ServiceType, dependencies: set<ServiceType>, initialises: bool)

  function Types(order: seq<Service>): set<ServiceType> {
    set s | s in order :: s.stype
  }

  predicate Distinct(order: seq<Service>) {
    forall i, j :: 0 <= i < j < |order| ==> order[i] != order[j]
  }

  /** An initialisation order over `available`: nobody twice, everybody after all the types
      it depends on. */
  ghost predicate Schedule(order: seq<Service>, available: set<Service>) {
    && Distinct(order)
    && (forall s :: s in order ==> s in available)
    && (forall k :: 0 <= k < |order| ==> AfterDependencies(order, k))
  }

  ghost predicate AfterDependencies(order: seq<Service>, k: nat)
    requires k < |order|
  {
    order[k].dependencies <= Types(order[..k])
  }

  ghost predicate Covers(order: seq<Service>, services: set<Service>) {
    forall s :: s in services ==> s in order
  }

  /** All of `services` can be brought up in some order that respects the dependencies. */
  ghost predicate Orderable(services: set<Service>) {
    exists order :: Schedule(order, services) && Covers(order, services)
  }

  /** A schedule nothing can be added to: every service outside it misses a dependency. */
  ghost predicate Stuck(order: seq<Service>, available: set<Service>) {
    forall s :: s in available && s !in order ==> !(s.dependencies <= Types(order))
  }

  /** Every dependency of a service in a schedule is the type of one scheduled before it. */
  lemma DependenciesComeFirst(order: seq<Service>, available: set<Service>, k: nat, d: ServiceType)
    requires Schedule(order, available) && k < |order| && d in order[k].dependencies
    ensures exists j :: 0 <= j < k && order[j].stype == d
  {
    assert AfterDependencies(order, k) && d in Types(order[..k]);
    var s :| s in order[..k] && s.stype == d;
    var j :| 0 <= j < k && order[..k][j] == s;
    assert order[j].stype == d;
  }

  lemma ScheduleExtends(order: seq<Service>, available: set<Service>, s: Service)
    requires Schedule(order, available) && s in available && s !in order && s.dependencies <= Types(order)
    ensures Schedule(order + [s], available)
    ensures Types(order + [s]) == Types(order) + {s.stype}
  {
    var longer := order + [s];
    forall k | 0 <= k < |longer| ensures AfterDependencies(longer, k) {
      assert longer[..k] == order[..k];
      if k < |order| {
        assert AfterDependencies(order, k);
      } else {
        assert order[..k] == order;
      }
    }
  }

  lemma SchedulePrefix(order: seq<Service>, available: set<Service>, n: nat)
    requires Schedule(order, available) && n <= |order|
    ensures Schedule(order[..n], available)
  {
    forall k | 0 <= k < n ensures AfterDependencies(order[..n], k) {
      assert order[..n][..k] == order[..k] && AfterDependencies(order, k);
    }
  }

  lemma TypesMonotone(small: seq<Service>, large: seq<Service>)
    requires forall s :: s in small ==> s in large
    ensures Types(small) <= Types(large)
  {
  }

  /** A stuck schedule is the largest one: it contains every schedule whatsoever. */
  lemma {:induction false} StuckIsLargest(order: seq<Service>, available: set<Service>, other: seq<Service>)
    requires Schedule(order, available) && Stuck(order, available) && Schedule(other, available)
    ensures forall s :: s in other ==> s in order
  {
    if other != [] {
      var n := |other| - 1;
      SchedulePrefix(other, available, n);
      StuckIsLargest(order, available, other[..n]);
      TypesMonotone(other[..n], order);
      assert AfterDependencies(other, n);
      assert other[n] in order;
      assert other == other[..n] + [other[n]];
    }
  }

  /** So two stuck schedules bring up the same services, in whatever order they were built. */
  lemma StuckSchedulesAgree(order: seq<Service>, other: seq<Service>, available: set<Service>)
    requires Schedule(order, available) && Stuck(order, available)
    requires Schedule(other, available) && Stuck(other, available)
    ensures forall s :: s in order <==> s in other
  {
    StuckIsLargest(order, available, other);
    StuckIsLargest(other, available, order);
  }

  lemma StuckDecidesOrderable(order: seq<Service>, available: set<Service>)
    requires Schedule(order, available) && Stuck(order, available)
    ensures Orderable(available) <==> Covers(order, available)
  {
    if Orderable(available) {
      var other :| Schedule(other, available) && Covers(other, available);
      StuckIsLargest(order, available, other);
    }
  }

  /** What a run of the deferred initialisation did: `calls` are the `init2` calls in order. It
      goes on until one of them fails or no service is ready any more. */
  ghost predicate Outcome(services: set<Service>, ok: bool, calls: seq<Service>) {
    && Schedule(calls, services)
    && (forall k :: 0 <= k < |calls| - 1 ==> calls[k].initialises)
    && (ok <==> Orderable(services) && forall s :: s in services ==> s.initialises)
    && (Stuck(calls, services) || (calls != [] && !calls[|calls| - 1].initialises))
  }

  /** The result, and with succeeding services also the set that was brought up, do not
      depend on the order in which the services are visited. */
  lemma OutcomeIgnoresVisitingOrder(services: set<Service>, ok: bool, calls: seq<Service>, ok': bool, calls': seq<Service>)
    requires Outcome(services, ok, calls) && Outcome(services, ok', calls')
    ensures ok == ok'
    ensures (forall s :: s in services ==> s.initialises) ==> forall s :: s in calls <==> s in calls'
  {
    if forall s :: s in services ==> s.initialises {
      StuckSchedulesAgree(calls, calls', services);
    }
  }

  class Catalog {
    var services: seq<Option<Service>>

    /** Every slot holds a service of its own type. */
    ghost predicate Valid()
      reads this
    {
      && |services| == SLOTS
      && forall k :: 0 <= k < SLOTS && services[k].Some? ==> services[k].value.stype == k
    }

    ghost function Live(): set<Service>
      reads this
    {
      set k | 0 <= k < |services| && services[k].Some? :: services[k].value
    }

    constructor ()
      ensures Valid() && Live() == {}
    {
      services := seq(SLOTS, _ => None);
    }

    /** `init` runs first and a service that fails it is not registered. */
    method RegisterService(svc: Service, initOk: bool)
      requires Valid()
      modifies this
      ensures Valid()
      ensures services == if initOk then old(services)[svc.stype as int := Some(svc)] else old(services)
      ensures initOk ==> svc in Live() && forall s :: s in Live() && s.stype == svc.stype ==> s == svc
    {
      if initOk {
        services := services[svc.stype := Some(svc)];
        assert services[svc.stype].value in Live();
      }
    }

    method UnregisterService(stype: ServiceType)
      requires Valid()
      modifies this
      ensures Valid()
      ensures services == old(services)[stype as int := None]
      ensures forall s :: s in Live() <==> s in old(Live()) && s.stype != stype
    {
      ghost var before := services;
      services := services[stype := None];
      forall s | s in old(Live()) && s.stype != stype ensures s in Live() {
        var k :| 0 <= k < |before| && before[k].Some? && before[k].value == s;
        assert services[k].value == s;
      }
    }

    /** `uninitialized_services` is a set of pointers, so it is visited in address order;
        `addressOrder` is that order, and the contract holds for every one of them. */
    method DeferredInitServices(addressOrder: seq<Service>) returns (ok: bool, calls: seq<Service>)
      requires Valid()
      requires Distinct(addressOrder) && (forall s :: s in addressOrder <==> s in Live())
      ensures Outcome(Live(), ok, calls)
    {
      ghost var all := Live();
      var initialized: set<ServiceType> := {};
      var uninitialized := addressOrder;
      calls := [];
      var initializedThisRound := true;
      while uninitialized != [] && initializedThisRound
        invariant Progress(all, initialized, uninitialized, calls)
        invariant !initializedThisRound ==> NoneReady(uninitialized, initialized, |uninitialized|)
        decreases |uninitialized|, initializedThisRound
      {
        initializedThisRound := false;
        var k := 0;
        ghost var before := |uninitialized|;
        while k < |uninitialized|
          invariant k <= |uninitialized| <= before
          invariant Progress(all, initialized, uninitialized, calls)
          invariant initializedThisRound ==> |uninitialized| < before
          invariant !initializedThisRound ==> NoneReady(uninitialized, initialized, k)
          decreases |uninitialized| - k
        {
          var current := uninitialized[k];
          if current.dependencies <= initialized {
            ProgressStep(all, initialized, uninitialized, calls, k);
            calls := calls + [current];
            if current.initialises {
              initialized := initialized + {current.stype};
              uninitialized := uninitialized[..k] + uninitialized[k + 1..];
              initializedThisRound := true;
            } else {
              ok := false;
              assert current in all;
              return;
            }
          } else {
            k := k + 1;
          }
        }
      }
      ok := uninitialized == [];
      StuckDecidesOrderable(calls, all);
      assert !ok ==> uninitialized[0] in all && uninitialized[0] !in calls;
    }
  }

  /** Loop invariant: the calls so far form a schedule of successful services, and the rest
      of the registered services is still to be visited. */
  ghost predicate Progress(all: set<Service>, initialized: set<ServiceType>, uninitialized: seq<Service>, calls: seq<Service>) {
    && Schedule(calls, all) && Distinct(uninitialized)
    && initialized == Types(calls)
    && (forall s :: s in calls ==> s.initialises)
    && (forall s :: s in all <==> s in calls || s in uninitialized)
    && (forall s :: s in calls ==> s !in uninitialized)
  }

  ghost predicate NoneReady(uninitialized: seq<Service>, initialized: set<ServiceType>, upTo: nat) {
    forall k :: 0 <= k < upTo && k < |uninitialized| ==> !(uninitialized[k].dependencies <= initialized)
  }

  lemma ProgressStep(all: set<Service>, initialized: set<ServiceType>, uninitialized: seq<Service>, calls: seq<Service>, k: nat)
    requires Progress(all, initialized, uninitialized, calls) && k < |uninitialized|
    requires uninitialized[k].dependencies <= initialized
    ensures Schedule(calls + [uninitialized[k]], all)
    ensures uninitialized[k].initialises ==>
              Progress(all, initialized + {uninitialized[k].stype}, uninitialized[..k] + uninitialized[k + 1..], calls + [uninitialized[k]])
  {
    var s := uninitialized[k];
    ScheduleExtends(calls, all, s);
    ErasedAt(uninitialized, k);
  }

  lemma ErasedAt(list: seq<Service>, k: nat)
    requires Distinct(list) && k < |list|
    ensures Distinct(list[..k] + list[k + 1..])
    ensures forall s :: s in list[..k] + list[k + 1..] <==> s in list && s != list[k]
  {
    assert list == list[..k] + [list[k]] + list[k + 1..];
  }
}
