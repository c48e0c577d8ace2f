/** The ServiceLocator: a list of (priority, service) records that it changes in place, and the
    passes that call the services' lifecycle hooks in list order. */
module Locator {
  import opened Services
  import opened Registry
  import opened Ordering

  /** The one failure of the registry: registering a reference it already holds. */
  datatype RegisterError = AlreadyRegistered(service: Service)

  datatype Outcome = Pass | Fail(error: RegisterError)

  class ServiceLocator {
    /** The records, in the order the passes visit them. */
    var services: seq<Entry>

    /** Every hook called so far on a registered service, oldest first. */
    ghost var Trace: seq<Call>

    /** The registry's invariant: no service is registered twice. */
    ghost predicate Valid()
      reads this
    {
      NoDuplicates(services)
    }

    constructor ()
      ensures Valid()
      ensures services == [] && Trace == []
    {
      services := [];
      Trace := [];
    }

    /** Adds `service` with `priority` at the end of the list, unless the list already holds
        that reference, in which case it fails and changes nothing. The parameter is typed
        `IService` in the source, so only objects of that type can be passed. */
    method RegisterService(service: Service, priority: int32) returns (r: Outcome)
      requires Valid() && IService in service.types
      modifies this
      ensures Valid()
      ensures r.Fail? <==> Holds(old(services), service)
      ensures r.Fail? ==> r.error == AlreadyRegistered(service) && services == old(services)
      ensures r.Pass? ==> services == old(services) + [Entry(priority, service)]
      ensures Trace == old(Trace)
    {
      for i := 0 to |services|
        invariant forall k :: 0 <= k < i ==> services[k].service != service
      {
        if services[i].service == service {
          return Fail(AlreadyRegistered(service));
        }
      }
      AppendKeepsNoDuplicates(services, priority, service);
      services := services + [Entry(priority, service)];
      r := Pass;
    }

    /** Removes the first record that holds `service`; does nothing when there is none. */
    method UnregisterService(service: Service)
      requires Valid()
      modifies this
      ensures Valid()
      ensures services == RemoveFirst(old(services), service)
      ensures !Holds(services, service)
      ensures Trace == old(Trace)
    {
      RemoveFirstNoDuplicates(services, service);
      for i := 0 to |services|
        invariant services == old(services)
        invariant forall k :: 0 <= k < i ==> services[k].service != service
      {
        if services[i].service == service {
          assert IndexOf(services, service) == i;
          services := services[..i] + services[i + 1..];
          return;
        }
      }
    }

    /** Removes every record whose service is of type `t`. */
    method UnregisterServicesOfType(t: TypeTag)
      requires Valid()
      modifies this
      ensures Valid()
      ensures services == Select(old(services), t, false)
      ensures Trace == old(Trace)
    {
      RemoveAllOfTypeSpec(services, t);
      services := Select(services, t, false);
    }

    /** The service of the first record, in list order, whose service is of type `t`, or null
        when there is none. */
    method GetService(t: TypeTag) returns (r: Service?)
      ensures r == FirstOfType(services, t)
    {
      for i := 0 to |services|
        invariant FirstOfType(services, t) == FirstOfType(services[i..], t)
      {
        if t in services[i].service.types {
          return services[i].service;
        }
        assert services[i..][1..] == services[i + 1..];
      }
      return null;
    }

    /** Sorts the records by priority, then calls `Init` on every initializable service in the
        new list order. */
    method InitServices()
      requires Valid()
      modifies this
      ensures Valid()
      ensures SortedByPriority(services)
      ensures multiset(services) == multiset(old(services))
      ensures Trace == old(Trace) + FanOut(services, [Init])
    {
      var sorted := SortByPriority(services);
      NoDuplicatesPermutation(services, sorted);
      services := sorted;
      for i := 0 to |sorted|
        invariant services == sorted
        invariant Trace == old(Trace) + FanOut(sorted[..i], [Init])
      {
        var service := sorted[i].service;
        if IInitializable in service.types {
          Trace := Trace + [Call(service, Init)];
        }
        Visit(sorted, i, [Init]);
      }
      assert sorted[..|sorted|] == sorted;
    }

    /** Calls `Destroy` on every destroyable service in list order, then empties the list. */
    method DestroyServices()
      requires Valid()
      modifies this
      ensures Valid()
      ensures services == []
      ensures Trace == old(Trace) + FanOut(old(services), [Destroy])
    {
      var entries := services;
      for i := 0 to |entries|
        invariant services == entries
        invariant Trace == old(Trace) + FanOut(entries[..i], [Destroy])
      {
        var service := entries[i].service;
        if IDestroyable in service.types {
          Trace := Trace + [Call(service, Destroy)];
        }
        Visit(entries, i, [Destroy]);
      }
      assert entries[..|entries|] == entries;
      services := [];
    }

    /** Tells every pause-aware service, in list order, whether the application is pausing. */
    method OnAppPauseServices(pause: bool)
      modifies this
      ensures services == old(services)
      ensures Trace == old(Trace) + FanOut(services, [AppPause(pause)])
    {
      var entries := services;
      for i := 0 to |entries|
        invariant services == entries
        invariant Trace == old(Trace) + FanOut(entries[..i], [AppPause(pause)])
      {
        var service := entries[i].service;
        if IAppPause in service.types {
          Trace := Trace + [Call(service, AppPause(pause))];
        }
        Visit(entries, i, [AppPause(pause)]);
      }
      assert entries[..|entries|] == entries;
    }

    /** Calls, record by record in list order, `Tick` with `deltaTime` if the service is tickable
        and then `TickUnscaled` with `unscaledDeltaTime` if it is unscaled-tickable. */
    method TickServices(deltaTime: Float, unscaledDeltaTime: Float)
      modifies this
      ensures services == old(services)
      ensures Trace == old(Trace) + FanOut(services, [Tick(deltaTime), TickUnscaled(unscaledDeltaTime)])
    {
      ghost var hooks := [Tick(deltaTime), TickUnscaled(unscaledDeltaTime)];
      var entries := services;
      for i := 0 to |entries|
        invariant services == entries
        invariant Trace == old(Trace) + FanOut(entries[..i], hooks)
      {
        var service := entries[i].service;
        TickBeforeTickUnscaled(service, deltaTime, unscaledDeltaTime);
        Visit(entries, i, hooks);
        if ITickable in service.types {
          Trace := Trace + [Call(service, Tick(deltaTime))];
        }
        if ITickableUnscaled in service.types {
          Trace := Trace + [Call(service, TickUnscaled(unscaledDeltaTime))];
        }
      }
      assert entries[..|entries|] == entries;
    }

    /** Calls `TickFixed` with `fixedDeltaTime` on every fixed-tickable service in list order. */
    method TickFixedServices(fixedDeltaTime: Float)
      modifies this
      ensures services == old(services)
      ensures Trace == old(Trace) + FanOut(services, [TickFixed(fixedDeltaTime)])
    {
      var entries := services;
      for i := 0 to |entries|
        invariant services == entries
        invariant Trace == old(Trace) + FanOut(entries[..i], [TickFixed(fixedDeltaTime)])
      {
        var service := entries[i].service;
        if ITickableFixed in service.types {
          Trace := Trace + [Call(service, TickFixed(fixedDeltaTime))];
        }
        Visit(entries, i, [TickFixed(fixedDeltaTime)]);
      }
      assert entries[..|entries|] == entries;
    }
  }

  /** One step of a pass: visiting record `i` adds the calls on its service to those made on
      the records before it. */
  lemma Visit(entries: seq<Entry>, i: nat, hooks: seq<Hook>)
    requires i < |entries|
    ensures FanOut(entries[..i + 1], hooks) == FanOut(entries[..i], hooks) + CallsOn(entries[i].service, hooks)
  {
    assert entries[..i + 1] == entries[..i] + [entries[i]];
    FanOutAppend(entries[..i], [entries[i]], hooks);
  }
}
