/** Clients of the ServiceLocator: what a caller can conclude from its contracts alone. */
module Scenarios {
  import opened Services
  import opened Registry
  import opened Locator

  /** Registering the same reference a second time fails and leaves the registry as it was. */
  method RegisterTwice(locator: ServiceLocator, s: Service, first: int32, second: int32)
    returns (r1: Outcome, r2: Outcome)
    requires locator.Valid() && !Holds(locator.services, s) && IService in s.types
    modifies locator
    ensures locator.Valid()
    ensures r1 == Pass && r2 == Fail(AlreadyRegistered(s))
    ensures locator.services == old(locator.services) + [Entry(first, s)]
  {
    r1 := locator.RegisterService(s, first);
    assert locator.services[|locator.services| - 1].service == s;
    r2 := locator.RegisterService(s, second);
  }

  /** After `DestroyServices` the registry holds nothing: a lookup finds nothing and
      registering a previously held service succeeds again. */
  method DestroyThenRegisterAgain(locator: ServiceLocator, s: Service, priority: int32, t: TypeTag)
    returns (found: Service?, r: Outcome)
    requires locator.Valid() && IService in s.types
    modifies locator
    ensures locator.Valid()
    ensures found == null
    ensures r == Pass && locator.services == [Entry(priority, s)]
  {
    locator.DestroyServices();
    found := locator.GetService(t);
    r := locator.RegisterService(s, priority);
  }

  /** Registering a service and then unregistering it restores the list. */
  method RegisterThenUnregister(locator: ServiceLocator, s: Service, priority: int32) returns (r: Outcome)
    requires locator.Valid() && IService in s.types
    modifies locator
    ensures locator.Valid()
    ensures r.Pass? ==> locator.services == old(locator.services)
    ensures r.Fail? ==> !Holds(locator.services, s)
  {
    r := locator.RegisterService(s, priority);
    if r.Pass? {
      RemoveFirstUndoesAppend(old(locator.services), priority, s);
    }
    locator.UnregisterService(s);
  }

  /** A sorted permutation of three records, one of which has the strictly lowest priority,
      starts with that record. */
  lemma LowestFirst(s: seq<Entry>, a: Entry, b: Entry, c: Entry)
    requires SortedByPriority(s) && multiset(s) == multiset([a, b, c])
    requires b.priority < a.priority && b.priority < c.priority
    ensures s == [b, a, c] || s == [b, c, a]
  {
    LowestAtFront(s, a, b, c);
    assert s == [b] + s[1..];
    PairInSomeOrder(s[1..], a, c);
  }

  lemma LowestAtFront(s: seq<Entry>, a: Entry, b: Entry, c: Entry)
    requires SortedByPriority(s) && multiset(s) == multiset([a, b, c])
    requires b.priority < a.priority && b.priority < c.priority
    ensures |s| == 3 && s[0] == b && multiset(s[1..]) == multiset{a, c}
  {
    assert multiset([a, b, c]) == multiset{a, b, c};
    assert |s| == 3 by {
      assert |multiset(s)| == |s|;
    }
    assert s == [s[0]] + s[1..];
    assert multiset(s) == multiset{s[0]} + multiset(s[1..]);
    assert s[0] == b by {
      assert s[0] in multiset(s) && b in multiset(s);
      assert b in s;
      assert forall k :: 0 <= k < |s| ==> s[0].priority <= s[k].priority;
    }
  }

  lemma PairInSomeOrder(t: seq<Entry>, a: Entry, c: Entry)
    requires multiset(t) == multiset{a, c}
    ensures t == [a, c] || t == [c, a]
  {
    assert |t| == 2 by {
      assert |multiset(t)| == |t|;
    }
    assert t == [t[0], t[1]];
    assert multiset{t[0], t[1]} == multiset{a, c};
    assert t[0] in multiset{a, c};
    if t[0] == a {
      assert multiset{t[1]} == multiset{c};
    } else {
      assert multiset{t[1]} == multiset{a};
    }
  }

  /** A pass over three records, written out. */
  lemma FanOutOfThree(x: Entry, y: Entry, z: Entry, hooks: seq<Hook>)
    ensures FanOut([x, y, z], hooks) == CallsOn(x.service, hooks) + CallsOn(y.service, hooks) + CallsOn(z.service, hooks)
  {
    assert [x, y, z] == [x] + [y, z] && [y, z] == [y] + [z] && [z] == [z] + [];
    FanOutCons(x, [y, z], hooks);
    FanOutCons(y, [z], hooks);
    FanOutCons(z, [], hooks);
  }

  /** The records after registering a, b and c in that order. */
  method RegisterThree(locator: ServiceLocator, a: Service, b: Service, c: Service)
    requires locator.Valid() && locator.services == [] && locator.Trace == []
    requires a != b && b != c && a != c
    requires IService in a.types && IService in b.types && IService in c.types
    modifies locator
    ensures locator.Valid() && locator.Trace == []
    ensures locator.services == [Entry(5, a), Entry(1, b), Entry(5, c)]
  {
    var r := locator.RegisterService(a, 5);
    r := locator.RegisterService(b, 1);
    assert locator.services[0].service == a;
    r := locator.RegisterService(c, 5);
    assert locator.services[0].service == a && locator.services[1].service == b;
  }

  /** The calls Init and a tick make on the records of the scenario below, in either of the
      two orders a sort may leave them in. */
  lemma ScenarioCalls(order: seq<Entry>, a: Service, b: Service, c: Service, dt: Float, unscaled: Float)
    requires a.types == {IService, ITickable}
    requires b.types == {IService, ITickable, IInitializable}
    requires c.types == {IService, IInitializable}
    requires order == [Entry(1, b), Entry(5, a), Entry(5, c)] || order == [Entry(1, b), Entry(5, c), Entry(5, a)]
    ensures FanOut(order, [Init]) == [Call(b, Init), Call(c, Init)]
    ensures FanOut(order, [Tick(dt), TickUnscaled(unscaled)]) == [Call(b, Tick(dt)), Call(a, Tick(dt))]
  {
    var ticks := [Tick(dt), TickUnscaled(unscaled)];
    ScenarioHooks(a, b, c, dt, unscaled);
    if order == [Entry(1, b), Entry(5, a), Entry(5, c)] {
      FanOutOfThree(Entry(1, b), Entry(5, a), Entry(5, c), [Init]);
      FanOutOfThree(Entry(1, b), Entry(5, a), Entry(5, c), ticks);
    } else {
      FanOutOfThree(Entry(1, b), Entry(5, c), Entry(5, a), [Init]);
      FanOutOfThree(Entry(1, b), Entry(5, c), Entry(5, a), ticks);
    }
  }

  /** The calls Init and a tick make on each service of the scenario below. */
  lemma ScenarioHooks(a: Service, b: Service, c: Service, dt: Float, unscaled: Float)
    requires a.types == {IService, ITickable}
    requires b.types == {IService, ITickable, IInitializable}
    requires c.types == {IService, IInitializable}
    ensures CallsOn(a, [Init]) == [] && CallsOn(b, [Init]) == [Call(b, Init)]
    ensures CallsOn(c, [Init]) == [Call(c, Init)]
    ensures CallsOn(a, [Tick(dt), TickUnscaled(unscaled)]) == [Call(a, Tick(dt))]
    ensures CallsOn(b, [Tick(dt), TickUnscaled(unscaled)]) == [Call(b, Tick(dt))]
    ensures CallsOn(c, [Tick(dt), TickUnscaled(unscaled)]) == []
  {
    CallsOnSingleHook(a, Init);
    CallsOnSingleHook(b, Init);
    CallsOnSingleHook(c, Init);
    TickBeforeTickUnscaled(a, dt, unscaled);
    TickBeforeTickUnscaled(b, dt, unscaled);
    TickBeforeTickUnscaled(c, dt, unscaled);
  }

  /** Three services: a (priority 5, tickable), b (priority 1, tickable and initializable) and
      c (priority 5, initializable). Init reaches b before c and skips a; a tick then reaches b
      and a, in that order, and not c. */
  method PriorityScenario(dt: Float, unscaled: Float)
    returns (a: Service, b: Service, c: Service, locator: ServiceLocator)
    ensures a.types == {IService, ITickable}
    ensures b.types == {IService, ITickable, IInitializable}
    ensures c.types == {IService, IInitializable}
    ensures locator.services == [Entry(1, b), Entry(5, a), Entry(5, c)]
         || locator.services == [Entry(1, b), Entry(5, c), Entry(5, a)]
    ensures locator.Trace == [Call(b, Init), Call(c, Init), Call(b, Tick(dt)), Call(a, Tick(dt))]
  {
    a := new Service({IService, ITickable});
    b := new Service({IService, ITickable, IInitializable});
    c := new Service({IService, IInitializable});
    locator := new ServiceLocator();
    RegisterThree(locator, a, b, c);
    StartThenTick(locator, a, b, c, dt, unscaled);
  }

  /** Start-up and one tick on the records `RegisterThree` leaves. */
  method StartThenTick(locator: ServiceLocator, a: Service, b: Service, c: Service, dt: Float, unscaled: Float)
    requires locator.Valid() && locator.Trace == []
    requires locator.services == [Entry(5, a), Entry(1, b), Entry(5, c)]
    requires a.types == {IService, ITickable}
    requires b.types == {IService, ITickable, IInitializable}
    requires c.types == {IService, IInitializable}
    modifies locator
    ensures locator.services == [Entry(1, b), Entry(5, a), Entry(5, c)]
         || locator.services == [Entry(1, b), Entry(5, c), Entry(5, a)]
    ensures locator.Trace == [Call(b, Init), Call(c, Init), Call(b, Tick(dt)), Call(a, Tick(dt))]
  {
    locator.InitServices();
    LowestFirst(locator.services, Entry(5, a), Entry(1, b), Entry(5, c));
    ScenarioCalls(locator.services, a, b, c, dt, unscaled);
    assert locator.Trace == [Call(b, Init), Call(c, Init)];
    locator.TickServices(dt, unscaled);
  }

  /** A pause-aware service told of a pause and then of a resume gets exactly those two calls,
      in that order. */
  method PauseScenario() returns (x: Service, locator: ServiceLocator)
    ensures x.types == {IService, IAppPause}
    ensures locator.services == [Entry(0, x)]
    ensures locator.Trace == [Call(x, AppPause(true)), Call(x, AppPause(false))]
  {
    x := new Service({IService, IAppPause});
    locator := new ServiceLocator();
    var r := locator.RegisterService(x, 0);
    FanOutCons(Entry(0, x), [], [AppPause(true)]);
    FanOutCons(Entry(0, x), [], [AppPause(false)]);
    CallsOnSingleHook(x, AppPause(true));
    CallsOnSingleHook(x, AppPause(false));
    locator.OnAppPauseServices(true);
    locator.OnAppPauseServices(false);
  }
}
