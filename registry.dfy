/** The registry's list of (priority, service) records as a value, and what each operation of
    the ServiceLocator does to it. */
module Registry {
  import opened Services

  /** One record of the list: the priority given at registration and the service. */
  datatype Entry = Entry(priority: int32, service: Service)

  /** Some record of `entries` holds the reference `s`. */
  predicate Holds(entries: seq<Entry>, s: Service) {
    exists i :: 0 <= i < |entries| && entries[i].service == s
  }

  /** No two records hold the same reference: the registry's invariant. */
  predicate NoDuplicates(entries: seq<Entry>) {
    forall i, j :: 0 <= i < j < |entries| ==> entries[i].service != entries[j].service
  }

  /** The records are in non-decreasing order of priority. */
  predicate SortedByPriority(entries: seq<Entry>) {
    forall i, j :: 0 <= i < j < |entries| ==> entries[i].priority <= entries[j].priority
  }

  /** `a` is `b` with some records left out and the others kept in their order. */
  predicate SubsequenceOf<T(==)>(a: seq<T>, b: seq<T>)
    decreases |b|
  {
    if b == [] then a == []
    else (a != [] && a[0] == b[0] && SubsequenceOf(a[1..], b[1..])) || SubsequenceOf(a, b[1..])
  }

  // ---------------------------------------------------------------------------------------
  // Lookup and removal
  // ---------------------------------------------------------------------------------------

  /** The position of the first record holding `s`, or `|entries|` when none does. */
  function IndexOf(entries: seq<Entry>, s: Service): (i: nat)
    ensures i <= |entries|
    ensures i < |entries| ==> entries[i].service == s
    ensures forall k :: 0 <= k < i ==> entries[k].service != s
    ensures i == |entries| <==> !Holds(entries, s)
  {
    if entries == [] then 0
    else if entries[0].service == s then 0
    else 1 + IndexOf(entries[1..], s)
  }

  /** The list after removing the first record that holds `s` (unchanged when none does). */
  function RemoveFirst(entries: seq<Entry>, s: Service): (r: seq<Entry>)
    ensures |r| == if Holds(entries, s) then |entries| - 1 else |entries|
    ensures r[..IndexOf(entries, s)] == entries[..IndexOf(entries, s)]
  {
    var i := IndexOf(entries, s);
    if i == |entries| then entries else entries[..i] + entries[i + 1..]
  }

  /** The records whose service is (`has`) or is not (`!has`) of type `t`, in list order. */
  function Select(entries: seq<Entry>, t: TypeTag, has: bool): (r: seq<Entry>)
    ensures |r| <= |entries|
    ensures forall e :: e in r ==> e in entries && (t in e.service.types) == has
    ensures forall e :: e in entries && (t in e.service.types) == has ==> e in r
  {
    if entries == [] then []
    else
      (if (t in entries[0].service.types) == has then [entries[0]] else [])
      + Select(entries[1..], t, has)
  }

  /** Record `i` is the lowest-index record whose service is of type `t`. */
  predicate FirstMatch(entries: seq<Entry>, t: TypeTag, i: int) {
    0 <= i < |entries| && t in entries[i].service.types
    && forall k :: 0 <= k < i ==> t !in entries[k].service.types
  }

  /** The service of the lowest-index record whose service is of type `t`, or null when no
      record's service is. */
  function FirstOfType(entries: seq<Entry>, t: TypeTag): (r: Service?)
    ensures r == null <==> forall i :: 0 <= i < |entries| ==> t !in entries[i].service.types
    ensures r != null ==> exists i :: FirstMatch(entries, t, i) && entries[i].service == r
  {
    if entries == [] then null
    else if t in entries[0].service.types then entries[0].service
    else
      var r := FirstOfType(entries[1..], t);
      assert r != null ==> exists i :: FirstMatch(entries, t, i) && entries[i].service == r by {
        if r != null {
          var i :| FirstMatch(entries[1..], t, i) && entries[1..][i].service == r;
          assert FirstMatch(entries, t, i + 1);
        }
      }
      r
  }

  // ---------------------------------------------------------------------------------------
  // Fan-out of the lifecycle hooks
  // ---------------------------------------------------------------------------------------

  /** The calls one pass makes on `s`: each hook of the pass whose interface `s` implements,
      in the order the pass tries them. */
  function CallsOn(s: Service, hooks: seq<Hook>): (r: seq<Call>)
    ensures |r| <= |hooks|
  {
    if hooks == [] then []
    else
      (if hooks[0].Interface() in s.types then [Call(s, hooks[0])] else [])
      + CallsOn(s, hooks[1..])
  }

  /** The calls one pass over the list makes: record by record, in list order. */
  function FanOut(entries: seq<Entry>, hooks: seq<Hook>): seq<Call> {
    if entries == [] then []
    else CallsOn(entries[0].service, hooks) + FanOut(entries[1..], hooks)
  }

  /** The calls of `calls` that invoke hook `h`, in order. */
  function Only(calls: seq<Call>, h: Hook): seq<Call> {
    if calls == [] then []
    else (if calls[0].hook == h then [calls[0]] else []) + Only(calls[1..], h)
  }

  /** The calls of `calls` made on service `s`, in order. */
  function CallsTo(calls: seq<Call>, s: Service): seq<Call> {
    if calls == [] then []
    else (if calls[0].service == s then [calls[0]] else []) + CallsTo(calls[1..], s)
  }

  /** Hook `h` called once on the service of each record of `sel`, in the order of `sel`. */
  function Announce(sel: seq<Entry>, h: Hook): seq<Call> {
    seq(|sel|, k requires 0 <= k < |sel| => Call(sel[k].service, h))
  }

  // ---------------------------------------------------------------------------------------
  // Lemmas: subsequences and the invariant
  // ---------------------------------------------------------------------------------------

  lemma {:induction false} SubsequenceReflexive<T>(a: seq<T>)
    ensures SubsequenceOf(a, a)
  {
    if a != [] {
      SubsequenceReflexive(a[1..]);
    }
  }

  /** Leaving one element out of a list gives a subsequence of it. */
  lemma {:induction false} SubsequenceDropOne<T>(a: seq<T>, x: T, b: seq<T>)
    ensures SubsequenceOf(a + b, a + [x] + b)
  {
    if a == [] {
      assert (a + [x] + b)[1..] == b;
      assert a + b == b;
      SubsequenceReflexive(b);
    } else {
      assert (a + b)[1..] == a[1..] + b;
      assert (a + [x] + b)[1..] == a[1..] + [x] + b;
      SubsequenceDropOne(a[1..], x, b);
    }
  }

  lemma {:induction false} SubsequenceMembers<T>(a: seq<T>, b: seq<T>)
    requires SubsequenceOf(a, b)
    ensures forall x :: x in a ==> x in b
  {
    if b != [] {
      if a != [] && a[0] == b[0] && SubsequenceOf(a[1..], b[1..]) {
        SubsequenceMembers(a[1..], b[1..]);
        assert a == [a[0]] + a[1..];
      } else {
        SubsequenceMembers(a, b[1..]);
      }
    }
  }

  /** Leaving records out never creates a duplicate. */
  lemma {:induction false} SubsequenceNoDuplicates(a: seq<Entry>, b: seq<Entry>)
    requires SubsequenceOf(a, b) && NoDuplicates(b)
    ensures NoDuplicates(a)
  {
    if b != [] {
      assert NoDuplicates(b[1..]);
      if a != [] && a[0] == b[0] && SubsequenceOf(a[1..], b[1..]) {
        SubsequenceNoDuplicates(a[1..], b[1..]);
        SubsequenceMembers(a[1..], b[1..]);
        forall i, j | 0 <= i < j < |a| ensures a[i].service != a[j].service {
          if i == 0 {
            assert a[j] in a[1..];
            var m :| 0 <= m < |b[1..]| && b[1..][m] == a[j];
            assert b[m + 1] == a[j];
          } else {
            assert a[i] == a[1..][i - 1] && a[j] == a[1..][j - 1];
          }
        }
      } else {
        SubsequenceNoDuplicates(a, b[1..]);
      }
    }
  }

  lemma {:induction false} AtMostOnce(s: seq<Entry>, e: Entry)
    requires NoDuplicates(s)
    ensures multiset(s)[e] <= 1
  {
    if s != [] {
      assert s == [s[0]] + s[1..];
      assert NoDuplicates(s[1..]);
      AtMostOnce(s[1..], e);
    }
  }

  /** Reordering the records never creates a duplicate. */
  lemma NoDuplicatesPermutation(a: seq<Entry>, b: seq<Entry>)
    requires NoDuplicates(a) && multiset(a) == multiset(b)
    ensures NoDuplicates(b)
  {
    forall i, j | 0 <= i < j < |b| ensures b[i].service != b[j].service {
      var x, y := b[i], b[j];
      if x == y {
        assert b == b[..i] + [x] + b[i + 1..];
        assert y in b[i + 1..] by { assert b[i + 1..][j - i - 1] == y; }
        assert multiset(b)[x] >= 2;
        AtMostOnce(a, x);
      } else {
        assert x in multiset(a) && y in multiset(a);
        var p :| 0 <= p < |a| && a[p] == x;
        var q :| 0 <= q < |a| && a[q] == y;
        assert p != q;
      }
    }
  }

  // ---------------------------------------------------------------------------------------
  // Lemmas: registration and unregistration
  // ---------------------------------------------------------------------------------------

  /** Appending a record for a service the list does not hold keeps the list free of
      duplicates. */
  lemma AppendKeepsNoDuplicates(entries: seq<Entry>, priority: int32, s: Service)
    requires NoDuplicates(entries) && !Holds(entries, s)
    ensures NoDuplicates(entries + [Entry(priority, s)])
  {
    var r := entries + [Entry(priority, s)];
    forall i, j | 0 <= i < j < |r| ensures r[i].service != r[j].service {
      if j == |entries| {
        assert r[i] == entries[i];
      }
    }
  }

  /** Removing by reference a service the list does not hold changes nothing. */
  lemma RemoveFirstAbsent(entries: seq<Entry>, s: Service)
    requires !Holds(entries, s)
    ensures RemoveFirst(entries, s) == entries
  {
  }

  /** Removing by reference a service the list holds drops exactly one record, the first one
      holding it. */
  lemma RemoveFirstPresent(entries: seq<Entry>, s: Service)
    requires Holds(entries, s)
    ensures var i := IndexOf(entries, s);
      entries[i].service == s
      && |RemoveFirst(entries, s)| == |entries| - 1
      && multiset(RemoveFirst(entries, s)) + multiset{entries[i]} == multiset(entries)
  {
    var i := IndexOf(entries, s);
    DropOne(entries, i);
  }

  lemma DropOne<T>(xs: seq<T>, i: nat)
    requires i < |xs|
    ensures |xs[..i] + xs[i + 1..]| == |xs| - 1
    ensures multiset(xs[..i] + xs[i + 1..]) + multiset{xs[i]} == multiset(xs)
  {
    assert xs == xs[..i] + [xs[i]] + xs[i + 1..];
  }

  /** Removing by reference keeps the remaining records in their order. */
  lemma RemoveFirstKeepsOrder(entries: seq<Entry>, s: Service)
    ensures SubsequenceOf(RemoveFirst(entries, s), entries)
  {
    var i := IndexOf(entries, s);
    if i == |entries| {
      SubsequenceReflexive(entries);
    } else {
      var before, after := entries[..i], entries[i + 1..];
      assert RemoveFirst(entries, s) == before + after;
      assert entries == before + [entries[i]] + after;
      SubsequenceDropOne(before, entries[i], after);
    }
  }

  /** On a list without duplicates, removing by reference leaves a list without duplicates that
      no longer holds `s` and still holds every record of another service. */
  lemma RemoveFirstNoDuplicates(entries: seq<Entry>, s: Service)
    requires NoDuplicates(entries)
    ensures NoDuplicates(RemoveFirst(entries, s))
    ensures !Holds(RemoveFirst(entries, s), s)
    ensures forall e :: e in entries && e.service != s ==> e in RemoveFirst(entries, s)
  {
    var r := RemoveFirst(entries, s);
    var i := IndexOf(entries, s);
    if i < |entries| {
      RemoveFirstKeepsOrder(entries, s);
      SubsequenceNoDuplicates(r, entries);
      DropOneShifts(entries, i);
      forall k | 0 <= k < |r| ensures r[k].service != s {
        var j := if k < i then k else k + 1;
        assert r[k] == entries[j] && j != i;
      }
      DropOneKeepsOthers(entries, i);
    }
  }

  /** Dropping element `i` shifts the elements after it down by one. */
  lemma DropOneShifts<T>(xs: seq<T>, i: nat)
    requires i < |xs|
    ensures forall k :: 0 <= k < i ==> (xs[..i] + xs[i + 1..])[k] == xs[k]
    ensures forall k :: i < k < |xs| ==> (xs[..i] + xs[i + 1..])[k - 1] == xs[k]
  {
  }

  /** Dropping element `i` keeps every element that differs from it. */
  lemma DropOneKeepsOthers<T>(xs: seq<T>, i: nat)
    requires i < |xs|
    ensures forall x :: x in xs && x != xs[i] ==> x in xs[..i] + xs[i + 1..]
  {
    DropOneShifts(xs, i);
    forall x | x in xs && x != xs[i] ensures x in xs[..i] + xs[i + 1..] {
      var k :| 0 <= k < |xs| && xs[k] == x;
      if k < i {
        assert (xs[..i] + xs[i + 1..])[k] == x;
      } else {
        assert (xs[..i] + xs[i + 1..])[k - 1] == x;
      }
    }
  }

  /** Unregistering a service right after registering it restores the list. */
  lemma RemoveFirstUndoesAppend(entries: seq<Entry>, priority: int32, s: Service)
    requires !Holds(entries, s)
    ensures RemoveFirst(entries + [Entry(priority, s)], s) == entries
  {
    var r := entries + [Entry(priority, s)];
    assert r[|entries|].service == s;
    assert IndexOf(r, s) == |entries|;
    assert r[..|entries|] == entries && r[|entries| + 1..] == [];
  }

  // ---------------------------------------------------------------------------------------
  // Lemmas: removal by type
  // ---------------------------------------------------------------------------------------

  lemma {:induction false} SelectSubsequence(entries: seq<Entry>, t: TypeTag, has: bool)
    ensures SubsequenceOf(Select(entries, t, has), entries)
  {
    if entries != [] {
      SelectSubsequence(entries[1..], t, has);
      var r := Select(entries, t, has);
      if (t in entries[0].service.types) == has {
        assert r[0] == entries[0] && r[1..] == Select(entries[1..], t, has);
      } else {
        assert r == Select(entries[1..], t, has);
      }
    }
  }

  /** The records of type `t` and the others together are exactly the original records. */
  lemma {:induction false} SelectPartition(entries: seq<Entry>, t: TypeTag)
    ensures multiset(Select(entries, t, true)) + multiset(Select(entries, t, false)) == multiset(entries)
  {
    if entries != [] {
      var e, rest := entries[0], entries[1..];
      SelectPartition(rest, t);
      assert entries == [e] + rest;
      if t in e.service.types {
        assert Select(entries, t, true) == [e] + Select(rest, t, true);
        assert Select(entries, t, false) == Select(rest, t, false);
      } else {
        assert Select(entries, t, true) == Select(rest, t, true);
        assert Select(entries, t, false) == [e] + Select(rest, t, false);
      }
    }
  }

  /** Removing every record of type `t`: the survivors are all and only the records not of
      type `t`, in their old order, and no duplicate appears. */
  lemma RemoveAllOfTypeSpec(entries: seq<Entry>, t: TypeTag)
    ensures forall e :: e in Select(entries, t, false) <==> e in entries && t !in e.service.types
    ensures SubsequenceOf(Select(entries, t, false), entries)
    ensures NoDuplicates(entries) ==> NoDuplicates(Select(entries, t, false))
    ensures FirstOfType(Select(entries, t, false), t) == null
  {
    SelectSubsequence(entries, t, false);
    if NoDuplicates(entries) {
      SubsequenceNoDuplicates(Select(entries, t, false), entries);
    }
    var r := Select(entries, t, false);
    assert forall i :: 0 <= i < |r| ==> r[i] in r;
  }

  /** A subsequence of a sorted list is sorted. */
  lemma {:induction false} SubsequenceSorted(a: seq<Entry>, b: seq<Entry>)
    requires SubsequenceOf(a, b) && SortedByPriority(b)
    ensures SortedByPriority(a)
  {
    if b != [] {
      assert SortedByPriority(b[1..]);
      if a != [] && a[0] == b[0] && SubsequenceOf(a[1..], b[1..]) {
        SubsequenceSorted(a[1..], b[1..]);
        SubsequenceMembers(a[1..], b[1..]);
        forall i, j | 0 <= i < j < |a| ensures a[i].priority <= a[j].priority {
          if i == 0 {
            assert a[j] in a[1..];
            var m :| 0 <= m < |b[1..]| && b[1..][m] == a[j];
            assert b[m + 1] == a[j];
          } else {
            assert a[i] == a[1..][i - 1] && a[j] == a[1..][j - 1];
          }
        }
      } else {
        SubsequenceSorted(a, b[1..]);
      }
    }
  }

  // ---------------------------------------------------------------------------------------
  // Lemmas: fan-out
  // ---------------------------------------------------------------------------------------

  /** A pass calls on `s` only hooks of the pass whose interface `s` implements. */
  lemma {:induction false} CallsOnOnlyCapable(s: Service, hooks: seq<Hook>)
    ensures forall c :: c in CallsOn(s, hooks) ==>
      c.service == s && c.hook in hooks && c.hook.Interface() in s.types
  {
    if hooks != [] {
      CallsOnOnlyCapable(s, hooks[1..]);
    }
  }

  /** A pass calls only hooks of the pass, only on services the list holds, and only on
      services that implement the hook's interface. */
  lemma {:induction false} FanOutOnlyCapable(entries: seq<Entry>, hooks: seq<Hook>)
    ensures forall c :: c in FanOut(entries, hooks) ==>
      Holds(entries, c.service) && c.hook in hooks && c.hook.Interface() in c.service.types
  {
    if entries != [] {
      FanOutOnlyCapable(entries[1..], hooks);
      CallsOnOnlyCapable(entries[0].service, hooks);
      forall c | c in FanOut(entries[1..], hooks) ensures Holds(entries, c.service) {
        var i :| 0 <= i < |entries[1..]| && entries[1..][i].service == c.service;
        assert entries[i + 1].service == c.service;
      }
    }
  }

  /** A pass over a list starting with record `e`: first the calls on `e`'s service. */
  lemma FanOutCons(e: Entry, rest: seq<Entry>, hooks: seq<Hook>)
    ensures FanOut([e] + rest, hooks) == CallsOn(e.service, hooks) + FanOut(rest, hooks)
  {
    assert ([e] + rest)[1..] == rest;
  }

  /** A pass of the single hook `h` calls it on `s` exactly when `s` implements its interface. */
  lemma CallsOnSingleHook(s: Service, h: Hook)
    ensures CallsOn(s, [h]) == if h.Interface() in s.types then [Call(s, h)] else []
  {
    assert [h][1..] == [];
  }

  /** A pass over two lists one after the other is the pass over the first followed by the pass
      over the second. */
  lemma {:induction false} FanOutAppend(a: seq<Entry>, b: seq<Entry>, hooks: seq<Hook>)
    ensures FanOut(a + b, hooks) == FanOut(a, hooks) + FanOut(b, hooks)
  {
    if a != [] {
      assert (a + b)[1..] == a[1..] + b;
      FanOutAppend(a[1..], b, hooks);
    } else {
      assert a + b == b;
    }
  }

  lemma {:induction false} OnlyAppend(a: seq<Call>, b: seq<Call>, h: Hook)
    ensures Only(a + b, h) == Only(a, h) + Only(b, h)
  {
    if a != [] {
      assert (a + b)[1..] == a[1..] + b;
      OnlyAppend(a[1..], b, h);
    } else {
      assert a + b == b;
    }
  }

  lemma {:induction false} CallsToAppend(a: seq<Call>, b: seq<Call>, s: Service)
    ensures CallsTo(a + b, s) == CallsTo(a, s) + CallsTo(b, s)
  {
    if a != [] {
      assert (a + b)[1..] == a[1..] + b;
      CallsToAppend(a[1..], b, s);
    } else {
      assert a + b == b;
    }
  }

  /** Within one pass, hook `h` reaches a service at most once: once if the pass has `h` and the
      service implements its interface, never otherwise. */
  lemma {:induction false} OnlyCallsOn(s: Service, hooks: seq<Hook>, h: Hook)
    requires multiset(hooks)[h] <= 1
    ensures Only(CallsOn(s, hooks), h) ==
      if h in hooks && h.Interface() in s.types then [Call(s, h)] else []
  {
    if hooks != [] {
      assert hooks == [hooks[0]] + hooks[1..];
      var first := if hooks[0].Interface() in s.types then [Call(s, hooks[0])] else [];
      OnlyCallsOn(s, hooks[1..], h);
      OnlyAppend(first, CallsOn(s, hooks[1..]), h);
      if hooks[0] == h {
        assert h !in hooks[1..];
      }
      if first != [] {
        assert first[1..] == [];
      }
    }
  }

  /** One pass calls hook `h` exactly once on the service of each record whose service
      implements `h`'s interface, in list order, with the pass's argument, and on nothing
      else. */
  lemma {:induction false} FanOutCallsEachCapableOnce(entries: seq<Entry>, hooks: seq<Hook>, h: Hook)
    requires h in hooks && multiset(hooks)[h] == 1
    ensures Only(FanOut(entries, hooks), h) == Announce(Select(entries, h.Interface(), true), h)
  {
    if entries != [] {
      var s := entries[0].service;
      FanOutCallsEachCapableOnce(entries[1..], hooks, h);
      OnlyAppend(CallsOn(s, hooks), FanOut(entries[1..], hooks), h);
      OnlyCallsOn(s, hooks, h);
      var rest := Select(entries[1..], h.Interface(), true);
      if h.Interface() in s.types {
        assert Select(entries, h.Interface(), true) == [entries[0]] + rest;
        AnnounceCons(entries[0], rest, h);
      } else {
        assert Select(entries, h.Interface(), true) == rest;
      }
    }
  }

  lemma AnnounceCons(e: Entry, sel: seq<Entry>, h: Hook)
    ensures Announce([e] + sel, h) == [Call(e.service, h)] + Announce(sel, h)
  {
    var a, b := Announce([e] + sel, h), [Call(e.service, h)] + Announce(sel, h);
    assert |a| == |b|;
    forall k | 0 <= k < |a| ensures a[k] == b[k] {
      if k > 0 {
        assert ([e] + sel)[k] == sel[k - 1];
      }
    }
  }

  /** On a list without duplicates, the calls one pass makes on a held service are exactly the
      hooks of the pass that the service implements, in the pass's order; a service the list
      does not hold gets no call. */
  lemma {:induction false} FanOutCallsPerService(entries: seq<Entry>, hooks: seq<Hook>, s: Service)
    requires NoDuplicates(entries)
    ensures CallsTo(FanOut(entries, hooks), s) == if Holds(entries, s) then CallsOn(s, hooks) else []
  {
    if entries != [] {
      var first := entries[0].service;
      assert NoDuplicates(entries[1..]);
      FanOutCallsPerService(entries[1..], hooks, s);
      CallsToAppend(CallsOn(first, hooks), FanOut(entries[1..], hooks), s);
      CallsToCallsOn(first, hooks, s);
      if first != s && Holds(entries, s) {
        var k :| 0 <= k < |entries| && entries[k].service == s;
        assert entries[1..][k - 1].service == s;
      }
    }
  }

  lemma {:induction false} CallsToCallsOn(s: Service, hooks: seq<Hook>, target: Service)
    ensures CallsTo(CallsOn(s, hooks), target) == if s == target then CallsOn(s, hooks) else []
  {
    if hooks != [] {
      var first := if hooks[0].Interface() in s.types then [Call(s, hooks[0])] else [];
      CallsToCallsOn(s, hooks[1..], target);
      CallsToAppend(first, CallsOn(s, hooks[1..]), target);
      if first != [] {
        assert first[1..] == [];
      }
    }
  }

  /** In a tick pass a service gets `Tick` first, if it is tickable, and then `TickUnscaled`, if
      it is unscaled-tickable. */
  lemma TickBeforeTickUnscaled(s: Service, deltaTime: Float, unscaledDeltaTime: Float)
    ensures CallsOn(s, [Tick(deltaTime), TickUnscaled(unscaledDeltaTime)]) ==
      (if ITickable in s.types then [Call(s, Tick(deltaTime))] else [])
      + (if ITickableUnscaled in s.types then [Call(s, TickUnscaled(unscaledDeltaTime))] else [])
  {
    var hooks, tail := [Tick(deltaTime), TickUnscaled(unscaledDeltaTime)], [TickUnscaled(unscaledDeltaTime)];
    assert hooks[1..] == tail && tail[1..] == [];
    assert CallsOn(s, tail) ==
      (if ITickableUnscaled in s.types then [Call(s, TickUnscaled(unscaledDeltaTime))] else []) + [];
  }

  /** On a sorted list, the Init pass reaches the initializable services in non-decreasing order
      of priority. */
  lemma InitPassInPriorityOrder(entries: seq<Entry>)
    requires SortedByPriority(entries)
    ensures SortedByPriority(Select(entries, IInitializable, true))
    ensures FanOut(entries, [Init]) == Announce(Select(entries, IInitializable, true), Init)
  {
    SelectSubsequence(entries, IInitializable, true);
    SubsequenceSorted(Select(entries, IInitializable, true), entries);
    FanOutCallsEachCapableOnce(entries, [Init], Init);
    FanOutOnlyCapable(entries, [Init]);
    OnlyOfSingleHookPass(FanOut(entries, [Init]), Init);
  }

  /** In a pass of the single hook `h`, every call is a call of `h`. */
  lemma {:induction false} OnlyOfSingleHookPass(calls: seq<Call>, h: Hook)
    requires forall c :: c in calls ==> c.hook == h
    ensures Only(calls, h) == calls
  {
    if calls != [] {
      OnlyOfSingleHookPass(calls[1..], h);
      assert calls == [calls[0]] + calls[1..];
    }
  }
}
