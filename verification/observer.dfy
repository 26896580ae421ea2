/** The `Announcer` of the observer pattern: an ordered registry of
    observers without duplicates, and a notification that calls every
    registered observer once, in registration order. A call to an
    observer's `notifyUpdate` is modelled as a delivery in the returned
    trace. */
module Observer {

  import opened Seqs

  /** One `observer.notifyUpdate(event_type, *args, **kwargs)` call. */
  datatype Delivery<O, A> = Delivery(observer: O, eventType: string, args: A)

  /** The announcer's `_observers` list. */
  datatype Announcer<O> = Announcer(observers: seq<O>)

  function NewAnnouncer<O>(): Announcer<O> {
    Announcer([])
  }

  /** `register`: appends the observer unless it is already registered. The
      observers already there keep their order, and a new one goes last. */
  function Register<O(==)>(a: Announcer<O>, o: O): (r: Announcer<O>)
    ensures o in r.observers
    ensures a.observers <= r.observers
    ensures o in a.observers ==> r.observers == a.observers
    ensures o !in a.observers ==> |r.observers| == |a.observers| + 1 && r.observers[|a.observers|] == o
    ensures Distinct(a.observers) ==> Distinct(r.observers)
  {
    if o in a.observers then a else Announcer(a.observers + [o])
  }

  /** Python's `list.remove`: drops the first occurrence of `o`. */
  function RemoveFirst<O(==)>(s: seq<O>, o: O): (r: seq<O>)
    ensures o !in s ==> r == s
    ensures o in s ==> exists i :: 0 <= i < |s| && s[i] == o && o !in s[..i] && r == s[..i] + s[i + 1..]
  {
    match FirstIndex(s, (x: O) => x == o)
    case None => s
    case Some(i) =>
      assert o !in s[..i];
      s[..i] + s[i + 1..]
  }

  /** `unregister`: removes the observer if it is registered, keeping the
      others in order; otherwise nothing changes. In a registry without
      duplicates the observer is gone afterwards. */
  function Unregister<O(==)>(a: Announcer<O>, o: O): (r: Announcer<O>)
    ensures o !in a.observers ==> r == a
    ensures o in a.observers ==>
      exists i :: 0 <= i < |a.observers| && a.observers[i] == o && r.observers == a.observers[..i] + a.observers[i + 1..]
    ensures Distinct(a.observers) ==> o !in r.observers && Distinct(r.observers)
  {
    RemoveFirstFromDistinct(a.observers, o);
    Announcer(RemoveFirst(a.observers, o))
  }

  /** Removing the first occurrence from a list without duplicates removes
      every occurrence and leaves a list without duplicates. */
  lemma RemoveFirstFromDistinct<O>(s: seq<O>, o: O)
    ensures Distinct(s) ==> o !in RemoveFirst(s, o) && Distinct(RemoveFirst(s, o))
  {
    if Distinct(s) {
      DistinctSubsequence(s, o);
    }
  }

  lemma {:induction false} DistinctMultiplicity<O>(s: seq<O>, o: O)
    requires Distinct(s)
    ensures multiset(s)[o] == if o in s then 1 else 0
  {
    if |s| > 0 {
      var init := s[..|s| - 1];
      DistinctMultiplicity(init, o);
      assert s == init + [s[|s| - 1]];
      assert s[|s| - 1] !in init;
    }
  }

  lemma DistinctSubsequence<O>(s: seq<O>, o: O)
    requires Distinct(s)
    ensures o !in RemoveFirst(s, o) && Distinct(RemoveFirst(s, o))
  {
    if o in s {
      var i :| 0 <= i < |s| && s[i] == o && o !in s[..i] && RemoveFirst(s, o) == s[..i] + s[i + 1..];
      DistinctWithout(s, i);
    }
  }

  /** Dropping position `i` of a list without duplicates leaves a list
      without duplicates that no longer holds `s[i]`. */
  lemma DistinctWithout<O>(s: seq<O>, i: nat)
    requires Distinct(s) && i < |s|
    ensures s[i] !in s[..i] + s[i + 1..] && Distinct(s[..i] + s[i + 1..])
  {
    var r := s[..i] + s[i + 1..];
    forall k | 0 <= k < |r| ensures r[k] == s[Skip(k, i)] {
      if k < i {
        assert r[k] == s[..i][k];
      } else {
        assert r[k] == s[i + 1..][k - i];
      }
    }
    forall a, b | 0 <= a < b < |r| ensures r[a] != r[b] {
      assert Skip(a, i) < Skip(b, i);
    }
    forall k | 0 <= k < |r| ensures r[k] != s[i] {
      assert Skip(k, i) != i;
    }
  }

  /** The position in `s` of position `k` of `s` without position `i`. */
  function Skip(k: nat, i: nat): (j: nat)
    ensures j != i && (k < i <==> j < i)
  {
    if k < i then k else k + 1
  }

  /** `notify`: one delivery per registered observer, in registration order,
      each with the same event type and arguments. */
  function Notify<O, A>(a: Announcer<O>, eventType: string, args: A): (ds: seq<Delivery<O, A>>)
    ensures |ds| == |a.observers|
    ensures forall i :: 0 <= i < |ds| ==> ds[i].observer == a.observers[i]
    ensures forall i :: 0 <= i < |ds| ==> ds[i].eventType == eventType && ds[i].args == args
  {
    seq(|a.observers|, i requires 0 <= i < |a.observers| => Delivery(a.observers[i], eventType, args))
  }

  /** The observers a trace of deliveries reached, in call order. */
  function Recipients<O, A>(ds: seq<Delivery<O, A>>): seq<O> {
    seq(|ds|, i requires 0 <= i < |ds| => ds[i].observer)
  }

  /** How many calls each observer gets from one `notify`: one per
      registration, so exactly one for every registered observer and none
      for any other, as long as the registry has no duplicates. */
  lemma NotifyReachesEachOnce<O, A>(a: Announcer<O>, eventType: string, args: A, o: O)
    requires Distinct(a.observers)
    ensures multiset(Recipients(Notify(a, eventType, args)))[o] == if o in a.observers then 1 else 0
  {
    assert Recipients(Notify(a, eventType, args)) == a.observers;
    DistinctMultiplicity(a.observers, o);
  }

  /** Registering the same observer twice is the same as registering it once. */
  lemma RegisterIdempotent<O>(a: Announcer<O>, o: O)
    ensures Register(Register(a, o), o) == Register(a, o)
  {
  }

  /** An observer registered twice is notified once. */
  lemma RegisterTwiceNotifiedOnce<O, A>(a: Announcer<O>, o: O, eventType: string, args: A)
    requires Distinct(a.observers)
    ensures multiset(Recipients(Notify(Register(Register(a, o), o), eventType, args)))[o] == 1
  {
    NotifyReachesEachOnce(Register(Register(a, o), o), eventType, args, o);
  }

  /** Applying `register` for each observer in turn. */
  function RegisterAll<O(==)>(a: Announcer<O>, os: seq<O>): (r: Announcer<O>)
    ensures Distinct(a.observers) ==> Distinct(r.observers)
    decreases |os|
  {
    if |os| == 0 then a else Register(RegisterAll(a, os[..|os| - 1]), os[|os| - 1])
  }

  /** After `unregister`, an observer gets no further notification, however
      many times it was registered before. */
  lemma UnregisterStopsNotifications<O, A>(os: seq<O>, o: O, eventType: string, args: A)
    ensures o !in Recipients(Notify(Unregister(RegisterAll(NewAnnouncer(), os), o), eventType, args))
  {
    var a := Unregister(RegisterAll(NewAnnouncer(), os), o);
    assert Recipients(Notify(a, eventType, args)) == a.observers;
  }

}
