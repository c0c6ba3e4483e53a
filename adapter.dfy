/** The runtime weak adapter that woven code creates per event site
    (WeakEventHandlerFodyWeakEventAdapter, and its copy WeakEventAdapter).
    The delegates it is given are opaque: what the model records is which of them
    was called with which arguments, in the ghost `log`. */
module Adapter {
  import opened Lists
  import opened Registry

  /** A call made through one of the adapter's delegates. */
  datatype Call<Source, Target, Args, Handler> =
    | AddCall(source: Source, handler: Handler)           // _addDelegate(source, handler)
    | RemoveCall(source: Source, handler: Handler)        // _removeDelegate(source, handler)
    | TargetCall(target: Target, sender: object?, args: Args)  // _targetDelegate(target, sender, e)

  /** What Release issues for a registry: one remove per entry, in registry order. */
  function ReleaseCalls<Source, Target, Args, Handler>(items: seq<Source>, handler: Handler)
    : (calls: seq<Call<Source, Target, Args, Handler>>)
    ensures |calls| == |items|
    ensures forall i :: 0 <= i < |items| ==> calls[i] == RemoveCall(items[i], handler)
  {
    if items == [] then []
    else [RemoveCall(items[0], handler)] + ReleaseCalls(items[1..], handler)
  }

  lemma ReleaseCallsSnoc<Source, Target, Args, Handler>(items: seq<Source>, x: Source, handler: Handler)
    ensures ReleaseCalls<Source, Target, Args, Handler>(items + [x], handler)
         == ReleaseCalls<Source, Target, Args, Handler>(items, handler) + [RemoveCall(x, handler)]
  {
    var a := ReleaseCalls<Source, Target, Args, Handler>(items + [x], handler);
    var b := ReleaseCalls<Source, Target, Args, Handler>(items, handler) + [RemoveCall(x, handler)];
    assert |a| == |b|;
    forall i | 0 <= i < |a| ensures a[i] == b[i] {
      if i < |items| { assert (items + [x])[i] == items[i]; }
    }
  }

  /** Unsubscribing every registered source, one call after the other: the registry left
      over and the remove calls issued. */
  function UnsubscribeEach<Source(==), Target, Args, Handler>(registry: seq<Source>, sources: seq<Source>, handler: Handler)
    : (seq<Source>, seq<Call<Source, Target, Args, Handler>>)
    decreases sources
  {
    if sources == [] then (registry, [])
    else
      var rest := UnsubscribeEach<Source, Target, Args, Handler>(RemoveFirst(registry, sources[0]), sources[1..], handler);
      (rest.0, [RemoveCall(sources[0], handler)] + rest.1)
  }

  /** Release issues exactly the remove calls that unsubscribing every registered source in
      order would issue; the difference is that Release keeps the registry, while the
      unsubscriptions would leave it empty. */
  lemma {:induction false} ReleaseIsUnsubscribeEach<Source, Target, Args, Handler>(items: seq<Source>, handler: Handler)
    ensures UnsubscribeEach<Source, Target, Args, Handler>(items, items, handler)
         == ([], ReleaseCalls<Source, Target, Args, Handler>(items, handler))
  {
    if items != [] {
      assert RemoveFirst(items, items[0]) == items[1..];
      ReleaseIsUnsubscribeEach<Source, Target, Args, Handler>(items[1..], handler);
    }
  }

  class WeakEventAdapter<Source(==), Target, Args, Handler> {
    /** The subscriber; the adapter reaches it only through a weak reference. */
    const target: Target
    /** Whether the weak reference still resolves; the collector may clear it at any time. */
    var targetAlive: bool
    /** The one handler bound to this adapter's OnEvent, passed to every add and remove. */
    const eventDelegate: Handler
    /** The published registry. */
    var subscriptions: Snapshot<Source>
    /** Calls made through the delegates, oldest first. */
    ghost var log: seq<Call<Source, Target, Args, Handler>>

    /** Every add and remove this adapter ever issued carried its own handler. */
    ghost predicate Valid()
      reads this
    {
      forall i :: 0 <= i < |log| && !log[i].TargetCall? ==> log[i].handler == eventDelegate
    }

    /** `handler` stands for the delegate the source builds by reflection over OnEvent. */
    constructor (targetObject: Target, handler: Handler)
      ensures Valid()
      ensures target == targetObject && targetAlive && eventDelegate == handler
      ensures subscriptions.items == [] && log == []
    {
      target := targetObject;
      targetAlive := true;
      eventDelegate := handler;
      subscriptions := new Snapshot([]);
      log := [];
    }

    /** The environment: the subscriber has been collected. */
    method CollectTarget()
      modifies this`targetAlive
      ensures !targetAlive
    {
      targetAlive := false;
    }

    /** Forwards a raised event to a live subscriber; with the subscriber gone, detaches
        from every registered source instead. */
    method OnEvent(sender: object?, e: Args)
      requires Valid()
      modifies this`log
      ensures Valid()
      ensures old(targetAlive) ==> log == old(log) + [TargetCall(target, sender, e)]
      ensures !old(targetAlive) ==> log == old(log) + ReleaseCalls(subscriptions.items, eventDelegate)
    {
      if !targetAlive {
        Release();
        return;
      }
      log := log + [TargetCall(target, sender, e)];
    }

    /** Appends `source` with a compare-and-swap retry loop, then registers the handler.
        `contention` lists the updates other threads publish between this thread's read
        and its swap; each one makes one swap fail. */
    method Subscribe(source: Source, contention: seq<Update<Source>>)
      requires Valid()
      modifies this`subscriptions, this`log
      ensures Valid() && fresh(subscriptions)
      ensures subscriptions.items == Interfere(old(subscriptions.items), contention) + [source]
      ensures log == old(log) + [AddCall(source, eventDelegate)]
    {
      var oldList := subscriptions;
      var k := 0;
      while true
        invariant 0 <= k <= |contention|
        invariant oldList == subscriptions
        invariant oldList.items == Interfere(old(subscriptions.items), contention[..k])
        invariant log == old(log)
        decreases |contention| - k
      {
        var newList := new Snapshot(oldList.items + [source]);
        if k < |contention| {
          // another thread wins the race and publishes its own list
          subscriptions := new Snapshot(contention[k](subscriptions.items));
          assert contention[..k + 1][..k] == contention[..k];
          k := k + 1;
        }
        if subscriptions == oldList {
          subscriptions := newList;
          break;
        }
        oldList := subscriptions;
      }
      assert contention[..k] == contention;
      log := log + [AddCall(source, eventDelegate)];
    }

    /** Removes the first registry entry equal to `source` with the same retry loop, then
        unregisters the handler from `source`, registered or not. */
    method Unsubscribe(source: Source, contention: seq<Update<Source>>)
      requires Valid()
      modifies this`subscriptions, this`log
      ensures Valid() && fresh(subscriptions)
      ensures subscriptions.items == RemoveFirst(Interfere(old(subscriptions.items), contention), source)
      ensures log == old(log) + [RemoveCall(source, eventDelegate)]
    {
      var oldList := subscriptions;
      var k := 0;
      while true
        invariant 0 <= k <= |contention|
        invariant oldList == subscriptions
        invariant oldList.items == Interfere(old(subscriptions.items), contention[..k])
        invariant log == old(log)
        decreases |contention| - k
      {
        var newList := new Snapshot(RemoveFirst(oldList.items, source));
        if k < |contention| {
          subscriptions := new Snapshot(contention[k](subscriptions.items));
          assert contention[..k + 1][..k] == contention[..k];
          k := k + 1;
        }
        if subscriptions == oldList {
          subscriptions := newList;
          break;
        }
        oldList := subscriptions;
      }
      assert contention[..k] == contention;
      log := log + [RemoveCall(source, eventDelegate)];
    }

    /** Unregisters the handler from every registered source, in registry order; the
        registry itself is kept, so a second Release issues the same calls again. */
    method Release()
      requires Valid()
      modifies this`log
      ensures Valid()
      ensures log == old(log) + ReleaseCalls(subscriptions.items, eventDelegate)
    {
      var snapshot := subscriptions.items;
      var i := 0;
      while i < |snapshot|
        invariant 0 <= i <= |snapshot|
        invariant Valid()
        invariant log == old(log) + ReleaseCalls(snapshot[..i], eventDelegate)
      {
        ReleaseCallsSnoc<Source, Target, Args, Handler>(snapshot[..i], snapshot[i], eventDelegate);
        assert snapshot[..i + 1] == snapshot[..i] + [snapshot[i]];
        log := log + [RemoveCall(snapshot[i], eventDelegate)];
        i := i + 1;
      }
      assert snapshot[..i] == snapshot;
    }
  }
}
