/** The older listener (WeakEventListener): like the adapter, but each registration keeps
    its own remove delegate, and unsubscribing matches on the source's identity and on
    the remove delegate's method. */
module Listener {
  import opened Registry

  /** An add or remove delegate: `methodInfo` is what Delegate.Method yields, `closure`
      whatever else distinguishes two delegates over the same method. */
  datatype Accessor = Accessor(methodInfo: nat, closure: nat)

  /** One registration: the source and the delegate that will detach from it. */
  datatype Subscription = Subscription(source: object, remove: Accessor)

  /** Subscription.Matches: the same source object and a remove delegate over the same method. */
  predicate Matches(s: Subscription, source: object, removeMethod: nat)
  {
    s.source == source && s.remove.methodInfo == removeMethod
  }

  /** The list without its first matching registration. */
  function RemoveFirstMatch(s: seq<Subscription>, source: object, removeMethod: nat): seq<Subscription>
  {
    if s == [] then []
    else if Matches(s[0], source, removeMethod) then s[1..]
    else [s[0]] + RemoveFirstMatch(s[1..], source, removeMethod)
  }

  /** Cutting out the first match at index i: everything else keeps its order. */
  lemma {:induction false} RemoveFirstMatchAt(s: seq<Subscription>, source: object, removeMethod: nat, i: nat)
    requires i < |s| && Matches(s[i], source, removeMethod)
    requires forall j :: 0 <= j < i ==> !Matches(s[j], source, removeMethod)
    ensures RemoveFirstMatch(s, source, removeMethod) == s[..i] + s[i + 1..]
  {
    if i > 0 {
      RemoveFirstMatchAt(s[1..], source, removeMethod, i - 1);
      assert s[..i] == [s[0]] + s[1..][..i - 1];
    }
  }

  /** Without a match nothing is removed. */
  lemma {:induction false} RemoveFirstMatchNone(s: seq<Subscription>, source: object, removeMethod: nat)
    requires forall j :: 0 <= j < |s| ==> !Matches(s[j], source, removeMethod)
    ensures RemoveFirstMatch(s, source, removeMethod) == s
  {
    if s != [] {
      RemoveFirstMatchNone(s[1..], source, removeMethod);
    }
  }

  /** The loop of Unsubscribe over its private copy: remove the first matching record. */
  method RemoveFirstMatching(list: seq<Subscription>, source: object, removeMethod: nat)
    returns (newList: seq<Subscription>)
    ensures newList == RemoveFirstMatch(list, source, removeMethod)
  {
    newList := list;
    var i := 0;
    while i < |newList|
      invariant 0 <= i <= |list|
      invariant newList == list
      invariant forall j :: 0 <= j < i ==> !Matches(list[j], source, removeMethod)
    {
      if Matches(newList[i], source, removeMethod) {
        RemoveFirstMatchAt(list, source, removeMethod, i);
        newList := newList[..i] + newList[i + 1..];
        return;
      }
      i := i + 1;
    }
    RemoveFirstMatchNone(list, source, removeMethod);
  }

  /** Unsubscribing (source, removeMethod) keeps every registration it does not match, as
      often as it occurred: in particular every registration of the same source through a
      remove delegate over another method. */
  lemma {:induction false} KeepsOtherRemoveMethod(s: seq<Subscription>, source: object, removeMethod: nat, x: Subscription)
    requires !Matches(x, source, removeMethod)
    ensures multiset(RemoveFirstMatch(s, source, removeMethod))[x] == multiset(s)[x]
  {
    if s != [] {
      KeepsOtherRemoveMethod(s[1..], source, removeMethod, x);
      assert s == [s[0]] + s[1..];
      if !Matches(s[0], source, removeMethod) {
        assert RemoveFirstMatch(s, source, removeMethod) == [s[0]] + RemoveFirstMatch(s[1..], source, removeMethod);
      }
    }
  }

  /** A call made through a delegate. */
  datatype Call<Args, Handler> =
    | AddCall(add: Accessor, source: object, handler: Handler)
    | RemoveCall(remove: Accessor, source: object, handler: Handler)
    | TargetCall(target: object, sender: object?, args: Args)

  /** What Release issues: each record's own remove delegate, with that record's source. */
  function ReleaseCalls<Args, Handler>(s: seq<Subscription>, handler: Handler): (calls: seq<Call<Args, Handler>>)
    ensures |calls| == |s|
    ensures forall i :: 0 <= i < |s| ==> calls[i] == RemoveCall(s[i].remove, s[i].source, handler)
  {
    if s == [] then []
    else [RemoveCall(s[0].remove, s[0].source, handler)] + ReleaseCalls(s[1..], handler)
  }

  lemma ReleaseCallsSnoc<Args, Handler>(s: seq<Subscription>, x: Subscription, handler: Handler)
    ensures ReleaseCalls<Args, Handler>(s + [x], handler)
         == ReleaseCalls<Args, Handler>(s, handler) + [RemoveCall(x.remove, x.source, handler)]
  {
    var a := ReleaseCalls<Args, Handler>(s + [x], handler);
    var b := ReleaseCalls<Args, Handler>(s, handler) + [RemoveCall(x.remove, x.source, handler)];
    forall i | 0 <= i < |a| ensures a[i] == b[i] {
      if i < |s| { assert (s + [x])[i] == s[i]; }
    }
  }

  class WeakEventListener<Args, Handler> {
    /** The subscriber, reached only through a weak reference (null for a static handler). */
    const target: object?
    /** Whether the weak reference still yields the subscriber. */
    var targetAlive: bool
    /** The handler bound to OnEvent, registered with every source. */
    const eventDelegate: Handler
    var subscriptions: Snapshot<Subscription>
    ghost var log: seq<Call<Args, Handler>>

    ghost predicate Valid()
      reads this
    {
      && (targetAlive ==> target != null)
      && forall i :: 0 <= i < |log| && !log[i].TargetCall? ==> log[i].handler == eventDelegate
    }

    /** `handler` stands for the delegate the source binds to OnEvent. */
    constructor (targetObject: object?, handler: Handler)
      ensures Valid()
      ensures target == targetObject && targetAlive == (targetObject != null)
      ensures eventDelegate == handler
      ensures subscriptions.items == [] && log == []
    {
      target := targetObject;
      targetAlive := targetObject != null;
      eventDelegate := handler;
      subscriptions := new Snapshot([]);
      log := [];
    }

    /** The environment: the subscriber has been collected. */
    method CollectTarget()
      modifies this`targetAlive
      ensures !targetAlive
    {
      targetAlive := false;
    }

    /** Volatile.Read: a plain read of the published registry. */
    method ReadSubscriptions() returns (list: Snapshot<Subscription>)
      ensures list == subscriptions
    {
      list := subscriptions;
    }

    method OnEvent(sender: object?, e: Args)
      requires Valid()
      modifies this`log
      ensures Valid()
      ensures old(targetAlive) ==> log == old(log) + [TargetCall(target, sender, e)]
      ensures !old(targetAlive) ==> log == old(log) + ReleaseCalls(subscriptions.items, eventDelegate)
    {
      if !targetAlive {
        Release();
        return;
      }
      log := log + [TargetCall(target, sender, e)];
    }

    /** Appends a record of (source, remove), then calls `add`. */
    method Subscribe(source: object, add: Accessor, remove: Accessor, contention: seq<Update<Subscription>>)
      requires Valid()
      modifies this`subscriptions, this`log
      ensures Valid() && fresh(subscriptions)
      ensures subscriptions.items
           == Interfere(old(subscriptions.items), contention) + [Subscription(source, remove)]
      ensures log == old(log) + [AddCall(add, source, eventDelegate)]
    {
      var subscription := Subscription(source, remove);
      var oldList := ReadSubscriptions();
      var k := 0;
      while true
        invariant 0 <= k <= |contention|
        invariant oldList == subscriptions
        invariant oldList.items == Interfere(old(subscriptions.items), contention[..k])
        invariant log == old(log)
        decreases |contention| - k
      {
        var newList := new Snapshot(oldList.items + [subscription]);
        if k < |contention| {
          subscriptions := new Snapshot(contention[k](subscriptions.items));
          assert contention[..k + 1][..k] == contention[..k];
          k := k + 1;
        }
        if subscriptions == oldList {
          subscriptions := newList;
          break;
        }
        oldList := ReadSubscriptions();
      }
      assert contention[..k] == contention;
      log := log + [AddCall(add, source, eventDelegate)];
    }

    /** Removes the first record matching (source, remove's method), then calls `remove`
        whether or not a record matched. */
    method Unsubscribe(source: object, remove: Accessor, contention: seq<Update<Subscription>>)
      requires Valid()
      modifies this`subscriptions, this`log
      ensures Valid() && fresh(subscriptions)
      ensures subscriptions.items
           == RemoveFirstMatch(Interfere(old(subscriptions.items), contention), source, remove.methodInfo)
      ensures log == old(log) + [RemoveCall(remove, source, eventDelegate)]
    {
      var oldList := ReadSubscriptions();
      var k := 0;
      while true
        invariant 0 <= k <= |contention|
        invariant oldList == subscriptions
        invariant oldList.items == Interfere(old(subscriptions.items), contention[..k])
        invariant log == old(log)
        decreases |contention| - k
      {
        var items := RemoveFirstMatching(oldList.items, source, remove.methodInfo);
        var newList := new Snapshot(items);
        if k < |contention| {
          subscriptions := new Snapshot(contention[k](subscriptions.items));
          assert contention[..k + 1][..k] == contention[..k];
          k := k + 1;
        }
        if subscriptions == oldList {
          subscriptions := newList;
          break;
        }
        oldList := ReadSubscriptions();
      }
      assert contention[..k] == contention;
      log := log + [RemoveCall(remove, source, eventDelegate)];
    }

    /** Calls every record's own remove delegate with its source, in order; the registry
        is left as it is. */
    method Release()
      requires Valid()
      modifies this`log
      ensures Valid()
      ensures log == old(log) + ReleaseCalls(subscriptions.items, eventDelegate)
    {
      var snapshot := subscriptions.items;
      var i := 0;
      while i < |snapshot|
        invariant 0 <= i <= |snapshot|
        invariant Valid()
        invariant log == old(log) + ReleaseCalls(snapshot[..i], eventDelegate)
      {
        ReleaseCallsSnoc<Args, Handler>(snapshot[..i], snapshot[i], eventDelegate);
        assert snapshot[..i + 1] == snapshot[..i] + [snapshot[i]];
        log := log + [RemoveCall(snapshot[i].remove, snapshot[i].source, eventDelegate)];
        i := i + 1;
      }
      assert snapshot[..i] == snapshot;
    }
  }
}
