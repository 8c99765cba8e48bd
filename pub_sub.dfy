/** A synchronous publish/subscribe channel (src/shared/PubSub.ts).

    Callbacks are identified by reference, so the model names them by an id;
    whether a callback throws when it is called is an input of `Publish`.
    Callbacks are assumed not to subscribe or unsubscribe while they run. */
module PubSub {

  /** A subscriber callback, identified by its reference. */
  type Callback = nat

  /** One call made by `publish`: the callback, the value it was given, and
      whether it threw (the exception is swallowed). */
  datatype Call<T> = Call(callback: Callback, value: T, threw: bool)

  /** The `{ unsubscribe }` object `subscribe` returns: it is bound to the bus
      and the callback it was made for. */
  datatype Subscription<T> = Subscription(bus: PubSubImpl<T>, callback: Callback)

  predicate NoDuplicates(s: seq<Callback>)
  {
    forall i, j :: 0 <= i < j < |s| ==> s[i] != s[j]
  }

  /** `s` with `x` deleted, the order of the rest kept. */
  function Without(s: seq<Callback>, x: Callback): (r: seq<Callback>)
    ensures forall y :: y in r <==> y in s && y != x
    ensures |r| <= |s|
  {
    if s == [] then []
    else if s[0] == x then Without(s[1..], x)
    else [s[0]] + Without(s[1..], x)
  }

  /** Deleting keeps a duplicate-free list duplicate-free. */
  lemma {:induction false} WithoutNoDuplicates(s: seq<Callback>, x: Callback)
    requires NoDuplicates(s)
    ensures NoDuplicates(Without(s, x))
  {
    if s != [] {
      var tail := s[1..];
      assert NoDuplicates(tail) by {
        forall i, j | 0 <= i < j < |tail| ensures tail[i] != tail[j] {
          assert tail[i] == s[i + 1] && tail[j] == s[j + 1];
        }
      }
      WithoutNoDuplicates(tail, x);
      if s[0] != x {
        var r := Without(tail, x);
        assert s[0] !in tail by {
          forall k | 0 <= k < |tail| ensures tail[k] != s[0] {
            assert tail[k] == s[k + 1];
          }
        }
        var t := [s[0]] + r;
        forall i, j | 0 <= i < j < |t| ensures t[i] != t[j] {
          if i == 0 {
            assert t[j] == r[j - 1] && t[j] in r;
          } else {
            assert t[i] == r[i - 1] && t[j] == r[j - 1];
          }
        }
      }
    }
  }

  /** Deleting a callback that is not there changes nothing. */
  lemma {:induction false} WithoutAbsent(s: seq<Callback>, x: Callback)
    requires x !in s
    ensures Without(s, x) == s
  {
    if s != [] {
      WithoutAbsent(s[1..], x);
    }
  }

  /** Unsubscribing twice has the effect of unsubscribing once. */
  lemma WithoutIdempotent(s: seq<Callback>, x: Callback)
    ensures Without(Without(s, x), x) == Without(s, x)
  {
    WithoutAbsent(Without(s, x), x);
  }

  /** Deleting `x` leaves every other callback in its relative order. */
  lemma {:induction false} WithoutKeepsOthersInOrder(s: seq<Callback>, x: Callback, y: Callback)
    requires y != x
    ensures Without(s + [y], x) == Without(s, x) + [y]
  {
    if s != [] {
      assert (s + [y])[1..] == s[1..] + [y];
      WithoutKeepsOthersInOrder(s[1..], x, y);
    }
  }

  /** Subscribing a new callback and then unsubscribing it restores the
      subscriber list. */
  lemma SubscribeThenUnsubscribe(s: seq<Callback>, x: Callback)
    requires x !in s
    ensures Without(s + [x], x) == s
  {
    WithoutAbsent(s, x);
    WithoutAppended(s, x);
  }

  lemma {:induction false} WithoutAppended(s: seq<Callback>, x: Callback)
    ensures Without(s + [x], x) == Without(s, x)
  {
    if s != [] {
      assert (s + [x])[1..] == s[1..] + [x];
      WithoutAppended(s[1..], x);
    }
  }

  class PubSubImpl<T> {
    /** `subscribers`: a `Set`, iterated in insertion order. */
    var subscribers: seq<Callback>

    ghost predicate Valid()
      reads this
    {
      NoDuplicates(subscribers)
    }

    constructor ()
      ensures Valid() && subscribers == []
    {
      subscribers := [];
    }

    /** `publish(value)`: calls every current subscriber once with `value`, in
        subscription order; a callback that throws is skipped over, so the
        rest are still called and `publish` itself returns normally. Nothing
        is stored, so later subscribers never see `value`. */
    method Publish(value: T, throwing: set<Callback>) returns (calls: seq<Call<T>>)
      ensures |calls| == |subscribers|
      ensures forall i :: 0 <= i < |calls| ==>
        calls[i] == Call(subscribers[i], value, subscribers[i] in throwing)
    {
      calls := [];
      for i := 0 to |subscribers|
        invariant |calls| == i
        invariant forall j :: 0 <= j < i ==>
          calls[j] == Call(subscribers[j], value, subscribers[j] in throwing)
      {
        var subscriber := subscribers[i];
        var threw := subscriber in throwing;
        calls := calls + [Call(subscriber, value, threw)];
      }
    }

    /** `subscribe(callback)`: adds the callback unless it is already there (a
        set keeps its first position), and returns its subscription. */
    method Subscribe(callback: Callback) returns (subscription: Subscription<T>)
      requires Valid()
      modifies this
      ensures Valid()
      ensures subscription == Subscription(this, callback)
      ensures subscribers ==
        if callback in old(subscribers) then old(subscribers) else old(subscribers) + [callback]
    {
      if callback !in subscribers {
        subscribers := subscribers + [callback];
      }
      subscription := Subscription(this, callback);
    }

    /** `this.subscribers.delete(callback)`. */
    method Delete(callback: Callback)
      requires Valid()
      modifies this
      ensures Valid()
      ensures subscribers == Without(old(subscribers), callback)
    {
      WithoutNoDuplicates(subscribers, callback);
      subscribers := Without(subscribers, callback);
    }
  }

  /** `subscription.unsubscribe()`: removes exactly its callback from the bus
      it was made by and leaves the others in order; calling it again has no
      further effect. */
  method Unsubscribe<T>(subscription: Subscription<T>)
    requires subscription.bus.Valid()
    modifies subscription.bus
    ensures subscription.bus.Valid()
    ensures subscription.bus.subscribers == Without(old(subscription.bus.subscribers), subscription.callback)
    ensures subscription.callback !in subscription.bus.subscribers
  {
    subscription.bus.Delete(subscription.callback);
  }
}
