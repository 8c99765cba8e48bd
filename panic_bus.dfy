/** The fatal-error bus (src/services/PanicBus.ts): a wrapper that owns its
    own pub-sub channel and forwards to it. */
module PanicBus {
  import opened PubSub

  /** A read-only `{ serviceName, message }` record. */
  datatype PanicBusMessage = PanicBusMessage(serviceName: string, message: string)

  class PanicBus {
    /** The bus's own channel, created with the bus and never replaced. */
    const pubSub: PubSubImpl<PanicBusMessage>

    ghost predicate Valid()
      reads this, pubSub
    {
      pubSub.Valid()
    }

    /** Every bus gets a channel of its own, so two buses never share
        subscribers. */
    constructor ()
      ensures Valid()
      ensures fresh(pubSub) && pubSub.subscribers == []
    {
      pubSub := new PubSubImpl();
    }

    /** `subscribe(callback)`: the inner subscription is handed back, so its
        `unsubscribe` removes the callback from this bus's channel. */
    method Subscribe(callback: Callback) returns (subscription: Subscription<PanicBusMessage>)
      requires Valid()
      modifies pubSub
      ensures Valid()
      ensures subscription == Subscription(pubSub, callback)
      ensures pubSub.subscribers ==
        if callback in old(pubSub.subscribers) then old(pubSub.subscribers)
        else old(pubSub.subscribers) + [callback]
    {
      subscription := pubSub.Subscribe(callback);
    }

    /** `publish(message)`: every subscriber of this bus receives the message
        itself, once, in subscription order. */
    method Publish(message: PanicBusMessage, throwing: set<Callback>)
      returns (calls: seq<Call<PanicBusMessage>>)
      ensures |calls| == |pubSub.subscribers|
      ensures forall i :: 0 <= i < |calls| ==>
        calls[i] == Call(pubSub.subscribers[i], message, pubSub.subscribers[i] in throwing)
    {
      calls := pubSub.Publish(message, throwing);
    }
  }
}
