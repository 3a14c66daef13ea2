/** The ring in place, over its array of slots.  Each method is one call that runs without interruption,
    proved to have the effect of its own steps of the machine.
 */
module SharedMemPODQueue {
  import opened SpscRing

  class FixedConstructLenSPSC<T(0)> {
    var head: nat
    var tail: nat
    const queueSize: nat
    const storage: array<T>
    ghost var unread: seq<T>
    ghost var sent: seq<T>
    ghost var handled: seq<T>
    ghost var verdicts: seq<bool>

    ghost function State(): Ring<T>
      reads this, storage
    {
      Ring(queueSize, head, tail, storage[..], Ready, Idle, sent, handled, verdicts)
    }

    ghost predicate Valid()
      reads this, storage
    {
      Inv(State()) && unread == Contents(State())
    }

    constructor (requested: nat)
      ensures Valid() && fresh(storage)
      ensures queueSize == requested + 1 && unread == [] && sent == handled == []
    {
      queueSize := requested + 1;
      storage := new T[requested + 1];
      head, tail := 0, 0;
      unread := [];
      sent, handled, verdicts := [], [], [];
    }

    method Enqueue(value: T) returns (ok: bool)
      requires Valid()
      modifies this, storage
      ensures Valid()
      ensures ok == old(|unread| != queueSize - 1)
      ensures unread == if ok then old(unread) + [value] else old(unread)
      ensures State() == EnqueueCall(old(State()), value).(producer := Ready)
      ensures handled == old(handled)
    {
      hide Between;
      EnqueueCallEffect(State(), value);
      var targetTail := Advance(tail, queueSize);
      if targetTail == head {
        return false;
      }
      storage[tail] := value;
      tail := targetTail;
      sent, unread := sent + [value], unread + [value];
      ok := true;
    }

    method UpdatesAvailable() returns (available: bool)
      requires Valid()
      ensures available <==> unread != []
    {
      available := head != tail;
    }

    method ConsumeAvailable(handler: T -> bool) returns (ok: bool)
      requires Valid() && unread != []
      modifies this
      ensures Valid()
      ensures ok == handler(old(unread[0]))
      ensures unread == old(unread)[1..]
      ensures handled == old(handled) + [old(unread[0])]
      ensures State() == ConsumeAvailableCall(old(State()), handler)
    {
      ghost var before := State();
      assert before.head != before.tail && unread[0] == storage[head] by { StoreHeadDrops(before); }
      var currentHead := head;
      ok := handler(storage[currentHead]);
      handled, verdicts := handled + [storage[currentHead]], verdicts + [ok];
      head, unread := Advance(currentHead, queueSize), unread[1..];
      assert State() == ConsumeAvailableCall(before, handler);
      ConsumeAvailableCallEffect(before, handler);
    }

    /** `consumed` is false when the ring was empty; a failing handler still consumes its entry. */
    method Consume(handler: T -> bool) returns (consumed: bool, ok: bool)
      requires Valid()
      modifies this
      ensures Valid()
      ensures consumed == (old(unread) != [])
      ensures consumed ==>
                && ok == handler(old(unread[0]))
                && unread == old(unread)[1..]
                && handled == old(handled) + [old(unread[0])]
      ensures !consumed ==> State() == old(State())
    {
      if head == tail {
        return false, true;
      }
      ok := ConsumeAvailable(handler);
      consumed := true;
    }
  }
}
