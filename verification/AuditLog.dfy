/** The in-memory part of the audit log. */
module AuditLog {
  import opened RingBuffer

  const BUFFER_SIZE: nat := 500

  class AuditLogger<E> {
    var buffer: map<nat, E>
    var bufferIndex: nat

    function State(): Ring<E>
      reads this
    {
      Ring(buffer, bufferIndex)
    }

    constructor ()
      ensures State() == Empty()
    {
      buffer, bufferIndex := map[], 0;
    }

    method Log(event: E)
      modifies this
      ensures State() == Push(old(State()), event, BUFFER_SIZE)
    {
      var idx := bufferIndex % 500;
      bufferIndex := (bufferIndex + 1) % 0x1_0000_0000_0000_0000;
      buffer := buffer[idx := event];
    }

    /** Values of distinct slots, in an order that only the map decides: recency is not promised. */
    method RecentEvents(count: nat) returns (events: seq<E>, ghost ks: seq<nat>)
      ensures |events| == if count < |buffer| then count else |buffer|
      ensures forall e :: e in events ==> exists k :: k in buffer && buffer[k] == e
      ensures Picks(buffer, ks, events)
    {
      var collected, order := Collect(buffer);
      var n := |collected|;
      events := seq(n, i requires 0 <= i < n => collected[n - 1 - i]);
      ks := seq(n, i requires 0 <= i < n => order[n - 1 - i]);
      if count < |events| {
        events, ks := events[..count], ks[..count];
      }
    }
  }

  /** After fewer than 2^64 events, the events returned are distinct ones among the last 500. */
  lemma RecentEventsAreAmongTheLast<E>(logged: seq<E>, ks: seq<nat>, events: seq<E>, i: nat, k: nat)
    returns (j: nat, m: nat)
    requires |logged| < U64 && Picks(PushAll(logged, BUFFER_SIZE).slots, ks, events)
    requires i < k < |events|
    ensures Kept(j, |logged|, BUFFER_SIZE) && events[i] == logged[j]
    ensures Kept(m, |logged|, BUFFER_SIZE) && events[k] == logged[m]
    ensures j != m && |PushAll(logged, BUFFER_SIZE).slots| == Least(|logged|, BUFFER_SIZE)
  {
    RingHoldsLast(logged, BUFFER_SIZE);
    SlotCount(PushAll(logged, BUFFER_SIZE).slots, Least(|logged|, BUFFER_SIZE));
    j := SlotsHoldLast(logged, BUFFER_SIZE, ks[i]);
    m := SlotsHoldLast(logged, BUFFER_SIZE, ks[k]);
  }
}
