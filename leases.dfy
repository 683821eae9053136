/**
 * One address of the server's pool (class IPContainer): the address, its
 * state, the hardware address of the client that reserved it and the lease
 * counter.  `Lease` is the value of a container; the class `IpContainer`
 * holds the same fields and is what the pool updates in place.
 */
module Leases {
  import opened Wrappers
  import opened Utility

  datatype State = Free | Reserved | Allocated

  /** An entry of the pool; `reserver` is None where Java holds null. */
  datatype Lease = Lease(address: seq<int8>, state: State, reserver: Option<seq<int8>>, duration: int32)
  {
    /** `isReserved`. */
    predicate IsReserved() { state == Reserved }

    /** `isAllocated`. */
    predicate IsAllocated() { state == Allocated }

    /** A reserver is recorded exactly when the entry is not free. */
    predicate Consistent() { reserver.Some? <==> state != Free }

    /** The entry is reserved by or allocated to `mac` (what `lookUp` matches). */
    predicate HeldBy(mac: seq<int8>) { reserver == Some(mac) }

    /** `reserve(newReserver, newLeaseDuration)`. */
    function Reserve(mac: seq<int8>, lease: int32): (r: Lease)
      ensures r.IsReserved() && !r.IsAllocated() && r.Consistent()
      ensures r.HeldBy(mac) && r.duration == lease && r.address == address
    {
      Lease(address, Reserved, Some(mac), lease)
    }

    /** `allocate`: only the state changes, from whatever state the entry is in. */
    function Allocate(): (r: Lease)
      ensures r.IsAllocated() && !r.IsReserved()
      ensures r.address == address && r.reserver == reserver && r.duration == duration
      ensures reserver.Some? ==> r.Consistent()
    {
      this.(state := Allocated)
    }

    /** `release`: back to a fresh, free entry, from any state. */
    function Release(): (r: Lease)
      ensures !r.IsReserved() && !r.IsAllocated() && r.Consistent()
      ensures r == Fresh(address)
    {
      Lease(address, Free, None, -1)
    }

    /** `update`: `leaseDuration -= 1` in Java `int` arithmetic; nothing else changes. */
    function Tick(): (r: Lease)
      ensures r == this.(duration := r.duration)
      ensures duration > -0x8000_0000 ==> r.duration == duration - 1
      ensures r.Consistent() <==> Consistent()
    {
      this.(duration := WrapInt(duration - 1))
    }
  }

  /** `new IPContainer(address)`: free, no reserver, lease -1. */
  function Fresh(address: seq<int8>): (r: Lease)
    ensures r.address == address && r.Consistent() && !r.IsReserved() && !r.IsAllocated()
    ensures forall mac :: !r.HeldBy(mac)
  {
    Lease(address, Free, None, -1)
  }

  /**
   * `isReserved` and `isAllocated` are never both true, and both are false
   * exactly when the entry is free.
   */
  lemma StateQueries(l: Lease)
    ensures !(l.IsReserved() && l.IsAllocated())
    ensures !l.IsReserved() && !l.IsAllocated() <==> l.state == Free
  {
  }

  class IpContainer {
    const address: seq<int8>
    var state: State
    var reserver: Option<seq<int8>>
    var leaseDuration: int32

    function View(): Lease
      reads this
    {
      Lease(address, state, reserver, leaseDuration)
    }

    /** `new IPContainer(newIPAddress)`. */
    constructor (newAddress: seq<int8>)
      ensures View() == Fresh(newAddress)
      ensures View().Consistent() && !View().IsReserved() && !View().IsAllocated()
    {
      address := newAddress;
      reserver := None;
      leaseDuration := -1;
      state := Free;
    }

    /** `reserve`. */
    method Reserve(newReserver: seq<int8>, newLeaseDuration: int32)
      modifies this
      ensures View() == old(View()).Reserve(newReserver, newLeaseDuration)
    {
      reserver := Some(newReserver);
      leaseDuration := newLeaseDuration;
      state := Reserved;
    }

    /** `allocate`. */
    method Allocate()
      modifies this
      ensures View() == old(View()).Allocate()
    {
      state := Allocated;
    }

    /** `release`. */
    method Release()
      modifies this
      ensures View() == old(View()).Release()
    {
      reserver := None;
      leaseDuration := -1;
      state := Free;
    }

    /** `isReserved`. */
    predicate IsReserved()
      reads this
    {
      state == Reserved
    }

    /** `isAllocated`. */
    predicate IsAllocated()
      reads this
    {
      state == Allocated
    }

    /** `update`: the lease counter goes down by one. */
    method Update()
      modifies this
      ensures View() == old(View()).Tick()
    {
      leaseDuration := WrapInt(leaseDuration - 1);
    }
  }
}
