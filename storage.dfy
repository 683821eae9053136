/**
 * The server's address pool (class IPStorage): five containers at consecutive
 * addresses from 128.1.0.1, and the operations that reserve, allocate,
 * release and age them.
 *
 * The functions on `seq<Lease>` say what each operation does to the pool's
 * value; the class `IpStorage` runs the source's for-each loops over its
 * containers and is proved to do exactly that.
 */
module Storage {
  import opened Wrappers
  import opened Utility
  import opened Leases

  /** `IPRange`. */
  const PoolSize: nat := 5

  /** `IP`: `toBytes({128,1,0,1})`; the octet 128 is the signed byte -128. */
  const BaseAddress: seq<int8> := [-128, 1, 0, 1]

  // ---------------------------------------------------------------------------
  // The pool's invariant
  // ---------------------------------------------------------------------------

  /** Every entry records a reserver exactly when it is not free. */
  predicate AllConsistent(pool: seq<Lease>)
  {
    forall i :: 0 <= i < |pool| ==> pool[i].Consistent()
  }

  /** No two entries are held by the same hardware address. */
  predicate Exclusive(pool: seq<Lease>)
  {
    forall i, j :: 0 <= i < |pool| && 0 <= j < |pool| && i != j && pool[i].reserver.Some? ==>
      pool[j].reserver != pool[i].reserver
  }

  predicate Invariant(pool: seq<Lease>)
  {
    AllConsistent(pool) && Exclusive(pool)
  }

  /** Two pools hold the same addresses in the same order. */
  predicate SameAddresses(pool: seq<Lease>, pool': seq<Lease>)
  {
    |pool'| == |pool| && forall i :: 0 <= i < |pool| ==> pool'[i].address == pool[i].address
  }

  // ---------------------------------------------------------------------------
  // The operations as functions of the pool's value
  // ---------------------------------------------------------------------------

  /** The pool after an operation, and what the operation returned. */
  datatype Outcome<T> = Outcome(pool: seq<Lease>, result: T)

  /** The position of the first entry held by `mac`, the entry `lookUp` stops at. */
  function HolderIndex(pool: seq<Lease>, mac: seq<int8>): (r: Option<nat>)
    ensures r.Some? ==> r.value < |pool| && pool[r.value].HeldBy(mac)
    ensures r.Some? ==> forall j :: 0 <= j < r.value ==> !pool[j].HeldBy(mac)
    ensures r.None? ==> forall j :: 0 <= j < |pool| ==> !pool[j].HeldBy(mac)
  {
    if pool == [] then None
    else if pool[0].HeldBy(mac) then Some(0)
    else match HolderIndex(pool[1..], mac)
      case None => None
      case Some(i) => Some(i + 1)
  }

  /** The position of the first free entry, the entry `reserveAddress` takes. */
  function FreeIndex(pool: seq<Lease>): (r: Option<nat>)
    ensures r.Some? ==> r.value < |pool| && pool[r.value].state == Free
    ensures r.Some? ==> forall j :: 0 <= j < r.value ==> pool[j].state != Free
    ensures r.None? ==> forall j :: 0 <= j < |pool| ==> pool[j].state != Free
  {
    if pool == [] then None
    else if pool[0].state == Free then Some(0)
    else match FreeIndex(pool[1..])
      case None => None
      case Some(i) => Some(i + 1)
  }

  /** `lookUp`: the address of the first entry held by `mac`, or null. */
  function PoolLookUp(pool: seq<Lease>, mac: seq<int8>): (r: Option<seq<int8>>)
    ensures r.None? <==> forall j :: 0 <= j < |pool| ==> !pool[j].HeldBy(mac)
    ensures r.Some? ==> exists j :: 0 <= j < |pool| && pool[j].HeldBy(mac) && pool[j].address == r.value
  {
    match HolderIndex(pool, mac)
    case None => None
    case Some(i) => Some(pool[i].address)
  }

  /**
   * `reserveAddress`: the address already associated with `mac`, unchanged;
   * otherwise the first free entry, now reserved; otherwise null.
   */
  function PoolReserve(pool: seq<Lease>, mac: seq<int8>, lease: int32): (r: Outcome<Option<seq<int8>>>)
    ensures SameAddresses(pool, r.pool)
    ensures r.result.Some? ==> PoolLookUp(r.pool, mac) == r.result
    ensures r.result.None? ==> r.pool == pool && forall j :: 0 <= j < |pool| ==> pool[j].state != Free
    ensures forall j :: 0 <= j < |pool| && r.pool[j] != pool[j] ==> r.pool[j] == pool[j].Reserve(mac, lease)
  {
    if PoolLookUp(pool, mac).Some? then Outcome(pool, PoolLookUp(pool, mac))
    else match FreeIndex(pool)
      case None => Outcome(pool, None)
      case Some(i) => Outcome(pool[i := pool[i].Reserve(mac, lease)], Some(pool[i].address))
  }

  /** `allocateAddress`: the entry held by `mac` becomes allocated; null if there is none. */
  function PoolAllocate(pool: seq<Lease>, mac: seq<int8>): (r: Outcome<Option<seq<int8>>>)
    ensures SameAddresses(pool, r.pool) && r.result == PoolLookUp(pool, mac)
    ensures r.result.None? ==> r.pool == pool
    ensures forall j :: 0 <= j < |pool| && r.pool[j] != pool[j] ==> pool[j].HeldBy(mac) && r.pool[j] == pool[j].Allocate()
  {
    match HolderIndex(pool, mac)
    case None => Outcome(pool, None)
    case Some(i) => Outcome(pool[i := pool[i].Allocate()], Some(pool[i].address))
  }

  /** `release`: the entry held by `mac` becomes free; false if there is none. */
  function PoolRelease(pool: seq<Lease>, mac: seq<int8>): (r: Outcome<bool>)
    ensures SameAddresses(pool, r.pool) && (r.result <==> PoolLookUp(pool, mac).Some?)
    ensures !r.result ==> r.pool == pool
    ensures forall j :: 0 <= j < |pool| && r.pool[j] != pool[j] ==> pool[j].HeldBy(mac) && r.pool[j] == pool[j].Release()
  {
    match HolderIndex(pool, mac)
    case None => Outcome(pool, false)
    case Some(i) => Outcome(pool[i := pool[i].Release()], true)
  }

  /**
   * One entry's turn in `update`: an allocated entry with a positive lease
   * counts down, and an allocated entry whose lease is then not positive is
   * released.  Reserved and free entries are left alone.
   */
  function Sweep(l: Lease): (r: Lease)
    ensures !l.IsAllocated() ==> r == l
    ensures l.IsAllocated() && l.duration > 1 ==> r == l.(duration := l.duration - 1)
    ensures l.IsAllocated() && l.duration <= 1 ==> r == l.Release()
  {
    var counted := if l.IsAllocated() && l.duration > 0 then l.Tick() else l;
    if counted.IsAllocated() && counted.duration <= 0 then counted.Release() else counted
  }

  /** `update`: every entry swept, in place. */
  function PoolUpdate(pool: seq<Lease>): (r: seq<Lease>)
    ensures |r| == |pool| && forall i :: 0 <= i < |pool| ==> r[i] == Sweep(pool[i])
    ensures SameAddresses(pool, r)
    ensures forall i :: 0 <= i < |pool| && !pool[i].IsAllocated() ==> r[i] == pool[i]
  {
    seq(|pool|, i requires 0 <= i < |pool| => Sweep(pool[i]))
  }

  // ---------------------------------------------------------------------------
  // What the operations promise
  // ---------------------------------------------------------------------------

  /** In a pool that keeps the invariant, the entry held by `mac` is the one `lookUp` finds. */
  lemma LookUpUnique(pool: seq<Lease>, mac: seq<int8>, i: nat)
    requires Invariant(pool) && i < |pool| && pool[i].HeldBy(mac)
    ensures HolderIndex(pool, mac) == Some(i)
    ensures PoolLookUp(pool, mac) == Some(pool[i].address)
  {
    var k := HolderIndex(pool, mac).value;
    assert pool[k].reserver == pool[i].reserver;
  }

  /**
   * `reserveAddress` on a MAC that holds no entry takes the first free entry
   * in list order and changes no other entry; with no free entry it returns
   * null and changes nothing.  Afterwards the MAC holds the returned address.
   */
  lemma ReserveNew(pool: seq<Lease>, mac: seq<int8>, lease: int32)
    requires PoolLookUp(pool, mac).None?
    ensures var r := PoolReserve(pool, mac, lease);
      && (FreeIndex(pool).None? ==> r == Outcome(pool, None))
      && (FreeIndex(pool).Some? ==>
            var i := FreeIndex(pool).value;
            && r.result == Some(pool[i].address)
            && r.pool[i].IsReserved() && r.pool[i].HeldBy(mac) && r.pool[i].duration == lease
            && (forall j :: 0 <= j < |pool| && j != i ==> r.pool[j] == pool[j])
            && PoolLookUp(r.pool, mac) == r.result)
  {
    var r := PoolReserve(pool, mac, lease);
    if FreeIndex(pool).Some? {
      var i := FreeIndex(pool).value;
      assert r.pool[i].HeldBy(mac);
      var k := HolderIndex(r.pool, mac).value;
      assert k == i;
    }
  }

  /**
   * `reserveAddress` is idempotent: a MAC that holds an entry gets that
   * entry's address back and the pool does not change, so a second reserve
   * right after a first returns the same address and takes no second entry.
   */
  lemma ReserveIdempotent(pool: seq<Lease>, mac: seq<int8>, lease: int32, lease': int32)
    requires PoolReserve(pool, mac, lease).result.Some?
    ensures var first := PoolReserve(pool, mac, lease);
      PoolReserve(first.pool, mac, lease') == Outcome(first.pool, first.result)
  {
    if PoolLookUp(pool, mac).None? {
      ReserveNew(pool, mac, lease);
    }
  }

  /** Every pool operation keeps each entry's address where it was. */
  lemma OperationsKeepAddresses(pool: seq<Lease>, mac: seq<int8>, lease: int32)
    ensures SameAddresses(pool, PoolReserve(pool, mac, lease).pool)
    ensures SameAddresses(pool, PoolAllocate(pool, mac).pool)
    ensures SameAddresses(pool, PoolRelease(pool, mac).pool)
    ensures SameAddresses(pool, PoolUpdate(pool))
  {
  }

  /** `reserveAddress` keeps one entry per MAC and "reserver iff not free". */
  lemma ReservePreserves(pool: seq<Lease>, mac: seq<int8>, lease: int32)
    requires Invariant(pool)
    ensures Invariant(PoolReserve(pool, mac, lease).pool)
  {
    if PoolLookUp(pool, mac).None? && FreeIndex(pool).Some? {
      var i := FreeIndex(pool).value;
      var p := PoolReserve(pool, mac, lease).pool;
      forall j, k | 0 <= j < |p| && 0 <= k < |p| && j != k && p[j].reserver.Some?
        ensures p[k].reserver != p[j].reserver
      {
        if j == i {
          assert !pool[k].HeldBy(mac);
        } else if k == i {
          assert !pool[j].HeldBy(mac);
        }
      }
    }
  }

  /** `allocateAddress` keeps the invariant: the entry it allocates has a reserver. */
  lemma AllocatePreserves(pool: seq<Lease>, mac: seq<int8>)
    requires Invariant(pool)
    ensures Invariant(PoolAllocate(pool, mac).pool)
  {
    match HolderIndex(pool, mac)
    case None =>
    case Some(i) =>
      var p := PoolAllocate(pool, mac).pool;
      assert forall j :: 0 <= j < |p| ==> p[j].reserver == pool[j].reserver;
  }

  /** `release` keeps the invariant, and afterwards the MAC holds no entry at all. */
  lemma ReleasePreserves(pool: seq<Lease>, mac: seq<int8>)
    requires Invariant(pool)
    ensures Invariant(PoolRelease(pool, mac).pool)
    ensures PoolLookUp(PoolRelease(pool, mac).pool, mac).None?
  {
    var p := PoolRelease(pool, mac).pool;
    match HolderIndex(pool, mac)
    case None =>
    case Some(i) =>
      forall j | 0 <= j < |p| ensures !p[j].HeldBy(mac) {
        if j != i {
          assert pool[i].reserver == Some(mac);
        }
      }
  }

  /** `release` answers whether the MAC held an entry, and frees that entry only. */
  lemma ReleaseOnly(pool: seq<Lease>, mac: seq<int8>)
    ensures var r := PoolRelease(pool, mac);
      && (r.result <==> PoolLookUp(pool, mac).Some?)
      && (!r.result ==> r.pool == pool)
      && (r.result ==>
            var i := HolderIndex(pool, mac).value;
            && r.pool[i] == Fresh(pool[i].address)
            && forall j :: 0 <= j < |pool| && j != i ==> r.pool[j] == pool[j])
  {
  }

  /**
   * `allocateAddress` returns null and changes nothing for a MAC that holds no
   * entry; otherwise that entry becomes allocated with its lease unchanged.
   */
  lemma AllocateOnly(pool: seq<Lease>, mac: seq<int8>)
    ensures var r := PoolAllocate(pool, mac);
      && (r.result.None? <==> PoolLookUp(pool, mac).None?)
      && (r.result.None? ==> r.pool == pool)
      && (r.result.Some? ==>
            var i := HolderIndex(pool, mac).value;
            && r.result == PoolLookUp(pool, mac)
            && r.pool[i].IsAllocated() && r.pool[i].HeldBy(mac) && r.pool[i].duration == pool[i].duration
            && forall j :: 0 <= j < |pool| && j != i ==> r.pool[j] == pool[j])
  {
  }

  /** `update` keeps the invariant: it only ticks leases down and frees entries. */
  lemma UpdatePreserves(pool: seq<Lease>)
    requires Invariant(pool)
    ensures Invariant(PoolUpdate(pool))
  {
    var p := PoolUpdate(pool);
    forall j | 0 <= j < |p| ensures p[j].Consistent() && (p[j].reserver.Some? ==> p[j].reserver == pool[j].reserver) {
      assert p[j] == Sweep(pool[j]);
    }
  }

  // ---------------------------------------------------------------------------
  // Expiry
  // ---------------------------------------------------------------------------

  /** An entry after `n` calls of `update`. */
  function SweepTimes(l: Lease, n: nat): Lease
    decreases n
  {
    if n == 0 then l else SweepTimes(Sweep(l), n - 1)
  }

  /** The pool after `n` calls of `update`. */
  function UpdateTimes(pool: seq<Lease>, n: nat): seq<Lease>
    decreases n
  {
    if n == 0 then pool else UpdateTimes(PoolUpdate(pool), n - 1)
  }

  /** The pool ages entry by entry: `n` updates of the pool are `n` sweeps of each entry. */
  lemma {:induction false} UpdateTimesEntry(pool: seq<Lease>, n: nat)
    ensures |UpdateTimes(pool, n)| == |pool|
    ensures forall i :: 0 <= i < |pool| ==> UpdateTimes(pool, n)[i] == SweepTimes(pool[i], n)
    decreases n
  {
    if n > 0 {
      UpdateTimesEntry(PoolUpdate(pool), n - 1);
    }
  }

  /**
   * Expiry is exact: an allocated entry with lease `d >= 1` is still allocated,
   * with `d - k` left, after `k < d` updates, and is free after the `d`-th.
   */
  lemma {:induction false} ExpiresExactly(l: Lease, k: nat)
    requires l.IsAllocated() && l.duration >= 1 && k <= l.duration
    ensures k < l.duration ==> SweepTimes(l, k) == l.(duration := l.duration - k)
    ensures k == l.duration as int ==> SweepTimes(l, k) == Fresh(l.address)
    decreases k
  {
    if k > 0 {
      if l.duration == 1 {
        assert SweepTimes(l, 1) == SweepTimes(Sweep(l), 0);
      } else {
        var next := Sweep(l);
        ExpiresExactly(next, k - 1);
      }
    }
  }

  /** Reserved and free entries never age: `update` leaves them as they are. */
  lemma {:induction false} UnallocatedStays(l: Lease, n: nat)
    requires !l.IsAllocated()
    ensures SweepTimes(l, n) == l
  {
    if n > 0 {
      UnallocatedStays(Sweep(l), n - 1);
    }
  }

  // ---------------------------------------------------------------------------
  // Exhaustion
  // ---------------------------------------------------------------------------

  /** The first `k` entries are taken and the rest are free. */
  predicate FilledUpTo(pool: seq<Lease>, k: nat)
  {
    k <= |pool| && (forall i :: 0 <= i < k ==> pool[i].state != Free)
    && (forall i :: k <= i < |pool| ==> pool[i].state == Free)
  }

  /** The hardware addresses in `macs` hold no entry of the pool and are pairwise different. */
  predicate Newcomers(pool: seq<Lease>, macs: seq<seq<int8>>)
  {
    && (forall i, j :: 0 <= i < j < |macs| ==> macs[i] != macs[j])
    && (forall i, k :: 0 <= i < |macs| && 0 <= k < |pool| ==> !pool[k].HeldBy(macs[i]))
  }

  /** `reserveAddress` called for each MAC in turn. */
  function ReserveEach(pool: seq<Lease>, macs: seq<seq<int8>>, lease: int32): (r: seq<Lease>)
    ensures |r| == |pool|
    decreases |macs|
  {
    if macs == [] then pool else ReserveEach(PoolReserve(pool, macs[0], lease).pool, macs[1..], lease)
  }

  /**
   * Reserving for as many new, distinct MACs as there are free entries takes
   * every entry; a further MAC then gets null.
   */
  lemma {:induction false} Exhaustion(pool: seq<Lease>, k: nat, macs: seq<seq<int8>>, lease: int32, other: seq<int8>)
    requires FilledUpTo(pool, k) && k + |macs| == |pool|
    requires Newcomers(pool, macs + [other])
    ensures FilledUpTo(ReserveEach(pool, macs, lease), |pool|)
    ensures PoolReserve(ReserveEach(pool, macs, lease), other, lease) == Outcome(ReserveEach(pool, macs, lease), None)
    decreases |macs|
  {
    var all := macs + [other];
    if macs == [] {
      assert all[0] == other;
      assert PoolLookUp(pool, other).None?;
      assert FreeIndex(pool).None?;
    } else {
      var m := macs[0];
      assert all[0] == m;
      assert PoolLookUp(pool, m).None?;
      assert pool[k].state == Free;
      var i := FreeIndex(pool).value;
      assert i == k;
      ReserveNew(pool, m, lease);
      var p := PoolReserve(pool, m, lease).pool;
      assert FilledUpTo(p, k + 1);
      var rest := macs[1..];
      assert rest + [other] == all[1..];
      assert Newcomers(p, rest + [other]) by {
        forall a, b | 0 <= a < |rest + [other]| && 0 <= b < |p| ensures !p[b].HeldBy((rest + [other])[a]) {
          assert (rest + [other])[a] == all[a + 1];
          if b == i {
            assert all[0] != all[a + 1];
          } else {
            assert p[b] == pool[b];
          }
        }
      }
      Exhaustion(p, k + 1, rest, lease, other);
    }
  }

  // ---------------------------------------------------------------------------
  // Initial pool
  // ---------------------------------------------------------------------------

  /** The address of the `i`-th container `init` creates: 128.1.0.(i+1). */
  function AddressAt(i: nat): (r: seq<int8>)
    requires i < 127
    ensures |r| == 4
  {
    [-128, 1, 0, (i + 1) as int8]
  }

  /** The pool `init` builds: five free containers at consecutive addresses. */
  function InitialPool(): (r: seq<Lease>)
    ensures |r| == PoolSize
  {
    seq(PoolSize, i requires 0 <= i < PoolSize => Fresh(AddressAt(i)))
  }

  /**
   * Each address is `toInt` + 1 of the previous one, written back with
   * `toByteArray`: the 4-byte string whose `toInt` is one more than that of
   * 128.1.0.(i+1) is 128.1.0.(i+2).
   */
  lemma NextAddress(i: nat, r: seq<int8>)
    requires i + 1 < 127
    requires |r| == 4 && IntOf(r) == WrapInt(IntOf(AddressAt(i)) + 1)
    ensures r == AddressAt(i + 1)
  {
    var a, b := AddressAt(i), AddressAt(i + 1);
    BigEndianOfFour(a);
    BigEndianOfFour(b);
    assert BigEndian(b) == BigEndian(a) + 1;
    assert IntOf(a) == BigEndian(a) - TwoTo32;
    assert IntOf(b) == BigEndian(b) - TwoTo32;
    ToByteArrayIntOf(b);
    ToByteArrayIntOf(r);
  }

  /** The initial pool keeps the invariant: every entry is free with no reserver. */
  lemma InitialValid()
    ensures Invariant(InitialPool()) && FilledUpTo(InitialPool(), 0)
  {
  }

  /**
   * With the initial pool, reservations for five distinct new MACs leave no
   * entry free, and a sixth MAC gets null.
   */
  lemma SixthReserveFails(macs: seq<seq<int8>>, lease: int32, other: seq<int8>)
    requires |macs| == PoolSize && Newcomers(InitialPool(), macs + [other])
    ensures forall j :: 0 <= j < PoolSize ==> ReserveEach(InitialPool(), macs, lease)[j].state != Free
    ensures PoolReserve(ReserveEach(InitialPool(), macs, lease), other, lease).result.None?
  {
    InitialValid();
    Exhaustion(InitialPool(), 0, macs, lease, other);
  }

  // ---------------------------------------------------------------------------
  // The class
  // ---------------------------------------------------------------------------

  /** `incrementIPAddress`: throws, here None, unless the address has 4 bytes. */
  method IncrementIpAddress(ip: seq<int8>) returns (r: Option<seq<int8>>)
    ensures r.Some? <==> |ip| == 4
    ensures r.Some? ==> |r.value| == 4 && IntOf(r.value) == WrapInt(IntOf(ip) + 1)
  {
    if |ip| != 4 {
      return None;
    }
    var ipInt := ToInt(ip);
    var bumped := ipInt as int + 1;
    ipInt := WrapInt(bumped);
    IntOfToByteArray(ipInt);
    return Some(ToByteArray(ipInt));
  }

  /** The value of a list of containers. */
  function Values(list: seq<IpContainer>): (r: seq<Lease>)
    reads list
    ensures |r| == |list| && forall i :: 0 <= i < |list| ==> r[i] == list[i].View()
  {
    if list == [] then [] else Values(list[..|list| - 1]) + [list[|list| - 1].View()]
  }

  class IpStorage {
    /** `listIPContainer`, filled once by `init` and never reshaped. */
    const entries: seq<IpContainer>

    /** The containers are distinct objects, so updating one leaves the others alone. */
    predicate Distinct()
    {
      forall i, j :: 0 <= i < j < |entries| ==> entries[i] != entries[j]
    }

    function Pool(): seq<Lease>
      reads entries
    {
      Values(entries)
    }

    ghost predicate Valid()
      reads entries
    {
      Distinct() && |entries| == PoolSize && Invariant(Pool())
    }

    /** `new IPStorage()`: runs `init`. */
    constructor ()
      ensures Valid() && Pool() == InitialPool()
      ensures forall c :: c in entries ==> fresh(c)
    {
      var list := IpStorage.Init();
      entries := list;
      InitialValid();
    }

    /**
     * `init`: creates a container at each address and increments the address.
     * An exception from `incrementIPAddress` would end the loop early; it
     * cannot happen, since the address always has four bytes.
     */
    static method Init() returns (list: seq<IpContainer>)
      ensures Values(list) == InitialPool()
      ensures forall i, j :: 0 <= i < j < |list| ==> list[i] != list[j]
      ensures forall c :: c in list ==> fresh(c)
    {
      list := [];
      var ipIncrementing := BaseAddress;
      for i := 0 to PoolSize
        invariant |list| == i && ipIncrementing == AddressAt(i)
        invariant forall k :: 0 <= k < i ==> list[k].View() == Fresh(AddressAt(k))
        invariant forall a, b :: 0 <= a < b < |list| ==> list[a] != list[b]
        invariant forall c :: c in list ==> fresh(c)
      {
        var container := new IpContainer(ipIncrementing);
        var next := IncrementIpAddress(ipIncrementing);
        if next.None? {
          assert false;
        }
        NextAddress(i, next.value);
        ipIncrementing := next.value;
        list := list + [container];
      }
      assert forall k :: 0 <= k < PoolSize ==> Values(list)[k] == InitialPool()[k];
    }

    /** `lookUp`: the address of the first container held by `mac`, or null; nothing changes. */
    method LookUp(mac: seq<int8>) returns (r: Option<seq<int8>>)
      ensures r == PoolLookUp(Pool(), mac)
      ensures r.Some? <==> exists i :: 0 <= i < |entries| && entries[i].reserver == Some(mac)
    {
      for i := 0 to |entries|
        invariant forall k :: 0 <= k < i ==> !Pool()[k].HeldBy(mac)
      {
        var container := entries[i];
        if container.reserver.Some? && container.reserver.value == mac {
          assert Pool()[i].HeldBy(mac);
          return Some(container.address);
        }
      }
      return None;
    }

    /** `reserveAddress`. */
    method ReserveAddress(mac: seq<int8>, leaseDuration: int32) returns (r: Option<seq<int8>>)
      requires Valid()
      modifies entries
      ensures Valid()
      ensures Outcome(Pool(), r) == PoolReserve(old(Pool()), mac, leaseDuration)
    {
      ghost var before := Pool();
      ReservePreserves(before, mac, leaseDuration);
      var held := LookUp(mac);
      if held.Some? {
        r := LookUp(mac);
        return;
      }
      for i := 0 to |entries|
        invariant forall k :: 0 <= k < i ==> before[k].state != Free
      {
        var container := entries[i];
        if !container.IsReserved() && !container.IsAllocated() {
          assert FreeIndex(before) == Some(i) by {
            assert before[i].state == Free;
          }
          container.Reserve(mac, leaseDuration);
          assert Pool() == before[i := before[i].Reserve(mac, leaseDuration)] by {
            forall k | 0 <= k < |entries| && k != i ensures entries[k].View() == before[k] {
              assert entries[k] != entries[i];
            }
          }
          return Some(container.address);
        }
      }
      return None;
    }

    /** `allocateAddress`. */
    method AllocateAddress(mac: seq<int8>) returns (r: Option<seq<int8>>)
      requires Valid()
      modifies entries
      ensures Valid()
      ensures Outcome(Pool(), r) == PoolAllocate(old(Pool()), mac)
    {
      ghost var before := Pool();
      AllocatePreserves(before, mac);
      r := None;
      var held := LookUp(mac);
      if held.None? {
        return None;
      }
      for i := 0 to |entries|
        invariant forall k :: 0 <= k < i ==> !before[k].HeldBy(mac)
      {
        var container := entries[i];
        if container.reserver == Some(mac) {
          assert HolderIndex(before, mac) == Some(i);
          container.Allocate();
          assert Pool() == before[i := before[i].Allocate()] by {
            forall k | 0 <= k < |entries| && k != i ensures entries[k].View() == before[k] {
              assert entries[k] != entries[i];
            }
          }
          return Some(container.address);
        }
      }
      // "Allocation failed": unreachable once lookUp has found the MAC
      assert false;
    }

    /** `release`. */
    method Release(mac: seq<int8>) returns (released: bool)
      requires Valid()
      modifies entries
      ensures Valid()
      ensures Outcome(Pool(), released) == PoolRelease(old(Pool()), mac)
    {
      ghost var before := Pool();
      ReleasePreserves(before, mac);
      released := false;
      var held := LookUp(mac);
      if held.None? {
        return false;
      }
      for i := 0 to |entries|
        invariant forall k :: 0 <= k < i ==> !before[k].HeldBy(mac)
      {
        var container := entries[i];
        if container.reserver.Some? && container.reserver.value == mac {
          assert HolderIndex(before, mac) == Some(i);
          container.Release();
          assert Pool() == before[i := before[i].Release()] by {
            forall k | 0 <= k < |entries| && k != i ensures entries[k].View() == before[k] {
              assert entries[k] != entries[i];
            }
          }
          return true;
        }
      }
      assert false;
    }

    /** `update`: each container in turn is counted down and, once expired, released. */
    method Update()
      requires Valid()
      modifies entries
      ensures Valid()
      ensures Pool() == PoolUpdate(old(Pool()))
    {
      ghost var before := Pool();
      UpdatePreserves(before);
      for i := 0 to |entries|
        invariant forall k :: 0 <= k < i ==> entries[k].View() == Sweep(before[k])
        invariant forall k :: i <= k < |entries| ==> entries[k].View() == before[k]
      {
        var container := entries[i];
        if container.IsAllocated() && container.leaseDuration > 0 {
          container.Update();
        }
        if container.IsAllocated() && container.leaseDuration <= 0 {
          container.Release();
        }
        forall k | 0 <= k < |entries| && k != i ensures entries[k] != container {
          assert entries[k] != entries[i];
        }
      }
    }
  }
}
