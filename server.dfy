/**
 * The server's message handling (class DHCPServer), without its socket and
 * its timer.  One pass of the receive loop takes a datagram, parses the
 * receive array, dispatches on the message type and answers with an Offer, an
 * Ack or a Nak, or releases a lease; the timer's `pool.update()` is the
 * separate operation `Tick`.
 *
 * `ServerStep` states what one pass does to the pool and what it sends; the
 * class runs the source's handlers step by step and is proved to do exactly
 * that.
 */
module Server {
  import opened Wrappers
  import opened Utility
  import opened Options
  import opened Messages
  import opened Leases
  import opened Storage
  import opened Transport

  /** `MAXLEASEDURATION`: the longest lease, in seconds, a request may ask for. */
  const MaxLeaseDuration: int := 3600

  // ---------------------------------------------------------------------------
  // The handlers as functions
  // ---------------------------------------------------------------------------

  /** What one pass of the loop ends in: the server thread dies, or it goes on with this pool. */
  datatype Step = Halted | Served(pool: seq<Lease>, reply: Option<seq<int8>>)

  /**
   * The reply a handler makes of the request it parsed: a BOOTREPLY with the
   * given `yourIP` and this server's address, and fresh options; every other
   * fixed field is the request's own.
   */
  function Reply(request: Message, kind: int8, yourIp: seq<int8>, server: seq<int8>): (r: Message)
    ensures r.op == BootReply && r.yiaddr == yourIp && r.siaddr == server
    ensures r.htype == request.htype && r.hlen == request.hlen && r.hops == request.hops
    ensures r.xid == request.xid && r.secs == request.secs && r.flags == request.flags
    ensures r.ciaddr == request.ciaddr && r.giaddr == request.giaddr && r.chaddr == request.chaddr
    ensures r.sname == request.sname && r.file == request.file && r.cookie == request.cookie
    ensures r.options == IdentifiedOptions(kind, server)
  {
    request.(op := BootReply, yiaddr := yourIp, siaddr := server, options := IdentifiedOptions(kind, server))
  }

  /**
   * `canAcceptRequest`: the lease asked for in option 51 is below the maximum
   * and the request's fixed `serverIP` field is this server's address.  A
   * request without option 51 makes `toInt` throw, and the catch answers false.
   */
  function Accepts(request: Message, server: seq<int8>): (r: bool)
    ensures r <==> && FindOption(request.options, LeaseTimeCode).Some?
                   && IntOf(FindOption(request.options, LeaseTimeCode).value) < MaxLeaseDuration
                   && request.siaddr == server
  {
    match FindOption(request.options, LeaseTimeCode)
    case None => false
    case Some(lease) => IntOf(lease) < MaxLeaseDuration && request.siaddr == server
  }

  /**
   * `DHCPOffer`: reserves an address for the request's hardware address, for
   * the lease in option 51, and replies with an Offer.  Without option 51,
   * `toInt` throws before the pool is touched; with no address left,
   * `retrieveBytes` throws on the null `yourIP`.  Either way nothing is sent.
   */
  function Offer(pool: seq<Lease>, server: seq<int8>, request: Message): (r: Step)
    ensures r.Served? && SameAddresses(pool, r.pool)
    ensures FindOption(request.options, LeaseTimeCode).None? ==> r == Served(pool, None)
    ensures r.reply.Some? ==>
      (PoolLookUp(r.pool, request.chaddr).Some? &&
       r.reply == Serialize(Reply(request, MsgOffer, PoolLookUp(r.pool, request.chaddr).value, server)))
  {
    match FindOption(request.options, LeaseTimeCode)
    case None => Served(pool, None)
    case Some(lease) =>
      var reserved := PoolReserve(pool, request.chaddr, IntOf(lease));
      match reserved.result
      case None => Served(reserved.pool, None)
      case Some(address) => Served(reserved.pool, Serialize(Reply(request, MsgOffer, address, server)))
  }

  /** `DHCPOffer` once the lease time is read and the pool has answered the reservation. */
  lemma OfferOutcome(pool: seq<Lease>, server: seq<int8>, request: Message, lease: seq<int8>,
                     reserved: Outcome<Option<seq<int8>>>)
    requires FindOption(request.options, LeaseTimeCode) == Some(lease)
    requires reserved == PoolReserve(pool, request.chaddr, IntOf(lease))
    ensures reserved.result.None? ==> Offer(pool, server, request) == Served(reserved.pool, None)
    ensures reserved.result.Some? ==>
      Offer(pool, server, request) == Served(reserved.pool, Serialize(Reply(request, MsgOffer, reserved.result.value, server)))
  {
  }

  /**
   * `DHCPAck`: allocates the client's address (the result is ignored) and
   * replies with `yourIP` taken from option 50.  Without option 50,
   * `retrieveBytes` throws on the null `yourIP` after the pool has changed.
   */
  function Ack(pool: seq<Lease>, server: seq<int8>, request: Message): (r: Step)
    ensures r.Served? && SameAddresses(pool, r.pool)
    ensures PoolLookUp(pool, request.chaddr).None? ==> r.pool == pool
    ensures forall j :: 0 <= j < |pool| && r.pool[j] != pool[j] ==>
              pool[j].HeldBy(request.chaddr) && r.pool[j] == pool[j].Allocate()
    ensures FindOption(request.options, RequestedAddressCode).None? ==> r.reply.None?
  {
    var granted := PoolAllocate(pool, request.chaddr).pool;
    match FindOption(request.options, RequestedAddressCode)
    case None => Served(granted, None)
    case Some(address) => Served(granted, Serialize(Reply(request, MsgAck, address, server)))
  }

  /** `DHCPNak`: releases the client's address, then replies as `DHCPAck` does, with type Nak. */
  function Nak(pool: seq<Lease>, server: seq<int8>, request: Message): (r: Step)
    ensures r.Served? && SameAddresses(pool, r.pool)
    ensures PoolLookUp(pool, request.chaddr).None? ==> r.pool == pool
    ensures forall j :: 0 <= j < |pool| && r.pool[j] != pool[j] ==>
              pool[j].HeldBy(request.chaddr) && r.pool[j] == pool[j].Release()
    ensures FindOption(request.options, RequestedAddressCode).None? ==> r.reply.None?
  {
    var released := PoolRelease(pool, request.chaddr).pool;
    match FindOption(request.options, RequestedAddressCode)
    case None => Served(released, None)
    case Some(address) => Served(released, Serialize(Reply(request, MsgNak, address, server)))
  }

  /** `handleDHCPRelease`: releases the client's address; no reply. */
  function ReleaseLease(pool: seq<Lease>, request: Message): (r: Step)
    ensures r.Served? && r.reply.None? && SameAddresses(pool, r.pool)
    ensures forall j :: 0 <= j < |pool| && r.pool[j] != pool[j] ==>
              pool[j].HeldBy(request.chaddr) && r.pool[j] == pool[j].Release()
  {
    Served(PoolRelease(pool, request.chaddr).pool, None)
  }

  /** The dispatch switch of `run` on a parsed request. */
  function Dispatch(pool: seq<Lease>, server: seq<int8>, request: Message): (r: Step)
    requires TypeDataPresent(request.options)
    ensures r.Served? && SameAddresses(pool, r.pool)
    ensures r.reply.Some? ==> MessageType(request.options) in {MsgDiscover, MsgRequest}
  {
    var kind := MessageType(request.options);
    if kind == MsgDiscover then Offer(pool, server, request)
    else if kind == MsgRequest then
      if Accepts(request, server) then Ack(pool, server, request) else Nak(pool, server, request)
    else if kind == MsgRelease then ReleaseLease(pool, request)
    else Served(pool, None)
  }

  /**
   * One pass of `run`: the datagram arrives in a fresh 576-byte array, which
   * is parsed outside the loop's try block (a parse that throws ends the
   * server thread) and dispatched.
   */
  function ServerStep(pool: seq<Lease>, server: seq<int8>, datagram: seq<int8>): (r: Step)
    ensures r.Halted? <==> ParseMessage(Received(FreshBuffer(), datagram)).None?
    ensures r.Served? ==> SameAddresses(pool, r.pool)
  {
    var buffer := Received(FreshBuffer(), datagram);
    match ParseMessage(buffer)
    case None => Halted
    case Some(request) =>
      ParsedTypeData(buffer);
      Dispatch(pool, server, request)
  }

  // ---------------------------------------------------------------------------
  // What the server promises
  // ---------------------------------------------------------------------------

  /** Message types other than Discover, Request and Release are ignored: no reply, no change. */
  lemma OtherTypesIgnored(pool: seq<Lease>, server: seq<int8>, request: Message)
    requires TypeDataPresent(request.options)
    requires MessageType(request.options) !in {MsgDiscover, MsgRequest, MsgRelease}
    ensures Dispatch(pool, server, request) == Served(pool, None)
  {
  }

  /** Every pass of the loop keeps the pool's invariant. */
  lemma DispatchPreserves(pool: seq<Lease>, server: seq<int8>, request: Message)
    requires Invariant(pool) && TypeDataPresent(request.options)
    ensures var step := Dispatch(pool, server, request);
      step.Served? && Invariant(step.pool) && SameAddresses(pool, step.pool)
  {
    var kind := MessageType(request.options);
    var mac := request.chaddr;
    if kind == MsgDiscover {
      match FindOption(request.options, LeaseTimeCode)
      case None =>
      case Some(lease) =>
        ReservePreserves(pool, mac, IntOf(lease));
        OperationsKeepAddresses(pool, mac, IntOf(lease));
    } else if kind == MsgRequest && Accepts(request, server) {
      AllocatePreserves(pool, mac);
      OperationsKeepAddresses(pool, mac, 0);
    } else if kind == MsgRequest || kind == MsgRelease {
      ReleasePreserves(pool, mac);
      OperationsKeepAddresses(pool, mac, 0);
    }
  }

  /**
   * A reply to a parsed request is written as `getLength() + 1 == 252` bytes,
   * and the client that receives them into its array parses back exactly the
   * reply: its type, its `yourIP`, this server's address, and the request's
   * other fields.
   */
  lemma ReplyDelivered(request: Message, kind: int8, yourIp: seq<int8>, server: seq<int8>, buffer: seq<int8>)
    requires FixedWidths(request) && |yourIp| == 4 && |server| == 4 && |buffer| == MaxLength
    ensures var reply := Reply(request, kind, yourIp, server);
      && Serialize(reply).Some? && |Serialize(reply).value| == MinLength + 12
      && ParseMessage(Received(buffer, Serialize(reply).value)) == Some(reply)
      && TypeDataPresent(reply.options) && MessageType(reply.options) == kind
      && FindOption(reply.options, ServerIdentifierCode) == Some(server)
  {
    var reply := Reply(request, kind, yourIp, server);
    IdentifiedOptionsWire(kind, server);
    SerializeLayout(reply);
    Delivered(reply, [0], buffer);
  }

  /**
   * The Offer: a Discover carrying option 51 leaves the pool as `reserve`
   * does for the lease it asked for (the first free entry for a client that
   * holds none, by `ReserveNew`), and offers the reserved address.
   */
  lemma OfferReserves(pool: seq<Lease>, server: seq<int8>, request: Message)
    requires Invariant(pool) && FixedWidths(request) && |server| == 4
    requires forall i :: 0 <= i < |pool| ==> |pool[i].address| == 4
    requires FindOption(request.options, LeaseTimeCode).Some?
    ensures var lease := IntOf(FindOption(request.options, LeaseTimeCode).value);
      var step := Offer(pool, server, request);
      && step.Served? && Invariant(step.pool)
      && step.pool == PoolReserve(pool, request.chaddr, lease).pool
      && (step.reply.Some? <==> PoolReserve(pool, request.chaddr, lease).result.Some?)
      && (step.reply.Some? ==>
            var address := PoolReserve(pool, request.chaddr, lease).result.value;
            && step.reply == Serialize(Reply(request, MsgOffer, address, server))
            && PoolLookUp(step.pool, request.chaddr) == Some(address))
  {
    var lease := IntOf(FindOption(request.options, LeaseTimeCode).value);
    var reserved := PoolReserve(pool, request.chaddr, lease);
    ReservePreserves(pool, request.chaddr, lease);
    if reserved.result.Some? {
      var address := reserved.result.value;
      if PoolLookUp(pool, request.chaddr).None? {
        ReserveNew(pool, request.chaddr, lease);
        assert address == pool[FreeIndex(pool).value].address;
      } else {
        assert address == pool[HolderIndex(pool, request.chaddr).value].address;
      }
      ReplyDelivered(request, MsgOffer, address, server, FreshBuffer());
    }
  }

  /**
   * The Nak: a Request the server does not accept, for instance one asking
   * for a lease of 3600 seconds or more, releases whatever the client held and
   * is answered with type Nak and the requested address.
   */
  lemma RejectedRequestReleases(pool: seq<Lease>, server: seq<int8>, request: Message)
    requires Invariant(pool) && FixedWidths(request) && |server| == 4
    requires TypeDataPresent(request.options) && MessageType(request.options) == MsgRequest
    requires !Accepts(request, server)
    requires FindOption(request.options, RequestedAddressCode).Some?
    requires |FindOption(request.options, RequestedAddressCode).value| == 4
    ensures var step := Dispatch(pool, server, request);
      && step.Served? && PoolLookUp(step.pool, request.chaddr).None? && Invariant(step.pool)
      && step.reply == Serialize(Reply(request, MsgNak, FindOption(request.options, RequestedAddressCode).value, server))
      && step.reply.Some?
  {
    ReleasePreserves(pool, request.chaddr);
    ReplyDelivered(request, MsgNak, FindOption(request.options, RequestedAddressCode).value, server, FreshBuffer());
  }

  /**
   * The Release: under the invariant, the entry the client holds (if any)
   * becomes free again, every other entry is left as it was, the client then
   * holds nothing, and nothing is sent.
   */
  lemma ReleaseFrees(pool: seq<Lease>, server: seq<int8>, request: Message)
    requires Invariant(pool)
    requires TypeDataPresent(request.options) && MessageType(request.options) == MsgRelease
    ensures var step := Dispatch(pool, server, request);
      && step.Served? && step.reply.None? && Invariant(step.pool)
      && PoolLookUp(step.pool, request.chaddr).None?
      && |step.pool| == |pool|
      && forall j :: 0 <= j < |pool| ==>
           step.pool[j] == (if pool[j].HeldBy(request.chaddr) then Fresh(pool[j].address) else pool[j])
  {
    ReleasePreserves(pool, request.chaddr);
    ReleaseOnly(pool, request.chaddr);
    forall j | 0 <= j < |pool| && pool[j].HeldBy(request.chaddr)
      ensures HolderIndex(pool, request.chaddr) == Some(j)
    {
      LookUpUnique(pool, request.chaddr, j);
    }
  }

  /** A lease of 3600 seconds or more is never accepted. */
  lemma LongLeaseRejected(request: Message, server: seq<int8>)
    requires FindOption(request.options, LeaseTimeCode).Some?
    requires IntOf(FindOption(request.options, LeaseTimeCode).value) >= MaxLeaseDuration
    ensures !Accepts(request, server)
  {
  }

  /**
   * The Ack: an accepted Request from a client that holds an entry makes that
   * entry allocated, with its lease unchanged, and is answered with type Ack
   * and the address of option 50.
   */
  lemma AcceptedRequestAllocates(pool: seq<Lease>, server: seq<int8>, request: Message, i: nat)
    requires Invariant(pool) && FixedWidths(request) && |server| == 4
    requires TypeDataPresent(request.options) && MessageType(request.options) == MsgRequest
    requires Accepts(request, server)
    requires i < |pool| && pool[i].HeldBy(request.chaddr)
    requires FindOption(request.options, RequestedAddressCode).Some?
    requires |FindOption(request.options, RequestedAddressCode).value| == 4
    ensures var step := Dispatch(pool, server, request);
      && step.Served? && step.pool == pool[i := pool[i].Allocate()]
      && step.pool[i].IsAllocated() && step.pool[i].duration == pool[i].duration
      && step.reply == Serialize(Reply(request, MsgAck, FindOption(request.options, RequestedAddressCode).value, server))
      && step.reply.Some?
  {
    LookUpUnique(pool, request.chaddr, i);
    ReplyDelivered(request, MsgAck, FindOption(request.options, RequestedAddressCode).value, server, FreshBuffer());
  }

  /**
   * `DHCPAck` ignores what `allocateAddress` answers: an accepted Request from
   * a client that holds no entry leaves the pool as it is and is still
   * answered with an Ack of the address in option 50.
   */
  lemma UnknownClientAcked(pool: seq<Lease>, server: seq<int8>, request: Message)
    requires FixedWidths(request) && |server| == 4
    requires TypeDataPresent(request.options) && MessageType(request.options) == MsgRequest
    requires Accepts(request, server)
    requires PoolLookUp(pool, request.chaddr).None?
    requires FindOption(request.options, RequestedAddressCode).Some?
    requires |FindOption(request.options, RequestedAddressCode).value| == 4
    ensures var step := Dispatch(pool, server, request);
      && step == Served(pool, Serialize(Reply(request, MsgAck, FindOption(request.options, RequestedAddressCode).value, server)))
      && step.reply.Some?
  {
    ReplyDelivered(request, MsgAck, FindOption(request.options, RequestedAddressCode).value, server, FreshBuffer());
  }

  // ---------------------------------------------------------------------------
  // The class
  // ---------------------------------------------------------------------------

  class DhcpServer {
    const pool: IpStorage
    /** `InetAddress.getByName(serverIP).getAddress()`: this server's IPv4 address. */
    const serverIp: seq<int8>

    ghost predicate Valid()
      reads pool.entries
    {
      pool.Valid() && |serverIp| == 4
    }

    /** `new DHCPServer(serverIP)`, without the socket. */
    constructor (address: seq<int8>)
      requires |address| == 4
      ensures Valid() && serverIp == address && pool.Pool() == InitialPool()
      ensures fresh(pool) && forall c :: c in pool.entries ==> fresh(c)
    {
      serverIp := address;
      pool := new IpStorage();
    }

    /** The timer's action: `pool.update()`. */
    method Tick()
      requires Valid()
      modifies pool.entries
      ensures Valid() && pool.Pool() == PoolUpdate(old(pool.Pool()))
    {
      pool.Update();
    }

    /** One pass of the loop of `run`, for a datagram the socket delivered. */
    method HandleDatagram(datagram: seq<int8>) returns (step: Step)
      requires Valid()
      modifies pool.entries
      ensures Valid()
      ensures step == ServerStep(old(pool.Pool()), serverIp, datagram)
      ensures step.Halted? ==> pool.Pool() == old(pool.Pool())
      ensures step.Served? ==> pool.Pool() == step.pool
    {
      ghost var before := pool.Pool();
      var buffer := Received(FreshBuffer(), datagram);
      var parsed := DhcpMessage.Parse(buffer);
      if parsed.None? {
        return Halted;
      }
      var response := parsed.value;
      ParsedTypeData(buffer);
      ghost var request := ParseMessage(buffer).value;
      assert ServerStep(before, serverIp, datagram) == Dispatch(before, serverIp, request);
      var kind := response.GetType();
      var reply: Option<seq<int8>> := None;
      if kind == MsgDiscover {
        reply := DhcpOffer(buffer);
      } else if kind == MsgRequest {
        var accept := CanAcceptRequest(buffer);
        if accept {
          reply := DhcpAck(buffer);
        } else {
          reply := DhcpNak(buffer);
        }
      } else if kind == MsgRelease {
        HandleDhcpRelease(buffer);
      }
      step := Served(pool.Pool(), reply);
    }

    /** `DHCPOffer`, building the reply in the parsed request. */
    method DhcpOffer(buffer: seq<int8>) returns (reply: Option<seq<int8>>)
      requires Valid() && ParseMessage(buffer).Some?
      modifies pool.entries
      ensures Valid()
      ensures Served(pool.Pool(), reply) == Offer(old(pool.Pool()), serverIp, ParseMessage(buffer).value)
    {
      var parsed := DhcpMessage.Parse(buffer);
      var message := parsed.value;
      ghost var request := message.View();
      var leaseData := message.GetOptionData(LeaseTimeCode);
      if leaseData.None? {
        // toInt(null) throws
        return None;
      }
      ghost var before := pool.Pool();
      var yourIp := Reserve(message.chaddr, leaseData.value);
      ghost var after := pool.Pool();
      OfferOutcome(before, serverIp, request, leaseData.value, Outcome(after, yourIp));
      if yourIp.None? {
        // retrieveBytes throws on the null yourIP; nothing else touches the pool
        return None;
      }
      assert message.View() == request;
      reply := Compose(message, MsgOffer, yourIp.value);
      assert pool.Pool() == after;
    }

    /** The reservation step of `DHCPOffer`: `reserveAddress(chaddr, toInt(leaseData))`. */
    method Reserve(mac: seq<int8>, leaseData: seq<int8>) returns (yourIp: Option<seq<int8>>)
      requires Valid()
      modifies pool.entries
      ensures Valid()
      ensures Outcome(pool.Pool(), yourIp) == PoolReserve(old(pool.Pool()), mac, IntOf(leaseData))
    {
      var leaseDuration := ToInt(leaseData);
      yourIp := pool.ReserveAddress(mac, leaseDuration);
    }

    /** `canAcceptRequest`; nothing changes. */
    method CanAcceptRequest(buffer: seq<int8>) returns (accept: bool)
      requires |serverIp| == 4 && ParseMessage(buffer).Some?
      ensures accept == Accepts(ParseMessage(buffer).value, serverIp)
    {
      var parsed := DhcpMessage.Parse(buffer);
      var message := parsed.value;
      var leaseData := message.GetOptionData(LeaseTimeCode);
      if leaseData.None? {
        // toInt(null) throws and the catch answers false
        return false;
      }
      var lease := ToInt(leaseData.value);
      accept := lease < MaxLeaseDuration && serverIp == message.siaddr;
    }

    /** `DHCPAck`. */
    method DhcpAck(buffer: seq<int8>) returns (reply: Option<seq<int8>>)
      requires Valid() && ParseMessage(buffer).Some?
      modifies pool.entries
      ensures Valid()
      ensures Served(pool.Pool(), reply) == Ack(old(pool.Pool()), serverIp, ParseMessage(buffer).value)
    {
      var parsed := DhcpMessage.Parse(buffer);
      var message := parsed.value;
      ghost var request := message.View();
      ghost var before := pool.Pool();
      var _ := pool.AllocateAddress(message.chaddr);
      ghost var after := pool.Pool();
      assert after == PoolAllocate(before, request.chaddr).pool;
      assert message.View() == request;
      reply := Answer(message, MsgAck);
      assert pool.Pool() == after;
    }

    /** `DHCPNak`. */
    method DhcpNak(buffer: seq<int8>) returns (reply: Option<seq<int8>>)
      requires Valid() && ParseMessage(buffer).Some?
      modifies pool.entries
      ensures Valid()
      ensures Served(pool.Pool(), reply) == Nak(old(pool.Pool()), serverIp, ParseMessage(buffer).value)
    {
      var parsed := DhcpMessage.Parse(buffer);
      var message := parsed.value;
      ghost var request := message.View();
      ghost var before := pool.Pool();
      var _ := pool.Release(message.chaddr);
      ghost var after := pool.Pool();
      assert after == PoolRelease(before, request.chaddr).pool;
      assert message.View() == request;
      reply := Answer(message, MsgNak);
      assert pool.Pool() == after;
    }

    /**
     * The part `DHCPAck` and `DHCPNak` share: `yourIP` from option 50, or
     * nothing sent when the request has none.
     */
    method Answer(message: DhcpMessage, kind: int8) returns (reply: Option<seq<int8>>)
      requires |serverIp| == 4
      modifies message
      ensures var data := FindOption(old(message.options), RequestedAddressCode);
        reply == if data.None? then None else Serialize(Reply(old(message.View()), kind, data.value, serverIp))
    {
      var data := message.GetOptionData(RequestedAddressCode);
      if data.None? {
        // retrieveBytes throws on the null yourIP
        return None;
      }
      reply := Compose(message, kind, data.value);
    }

    /**
     * The tail every handler shares: `yourIP`, this server's address, the
     * options reset to type, server identifier and terminator, then
     * `retrieveBytes`.
     */
    method Compose(message: DhcpMessage, kind: int8, yourIp: seq<int8>) returns (reply: Option<seq<int8>>)
      requires |serverIp| == 4
      modifies message
      ensures reply == Serialize(Reply(old(message.View()), kind, yourIp, serverIp))
    {
      ghost var request := message.View();
      message.op := BootReply;
      message.yiaddr := yourIp;
      message.siaddr := serverIp;
      message.ResetOptions();
      message.AddOption(MessageTypeCode, 1, [kind]);
      message.AddOption(ServerIdentifierCode, 4, message.siaddr);
      var terminator := ToBytes([0]);
      assert terminator == [0];
      message.AddOption(EndCode, 0, terminator);
      assert message.View() == Reply(request, kind, yourIp, serverIp);
      reply := message.RetrieveBytes();
    }

    /** `handleDHCPRelease`. */
    method HandleDhcpRelease(buffer: seq<int8>)
      requires Valid() && ParseMessage(buffer).Some?
      modifies pool.entries
      ensures Valid()
      ensures Served(pool.Pool(), None) == ReleaseLease(old(pool.Pool()), ParseMessage(buffer).value)
    {
      var parsed := DhcpMessage.Parse(buffer);
      var message := parsed.value;
      var _ := pool.Release(message.chaddr);
    }
  }
}
