/**
 * The client and the server together: one client, one freshly started
 * server, the whole Discover, Offer, Request, Ack, Release exchange, carried
 * byte for byte through the receive arrays of both sides.
 */
module Scenario {
  import opened Wrappers
  import opened Utility
  import opened Options
  import opened Messages
  import opened Leases
  import opened Storage
  import opened Transport
  import opened Server
  import opened Client

  /** The Offer a fresh server makes to the client's Discover: the first address, 128.1.0.1. */
  function OfferFor(server: seq<int8>, chaddr: seq<int8>, hash: int32): Message
  {
    Reply(DiscoverMessage(hash, chaddr), MsgOffer, BaseAddress, server)
  }

  /** The client's Request answering that Offer. */
  function RequestFor(server: seq<int8>, chaddr: seq<int8>, hash: int32): Message
  {
    RequestMessage(OfferFor(server, chaddr, hash))
  }

  /** The server's Ack to that Request. */
  function AckFor(server: seq<int8>, chaddr: seq<int8>, hash: int32): Message
  {
    Reply(RequestFor(server, chaddr, hash), MsgAck, BaseAddress, server)
  }

  /** The pool once the first address is reserved for the client, for 60 seconds. */
  function Reserved(chaddr: seq<int8>): seq<Lease>
  {
    InitialPool()[0 := Fresh(BaseAddress).Reserve(chaddr, LeaseDuration)]
  }

  /** The pool once that reservation is allocated. */
  function Granted(chaddr: seq<int8>): seq<Lease>
  {
    Reserved(chaddr)[0 := Reserved(chaddr)[0].Allocate()]
  }

  lemma InitialFirst()
    ensures InitialPool()[0] == Fresh(BaseAddress)
  {
  }

  /**
   * A fresh server answers the client's Discover with an Offer of 128.1.0.1
   * and reserves that address for the client's hardware address, for the 60
   * seconds the client asked for.
   */
  lemma DiscoverAnswered(server: seq<int8>, chaddr: seq<int8>, hash: int32)
    requires |server| == 4 && |chaddr| == 16
    ensures Sent(DiscoverMessage(hash, chaddr)).Some?
    ensures ServerStep(InitialPool(), server, Sent(DiscoverMessage(hash, chaddr)).value)
            == Served(Reserved(chaddr), Serialize(OfferFor(server, chaddr, hash)))
    ensures Serialize(OfferFor(server, chaddr, hash)).Some?
  {
    var discover := DiscoverMessage(hash, chaddr);
    DiscoverDelivered(hash, chaddr, FreshBuffer());
    var buffer := Received(FreshBuffer(), Sent(discover).value);
    ParsedTypeData(buffer);
    InitialFirst();
    InitialValid();
    assert PoolLookUp(InitialPool(), chaddr).None?;
    ReserveNew(InitialPool(), chaddr, LeaseDuration);
    assert FreeIndex(InitialPool()) == Some(0);
    ReplyDelivered(discover, MsgOffer, BaseAddress, server, FreshBuffer());
  }

  /**
   * The client parses the Offer and answers with its Request; the server
   * accepts it (the lease is short and the Offer named this server), makes
   * the reservation an allocation, and answers with an Ack for 128.1.0.1.
   */
  lemma RequestAnswered(server: seq<int8>, chaddr: seq<int8>, hash: int32)
    requires |server| == 4 && |chaddr| == 16
    ensures Sent(RequestFor(server, chaddr, hash)).Some?
    ensures ServerStep(Reserved(chaddr), server, Sent(RequestFor(server, chaddr, hash)).value)
            == Served(Granted(chaddr), Serialize(AckFor(server, chaddr, hash)))
    ensures Serialize(AckFor(server, chaddr, hash)).Some?
  {
    var offer := OfferFor(server, chaddr, hash);
    var request := RequestFor(server, chaddr, hash);
    RequestDelivered(offer, server, FreshBuffer());
    var buffer := Received(FreshBuffer(), Sent(request).value);
    ParsedTypeData(buffer);
    assert Accepts(request, server);
    InitialValid();
    ReservePreserves(InitialPool(), chaddr, LeaseDuration);
    assert Reserved(chaddr) == PoolReserve(InitialPool(), chaddr, LeaseDuration).pool by {
      ReserveNew(InitialPool(), chaddr, LeaseDuration);
    }
    LookUpUnique(Reserved(chaddr), chaddr, 0);
    ReplyDelivered(request, MsgAck, BaseAddress, server, FreshBuffer());
  }

  /** The client reads back the Offer, then the Ack received into the same array, as the server sent them. */
  lemma RepliesParsed(server: seq<int8>, chaddr: seq<int8>, hash: int32)
    requires |server| == 4 && |chaddr| == 16
    ensures var offer := OfferFor(server, chaddr, hash);
      var ack := AckFor(server, chaddr, hash);
      && Serialize(offer).Some? && Serialize(ack).Some?
      && ParseMessage(Received(FreshBuffer(), Serialize(offer).value)) == Some(offer)
      && ParseMessage(Received(Received(FreshBuffer(), Serialize(offer).value), Serialize(ack).value)) == Some(ack)
      && TypeDataPresent(ack.options) && MessageType(ack.options) == MsgAck
  {
    var discover := DiscoverMessage(hash, chaddr);
    var offer := OfferFor(server, chaddr, hash);
    var request := RequestFor(server, chaddr, hash);
    DiscoverSize(hash, chaddr);
    ReplyDelivered(discover, MsgOffer, BaseAddress, server, FreshBuffer());
    var buffer := Received(FreshBuffer(), Serialize(offer).value);
    RequestSize(offer);
    ReplyDelivered(request, MsgAck, BaseAddress, server, buffer);
  }

  /**
   * The client's run: it sends the Discover, parses the Offer, sends the
   * Request, parses the Ack into the same array, records 128.1.0.1 and, asked
   * to, sends the Release.
   */
  lemma ClientCompletes(server: seq<int8>, chaddr: seq<int8>, serverName: seq<int8>, hash: int32, releaseHash: int32)
    requires |server| == 4 && |chaddr| == 16 && |serverName| >= 4
    ensures var release := ReleaseMessage(releaseHash, chaddr, BaseAddress, serverName);
      && Sent(release).Some?
      && Exchange(chaddr, serverName, Zeros(4), hash, releaseHash,
                  Serialize(OfferFor(server, chaddr, hash)).value, Serialize(AckFor(server, chaddr, hash)).value, true)
         == Completed([Sent(DiscoverMessage(hash, chaddr)).value, Sent(RequestFor(server, chaddr, hash)).value,
                       Sent(release).value], BaseAddress)
  {
    var discover := DiscoverMessage(hash, chaddr);
    var offer := OfferFor(server, chaddr, hash);
    var request := RequestFor(server, chaddr, hash);
    var ack := AckFor(server, chaddr, hash);
    var release := ReleaseMessage(releaseHash, chaddr, BaseAddress, serverName);
    RepliesParsed(server, chaddr, hash);
    DiscoverSize(hash, chaddr);
    RequestSize(offer);
    ReleaseSize(releaseHash, chaddr, BaseAddress, serverName);
    ExchangeAcknowledged(chaddr, serverName, Zeros(4), hash, releaseHash, Serialize(offer).value, Serialize(ack).value,
                         true, offer, ack);
    EmitThree(discover, request, release);
  }

  /** Three messages that can all be sent go out in order. */
  lemma EmitThree(a: Message, b: Message, c: Message)
    requires Sent(a).Some? && Sent(b).Some? && Sent(c).Some?
    ensures Emit(Emit(Emit([], a), b), c) == [Sent(a).value, Sent(b).value, Sent(c).value]
  {
    assert Emit([], a) == [Sent(a).value];
    assert Emit(Emit([], a), b) == [Sent(a).value, Sent(b).value];
  }

  /** The Release frees the address again: the pool is back where the server started. */
  lemma ReleaseAnswered(server: seq<int8>, chaddr: seq<int8>, serverName: seq<int8>, releaseHash: int32)
    requires |server| == 4 && |chaddr| == 16 && |serverName| >= 4
    ensures var release := ReleaseMessage(releaseHash, chaddr, BaseAddress, serverName);
      && Sent(release).Some?
      && ServerStep(Granted(chaddr), server, Sent(release).value) == Served(InitialPool(), None)
  {
    var release := ReleaseMessage(releaseHash, chaddr, BaseAddress, serverName);
    ReleaseDelivered(releaseHash, chaddr, BaseAddress, serverName, FreshBuffer());
    var buffer := Received(FreshBuffer(), Sent(release).value);
    ParsedTypeData(buffer);
    var parsed := ParseMessage(buffer).value;
    assert parsed.chaddr == chaddr;
    InitialValid();
    assert Granted(chaddr)[0].HeldBy(chaddr);
    assert Invariant(Granted(chaddr)) by {
      ReservePreserves(InitialPool(), chaddr, LeaseDuration);
      ReserveNew(InitialPool(), chaddr, LeaseDuration);
      AllocatePreserves(Reserved(chaddr), chaddr);
      LookUpUnique(Reserved(chaddr), chaddr, 0);
    }
    LookUpUnique(Granted(chaddr), chaddr, 0);
    assert PoolRelease(Granted(chaddr), chaddr).pool == InitialPool();
  }
}
