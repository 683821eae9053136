/**
 * The client's side of the exchange (class DHCPClient), without its socket,
 * its console and the network-interface lookup.  The client sends a Discover
 * to a server it knows by name, answers the Offer with a Request, records the
 * address an Ack gives it, and may then send a Release.
 *
 * The builders are functions on `Message`; the class builds the same messages
 * step by step in a `DhcpMessage` and is proved to send exactly their bytes.
 */
module Client {
  import opened Wrappers
  import opened Utility
  import opened Options
  import opened Messages
  import opened Transport

  /** `MACLENGTH`: the hardware address length the client announces. */
  const MacLength: int8 := 6

  /** `leaseDuration`: the lease, in seconds, the client asks for. */
  const LeaseDuration: int32 := 60

  // ---------------------------------------------------------------------------
  // The messages the client builds
  // ---------------------------------------------------------------------------

  /**
   * What `new DatagramPacket(message.retrieveBytes(), message.getLength(), ..)`
   * sends: the first `getLength()` bytes of `retrieveBytes`, so without its
   * trailing zero.  Nothing is sent when `retrieveBytes` throws.
   */
  function Sent(m: Message): (r: Option<seq<int8>>)
    ensures r.Some? <==> Serialize(m).Some?
    ensures r.Some? ==> |r.value| == Length(m) && r.value == Serialize(m).value[..Length(m)]
  {
    match Serialize(m)
    case None => None
    case Some(bytes) =>
      SizedLength(m.options);
      Some(bytes[..Length(m)])
  }

  /** For standard field widths, what is sent is exactly the header and the options. */
  lemma SentWire(m: Message)
    requires FixedWidths(m) && AllSized(m.options)
    ensures AllEncodable(m.options) && Sent(m) == Some(Wire(m)) && |Wire(m)| == Length(m)
  {
    SerializeLayout(m);
    assert (Wire(m) + [0])[..Length(m)] == Wire(m);
  }

  /** A fresh request from this client: zero addresses, names and counters, and the cookie. */
  function NewRequest(xid: seq<int8>, chaddr: seq<int8>, ciaddr: seq<int8>, options: seq<DhcpOption>): (m: Message)
    ensures FixedWidths(m) <==> |xid| == 4 && |chaddr| == 16 && |ciaddr| == 4
    ensures m.op == BootRequest && m.cookie == Cookie && m.options == options
  {
    Message(BootRequest, Ethernet, MacLength, 0, xid, Zeros(2), Zeros(2), ciaddr, Zeros(4), Zeros(4),
            Zeros(4), chaddr, Zeros(64), Zeros(128), Cookie, options)
  }

  /**
   * `DHCPDiscover`: a fresh request whose options are the message type
   * Discover, the 60-second lease and the terminator.  The transaction id is
   * the message object's hash code, big-endian.
   */
  function DiscoverMessage(hash: int32, chaddr: seq<int8>): (m: Message)
    ensures |chaddr| == 16 ==> FixedWidths(m)
    ensures m.op == BootRequest && m.chaddr == chaddr && m.ciaddr == Zeros(4) && |m.options| == 3
    ensures m.options[0].code == MessageTypeCode && m.options[0].data == [MsgDiscover]
    ensures m.options[1].code == LeaseTimeCode && IntOf(m.options[1].data) == LeaseDuration && m.options[2] == End
  {
    NewRequest(ToByteArray(hash), chaddr, Zeros(4),
          [DhcpOption(MessageTypeCode, 1, [MsgDiscover]), DhcpOption(LeaseTimeCode, 4, ToByteArray(LeaseDuration)), End])
  }

  /**
   * `DHCPRequest`: the Offer turned back into a request; the offered address
   * moves from `yourIP` into option 50, the offer's `serverIP` goes into
   * option 54, and the lease is asked for again.
   */
  function RequestMessage(offer: Message): (m: Message)
    ensures FixedWidths(offer) ==> FixedWidths(m)
    ensures m.op == BootRequest && m.yiaddr == Zeros(4) && m.xid == offer.xid && m.chaddr == offer.chaddr
    ensures m.siaddr == offer.siaddr && |m.options| == 5
    ensures m.options[0].code == RequestedAddressCode && m.options[0].data == offer.yiaddr
    ensures m.options[1].code == MessageTypeCode && m.options[1].data == [MsgRequest]
    ensures m.options[2].code == ServerIdentifierCode && m.options[2].data == offer.siaddr
    ensures m.options[3].code == LeaseTimeCode && IntOf(m.options[3].data) == LeaseDuration && m.options[4] == End
  {
    offer.(op := BootRequest, yiaddr := Zeros(4),
           options := [DhcpOption(RequestedAddressCode, 4, offer.yiaddr), DhcpOption(MessageTypeCode, 1, [MsgRequest]),
                       DhcpOption(ServerIdentifierCode, 4, offer.siaddr),
                       DhcpOption(LeaseTimeCode, 4, ToByteArray(LeaseDuration)), End])
  }

  /**
   * `DHCPRelease`: a fresh request with the leased address in `clientIP`.
   * Option 54 is given length 4 and the bytes of the server's name as the
   * client was told it (a text such as "127.0.0.1"), not the server's address.
   */
  function ReleaseMessage(hash: int32, chaddr: seq<int8>, leased: seq<int8>, serverName: seq<int8>): (m: Message)
    ensures |chaddr| == 16 && |leased| == 4 ==> FixedWidths(m)
    ensures m.ciaddr == leased && m.chaddr == chaddr && |m.options| == 3
    ensures m.options[0].code == MessageTypeCode && m.options[0].data == [MsgRelease]
    ensures m.options[1].code == ServerIdentifierCode && m.options[1].data == serverName && m.options[2] == End
  {
    NewRequest(ToByteArray(hash), chaddr, leased, IdentifiedOptions(MsgRelease, serverName))
  }

  // ---------------------------------------------------------------------------
  // What reaches the server
  // ---------------------------------------------------------------------------

  /** The Discover is well formed and goes out as 251 bytes: header, options, no trailing zero. */
  lemma DiscoverSize(hash: int32, chaddr: seq<int8>)
    requires |chaddr| == 16
    ensures var m := DiscoverMessage(hash, chaddr);
      && FixedWidths(m) && WireOptions(m.options) && AllEncodable(m.options)
      && Sent(m) == Some(Wire(m)) && |Wire(m)| == MinLength + 11
  {
    var m := DiscoverMessage(hash, chaddr);
    assert m.options[2..] == [End] && OptionsLength([End]) == 2;
    assert m.options[1..][1..] == m.options[2..] && OptionsLength(m.options[1..]) == 8;
    assert OptionsLength(m.options) == 11;
    WireOptionsSized(m.options);
    SentWire(m);
  }

  /**
   * The server, receiving the Discover into its array, parses back the same
   * message: type Discover, a lease of 60 seconds, and the client's hardware
   * address.
   */
  lemma DiscoverDelivered(hash: int32, chaddr: seq<int8>, buffer: seq<int8>)
    requires |chaddr| == 16 && |buffer| == MaxLength
    ensures var m := DiscoverMessage(hash, chaddr);
      && Sent(m).Some? && |Sent(m).value| == MinLength + 11
      && ParseMessage(Received(buffer, Sent(m).value)) == Some(m)
      && TypeDataPresent(m.options) && MessageType(m.options) == MsgDiscover
      && FindOption(m.options, LeaseTimeCode) == Some(ToByteArray(LeaseDuration))
      && IntOf(ToByteArray(LeaseDuration)) == LeaseDuration
  {
    var m := DiscoverMessage(hash, chaddr);
    DiscoverSize(hash, chaddr);
    assert m.options[0].code != LeaseTimeCode && m.options[1].code == LeaseTimeCode;
    assert OptionIndex(m.options, LeaseTimeCode) == Some(1);
    Delivered(m, [], buffer);
    assert Wire(m) + [] == Wire(m);
    assert TypeIndex(m.options) == Some(0);
    IntOfToByteArray(LeaseDuration);
  }

  /** The Request built from a well-formed Offer is well formed and goes out as 263 bytes. */
  lemma RequestSize(offer: Message)
    requires FixedWidths(offer)
    ensures var m := RequestMessage(offer);
      && FixedWidths(m) && WireOptions(m.options) && AllEncodable(m.options)
      && Sent(m) == Some(Wire(m)) && |Wire(m)| == MinLength + 23
  {
    var m := RequestMessage(offer);
    assert m.options[4..] == [End] && OptionsLength([End]) == 2;
    assert m.options[3..][1..] == m.options[4..] && OptionsLength(m.options[3..]) == 8;
    assert m.options[2..][1..] == m.options[3..] && OptionsLength(m.options[2..]) == 14;
    assert m.options[1..][1..] == m.options[2..] && OptionsLength(m.options[1..]) == 17;
    assert OptionsLength(m.options) == 23;
    WireOptionsSized(m.options);
    SentWire(m);
  }

  /**
   * The Request is parsed back whole: type Request, the offered address in
   * option 50, the 60-second lease; and a server accepts it exactly when its
   * own address is the Offer's `serverIP`.
   */
  lemma RequestDelivered(offer: Message, server: seq<int8>, buffer: seq<int8>)
    requires FixedWidths(offer) && |buffer| == MaxLength
    ensures var m := RequestMessage(offer);
      && Sent(m).Some? && |Sent(m).value| == MinLength + 23
      && ParseMessage(Received(buffer, Sent(m).value)) == Some(m)
      && TypeDataPresent(m.options) && MessageType(m.options) == MsgRequest
      && FindOption(m.options, RequestedAddressCode) == Some(offer.yiaddr)
      && FindOption(m.options, LeaseTimeCode) == Some(ToByteArray(LeaseDuration))
      && m.chaddr == offer.chaddr
      && (IntOf(ToByteArray(LeaseDuration)) < 3600 && m.siaddr == server <==> offer.siaddr == server)
  {
    var m := RequestMessage(offer);
    RequestSize(offer);
    Delivered(m, [], buffer);
    assert Wire(m) + [] == Wire(m);
    assert TypeIndex(m.options) == Some(1);
    assert m.options[0].code != LeaseTimeCode && m.options[1].code != LeaseTimeCode;
    assert m.options[2].code != LeaseTimeCode && m.options[3].code == LeaseTimeCode;
    assert OptionIndex(m.options, LeaseTimeCode) == Some(3);
    IntOfToByteArray(LeaseDuration);
  }

  /**
   * The Release is sent only when the server's name has at least four bytes,
   * and then as 251 bytes: the bytes of the same message with option 54 cut
   * to the name's first four bytes.
   */
  lemma ReleaseSize(hash: int32, chaddr: seq<int8>, leased: seq<int8>, serverName: seq<int8>)
    requires |chaddr| == 16 && |leased| == 4
    ensures var m := ReleaseMessage(hash, chaddr, leased, serverName);
      && (Sent(m).Some? <==> |serverName| >= 4)
      && (|serverName| >= 4 ==>
            var trimmed := m.(options := IdentifiedOptions(MsgRelease, serverName[..4]));
            && FixedWidths(trimmed) && WireOptions(trimmed.options) && AllEncodable(trimmed.options)
            && Sent(m) == Some(Wire(trimmed)) && |Wire(trimmed)| == MinLength + 11)
  {
    var m := ReleaseMessage(hash, chaddr, leased, serverName);
    if |serverName| >= 4 {
      var trimmed := m.(options := IdentifiedOptions(MsgRelease, serverName[..4]));
      IdentifiedOptionsWire(MsgRelease, serverName[..4]);
      forall i | 0 <= i < |m.options| ensures m.options[i].Sized() {
        assert i == 0 || i == 1 || i == 2;
      }
      SentWire(m);
      SentWire(trimmed);
      assert m.options[1..][1..] == trimmed.options[1..][1..];
      assert m.options[1].Bytes() == trimmed.options[1].Bytes();
      assert OptionsBytes(m.options[1..]) == OptionsBytes(trimmed.options[1..]);
      assert OptionsBytes(m.options) == OptionsBytes(trimmed.options);
    } else {
      assert !m.options[1].Sized();
    }
  }

  /**
   * The server receiving the Release parses it with the client's hardware
   * address, the leased address and type Release; option 54 holds the first
   * four bytes of the server's name.
   */
  lemma ReleaseDelivered(hash: int32, chaddr: seq<int8>, leased: seq<int8>, serverName: seq<int8>, buffer: seq<int8>)
    requires |chaddr| == 16 && |leased| == 4 && |serverName| >= 4 && |buffer| == MaxLength
    ensures var m := ReleaseMessage(hash, chaddr, leased, serverName);
      var trimmed := m.(options := IdentifiedOptions(MsgRelease, serverName[..4]));
      && Sent(m).Some?
      && ParseMessage(Received(buffer, Sent(m).value)) == Some(trimmed)
      && TypeDataPresent(trimmed.options) && MessageType(trimmed.options) == MsgRelease
  {
    var m := ReleaseMessage(hash, chaddr, leased, serverName);
    var trimmed := m.(options := IdentifiedOptions(MsgRelease, serverName[..4]));
    ReleaseSize(hash, chaddr, leased, serverName);
    IdentifiedOptionsWire(MsgRelease, serverName[..4]);
    Delivered(trimmed, [], buffer);
    assert Wire(trimmed) + [] == Wire(trimmed);
  }

  // ---------------------------------------------------------------------------
  // A run of the client
  // ---------------------------------------------------------------------------

  /** How `run` ends: an exception escapes it, or it returns with this address recorded. */
  datatype Session = Halted(sent: seq<seq<int8>>) | Completed(sent: seq<seq<int8>>, leased: seq<int8>)

  /** The datagrams sent so far, and the bytes of `m` if it could be sent. */
  function Emit(sent: seq<seq<int8>>, m: Message): (r: seq<seq<int8>>)
    ensures sent <= r && |r| <= |sent| + 1
  {
    match Sent(m)
    case None => sent
    case Some(bytes) => sent + [bytes]
  }

  /**
   * `run`: the Discover, then the Offer received into a fresh 576-byte array,
   * the Request, then the answer received into the SAME array.  Both parses
   * sit outside any try block, so a malformed Offer or answer ends the run
   * with an exception.  An Ack records its `yourIP` and, if the user answers
   * 1, releases it; a Nak, or any other type, leaves the recorded address.
   */
  function Exchange(chaddr: seq<int8>, serverName: seq<int8>, leased: seq<int8>, discoverHash: int32,
               releaseHash: int32, offer: seq<int8>, answer: seq<int8>, release: bool): (s: Session)
    ensures |s.sent| <= (if release then 3 else 2)
  {
    var first := Emit([], DiscoverMessage(discoverHash, chaddr));
    var buffer := Received(FreshBuffer(), offer);
    match ParseMessage(buffer)
    case None => Halted(first)
    case Some(offered) =>
      var second := Emit(first, RequestMessage(offered));
      var buffer' := Received(buffer, answer);
      match ParseMessage(buffer')
      case None => Halted(second)
      case Some(reply) =>
        ParsedTypeData(buffer');
        if MessageType(reply.options) == MsgAck then
          if release then Completed(Emit(second, ReleaseMessage(releaseHash, chaddr, reply.yiaddr, serverName)), reply.yiaddr)
          else Completed(second, reply.yiaddr)
        else Completed(second, leased)
  }

  /** Every datagram the run sends, it sends after those it sent before: the sent list only grows. */
  lemma ExchangeExtends(chaddr: seq<int8>, serverName: seq<int8>, leased: seq<int8>, discoverHash: int32,
                        releaseHash: int32, offer: seq<int8>, answer: seq<int8>, release: bool)
    ensures var s := Exchange(chaddr, serverName, leased, discoverHash, releaseHash, offer, answer, release);
      && Emit([], DiscoverMessage(discoverHash, chaddr)) <= s.sent
      && match ParseMessage(Received(FreshBuffer(), offer))
         case None => s.Halted?
         case Some(offered) => Emit(Emit([], DiscoverMessage(discoverHash, chaddr)), RequestMessage(offered)) <= s.sent
  {
    var first := Emit([], DiscoverMessage(discoverHash, chaddr));
    var buffer := Received(FreshBuffer(), offer);
    match ParseMessage(buffer)
    case None =>
    case Some(offered) =>
      var second := Emit(first, RequestMessage(offered));
      var buffer' := Received(buffer, answer);
      match ParseMessage(buffer')
      case None =>
      case Some(reply) =>
        ParsedTypeData(buffer');
        var s := Exchange(chaddr, serverName, leased, discoverHash, releaseHash, offer, answer, release);
        assert second <= s.sent;
  }

  /** Whatever the server sends, the run's first datagram is the Discover. */
  lemma ExchangeStarts(chaddr: seq<int8>, serverName: seq<int8>, leased: seq<int8>, discoverHash: int32,
                       releaseHash: int32, offer: seq<int8>, answer: seq<int8>, release: bool)
    requires |chaddr| == 16
    ensures var s := Exchange(chaddr, serverName, leased, discoverHash, releaseHash, offer, answer, release);
      |s.sent| >= 1 && Some(s.sent[0]) == Sent(DiscoverMessage(discoverHash, chaddr))
  {
    var first := Emit([], DiscoverMessage(discoverHash, chaddr));
    DiscoverSize(discoverHash, chaddr);
    assert first == [Wire(DiscoverMessage(discoverHash, chaddr))];
    ExchangeExtends(chaddr, serverName, leased, discoverHash, releaseHash, offer, answer, release);
  }

  /** Once an Offer parses, the run's second datagram is the Request built from it. */
  lemma ExchangeRequests(chaddr: seq<int8>, serverName: seq<int8>, leased: seq<int8>, discoverHash: int32,
                         releaseHash: int32, offer: seq<int8>, answer: seq<int8>, release: bool, offered: Message)
    requires |chaddr| == 16 && ParseMessage(Received(FreshBuffer(), offer)) == Some(offered)
    ensures var s := Exchange(chaddr, serverName, leased, discoverHash, releaseHash, offer, answer, release);
      |s.sent| >= 2 && Some(s.sent[1]) == Sent(RequestMessage(offered))
  {
    var first := Emit([], DiscoverMessage(discoverHash, chaddr));
    DiscoverSize(discoverHash, chaddr);
    RequestSize(offered);
    var second := Emit(first, RequestMessage(offered));
    assert second == [Wire(DiscoverMessage(discoverHash, chaddr)), Wire(RequestMessage(offered))];
    ExchangeExtends(chaddr, serverName, leased, discoverHash, releaseHash, offer, answer, release);
  }

  /** The address the run records changes only on an Ack, and then to that Ack's `yourIP`. */
  lemma ExchangeRecords(chaddr: seq<int8>, serverName: seq<int8>, leased: seq<int8>, discoverHash: int32,
                        releaseHash: int32, offer: seq<int8>, answer: seq<int8>, release: bool)
    ensures var s := Exchange(chaddr, serverName, leased, discoverHash, releaseHash, offer, answer, release);
      s.Completed? && s.leased != leased ==>
        match ParseMessage(Received(Received(FreshBuffer(), offer), answer))
        case None => false
        case Some(reply) => TypeDataPresent(reply.options) && MessageType(reply.options) == MsgAck && s.leased == reply.yiaddr
  {
    var buffer := Received(FreshBuffer(), offer);
    var buffer' := Received(buffer, answer);
    if ParseMessage(buffer).Some? && ParseMessage(buffer').Some? {
      ParsedTypeData(buffer');
    }
  }

  /**
   * When the Offer parses and the answer parses as an Ack, the run records the
   * Ack's `yourIP` and sends the Discover, the Request built from that Offer
   * and, if asked to, the Release of the recorded address.
   */
  lemma ExchangeAcknowledged(chaddr: seq<int8>, serverName: seq<int8>, leased: seq<int8>, discoverHash: int32,
                             releaseHash: int32, offer: seq<int8>, answer: seq<int8>, release: bool,
                             offered: Message, reply: Message)
    requires ParseMessage(Received(FreshBuffer(), offer)) == Some(offered)
    requires ParseMessage(Received(Received(FreshBuffer(), offer), answer)) == Some(reply)
    requires TypeDataPresent(reply.options) && MessageType(reply.options) == MsgAck
    ensures var second := Emit(Emit([], DiscoverMessage(discoverHash, chaddr)), RequestMessage(offered));
      Exchange(chaddr, serverName, leased, discoverHash, releaseHash, offer, answer, release)
      == Completed(if release then Emit(second, ReleaseMessage(releaseHash, chaddr, reply.yiaddr, serverName)) else second,
                   reply.yiaddr)
  {
  }

  /** `toBytes` of a list of zeros is all-zero bytes. */
  lemma ZerosNarrowed(list: seq<int32>)
    requires forall i :: 0 <= i < |list| ==> list[i] == 0
    ensures Narrowed(list) == Zeros(|list|)
  {
  }

  /** `toBytes` of an `int` array of `n` zeros, as the builders fill their empty fields. */
  method ZeroBytes(n: nat) returns (r: seq<int8>)
    ensures r == Zeros(n)
  {
    var list: seq<int32> := seq(n, _ => 0);
    r := ToBytes(list);
    ZerosNarrowed(list);
  }

  // ---------------------------------------------------------------------------
  // The class
  // ---------------------------------------------------------------------------

  class DhcpClient {
    /** `macAddress`: the 16 `int`s of `getMacAddress`, the interface's octets padded with zeros. */
    const macAddress: seq<int32>
    /** `IPInUse.getBytes()`: the server's name as the client was given it, as text. */
    const serverName: seq<int8>
    /** `IPAllocated`. */
    var ipAllocated: seq<int8>

    /** `new DHCPClient(serverIP)`, without the socket; the interface's address is a parameter. */
    constructor (mac: seq<int32>, name: seq<int8>)
      requires |mac| == 16
      ensures macAddress == mac && serverName == name && ipAllocated == Zeros(4)
    {
      macAddress := mac;
      serverName := name;
      ipAllocated := Zeros(4);
    }

    /** The bytes `retrieveBytes` writes, cut to `getLength()`; None where either throws. */
    static method Send(message: DhcpMessage) returns (sent: Option<seq<int8>>)
      ensures sent == Sent(message.View())
    {
      var bytes := message.RetrieveBytes();
      if bytes.None? {
        return None;
      }
      var length := message.GetLength();
      SizedLength(message.options);
      sent := Some(bytes.value[..length]);
    }

    /** The fields `DHCPDiscover` and `DHCPRelease` both fill in a fresh message. */
    method FillFresh(message: DhcpMessage, hash: int32)
      modifies message
      ensures message.View() == NewRequest(ToByteArray(hash), Narrowed(macAddress), Zeros(4), old(message.options))
    {
      message.op, message.htype, message.hlen, message.hops := BootRequest, Ethernet, MacLength, 0;
      message.xid := ToByteArray(hash);
      FillCounters(message);
      FillAddresses(message);
      FillNames(message);
    }

    /** Seconds and flags: `toBytes` of two zeros each. */
    method FillCounters(message: DhcpMessage)
      modifies message
      ensures message.View() == old(message.View()).(secs := Zeros(2), flags := Zeros(2))
    {
      var secs := ZeroBytes(2);
      message.secs := secs;
      var flags := ZeroBytes(2);
      message.flags := flags;
    }

    /** The four addresses: `toBytes` of four zeros each. */
    method FillAddresses(message: DhcpMessage)
      modifies message
      ensures message.View() == old(message.View()).(ciaddr := Zeros(4), yiaddr := Zeros(4), siaddr := Zeros(4), giaddr := Zeros(4))
    {
      var zeros := ZeroBytes(4);
      message.ciaddr := zeros;
      message.yiaddr := zeros;
      message.siaddr := zeros;
      message.giaddr := zeros;
    }

    /** The hardware address, the two names and the cookie. */
    method FillNames(message: DhcpMessage)
      modifies message
      ensures message.View() == old(message.View()).(chaddr := Narrowed(macAddress), sname := Zeros(64), file := Zeros(128), cookie := Cookie)
    {
      var chaddr := ToBytes(macAddress);
      message.chaddr := chaddr;
      var sname := ZeroBytes(64);
      message.sname := sname;
      var file := ZeroBytes(128);
      message.file := file;
      message.cookie := Cookie;
    }

    /** `DHCPDiscover`. */
    method DhcpDiscover(hash: int32) returns (sent: Option<seq<int8>>)
      ensures sent == Sent(DiscoverMessage(hash, Narrowed(macAddress)))
    {
      var message := new DhcpMessage();
      FillFresh(message, hash);
      message.AddOption(MessageTypeCode, 1, [MsgDiscover]);
      message.AddOption(LeaseTimeCode, 4, ToByteArray(LeaseDuration));
      var terminator := ZeroBytes(1);
      assert terminator == [0];
      message.AddOption(EndCode, 0, terminator);
      assert message.View() == DiscoverMessage(hash, Narrowed(macAddress));
      sent := Send(message);
    }

    /** `DHCPRequest`: nothing is sent when the Offer does not parse (the catch swallows it). */
    method DhcpRequest(offer: seq<int8>) returns (sent: Option<seq<int8>>)
      ensures sent == match ParseMessage(offer) case None => None case Some(m) => Sent(RequestMessage(m))
    {
      var parsed := DhcpMessage.Parse(offer);
      if parsed.None? {
        return None;
      }
      var message := parsed.value;
      Rebuild(message);
      sent := Send(message);
    }

    /**
     * The body of `DHCPRequest` between the parse and the send: the offered
     * address into option 50, `yourIP` zeroed, then the other options.
     */
    method Rebuild(message: DhcpMessage)
      modifies message
      ensures message.View() == RequestMessage(old(message.View()))
    {
      message.op := BootRequest;
      message.ResetOptions();
      message.AddOption(RequestedAddressCode, 4, message.yiaddr);
      var zeros := ZeroBytes(4);
      message.yiaddr := zeros;
      AddRequestOptions(message);
    }

    /** Options 53 (Request), 54 (the offer's `serverIP`), 51 (the lease) and the terminator. */
    method AddRequestOptions(message: DhcpMessage)
      modifies message
      ensures message.View() == old(message.View()).(options := old(message.options) +
        [DhcpOption(MessageTypeCode, 1, [MsgRequest]), DhcpOption(ServerIdentifierCode, 4, message.siaddr),
         DhcpOption(LeaseTimeCode, 4, ToByteArray(LeaseDuration)), End])
    {
      message.AddOption(MessageTypeCode, 1, [MsgRequest]);
      message.AddOption(ServerIdentifierCode, 4, message.siaddr);
      message.AddOption(LeaseTimeCode, 4, ToByteArray(LeaseDuration));
      var terminator := ZeroBytes(1);
      assert terminator == [0];
      message.AddOption(EndCode, 0, terminator);
    }

    /** `DHCPRelease`: releases the recorded address. */
    method DhcpRelease(hash: int32) returns (sent: Option<seq<int8>>)
      ensures sent == Sent(ReleaseMessage(hash, Narrowed(macAddress), ipAllocated, serverName))
    {
      var message := new DhcpMessage();
      FillFresh(message, hash);
      message.ciaddr := ipAllocated;
      message.AddOption(MessageTypeCode, 1, [MsgRelease]);
      message.AddOption(ServerIdentifierCode, 4, serverName);
      var terminator := ZeroBytes(1);
      assert terminator == [0];
      message.AddOption(EndCode, 0, terminator);
      assert message.View() == ReleaseMessage(hash, Narrowed(macAddress), ipAllocated, serverName);
      sent := Send(message);
    }

    /**
     * `run`, with the two datagrams the server sends, the two hash codes and
     * the user's answer as parameters.
     */
    method Run(discoverHash: int32, releaseHash: int32, offer: seq<int8>, answer: seq<int8>, release: bool)
      returns (s: Session)
      modifies this
      ensures s == Exchange(Narrowed(macAddress), serverName, old(ipAllocated), discoverHash, releaseHash,
                              offer, answer, release)
      ensures ipAllocated == if s.Completed? then s.leased else old(ipAllocated)
    {
      var sent: seq<seq<int8>> := [];
      var discover := DhcpDiscover(discoverHash);
      if discover.Some? {
        sent := sent + [discover.value];
      }
      ghost var chaddr := Narrowed(macAddress);
      assert sent == Emit([], DiscoverMessage(discoverHash, chaddr));
      var buffer := Received(FreshBuffer(), offer);
      var parsed := DhcpMessage.Parse(buffer);
      if parsed.None? {
        return Halted(sent);
      }
      ghost var second := Emit(sent, RequestMessage(parsed.value.View()));
      var request := DhcpRequest(buffer);
      if request.Some? {
        sent := sent + [request.value];
      }
      assert sent == second;
      buffer := Received(buffer, answer);
      var parsed' := DhcpMessage.Parse(buffer);
      if parsed'.None? {
        return Halted(sent);
      }
      var message2 := parsed'.value;
      ParsedTypeData(buffer);
      var kind := message2.GetType();
      if kind == MsgAck {
        ipAllocated := message2.yiaddr;
        if release {
          var released := DhcpRelease(releaseHash);
          if released.Some? {
            sent := sent + [released.value];
          }
        }
      } else if kind == MsgNak {
        return Completed(sent, ipAllocated);
      }
      s := Completed(sent, ipAllocated);
    }
  }
}
