/**
 * What the UDP transport does to a message's bytes, as far as the server and
 * the client can observe it.  A `DatagramPacket` receives into a fixed
 * 576-byte array: the datagram's bytes overwrite the start of the array and
 * the rest of the array keeps what it held before, and `getData()` hands the
 * whole array to the parse constructor.
 */
module Transport {
  import opened Wrappers
  import opened Utility
  import opened Options
  import opened Messages

  /** The receive array after a datagram has arrived in it (cut off at the array's size). */
  function Received(buffer: seq<int8>, datagram: seq<int8>): (r: seq<int8>)
    ensures |r| == |buffer|
    ensures forall i :: 0 <= i < |r| ==> r[i] == if i < |datagram| then datagram[i] else buffer[i]
  {
    if |datagram| >= |buffer| then datagram[..|buffer|] else datagram + buffer[|datagram|..]
  }

  /** A fresh receive array: `new byte[576]`. */
  function FreshBuffer(): (r: seq<int8>)
    ensures |r| == MaxLength
  {
    Zeros(MaxLength)
  }

  /**
   * A message written on the wire and received into any array of the usual
   * size is parsed back as the same message, whatever the array held before
   * and whatever bytes follow the message's own (such as the trailing zero of
   * `retrieveBytes`).
   */
  lemma Delivered(m: Message, extra: seq<int8>, buffer: seq<int8>)
    requires FixedWidths(m) && WireOptions(m.options)
    requires |buffer| == MaxLength
    ensures AllEncodable(m.options)
    ensures |Wire(m) + extra| <= MaxLength ==> ParseMessage(Received(buffer, Wire(m) + extra)) == Some(m)
  {
    WireOptionsSized(m.options);
    var datagram := Wire(m) + extra;
    if |datagram| <= MaxLength {
      var tail := if |datagram| == MaxLength then extra else extra + buffer[|datagram|..];
      assert Received(buffer, datagram) == Wire(m) + tail;
      ParseWire(m, tail);
    }
  }
}
