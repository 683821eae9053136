/**
 * One code/length/data option of a DHCP message (class DHCPoption), in the
 * layout of section 2 of RFC 2132: a code byte, a length byte, then the data.
 */
module Options {
  import opened Utility

  /** Option 50, Requested IP Address (section 9.1 of RFC 2132). */
  const RequestedAddressCode: int8 := 50
  /** Option 51, IP Address Lease Time (section 9.2 of RFC 2132). */
  const LeaseTimeCode: int8 := 51
  /** Option 53, DHCP Message Type (section 9.6 of RFC 2132). */
  const MessageTypeCode: int8 := 53
  /** Option 54, Server Identifier (section 9.7 of RFC 2132). */
  const ServerIdentifierCode: int8 := 54
  /** Option 255, End (section 3.2 of RFC 2132), as the signed byte `(byte) 255`. */
  const EndCode: int8 := -1

  /**
   * The constructor `DHCPoption(Code, Length, Data)` stores its three arguments
   * unchanged, and `getCode`, `getLength` and `getData` return them: they are
   * this datatype's constructor and its destructors `code`, `length`, `data`.
   */
  datatype DhcpOption = DhcpOption(code: int8, length: int8, data: seq<int8>)
  {
    /** `getTotalLength`: `(byte) (Length + 2)`, which wraps once Length exceeds 125. */
    function TotalLength(): (r: int8)
      ensures 0 <= length <= 125 ==> r == length + 2
      ensures 125 < length ==> r < 0
    {
      CastToByte(length + 2)
    }

    /** `getBytes` can fill its array: Length is not negative and Data holds Length bytes. */
    predicate Encodable()
    {
      0 <= length as int <= |data|
    }

    /** Encodable, and `getTotalLength` equals the number of bytes `getBytes` returns. */
    predicate Sized()
    {
      Encodable() && length <= 125
    }

    /** The wire form: code, length, then the first Length data bytes. */
    function Bytes(): (r: seq<int8>)
      requires Encodable()
      ensures |r| == 2 + length as int && r[0] == code && r[1] == length
      ensures Sized() ==> |r| == TotalLength()
    {
      [code, length] + data[..length]
    }

    /** `getBytes`: fills a fresh array of `2 + Length` bytes. */
    method GetBytes() returns (tosend: seq<int8>)
      requires Encodable()
      ensures |tosend| == 2 + length
      ensures tosend[0] == code && tosend[1] == length
      ensures tosend[2..] == data[..length]
      ensures tosend == Bytes()
    {
      var k := 2 + length;
      var a := new int8[k];
      a[0] := code;
      a[1] := length;
      for i := 0 to length
        invariant a[0] == code && a[1] == length
        invariant forall n :: 0 <= n < i ==> a[n + 2] == data[n]
      {
        a[i + 2] := data[i];
      }
      tosend := a[..];
      assert tosend[2..] == data[..length];
    }
  }

  /** The terminator `(255, 0, {0})` that every builder appends and that parsing produces. */
  const End := DhcpOption(EndCode, 0, [0])

  /** The terminator is written as the two bytes 255, 0: its data byte is not emitted. */
  lemma EndBytes()
    ensures End.Sized() && End.TotalLength() == 2
    ensures End.Bytes() == [EndCode, 0]
  {
  }
}
