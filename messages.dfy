/**
 * The DHCP message (class DHCPMessage): a fixed 240-byte header laid out as in
 * Figure 1 of section 2 of RFC 2131, followed by a chain of options.
 *
 * `Message` is the value of a message; the class `DhcpMessage` holds the same
 * fields and is what the server and client build step by step.  The wire
 * functions `ParseMessage` and `Serialize` state what the parse constructor and
 * `retrieveBytes` compute, including the cases in which they throw.
 */
module Messages {
  import opened Wrappers
  import opened Utility
  import opened Options

  const BootRequest: int8 := 1
  const BootReply: int8 := 2
  const Ethernet: int8 := 1

  /** Values of option 53. */
  const MsgDiscover: int8 := 1
  const MsgOffer: int8 := 2
  const MsgRequest: int8 := 3
  const MsgDecline: int8 := 4
  const MsgAck: int8 := 5
  const MsgNak: int8 := 6
  const MsgRelease: int8 := 7
  const MsgInform: int8 := 8

  /** `MINLENGTH`: the size of the fixed header. */
  const MinLength: int := 240
  /** `MAXLENGTH`: the size of the buffers datagrams are received into. */
  const MaxLength: int := 576

  /** `COOKIE`: `toBytes({99,130,83,99})`, the magic cookie of section 3 of RFC 2131. */
  const Cookie: seq<int8> := [99, -126, 83, 99]

  datatype Message = Message(
    op: int8, htype: int8, hlen: int8, hops: int8,
    xid: seq<int8>, secs: seq<int8>, flags: seq<int8>,
    ciaddr: seq<int8>, yiaddr: seq<int8>, siaddr: seq<int8>, giaddr: seq<int8>,
    chaddr: seq<int8>, sname: seq<int8>, file: seq<int8>, cookie: seq<int8>,
    options: seq<DhcpOption>)

  /** Every array field has the width that it has in a fresh `DHCPMessage`. */
  predicate FixedWidths(m: Message)
  {
    && |m.xid| == 4 && |m.secs| == 2 && |m.flags| == 2
    && |m.ciaddr| == 4 && |m.yiaddr| == 4 && |m.siaddr| == 4 && |m.giaddr| == 4
    && |m.chaddr| == 16 && |m.sname| == 64 && |m.file| == 128 && |m.cookie| == 4
  }

  /** `new DHCPMessage()`: zero-filled fields, no options (the cookie, too, is zero). */
  function Blank(): (m: Message)
    ensures FixedWidths(m) && m.options == []
  {
    Message(0, 0, 0, 0, Zeros(4), Zeros(2), Zeros(2), Zeros(4), Zeros(4), Zeros(4), Zeros(4),
            Zeros(16), Zeros(64), Zeros(128), Zeros(4), [])
  }

  // ---------------------------------------------------------------------------
  // Serialisation (retrieveBytes, getLength, getOptionsLength)
  // ---------------------------------------------------------------------------

  /** The fixed fields in wire order. */
  function Header(m: Message): (r: seq<int8>)
    ensures FixedWidths(m) ==> |r| == MinLength
  {
    [m.op, m.htype, m.hlen, m.hops] + m.xid + m.secs + m.flags + m.ciaddr + m.yiaddr + m.siaddr
    + m.giaddr + m.chaddr + m.sname + m.file + m.cookie
  }

  /** The array fields of the header, in wire order. */
  function Fields(m: Message): (r: seq<seq<int8>>)
    ensures |r| == 11
  {
    [m.xid, m.secs, m.flags, m.ciaddr, m.yiaddr, m.siaddr, m.giaddr, m.chaddr, m.sname, m.file, m.cookie]
  }

  function Flatten(parts: seq<seq<int8>>): seq<int8>
  {
    if parts == [] then [] else Flatten(parts[..|parts| - 1]) + parts[|parts| - 1]
  }

  /** The header is the four single-byte fields followed by the array fields, flattened. */
  lemma HeaderFields(m: Message)
    ensures Header(m) == [m.op, m.htype, m.hlen, m.hops] + Flatten(Fields(m))
  {
    FlattenEleven(Fields(m));
  }

  /** Eleven parts flatten to their concatenation, taken one prefix at a time. */
  lemma FlattenEleven(f: seq<seq<int8>>)
    requires |f| == 11
    ensures Flatten(f) == f[0] + f[1] + f[2] + f[3] + f[4] + f[5] + f[6] + f[7] + f[8] + f[9] + f[10]
  {
    calc {
      Flatten(f);
    == { assert f[..11] == f; }
      Flatten(f[..11]);
    == { FlattenPrefix(f, 10); }
      Flatten(f[..10]) + f[10];
    == { FlattenPrefix(f, 9); }
      Flatten(f[..9]) + f[9] + f[10];
    == { FlattenPrefix(f, 8); }
      Flatten(f[..8]) + f[8] + f[9] + f[10];
    == { FlattenPrefix(f, 7); }
      Flatten(f[..7]) + f[7] + f[8] + f[9] + f[10];
    == { FlattenPrefix(f, 6); }
      Flatten(f[..6]) + f[6] + f[7] + f[8] + f[9] + f[10];
    == { FlattenPrefix(f, 5); }
      Flatten(f[..5]) + f[5] + f[6] + f[7] + f[8] + f[9] + f[10];
    == { FlattenPrefix(f, 4); }
      Flatten(f[..4]) + f[4] + f[5] + f[6] + f[7] + f[8] + f[9] + f[10];
    == { FlattenPrefix(f, 3); }
      Flatten(f[..3]) + f[3] + f[4] + f[5] + f[6] + f[7] + f[8] + f[9] + f[10];
    == { FlattenPrefix(f, 2); }
      Flatten(f[..2]) + f[2] + f[3] + f[4] + f[5] + f[6] + f[7] + f[8] + f[9] + f[10];
    == { FlattenPrefix(f, 1); }
      Flatten(f[..1]) + f[1] + f[2] + f[3] + f[4] + f[5] + f[6] + f[7] + f[8] + f[9] + f[10];
    == { FlattenPrefix(f, 0); }
      Flatten(f[..0]) + f[0] + f[1] + f[2] + f[3] + f[4] + f[5] + f[6] + f[7] + f[8] + f[9] + f[10];
    == { assert f[..0] == []; }
      f[0] + f[1] + f[2] + f[3] + f[4] + f[5] + f[6] + f[7] + f[8] + f[9] + f[10];
    }
  }

  lemma FlattenPrefix(parts: seq<seq<int8>>, k: nat)
    requires k < |parts|
    ensures Flatten(parts[..k + 1]) == Flatten(parts[..k]) + parts[k]
  {
    assert parts[..k + 1][..k] == parts[..k];
  }

  lemma {:induction false} FlattenBound(parts: seq<seq<int8>>, k: nat)
    requires k < |parts|
    ensures |Flatten(parts[..k])| + |parts[k]| <= |Flatten(parts)|
    decreases |parts|
  {
    if k == |parts| - 1 {
      assert parts[..|parts|] == parts;
    } else {
      var init := parts[..|parts| - 1];
      assert init[..k] == parts[..k] && init[k] == parts[k];
      FlattenBound(init, k);
    }
  }

  /** The header places each fixed field at its offset of Figure 1 of RFC 2131. */
  lemma HeaderLayout(m: Message)
    requires FixedWidths(m)
    ensures var h := Header(m);
      && |h| == MinLength
      && h[0] == m.op && h[1] == m.htype && h[2] == m.hlen && h[3] == m.hops
      && h[4..8] == m.xid && h[8..10] == m.secs && h[10..12] == m.flags
      && h[12..16] == m.ciaddr && h[16..20] == m.yiaddr && h[20..24] == m.siaddr
      && h[24..28] == m.giaddr && h[28..44] == m.chaddr && h[44..108] == m.sname
      && h[108..236] == m.file && h[236..240] == m.cookie
  {
    var h := Header(m);
    var p := [m.op, m.htype, m.hlen, m.hops] + m.xid + m.secs + m.flags + m.ciaddr + m.yiaddr + m.siaddr
             + m.giaddr + m.chaddr + m.sname + m.file;
    assert h == p + m.cookie;
    assert h[..236] == p;
    var q := [m.op, m.htype, m.hlen, m.hops] + m.xid + m.secs + m.flags + m.ciaddr + m.yiaddr + m.siaddr
             + m.giaddr + m.chaddr;
    assert p == q + m.sname + m.file;
    assert h[..108] == q + m.sname;
    assert h[..44] == q;
    var s := [m.op, m.htype, m.hlen, m.hops] + m.xid + m.secs + m.flags + m.ciaddr;
    assert q == s + m.yiaddr + m.siaddr + m.giaddr + m.chaddr;
    assert h[..16] == s;
    assert h[..28] == s + m.yiaddr + m.siaddr + m.giaddr;
    assert h[..24] == s + m.yiaddr + m.siaddr;
    assert h[..20] == s + m.yiaddr;
    assert h[..12] == [m.op, m.htype, m.hlen, m.hops] + m.xid + m.secs + m.flags;
    assert h[..10] == [m.op, m.htype, m.hlen, m.hops] + m.xid + m.secs;
    assert h[..8] == [m.op, m.htype, m.hlen, m.hops] + m.xid;
  }

  predicate AllEncodable(opts: seq<DhcpOption>)
  {
    forall i :: 0 <= i < |opts| ==> opts[i].Encodable()
  }

  predicate AllSized(opts: seq<DhcpOption>)
  {
    forall i :: 0 <= i < |opts| ==> opts[i].Sized()
  }

  /** The options' `getBytes`, concatenated in list order. */
  function OptionsBytes(opts: seq<DhcpOption>): (r: seq<int8>)
    requires AllEncodable(opts)
  {
    if opts == [] then [] else opts[0].Bytes() + OptionsBytes(opts[1..])
  }

  lemma {:induction false} OptionsBytesAppend(a: seq<DhcpOption>, b: seq<DhcpOption>)
    requires AllEncodable(a) && AllEncodable(b)
    ensures AllEncodable(a + b)
    ensures OptionsBytes(a + b) == OptionsBytes(a) + OptionsBytes(b)
  {
    var c := a + b;
    assert AllEncodable(c) by {
      forall i | 0 <= i < |c| ensures c[i].Encodable() {
        if i < |a| {
          assert c[i] == a[i];
        } else {
          assert c[i] == b[i - |a|];
        }
      }
    }
    if a == [] {
      assert c == b;
    } else {
      assert c[0] == a[0] && c[1..] == a[1..] + b;
      OptionsBytesAppend(a[1..], b);
      calc {
        OptionsBytes(c);
        a[0].Bytes() + OptionsBytes(a[1..] + b);
        a[0].Bytes() + (OptionsBytes(a[1..]) + OptionsBytes(b));
        (a[0].Bytes() + OptionsBytes(a[1..])) + OptionsBytes(b);
      }
    }
  }

  /** `getOptionsLength`, as a value: the sum of the options' `getTotalLength`. */
  function OptionsLength(opts: seq<DhcpOption>): (r: int)
    ensures AllSized(opts) ==> r >= 2 * |opts|
  {
    if opts == [] then 0 else opts[0].TotalLength() + OptionsLength(opts[1..])
  }

  /** While no option length wraps, the options take exactly the bytes `getLength` counts. */
  lemma {:induction false} SizedLength(opts: seq<DhcpOption>)
    requires AllSized(opts)
    ensures AllEncodable(opts)
    ensures OptionsLength(opts) == |OptionsBytes(opts)|
  {
    if opts != [] {
      SizedLength(opts[1..]);
    }
  }

  /** `getLength`: the header plus the options' total lengths. */
  function Length(m: Message): (r: int)
    ensures AllSized(m.options) ==> r >= MinLength + 2 * |m.options|
  {
    MinLength + OptionsLength(m.options)
  }

  /**
   * `retrieveBytes`: the header and the options written into a zeroed array of
   * `getLength() + 1` bytes.  It throws, here None, when an option cannot be
   * written (a negative or wrapped length, too little data) or when the fields
   * overrun the array (a field longer than its standard width).
   */
  function Serialize(m: Message): (r: Option<seq<int8>>)
    ensures r.Some? <==> AllSized(m.options) && |Header(m)| <= MinLength + 1
    ensures r.Some? ==> |r.value| == Length(m) + 1
  {
    if !AllSized(m.options) then None
    else
      SizedLength(m.options);
      var body := Header(m) + OptionsBytes(m.options);
      var size := Length(m) + 1;
      if |body| <= size then Some(body + Zeros(size - |body|)) else None
  }

  /** What goes on the wire up to `getLength()`: the header, then each option's bytes. */
  function Wire(m: Message): seq<int8>
    requires AllEncodable(m.options)
  {
    Header(m) + OptionsBytes(m.options)
  }

  /**
   * For a message with standard field widths, `retrieveBytes` returns
   * `getLength() + 1` bytes: the fixed fields at their offsets, the options in
   * list order, then one extra trailing zero byte.
   */
  lemma SerializeLayout(m: Message)
    requires FixedWidths(m) && AllSized(m.options)
    ensures AllEncodable(m.options)
    ensures Serialize(m) == Some(Wire(m) + [0])
    ensures |Wire(m)| == Length(m)
    ensures Wire(m)[..MinLength] == Header(m) && Wire(m)[MinLength..] == OptionsBytes(m.options)
  {
    HeaderLayout(m);
    SizedLength(m.options);
    assert Zeros(1) == [0];
  }

  // ---------------------------------------------------------------------------
  // Parsing (the constructor DHCPMessage(byte[]) and createOptions)
  // ---------------------------------------------------------------------------

  /** An option parsing produces before the terminator. */
  predicate Plain(o: DhcpOption)
  {
    o.code != EndCode && 0 <= o.length as int == |o.data|
  }

  /** A list of options as parsing produces them: plain options, then the terminator. */
  predicate Terminated(opts: seq<DhcpOption>)
  {
    && |opts| > 0 && opts[|opts| - 1] == End
    && forall i :: 0 <= i < |opts| - 1 ==> Plain(opts[i])
  }

  /**
   * `createOptions`: a 255 code byte appends the terminator and stops (one byte
   * is read); any other code, the Pad code 0 included, becomes an option of
   * `2 + length` bytes and the walk continues after it.  Running out of bytes,
   * before a terminator or inside an option, and a negative length throw, here
   * None; the options read so far are then lost along with the message.
   */
  function ParseOptions(buffer: seq<int8>): (r: Option<seq<DhcpOption>>)
    ensures r.Some? ==> Terminated(r.value) && AllEncodable(r.value)
    decreases |buffer|
  {
    if |buffer| == 0 then None
    else if buffer[0] == EndCode then Some([End])
    else if |buffer| < 2 || buffer[1] < 0 || |buffer| < 2 + buffer[1] as int then None
    else
      var k := 2 + buffer[1] as int;
      match ParseOptions(buffer[k..])
      case None => None
      case Some(rest) => Some([DhcpOption(buffer[0], buffer[1], buffer[2..k])] + rest)
  }

  /** Where each array field of the header starts, from `xid` to `cookie`, and where the header ends. */
  const FieldOffsets: seq<nat> := [4, 8, 10, 12, 16, 20, 24, 28, 44, 108, 236, 240]

  /** The fixed fields read from their offsets of Figure 1 of RFC 2131, with no options yet. */
  function Fixed(buffer: seq<int8>): (m: Message)
    requires |buffer| >= MinLength
    ensures FixedWidths(m) && m.options == []
    ensures Header(m) == buffer[..MinLength]
  {
    var m := Message(buffer[0], buffer[1], buffer[2], buffer[3], buffer[4..8], buffer[8..10], buffer[10..12],
                     buffer[12..16], buffer[16..20], buffer[20..24], buffer[24..28], buffer[28..44],
                     buffer[44..108], buffer[108..236], buffer[236..240], []);
    HeaderOfSlices(buffer, m);
    m
  }

  /** The fields cut from the buffer at consecutive offsets are those `Fixed` reads. */
  lemma FixedParts(buffer: seq<int8>, parts: seq<seq<int8>>)
    requires |buffer| >= MinLength && |parts| == |FieldOffsets| - 1
    requires forall n :: 0 <= n < |parts| ==> parts[n] == buffer[FieldOffsets[n]..FieldOffsets[n + 1]]
    ensures Fixed(buffer) == Message(buffer[0], buffer[1], buffer[2], buffer[3], parts[0], parts[1], parts[2],
                                     parts[3], parts[4], parts[5], parts[6], parts[7], parts[8], parts[9], parts[10], [])
  {
    assert FieldOffsets[0] == 4 && FieldOffsets[1] == 8 && FieldOffsets[2] == 10 && FieldOffsets[3] == 12;
    assert FieldOffsets[4] == 16 && FieldOffsets[5] == 20 && FieldOffsets[6] == 24 && FieldOffsets[7] == 28;
    assert FieldOffsets[8] == 44 && FieldOffsets[9] == 108 && FieldOffsets[10] == 236 && FieldOffsets[11] == 240;
  }

  /**
   * The parse constructor: the fixed fields at their offsets, then the options
   * only when at least two bytes follow offset 240.  A buffer shorter than the
   * header throws, here None.  The cookie is not checked.
   */
  function ParseMessage(buffer: seq<int8>): (r: Option<Message>)
    ensures r.Some? <==> |buffer| >= MinLength && (|buffer| > MinLength + 1 ==> ParseOptions(buffer[MinLength..]).Some?)
    ensures r.Some? ==> FixedWidths(r.value) && Header(r.value) == buffer[..MinLength]
    ensures r.Some? && |buffer| <= MinLength + 1 ==> r.value.options == []
    ensures r.Some? && |buffer| > MinLength + 1 ==> r.value.options == ParseOptions(buffer[MinLength..]).value
  {
    if |buffer| < MinLength then None
    else if |buffer| - 1 <= MinLength then Some(Fixed(buffer))
    else match ParseOptions(buffer[MinLength..])
      case None => None
      case Some(opts) => Some(Fixed(buffer).(options := opts))
  }

  lemma HeaderOfSlices(buffer: seq<int8>, m: Message)
    requires |buffer| >= MinLength
    requires m.op == buffer[0] && m.htype == buffer[1] && m.hlen == buffer[2] && m.hops == buffer[3]
    requires m.xid == buffer[4..8] && m.secs == buffer[8..10] && m.flags == buffer[10..12]
    requires m.ciaddr == buffer[12..16] && m.yiaddr == buffer[16..20] && m.siaddr == buffer[20..24]
    requires m.giaddr == buffer[24..28] && m.chaddr == buffer[28..44] && m.sname == buffer[44..108]
    requires m.file == buffer[108..236] && m.cookie == buffer[236..240]
    ensures Header(m) == buffer[..MinLength]
  {
    assert buffer[..8] == buffer[..4] + buffer[4..8];
    assert buffer[..10] == buffer[..8] + buffer[8..10];
    assert buffer[..12] == buffer[..10] + buffer[10..12];
    assert buffer[..16] == buffer[..12] + buffer[12..16];
    assert buffer[..20] == buffer[..16] + buffer[16..20];
    assert buffer[..24] == buffer[..20] + buffer[20..24];
    assert buffer[..28] == buffer[..24] + buffer[24..28];
    assert buffer[..44] == buffer[..28] + buffer[28..44];
    assert buffer[..108] == buffer[..44] + buffer[44..108];
    assert buffer[..236] == buffer[..108] + buffer[108..236];
    assert buffer[..240] == buffer[..236] + buffer[236..240];
  }

  /** Reading the fixed fields back from a written header gives the message's own fields. */
  lemma FixedOfHeader(m: Message, tail: seq<int8>)
    requires FixedWidths(m)
    ensures |Header(m) + tail| >= MinLength
    ensures Fixed(Header(m) + tail) == m.(options := [])
  {
    HeaderLayout(m);
    var b := Header(m) + tail;
    var h := Header(m);
    assert b[..MinLength] == h;
    var p := Fixed(b);
    assert p.xid == b[4..8] == h[4..8];
    assert p.secs == b[8..10] == h[8..10];
    assert p.flags == b[10..12] == h[10..12];
    assert p.ciaddr == b[12..16] == h[12..16];
    assert p.yiaddr == b[16..20] == h[16..20];
    assert p.siaddr == b[20..24] == h[20..24];
    assert p.giaddr == b[24..28] == h[24..28];
    assert p.chaddr == b[28..44] == h[28..44];
    assert p.sname == b[44..108] == h[44..108];
    assert p.file == b[108..236] == h[108..236];
    assert p.cookie == b[236..240] == h[236..240];
  }

  // ---------------------------------------------------------------------------
  // Round trips
  // ---------------------------------------------------------------------------

  /** An option that parsing gives back unchanged: not a terminator, a length that does not wrap, exact data. */
  predicate RoundTrips(o: DhcpOption)
  {
    o.code != EndCode && 0 <= o.length <= 125 && |o.data| == o.length as int
  }

  /** The options a message must carry for parse to give them back. */
  predicate WireOptions(opts: seq<DhcpOption>)
  {
    && |opts| > 0 && opts[|opts| - 1] == End
    && forall i :: 0 <= i < |opts| - 1 ==> RoundTrips(opts[i])
  }

  lemma WireOptionsSized(opts: seq<DhcpOption>)
    requires WireOptions(opts)
    ensures AllSized(opts) && AllEncodable(opts)
  {
    forall i | 0 <= i < |opts| ensures opts[i].Sized() {
      if i < |opts| - 1 {
        assert RoundTrips(opts[i]);
      }
    }
  }

  /**
   * Parsing the written options gives them back, whatever follows the
   * terminator: the End option is written as two bytes and read as one.
   */
  lemma {:induction false} OptionsRoundTrip(opts: seq<DhcpOption>, tail: seq<int8>)
    requires WireOptions(opts)
    ensures AllEncodable(opts)
    ensures ParseOptions(OptionsBytes(opts) + tail) == Some(opts)
  {
    WireOptionsSized(opts);
    if |opts| == 1 {
      assert opts == [End];
      assert OptionsBytes(opts) == [EndCode, 0];
    } else {
      var o, rest := opts[0], opts[1..];
      assert RoundTrips(o);
      assert WireOptions(rest) by {
        forall i | 0 <= i < |rest| - 1 ensures RoundTrips(rest[i]) {
          assert rest[i] == opts[i + 1];
        }
      }
      WireOptionsSized(rest);
      var buffer := OptionsBytes(opts) + tail;
      var k := 2 + o.length;
      assert buffer == [o.code, o.length] + o.data + (OptionsBytes(rest) + tail);
      assert buffer[k..] == OptionsBytes(rest) + tail;
      assert buffer[2..k] == o.data;
      OptionsRoundTrip(rest, tail);
      assert [DhcpOption(buffer[0], buffer[1], buffer[2..k])] + rest == opts;
    }
  }

  /**
   * Parsing what a message writes gives back that message: every fixed field
   * and every option, whatever bytes follow (the trailing zero of
   * `retrieveBytes`, the zero padding of a receive buffer).
   */
  lemma ParseWire(m: Message, tail: seq<int8>)
    requires FixedWidths(m) && WireOptions(m.options)
    ensures AllEncodable(m.options)
    ensures ParseMessage(Wire(m) + tail) == Some(m)
  {
    HeaderLayout(m);
    OptionsRoundTrip(m.options, tail);
    var rest := OptionsBytes(m.options) + tail;
    assert |OptionsBytes(m.options)| >= 2 by {
      WireOptionsSized(m.options);
      OptionsBytesAppend(m.options[..|m.options| - 1], [End]);
      assert m.options[..|m.options| - 1] + [End] == m.options;
    }
    var buffer := Wire(m) + tail;
    assert buffer == Header(m) + rest;
    assert buffer[MinLength..] == rest;
    FixedOfHeader(m, rest);
  }

  /** The round trip through `retrieveBytes`: `parse(retrieveBytes(m)) == m`. */
  lemma ParseSerialized(m: Message)
    requires FixedWidths(m) && WireOptions(m.options)
    ensures Serialize(m).Some? && ParseMessage(Serialize(m).value) == Some(m)
  {
    WireOptionsSized(m.options);
    SerializeLayout(m);
    ParseWire(m, [0]);
  }

  // ---------------------------------------------------------------------------
  // Queries (getType, getOptionData)
  // ---------------------------------------------------------------------------

  /** An option `getType` reads: code 53 with length 1. */
  predicate IsTypeOption(o: DhcpOption)
  {
    o.code == MessageTypeCode && o.length == 1
  }

  /** `getType` reads `getData()[0]`, which throws unless the option carries data. */
  predicate TypeDataPresent(opts: seq<DhcpOption>)
  {
    forall i :: 0 <= i < |opts| && IsTypeOption(opts[i]) ==> |opts[i].data| > 0
  }

  /** The position of the first option `getType` reads. */
  function TypeIndex(opts: seq<DhcpOption>): (r: Option<nat>)
    ensures r.Some? ==> r.value < |opts| && IsTypeOption(opts[r.value])
    ensures r.Some? ==> forall j :: 0 <= j < r.value ==> !IsTypeOption(opts[j])
    ensures r.None? ==> forall j :: 0 <= j < |opts| ==> !IsTypeOption(opts[j])
  {
    if opts == [] then None
    else if IsTypeOption(opts[0]) then Some(0)
    else match TypeIndex(opts[1..])
      case None => None
      case Some(i) => Some(i + 1)
  }

  /** The message type: the data byte of the first code-53, length-1 option, otherwise 0. */
  function MessageType(opts: seq<DhcpOption>): (r: int8)
    requires TypeDataPresent(opts)
    ensures r != 0 ==> exists i :: 0 <= i < |opts| && IsTypeOption(opts[i]) && opts[i].data[0] == r
    ensures (forall i :: 0 <= i < |opts| ==> !IsTypeOption(opts[i])) ==> r == 0
  {
    match TypeIndex(opts)
    case None => 0
    case Some(i) => opts[i].data[0]
  }

  /** The position of the first option with the given code. */
  function OptionIndex(opts: seq<DhcpOption>, code: int8): (r: Option<nat>)
    ensures r.Some? ==> r.value < |opts| && opts[r.value].code == code
    ensures r.Some? ==> forall j :: 0 <= j < r.value ==> opts[j].code != code
    ensures r.None? ==> forall j :: 0 <= j < |opts| ==> opts[j].code != code
  {
    if opts == [] then None
    else if opts[0].code == code then Some(0)
    else match OptionIndex(opts[1..], code)
      case None => None
      case Some(i) => Some(i + 1)
  }

  /** `getOptionData`, as a value: the data of the first option with the code, or null. */
  function FindOption(opts: seq<DhcpOption>, code: int8): (r: Option<seq<int8>>)
    ensures r.None? <==> forall i :: 0 <= i < |opts| ==> opts[i].code != code
    ensures r.Some? ==> exists i :: 0 <= i < |opts| && opts[i].code == code && opts[i].data == r.value
  {
    match OptionIndex(opts, code)
    case None => None
    case Some(i) => Some(opts[i].data)
  }

  /**
   * The options every reply of the server and the client's Release carry:
   * the message type, a four-byte server identifier, the terminator.
   */
  function IdentifiedOptions(kind: int8, server: seq<int8>): seq<DhcpOption>
  {
    [DhcpOption(MessageTypeCode, 1, [kind]), DhcpOption(ServerIdentifierCode, 4, server), End]
  }

  /**
   * With a four-byte identifier these options survive the wire, `getLength`
   * counts them as 11 bytes, and `getType` reads back the type.
   */
  lemma IdentifiedOptionsWire(kind: int8, server: seq<int8>)
    requires |server| == 4
    ensures var opts := IdentifiedOptions(kind, server);
      && WireOptions(opts) && AllSized(opts) && AllEncodable(opts) && OptionsLength(opts) == 11
      && TypeDataPresent(opts) && MessageType(opts) == kind
      && FindOption(opts, ServerIdentifierCode) == Some(server)
  {
    var opts := IdentifiedOptions(kind, server);
    assert opts[2..] == [End] && OptionsLength([End]) == 2;
    assert opts[1..][1..] == opts[2..] && OptionsLength(opts[1..]) == 8;
    WireOptionsSized(opts);
    assert TypeIndex(opts) == Some(0);
    assert OptionIndex(opts, ServerIdentifierCode) == Some(1);
  }

  /** Parsed options always let `getType` read its data byte. */
  lemma ParsedTypeData(buffer: seq<int8>)
    requires ParseMessage(buffer).Some?
    ensures TypeDataPresent(ParseMessage(buffer).value.options)
  {
    var opts := ParseMessage(buffer).value.options;
    forall i | 0 <= i < |opts| && IsTypeOption(opts[i]) ensures |opts[i].data| > 0 {
      if |buffer| > MinLength + 1 {
        assert i < |opts| - 1 ==> Plain(opts[i]);
      }
    }
  }

  // ---------------------------------------------------------------------------
  // The class
  // ---------------------------------------------------------------------------

  /** Copies `n` bytes of `buffer` from offset `from` into a fresh array. */
  method CopyOut(buffer: seq<int8>, from: nat, n: nat) returns (out: seq<int8>)
    requires from + n <= |buffer|
    ensures out == buffer[from..from + n]
  {
    var a := new int8[n];
    for i := 0 to n
      invariant forall k :: 0 <= k < i ==> a[k] == buffer[from + k]
    {
      a[i] := buffer[from + i];
    }
    out := a[..];
  }

  /**
   * Writes `src` into `dest` at the cursor `at`, behind the bytes `written`
   * already there; fails when `src` does not fit (Java throws part-way, and the
   * array is discarded).
   */
  method Put(dest: array<int8>, at: nat, src: seq<int8>, ghost written: seq<int8>) returns (ok: bool)
    requires at == |written| <= dest.Length
    requires dest[..] == written + Zeros(dest.Length - at)
    modifies dest
    ensures ok <==> at + |src| <= dest.Length
    ensures ok ==> dest[..] == written + src + Zeros(dest.Length - at - |src|)
  {
    if at + |src| > dest.Length {
      return false;
    }
    for i := 0 to |src|
      invariant forall k :: 0 <= k < at ==> dest[k] == written[k]
      invariant forall k :: 0 <= k < i ==> dest[at + k] == src[k]
      invariant forall k :: at + i <= k < dest.Length ==> dest[k] == 0
    {
      dest[at + i] := src[i];
    }
    assert dest[..] == written + src + Zeros(dest.Length - at - |src|);
    return true;
  }

  /**
   * One round of the option loop of `retrieveBytes`: `getBytes`, then
   * `System.arraycopy` of `getTotalLength` bytes at the cursor.  Fails when
   * `getBytes` throws, when the total length wrapped negative, or when the
   * bytes run past the end of `dest`.
   */
  method WriteOption(dest: array<int8>, at: nat, option: DhcpOption, ghost written: seq<int8>)
    returns (ok: bool, next: nat)
    requires at == |written| <= dest.Length
    requires dest[..] == written + Zeros(dest.Length - at)
    modifies dest
    ensures ok <==> option.Sized() && at + 2 + option.length <= dest.Length
    ensures ok ==> next == at + |option.Bytes()|
    ensures ok ==> dest[..] == written + option.Bytes() + Zeros(dest.Length - next)
  {
    if !option.Encodable() {
      // getBytes: a negative array size, or a Data index past the end
      return false, at;
    }
    var bytes := option.GetBytes();
    var total := option.TotalLength();
    if total < 0 || at + total > dest.Length {
      // System.arraycopy with a negative length, or past the end of toReturn
      return false, at;
    }
    ok := Put(dest, at, bytes, written);
    next := at + total;
  }

  /** The array fields of the header, each copied in turn behind the cursor. */
  method WriteFields(dest: array<int8>, at: nat, fields: seq<seq<int8>>, ghost written: seq<int8>)
    returns (ok: bool, j: nat)
    requires at == |written| <= dest.Length
    requires dest[..] == written + Zeros(dest.Length - at)
    modifies dest
    ensures ok <==> at + |Flatten(fields)| <= dest.Length
    ensures ok ==> j == at + |Flatten(fields)| && dest[..] == written + Flatten(fields) + Zeros(dest.Length - j)
  {
    j := at;
    for k := 0 to |fields|
      invariant j == at + |Flatten(fields[..k])| <= dest.Length
      invariant dest[..] == written + Flatten(fields[..k]) + Zeros(dest.Length - j)
    {
      FlattenPrefix(fields, k);
      ok := Put(dest, j, fields[k], written + Flatten(fields[..k]));
      if !ok {
        FlattenBound(fields, k);
        return;
      }
      j := j + |fields[k]|;
    }
    assert fields[..|fields|] == fields;
    ok := true;
  }

  class DhcpMessage {
    var op: int8
    var htype: int8
    var hlen: int8
    var hops: int8
    var xid: seq<int8>
    var secs: seq<int8>
    var flags: seq<int8>
    var ciaddr: seq<int8>
    var yiaddr: seq<int8>
    var siaddr: seq<int8>
    var giaddr: seq<int8>
    var chaddr: seq<int8>
    var sname: seq<int8>
    var file: seq<int8>
    var cookie: seq<int8>
    var options: seq<DhcpOption>

    function View(): Message
      reads this
    {
      Message(op, htype, hlen, hops, xid, secs, flags, ciaddr, yiaddr, siaddr, giaddr, chaddr,
              sname, file, cookie, options)
    }

    /** `new DHCPMessage()`. */
    constructor ()
      ensures View() == Blank()
    {
      op, htype, hlen, hops := 0, 0, 0, 0;
      xid, secs, flags := Zeros(4), Zeros(2), Zeros(2);
      ciaddr, yiaddr, siaddr, giaddr := Zeros(4), Zeros(4), Zeros(4), Zeros(4);
      chaddr, sname, file, cookie := Zeros(16), Zeros(64), Zeros(128), Zeros(4);
      options := [];
    }

    /**
     * `new DHCPMessage(buffer)`: copies the fixed fields with a moving cursor,
     * then hands the rest to `createOptions`.  None where Java throws.
     */
    static method Parse(buffer: seq<int8>) returns (r: Option<DhcpMessage>)
      ensures r.Some? <==> ParseMessage(buffer).Some?
      ensures r.Some? ==> fresh(r.value) && r.value.View() == ParseMessage(buffer).value
    {
      if |buffer| < MinLength {
        // one of the fixed-field reads falls past the end of the buffer
        return None;
      }
      var m := new DhcpMessage.ReadFixed(buffer);
      var j := MinLength;
      if j < |buffer| - 1 {
        var k := |buffer| - j;
        var buffered := CopyOut(buffer, j, k);
        assert buffered == buffer[MinLength..];
        var ok := m.CreateOptions(buffered);
        if !ok {
          return None;
        }
      }
      return Some(m);
    }

    /**
     * The fixed-field half of the parse constructor: op..hops, then each array
     * field copied out in turn behind a cursor.
     */
    constructor ReadFixed(buffer: seq<int8>)
      requires |buffer| >= MinLength
      ensures View() == Fixed(buffer)
    {
      var parts: seq<seq<int8>> := [];
      var j := 4;
      for k := 0 to |FieldOffsets| - 1
        invariant |parts| == k && j == FieldOffsets[k]
        invariant forall n :: 0 <= n < k ==> parts[n] == buffer[FieldOffsets[n]..FieldOffsets[n + 1]]
      {
        var width := FieldOffsets[k + 1] - FieldOffsets[k];
        var field := CopyOut(buffer, j, width);
        parts, j := parts + [field], j + width;
      }
      FixedParts(buffer, parts);
      op, htype, hlen, hops := buffer[0], buffer[1], buffer[2], buffer[3];
      xid, secs, flags := parts[0], parts[1], parts[2];
      ciaddr, yiaddr, siaddr, giaddr := parts[3], parts[4], parts[5], parts[6];
      chaddr, sname, file, cookie := parts[7], parts[8], parts[9], parts[10];
      options := [];
    }

    /** `createOptions`: the recursive walk, appending each option it reads. */
    method CreateOptions(buffer: seq<int8>) returns (ok: bool)
      modifies this
      decreases |buffer|
      ensures ok <==> ParseOptions(buffer).Some?
      ensures ok ==> View() == old(View()).(options := old(options) + ParseOptions(buffer).value)
      ensures View() == old(View()).(options := options)
    {
      if |buffer| == 0 {
        // Buffer[0] is read past the end
        return false;
      }
      if buffer[0] == EndCode {
        AddOption(EndCode, 0, [0]);
        return true;
      }
      if |buffer| < 2 {
        // Buffer[1] is read past the end
        return false;
      }
      var option := buffer[0];
      var length := buffer[1];
      var k := length as int + 2;
      if length < 0 || |buffer| < k {
        // new byte[length] with a negative length, or a data byte past the end
        return false;
      }
      var data := CopyOut(buffer, 2, length);
      AddOption(option, length, data);
      var l := |buffer| - k;
      var topass := CopyOut(buffer, k, l);
      assert topass == buffer[k..];
      ok := CreateOptions(topass);
    }

    /** `addOption`: appends a new option at the end of the list. */
    method AddOption(code: int8, length: int8, data: seq<int8>)
      modifies this
      ensures View() == old(View()).(options := old(options) + [DhcpOption(code, length, data)])
    {
      options := options + [DhcpOption(code, length, data)];
    }

    /** `resetoptions`: empties the option list; the fixed fields stay as they are. */
    method ResetOptions()
      modifies this
      ensures View() == old(View()).(options := [])
    {
      options := [];
    }

    /** `getType`: the data byte of the first code-53, length-1 option, otherwise 0. */
    method GetType() returns (t: int8)
      requires TypeDataPresent(options)
      ensures t == MessageType(options)
      ensures (forall i :: 0 <= i < |options| ==> !IsTypeOption(options[i])) ==> t == 0
    {
      for i := 0 to |options|
        invariant forall k :: 0 <= k < i ==> !IsTypeOption(options[k])
      {
        var opt := options[i];
        if opt.code == MessageTypeCode && opt.length == 1 {
          return opt.data[0];
        }
      }
      return 0;
    }

    /** `getOptionData`: the data of the first option with the code, or null. */
    method GetOptionData(code: int8) returns (r: Option<seq<int8>>)
      ensures r == FindOption(options, code)
      ensures r.Some? <==> exists i :: 0 <= i < |options| && options[i].code == code
    {
      for i := 0 to |options|
        invariant forall k :: 0 <= k < i ==> options[k].code != code
      {
        if options[i].code == code {
          return Some(options[i].data);
        }
      }
      return None;
    }

    /** `getOptionsLength`: sums `getTotalLength` over the list. */
    method GetOptionsLength() returns (length: int)
      ensures length == OptionsLength(options)
      ensures AllSized(options) ==> length == |OptionsBytes(options)|
    {
      length := 0;
      var i := |options|;
      // summed from the back, so that each step adds a term of the recursive definition
      while i > 0
        invariant 0 <= i <= |options|
        invariant length == OptionsLength(options[i..])
      {
        i := i - 1;
        assert options[i..][1..] == options[i + 1..];
        length := length + options[i].TotalLength();
      }
      assert options[0..] == options;
      if AllSized(options) {
        SizedLength(options);
      }
    }

    /** `getLength`: `MINLENGTH + getOptionsLength()`. */
    method GetLength() returns (length: int)
      ensures length == Length(View())
      ensures length == MinLength + OptionsLength(options)
    {
      length := GetOptionsLength();
      length := MinLength + length;
    }

    /**
     * The fixed-field half of `retrieveBytes`: op..hops, then each array field
     * in turn behind the cursor.  Fails when a field runs past the end of `dest`.
     */
    method WriteHeader(dest: array<int8>) returns (ok: bool, j: nat)
      requires dest.Length >= 4 && dest[..] == Zeros(dest.Length)
      modifies dest
      ensures ok <==> |Header(View())| <= dest.Length
      ensures ok ==> j == |Header(View())| && dest[..] == Header(View()) + Zeros(dest.Length - j)
    {
      dest[0], dest[1], dest[2], dest[3] := op, htype, hlen, hops;
      ghost var written := [op, htype, hlen, hops];
      assert dest[..] == written + Zeros(dest.Length - 4);
      HeaderFields(View());
      ok, j := WriteFields(dest, 4, Fields(View()), written);
    }

    /**
     * `retrieveBytes`: writes the fixed fields and then every option's bytes
     * into a zeroed array of `getLength() + 1` bytes behind a moving cursor.
     */
    method RetrieveBytes() returns (r: Option<seq<int8>>)
      ensures r == Serialize(View())
    {
      r := None;
      var size := GetLength();
      size := size + 1;
      if AllSized(options) {
        SizedLength(options);
      }
      if size < 4 {
        // a negative array size, or op..hops written past the end (only with wrapped lengths)
        return;
      }
      var toReturn := new int8[size](_ => 0);
      var ok, j := WriteHeader(toReturn);
      if !ok {
        return;
      }
      ok := WriteOptions(toReturn, j);
      if ok {
        r := Some(toReturn[..]);
      }
    }

    /**
     * The option half of `retrieveBytes`: each option's bytes copied behind
     * the cursor with `System.arraycopy` of `getTotalLength` bytes.
     */
    method WriteOptions(dest: array<int8>, start: nat) returns (ok: bool)
      requires start == |Header(View())| <= dest.Length && dest.Length == Length(View()) + 1
      requires dest[..] == Header(View()) + Zeros(dest.Length - start)
      modifies dest
      ensures ok <==> Serialize(View()).Some?
      ensures ok ==> dest[..] == Serialize(View()).value
    {
      ghost var m := View();
      var opts := options;
      var size := dest.Length;
      var j := start;
      ghost var written := Header(m);
      for i := 0 to |opts|
        invariant j == |written| <= size
        invariant forall k :: 0 <= k < i ==> opts[k].Sized()
        invariant AllEncodable(opts[..i]) && written == Header(m) + OptionsBytes(opts[..i])
        invariant dest[..] == written + Zeros(size - j)
      {
        var next;
        ok, next := WriteOption(dest, j, opts[i], written);
        if !ok {
          WriteStops(m, i);
          return false;
        }
        OptionsPrefixStep(opts, i);
        j, written := next, written + opts[i].Bytes();
      }
      assert opts[..|opts|] == opts;
      SerializedWhole(m, written);
      return true;
    }
  }

  /**
   * Once the cursor has reached option `i`, an option that does not fit means
   * the whole message does not fit.
   */
  lemma OverrunUnserializable(m: Message, i: nat)
    requires i < |m.options| && AllEncodable(m.options[..i + 1])
    requires |Header(m)| + |OptionsBytes(m.options[..i + 1])| > Length(m) + 1
    ensures Serialize(m).None?
  {
    if AllSized(m.options) {
      SizedLength(m.options);
      assert m.options == m.options[..i + 1] + m.options[i + 1..];
      OptionsBytesAppend(m.options[..i + 1], m.options[i + 1..]);
    }
  }

  /** When the option at the cursor cannot be written, neither can the message. */
  lemma WriteStops(m: Message, i: nat)
    requires i < |m.options| && AllEncodable(m.options[..i])
    requires !(m.options[i].Sized()
               && |Header(m)| + |OptionsBytes(m.options[..i])| + 2 + m.options[i].length <= Length(m) + 1)
    ensures Serialize(m).None?
  {
    if m.options[i].Sized() {
      OptionsPrefixStep(m.options, i);
      OverrunUnserializable(m, i);
    } else {
      UnsizedUnserializable(m, i);
    }
  }

  /** An option that `getBytes` or `arraycopy` cannot write makes the whole message unwritable. */
  lemma UnsizedUnserializable(m: Message, i: nat)
    requires i < |m.options| && !m.options[i].Sized()
    ensures Serialize(m).None?
  {
  }

  /** Once every option is written, the array holds the serialised message. */
  lemma SerializedWhole(m: Message, written: seq<int8>)
    requires AllSized(m.options) && AllEncodable(m.options)
    requires written == Header(m) + OptionsBytes(m.options) && |written| <= Length(m) + 1
    ensures Serialize(m) == Some(written + Zeros(Length(m) + 1 - |written|))
  {
    SizedLength(m.options);
  }

  /** The bytes of the first `i + 1` options extend those of the first `i` by option `i`'s. */
  lemma OptionsPrefixStep(opts: seq<DhcpOption>, i: nat)
    requires i < |opts| && AllEncodable(opts[..i]) && opts[i].Encodable()
    ensures AllEncodable(opts[..i + 1])
    ensures OptionsBytes(opts[..i + 1]) == OptionsBytes(opts[..i]) + opts[i].Bytes()
  {
    assert opts[..i + 1] == opts[..i] + [opts[i]];
    OptionsBytesAppend(opts[..i], [opts[i]]);
    assert OptionsBytes([opts[i]]) == opts[i].Bytes();
  }
}
