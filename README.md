# A verified model of a small DHCP client and server

This project models, in Dafny, the core of a small Java implementation of DHCP. It covers three parts.

- **The wire codec** (`Utility`, `DHCPoption`, `DHCPMessage`).
  - A message has a 240-byte fixed header, laid out as in Figure 1 of RFC 2131.
  - After the header comes a chain of code/length/data options, as in section 2 of RFC 2132.
  - The message is parsed by a cursor walk and written back by `retrieveBytes`.
- **The server's address pool** (`IPContainer`, `IPStorage`).
  - Five addresses from 128.1.0.1.
  - Each address moves between free, reserved and allocated.
  - An allocated lease expires after a number of timer ticks.
- **The protocol handlers** (`DHCPServer`, `DHCPClient`).
  - The server's dispatch on the message type.
  - Its Offer, Ack and Nak replies and the Release handling.
  - The client's Discover, Request and Release messages and its `run`.

Java's `byte` is modelled as the signed `int8` and Java's `int` as `int32`. The narrowing cast `(byte) x` and the wrap-around of `int` arithmetic are written out as `CastToByte` and `WrapInt`. So the octet 255 is the byte -1, and the cookie 99.130.83.99 is `[99, -126, 83, 99]`.

Code that changes state in place keeps that form:
- `DhcpMessage`, `IpContainer`, `IpStorage`, `DhcpServer` and `DhcpClient` are classes.
- Their methods assign fields and loop as the Java does.
- Each class exposes its value through a function (`View()`, `Pool()`).
- Each method is proved equal to a function on values (`ParseMessage`, `Serialize`, `PoolReserve`, `Offer`, `Exchange`, ...).
- The properties the program promises are lemmas about those functions.

A Java exception is modelled as an explicit result. Where the exception escapes (a parse in `run`), the result is `Halted`. Where it only stops a send, the result is `None`.

Modules, one per source file plus two:
- `Wrappers`: Option.
- `Utility`.
- `Options` (DHCPoption).
- `Messages` (DHCPMessage).
- `Leases` (IPContainer).
- `Storage` (IPStorage).
- `Transport`: what a 576-byte receive array does to a datagram.
- `Server` (DHCPServer).
- `Client` (DHCPClient).
- `Scenario`: one client and one fresh server going through the whole Discover, Offer, Request, Ack, Release exchange, byte for byte.

## Model

| member | source | states |
|---|---|---|
| `Utility.CastToByte` | DHCP-master/DHCP-master/sources/DHCPHelper/Utility.java:12 | `(byte) x` differs from `x` by a multiple of 256 and leaves a value already in byte range unchanged |
| `Utility.WrapInt` | DHCP-master/DHCP-master/sources/DHCPHelper/Utility.java:26 | `int` arithmetic: the result differs from the exact value by a multiple of 2^32 and equals it when it is in range |
| `Utility.ToBytes` | DHCP-master/DHCP-master/sources/DHCPHelper/Utility.java:7-14 | the array has the list's length, and byte i is the low 8 bits of `list[i]` |
| `Utility.ToByteArray` | DHCP-master/DHCP-master/sources/DHCPHelper/Utility.java:16-19 | exactly 4 bytes, whose big-endian unsigned value is `value` mod 2^32 (most significant byte first) |
| `Utility.ToInt` | DHCP-master/DHCP-master/sources/DHCPHelper/Utility.java:21-29 | the shift-and-add loop yields the big-endian value of the bytes taken mod 2^32, and 0 for an empty array |
| `Utility.IntOfToByteArray` | DHCP-master/DHCP-master/sources/DHCPHelper/Utility.java:16-29 | round trip `toInt(toByteArray(v)) == v` for every 32-bit `v` |
| `Utility.ToByteArrayIntOf` | DHCP-master/DHCP-master/sources/DHCPHelper/Utility.java:16-29 | round trip `toByteArray(toInt(b)) == b` for every 4-byte `b` |
| `Utility.UnsignedByte` | DHCP-master/DHCP-master/sources/DHCPHelper/Utility.java:31-34 | `unsignedByte(b)` lies in 0..255 and is congruent to `b` mod 256 |
| `Utility.UnsignedOfCast` | DHCP-master/DHCP-master/sources/DHCPHelper/Utility.java:31-34 | `unsignedByte((byte) x)` is `x` mod 256 |
| `Utility.CastOfUnsigned` | DHCP-master/DHCP-master/sources/DHCPHelper/Utility.java:31-34 | narrowing `unsignedByte(b)` back gives `b` |
| `Utility.UnsignedBytes` | DHCP-master/DHCP-master/sources/DHCPHelper/Utility.java:36-42 | same length, `unsignedByte` applied to each element |
| `Utility.BigEndian` | DHCP-master/DHCP-master/sources/DHCPHelper/Utility.java:21-29 | the unsigned big-endian value of the bytes, most significant first, without wrap-around; it is below 256 to the power of the byte count |
| `Utility.IntOf` | DHCP-master/DHCP-master/sources/DHCPHelper/Utility.java:21-29 | what `toInt` returns: differs from the big-endian value by a multiple of 2^32, and equals it when it is below 2^31 |
| `Options.DhcpOption.TotalLength` | DHCP-master/DHCP-master/sources/DHCPHelper/DHCPoption.java:27-29 | `getTotalLength` is `Length + 2` while Length is at most 125, and negative (wrapped) above |
| `Options.DhcpOption.Bytes` | DHCP-master/DHCP-master/sources/DHCPHelper/DHCPoption.java:55-64 | the wire form of an option: `2 + Length` bytes starting with Code and Length; while Length is at most 125 that count is `getTotalLength` |
| `Options.DhcpOption.GetBytes` | DHCP-master/DHCP-master/sources/DHCPHelper/DHCPoption.java:55-64 | exactly `2 + Length` bytes: Code, Length, then the first Length data bytes (data beyond Length is not emitted) |
| `Options.EndBytes` | DHCP-master/DHCP-master/sources/DHCPHelper/DHCPoption.java:55-64 | the terminator `(255, 0, {0})` is written as the two bytes 255, 0 and counts 2 bytes |
| `Messages.Blank` | DHCP-master/DHCP-master/sources/DHCPHelper/DHCPMessage.java:60-113 | a fresh message has the standard field widths (4, 2, 2, 4×4, 16, 64, 128, 4) and no options |
| `Messages.Header` | DHCP-master/DHCP-master/sources/DHCPHelper/DHCPMessage.java:266-315 | the fixed fields in the order `retrieveBytes` writes them; 240 bytes when every field has its standard width |
| `Messages.HeaderLayout` | DHCP-master/DHCP-master/sources/DHCPHelper/DHCPMessage.java:266-315 | the header is 240 bytes with op at 0 … hops at 3, xid at 4..7, secs 8..9, flags 10..11, ciaddr 12..15, yiaddr 16..19, siaddr 20..23, giaddr 24..27, chaddr 28..43, sname 44..107, file 108..235, cookie 236..239 |
| `Messages.HeaderFields` | DHCP-master/DHCP-master/sources/DHCPHelper/DHCPMessage.java:266-315 | the header is op, htype, hlen, hops followed by the eleven array fields in the order the cursor writes them |
| `Messages.OptionsBytesAppend` | DHCP-master/DHCP-master/sources/DHCPHelper/DHCPMessage.java:317-320 | the bytes of two option lists written one after the other are the bytes of the joined list |
| `Messages.OptionsBytes` | DHCP-master/DHCP-master/sources/DHCPHelper/DHCPMessage.java:317-320 | the options' `getBytes` concatenated in list order; what it amounts to is stated by `SizedLength` and `OptionsBytesAppend` |
| `Messages.OptionsLength` | DHCP-master/DHCP-master/sources/DHCPHelper/DHCPMessage.java:336-342 | `getOptionsLength`: the sum of `getTotalLength`; with no wrapped length, at least 2 per option |
| `Messages.Length` | DHCP-master/DHCP-master/sources/DHCPHelper/DHCPMessage.java:328-331 | `getLength`: 240 plus the options' length; with no wrapped length, at least 240 + 2 per option |
| `Messages.SizedLength` | DHCP-master/DHCP-master/sources/DHCPHelper/DHCPMessage.java:336-342 | while no option length wraps, `getOptionsLength` equals the number of bytes the options are written as |
| `Messages.Serialize` | DHCP-master/DHCP-master/sources/DHCPHelper/DHCPMessage.java:262-323 | `retrieveBytes` completes exactly when every option can be copied and the header fits in `getLength() + 1` bytes, and then returns `getLength() + 1` bytes |
| `Messages.SerializeLayout` | DHCP-master/DHCP-master/sources/DHCPHelper/DHCPMessage.java:262-323 | with standard widths, `retrieveBytes` is the header, then each option's bytes in list order, then one trailing zero, and `getLength()` counts all but that zero |
| `Messages.ParseOptions` | DHCP-master/DHCP-master/sources/DHCPHelper/DHCPMessage.java:234-257 | a completed option walk ends with exactly one terminator `(255, 0, {0})`, and every option is encodable, so `getBytes` can fill its array; lengths 126 and 127 parse but cannot be serialised, since `getTotalLength` wraps negative |
| `Messages.Fixed` | DHCP-master/DHCP-master/sources/DHCPHelper/DHCPMessage.java:143-194 | the fixed fields read at their offsets have the standard widths, and their header is exactly the buffer's first 240 bytes |
| `Messages.ParseMessage` | DHCP-master/DHCP-master/sources/DHCPHelper/DHCPMessage.java:143-204 | the parse succeeds iff the buffer has 240 bytes and, when more than 241, the option walk completes; the fixed fields are the first 240 bytes; options are read only when at least 2 bytes follow offset 240 |
| `Messages.FixedOfHeader` | DHCP-master/DHCP-master/sources/DHCPHelper/DHCPMessage.java:143-194 | reading back a written header gives the same fixed fields, whatever follows it |
| `Messages.OptionsRoundTrip` | DHCP-master/DHCP-master/sources/DHCPHelper/DHCPMessage.java:234-257 | options that are non-terminators with `0 <= Length <= 125` and exactly Length data bytes, followed by one terminator, parse back from their bytes unchanged, whatever bytes follow |
| `Messages.ParseWire` | DHCP-master/DHCP-master/sources/DHCPHelper/DHCPMessage.java:143-204 | parsing the bytes sent for a message with standard widths and such options, followed by anything, gives back the whole message |
| `Messages.ParseSerialized` | DHCP-master/DHCP-master/sources/DHCPHelper/DHCPMessage.java:262-323 | round trip: `retrieveBytes` succeeds and the parse constructor applied to its output rebuilds the message, fixed fields and options |
| `Messages.TypeIndex` | DHCP-master/DHCP-master/sources/DHCPHelper/DHCPMessage.java:222-227 | the option `getType` stops at is the first with code 53 and length 1, and there is none when it returns 0 |
| `Messages.MessageType` | DHCP-master/DHCP-master/sources/DHCPHelper/DHCPMessage.java:222-227 | `getType`: a non-zero type is the data byte of some code-53, length-1 option, and the type is 0 when there is no such option |
| `Messages.OptionIndex` | DHCP-master/DHCP-master/sources/DHCPHelper/DHCPMessage.java:376-384 | the option `getOptionData` returns is the first with that code, and there is none when it returns null |
| `Messages.FindOption` | DHCP-master/DHCP-master/sources/DHCPHelper/DHCPMessage.java:376-384 | `getOptionData`: null exactly when no option has the code; otherwise the data of an option with that code |
| `Messages.IdentifiedOptionsWire` | DHCP-master/DHCP-master/sources/DHCPServer/DHCPServer.java:130-138 | the options type, server identifier (4 bytes), terminator can be written and read back, count 11 bytes, and give back their type and identifier |
| `Messages.ParsedTypeData` | DHCP-master/DHCP-master/sources/DHCPHelper/DHCPMessage.java:222-227 | on any parsed message `getType` can read the data byte of a code-53, length-1 option (no exception) |
| `Messages.WriteOption` | DHCP-master/DHCP-master/sources/DHCPHelper/DHCPMessage.java:317-320 | the `arraycopy` of one option succeeds iff `getBytes` can fill its array and the bytes fit behind the cursor, and then writes exactly those bytes |
| `Messages.WriteFields` | DHCP-master/DHCP-master/sources/DHCPHelper/DHCPMessage.java:273-315 | the field loops succeed iff all fields fit, and then write them one after the other behind the cursor |
| `Messages.DhcpMessage.constructor` | DHCP-master/DHCP-master/sources/DHCPHelper/DHCPMessage.java:134-137 | `new DHCPMessage()` is the blank message |
| `Messages.DhcpMessage.Parse` | DHCP-master/DHCP-master/sources/DHCPHelper/DHCPMessage.java:143-204 | the parse constructor returns a fresh message iff the parse succeeds, and the message is the parsed value |
| `Messages.DhcpMessage.ReadFixed` | DHCP-master/DHCP-master/sources/DHCPHelper/DHCPMessage.java:145-194 | the cursor loops copy each fixed field from its offset |
| `Messages.DhcpMessage.CreateOptions` | DHCP-master/DHCP-master/sources/DHCPHelper/DHCPMessage.java:234-257 | the recursive walk completes iff the option parse does, appends exactly the parsed options, and leaves the fixed fields unchanged |
| `Messages.DhcpMessage.AddOption` | DHCP-master/DHCP-master/sources/DHCPHelper/DHCPMessage.java:121-124 | appends the option at the end and changes nothing else |
| `Messages.DhcpMessage.ResetOptions` | DHCP-master/DHCP-master/sources/DHCPHelper/DHCPMessage.java:367-369 | empties the option list and leaves the fixed fields unchanged |
| `Messages.DhcpMessage.GetType` | DHCP-master/DHCP-master/sources/DHCPHelper/DHCPMessage.java:222-227 | returns `data[0]` of the first code-53, length-1 option, and 0 when there is none |
| `Messages.DhcpMessage.GetOptionData` | DHCP-master/DHCP-master/sources/DHCPHelper/DHCPMessage.java:376-384 | returns the data of the first option with the code, and null exactly when no option has it |
| `Messages.DhcpMessage.GetOptionsLength` | DHCP-master/DHCP-master/sources/DHCPHelper/DHCPMessage.java:336-342 | the sum of `getTotalLength` over the list, which is the options' byte count while no length wraps |
| `Messages.DhcpMessage.GetLength` | DHCP-master/DHCP-master/sources/DHCPHelper/DHCPMessage.java:328-331 | `240 + getOptionsLength()` |
| `Messages.DhcpMessage.WriteHeader` | DHCP-master/DHCP-master/sources/DHCPHelper/DHCPMessage.java:266-315 | writes the header at the start of the zeroed array, and fails exactly when it is longer than the array |
| `Messages.DhcpMessage.WriteOptions` | DHCP-master/DHCP-master/sources/DHCPHelper/DHCPMessage.java:317-322 | the option loop completes exactly when the whole message can be written, and the array then holds the serialised message |
| `Messages.DhcpMessage.RetrieveBytes` | DHCP-master/DHCP-master/sources/DHCPHelper/DHCPMessage.java:262-323 | `retrieveBytes` returns exactly the serialisation of the message, or fails where Java throws |
| `Leases.Lease.Reserve` | DHCP-master/DHCP-master/sources/DHCPServer/IPContainer.java:36-41 | the entry is reserved by the MAC with the given lease; the address is unchanged |
| `Leases.Lease.Allocate` | DHCP-master/DHCP-master/sources/DHCPServer/IPContainer.java:46-49 | the entry is allocated; reserver, lease and address are unchanged |
| `Leases.Lease.Release` | DHCP-master/DHCP-master/sources/DHCPServer/IPContainer.java:54-59 | from any state the entry is free again, with no reserver and lease -1 |
| `Leases.Lease.Tick` | DHCP-master/DHCP-master/sources/DHCPServer/IPContainer.java:81-84 | the lease drops by exactly one (wrapping below the smallest `int`) and nothing else changes |
| `Leases.StateQueries` | DHCP-master/DHCP-master/sources/DHCPServer/IPContainer.java:64-75 | `isReserved` and `isAllocated` are never both true, and both are false exactly when the entry is free |
| `Leases.Fresh` | DHCP-master/DHCP-master/sources/DHCPServer/IPContainer.java:23-29 | a new container keeps its address, is neither reserved nor allocated, and is held by no MAC |
| `Leases.IpContainer.constructor` | DHCP-master/DHCP-master/sources/DHCPServer/IPContainer.java:23-29 | a new container is free, with no reserver and lease -1 |
| `Leases.IpContainer.Reserve` | DHCP-master/DHCP-master/sources/DHCPServer/IPContainer.java:36-41 | the container's new value is `Reserve` of its old value |
| `Leases.IpContainer.Allocate` | DHCP-master/DHCP-master/sources/DHCPServer/IPContainer.java:46-49 | the container's new value is `Allocate` of its old value |
| `Leases.IpContainer.Release` | DHCP-master/DHCP-master/sources/DHCPServer/IPContainer.java:54-59 | the container's new value is `Release` of its old value |
| `Leases.IpContainer.Update` | DHCP-master/DHCP-master/sources/DHCPServer/IPContainer.java:81-84 | the container's new value is `Tick` of its old value |
| `Storage.HolderIndex` | DHCP-master/DHCP-master/sources/DHCPServer/IPStorage.java:77-82 | the entry `lookUp` stops at is the first whose reserver is the MAC, and there is none when it returns null |
| `Storage.FreeIndex` | DHCP-master/DHCP-master/sources/DHCPServer/IPStorage.java:93-99 | the entry `reserveAddress` takes is the first free one in list order, and there is none when it returns null |
| `Storage.PoolLookUp` | DHCP-master/DHCP-master/sources/DHCPServer/IPStorage.java:77-82 | `lookUp`: null exactly when no entry is held by the MAC; otherwise the address of an entry it holds |
| `Storage.PoolReserve` | DHCP-master/DHCP-master/sources/DHCPServer/IPStorage.java:90-100 | `reserveAddress` keeps every address; a returned address is the one `lookUp` now finds for the MAC; null means no entry was free and nothing changed; the only entries that change become reserved by the MAC with the lease |
| `Storage.PoolAllocate` | DHCP-master/DHCP-master/sources/DHCPServer/IPStorage.java:107-121 | `allocateAddress` returns what `lookUp` returns, keeps every address, changes nothing when that is null, and otherwise only allocates entries the MAC holds |
| `Storage.PoolRelease` | DHCP-master/DHCP-master/sources/DHCPServer/IPStorage.java:128-138 | `release` answers true iff `lookUp` finds the MAC, keeps every address, changes nothing on false, and otherwise only frees entries the MAC holds |
| `Storage.Sweep` | DHCP-master/DHCP-master/sources/DHCPServer/IPStorage.java:158-173 | `update` leaves a non-allocated entry alone, decrements an allocated lease above 1, and frees an allocated entry whose lease is 1 or less |
| `Storage.PoolUpdate` | DHCP-master/DHCP-master/sources/DHCPServer/IPStorage.java:158-173 | `update` sweeps each entry in place: addresses are kept and entries that are not allocated are left alone |
| `Storage.LookUpUnique` | DHCP-master/DHCP-master/sources/DHCPServer/IPStorage.java:77-82 | under the pool invariant the entry held by a MAC is the one `lookUp` finds, and its address is returned |
| `Storage.ReserveNew` | DHCP-master/DHCP-master/sources/DHCPServer/IPStorage.java:90-100 | for a MAC with no entry: the first free entry becomes reserved by it with the lease, its address is returned and `lookUp` now finds it, the other entries are unchanged; with no free entry, null and no change |
| `Storage.ReserveIdempotent` | DHCP-master/DHCP-master/sources/DHCPServer/IPStorage.java:92 | reserving again for a MAC that got an address returns the same address and changes nothing |
| `Storage.OperationsKeepAddresses` | DHCP-master/DHCP-master/sources/DHCPServer/IPStorage.java:90-173 | reserve, allocate, release and update never change the pool's size or any entry's address |
| `Storage.ReservePreserves` | DHCP-master/DHCP-master/sources/DHCPServer/IPStorage.java:90-100 | `reserveAddress` keeps the invariant: at most one entry per reserver, and a reserver exactly on non-free entries |
| `Storage.AllocatePreserves` | DHCP-master/DHCP-master/sources/DHCPServer/IPStorage.java:107-121 | `allocateAddress` keeps the invariant |
| `Storage.ReleasePreserves` | DHCP-master/DHCP-master/sources/DHCPServer/IPStorage.java:128-138 | `release` keeps the invariant, and afterwards `lookUp` of the MAC is null |
| `Storage.UpdatePreserves` | DHCP-master/DHCP-master/sources/DHCPServer/IPStorage.java:158-173 | `update` keeps the invariant |
| `Storage.ReleaseOnly` | DHCP-master/DHCP-master/sources/DHCPServer/IPStorage.java:128-138 | `release` answers true iff the MAC has an entry; then exactly that entry is freed and all others are unchanged; otherwise nothing changes |
| `Storage.AllocateOnly` | DHCP-master/DHCP-master/sources/DHCPServer/IPStorage.java:107-121 | `allocateAddress` returns null and changes nothing for a MAC with no entry; otherwise it allocates exactly that entry with its lease unchanged and returns its address |
| `Storage.UpdateTimesEntry` | DHCP-master/DHCP-master/sources/DHCPServer/IPStorage.java:158-173 | n calls of `update` act on each entry independently |
| `Storage.ExpiresExactly` | DHCP-master/DHCP-master/sources/DHCPServer/IPStorage.java:158-173 | an allocated entry with lease d ≥ 1 has lease d - k after k < d updates and is freed by exactly the d-th |
| `Storage.UnallocatedStays` | DHCP-master/DHCP-master/sources/DHCPServer/IPStorage.java:158-173 | reserved and free entries are untouched by any number of updates |
| `Storage.Exhaustion` | DHCP-master/DHCP-master/sources/DHCPServer/IPStorage.java:90-100 | once new MACs have reserved every remaining free entry, the pool is full and a further new MAC gets null |
| `Storage.InitialPool` | DHCP-master/DHCP-master/sources/DHCPServer/IPStorage.java:29-43 | `init` builds exactly five entries |
| `Storage.NextAddress` | DHCP-master/DHCP-master/sources/DHCPServer/IPStorage.java:51-57 | `toInt` + 1 of 128.1.0.(i+1), written back with `toByteArray`, is 128.1.0.(i+2): the addresses are consecutive |
| `Storage.InitialValid` | DHCP-master/DHCP-master/sources/DHCPServer/IPStorage.java:20-43 | the initial pool satisfies the invariant and every entry is free |
| `Storage.SixthReserveFails` | DHCP-master/DHCP-master/sources/DHCPServer/IPStorage.java:90-100 | starting from the initial pool, after five distinct new MACs reserve, no entry is free and a sixth MAC gets null |
| `Storage.IncrementIpAddress` | DHCP-master/DHCP-master/sources/DHCPServer/IPStorage.java:51-57 | throws (None) unless the address has 4 bytes; otherwise 4 bytes whose `toInt` is that of the input plus one, in `int` arithmetic |
| `Storage.IpStorage.constructor` | DHCP-master/DHCP-master/sources/DHCPServer/IPStorage.java:20-24 | the new pool is the initial pool (128.1.0.1 to 128.1.0.5, all free) and satisfies the invariant |
| `Storage.IpStorage.Init` | DHCP-master/DHCP-master/sources/DHCPServer/IPStorage.java:29-43 | the loop creates five distinct fresh containers whose values are the initial pool |
| `Storage.IpStorage.LookUp` | DHCP-master/DHCP-master/sources/DHCPServer/IPStorage.java:77-82 | returns `PoolLookUp` of the pool, non-null iff some container's reserver is the MAC, and changes nothing |
| `Storage.IpStorage.ReserveAddress` | DHCP-master/DHCP-master/sources/DHCPServer/IPStorage.java:90-100 | the containers' new values and the result are `PoolReserve` of the old pool; the invariant is kept |
| `Storage.IpStorage.AllocateAddress` | DHCP-master/DHCP-master/sources/DHCPServer/IPStorage.java:107-121 | the new pool and result are `PoolAllocate` of the old pool; the invariant is kept |
| `Storage.IpStorage.Release` | DHCP-master/DHCP-master/sources/DHCPServer/IPStorage.java:128-138 | the new pool and result are `PoolRelease` of the old pool; the invariant is kept |
| `Storage.IpStorage.Update` | DHCP-master/DHCP-master/sources/DHCPServer/IPStorage.java:158-173 | the new pool is `PoolUpdate` of the old one; the invariant is kept |
| `Transport.Received` | DHCP-master/DHCP-master/sources/DHCPServer/DHCPServer.java:68-72 | the receive array keeps its size; the datagram's bytes overwrite its start and the rest keeps what it held |
| `Transport.FreshBuffer` | DHCP-master/DHCP-master/sources/DHCPServer/DHCPServer.java:68 | the receive array has 576 bytes |
| `Transport.Delivered` | DHCP-master/DHCP-master/sources/DHCPServer/DHCPServer.java:68-81 | a message with standard widths and well-formed options, sent with any trailing bytes that fit, parses back from any 576-byte array as itself |
| `Server.Reply` | DHCP-master/DHCP-master/sources/DHCPServer/DHCPServer.java:116-138 | a reply has op 2, the given `yourIP`, the server's address as `serverIP`, options exactly type, server identifier, terminator, and every other fixed field copied from the request |
| `Server.Accepts` | DHCP-master/DHCP-master/sources/DHCPServer/DHCPServer.java:159-168 | a request is accepted iff it carries option 51, that lease read by `toInt` is below 3600, and its fixed `serverIP` field is this server's address |
| `Server.Offer` | DHCP-master/DHCP-master/sources/DHCPServer/DHCPServer.java:113-152 | `DHCPOffer` never stops the server and keeps every address; without option 51 nothing changes and nothing is sent; a sent Offer carries the address `lookUp` now finds for the client |
| `Server.Ack` | DHCP-master/DHCP-master/sources/DHCPServer/DHCPServer.java:175-220 | `DHCPAck` keeps every address, leaves the pool as it is for a client with no entry, only allocates entries the client holds, and sends nothing without option 50 |
| `Server.Nak` | DHCP-master/DHCP-master/sources/DHCPServer/DHCPServer.java:227-271 | `DHCPNak` keeps every address, leaves the pool as it is for a client with no entry, only frees entries the client holds, and sends nothing without option 50 |
| `Server.ReleaseLease` | DHCP-master/DHCP-master/sources/DHCPServer/DHCPServer.java:278-282 | `handleDHCPRelease` sends nothing, keeps every address and only frees entries the client holds; that the held entry is freed is `ReleaseFrees` |
| `Server.Dispatch` | DHCP-master/DHCP-master/sources/DHCPServer/DHCPServer.java:85-101 | the switch never stops the server and keeps every address; only a Discover or a Request is ever answered |
| `Server.ServerStep` | DHCP-master/DHCP-master/sources/DHCPServer/DHCPServer.java:64-104 | one pass of `run` halts exactly when the receive array does not parse, and otherwise keeps every address of the pool |
| `Server.OtherTypesIgnored` | DHCP-master/DHCP-master/sources/DHCPServer/DHCPServer.java:85-101 | a request whose type is not Discover, Request or Release gets no reply and leaves the pool unchanged |
| `Server.DispatchPreserves` | DHCP-master/DHCP-master/sources/DHCPServer/DHCPServer.java:85-101 | every dispatched request keeps the pool invariant and the pool's addresses |
| `Server.ReplyDelivered` | DHCP-master/DHCP-master/sources/DHCPServer/DHCPServer.java:143-147 | a reply to a well-formed request is sent as 252 bytes and parses back, in any 576-byte array, with its type and server identifier |
| `Server.OfferReserves` | DHCP-master/DHCP-master/sources/DHCPServer/DHCPServer.java:113-143 | with option 51 present, the pool becomes what `reserve` makes of it for the requested lease, and an Offer is sent iff the reservation succeeds; it then offers that address, which `lookUp` now finds for the client |
| `Server.RejectedRequestReleases` | DHCP-master/DHCP-master/sources/DHCPServer/DHCPServer.java:227-259 | a rejected Request frees the client's entry and is answered by a Nak whose `yourIP` is option 50 |
| `Server.ReleaseFrees` | DHCP-master/DHCP-master/sources/DHCPServer/DHCPServer.java:278-282 | under the invariant a Release frees the entry the client holds, leaves every other entry as it was, leaves the client holding nothing and sends no reply |
| `Server.LongLeaseRejected` | DHCP-master/DHCP-master/sources/DHCPServer/DHCPServer.java:159-168 | a Request asking for a lease of 3600 or more is not accepted |
| `Server.AcceptedRequestAllocates` | DHCP-master/DHCP-master/sources/DHCPServer/DHCPServer.java:175-208 | an accepted Request allocates exactly the client's entry, keeping its lease, and is answered by an Ack whose `yourIP` is option 50 |
| `Server.UnknownClientAcked` | DHCP-master/DHCP-master/sources/DHCPServer/DHCPServer.java:175-208 | an accepted Request from a client that holds no entry leaves the pool unchanged and is still answered by an Ack whose `yourIP` is option 50, because the result of `allocateAddress` is ignored |
| `Server.DhcpServer.constructor` | DHCP-master/DHCP-master/sources/DHCPServer/DHCPServer.java:33-45 | the server starts with the initial pool and its own address |
| `Server.DhcpServer.Tick` | DHCP-master/DHCP-master/sources/DHCPServer/DHCPServer.java:55-62 | the timer's action updates the pool as `PoolUpdate` says |
| `Server.DhcpServer.HandleDatagram` | DHCP-master/DHCP-master/sources/DHCPServer/DHCPServer.java:63-105 | one pass of the loop is `ServerStep`: a malformed datagram halts the server with the pool unchanged, otherwise the pool becomes the step's pool |
| `Server.DhcpServer.DhcpOffer` | DHCP-master/DHCP-master/sources/DHCPServer/DHCPServer.java:113-152 | the reply and the new pool are those of `Offer` on the parsed request |
| `Server.DhcpServer.Reserve` | DHCP-master/DHCP-master/sources/DHCPServer/DHCPServer.java:121-122 | reserves with the lease `toInt` reads from option 51, as `PoolReserve` says |
| `Server.DhcpServer.CanAcceptRequest` | DHCP-master/DHCP-master/sources/DHCPServer/DHCPServer.java:159-168 | true iff option 51 is present, its `toInt` is below 3600, and the request's fixed `serverIP` field equals the server's address |
| `Server.DhcpServer.DhcpAck` | DHCP-master/DHCP-master/sources/DHCPServer/DHCPServer.java:175-220 | the reply and the new pool are those of `Ack` on the parsed request |
| `Server.DhcpServer.DhcpNak` | DHCP-master/DHCP-master/sources/DHCPServer/DHCPServer.java:227-271 | the reply and the new pool are those of `Nak` on the parsed request |
| `Server.DhcpServer.Answer` | DHCP-master/DHCP-master/sources/DHCPServer/DHCPServer.java:186-208 | without option 50 nothing is sent; otherwise the reply carries option 50's data as `yourIP` |
| `Server.DhcpServer.Compose` | DHCP-master/DHCP-master/sources/DHCPServer/DHCPServer.java:184-208 | the field and option assignments followed by `retrieveBytes` send exactly the serialised `Reply` |
| `Server.DhcpServer.HandleDhcpRelease` | DHCP-master/DHCP-master/sources/DHCPServer/DHCPServer.java:278-282 | the new pool is `PoolRelease` of the old one, and nothing is sent |
| `Client.Sent` | DHCP-master/DHCP-master/sources/DHCPClient/DHCPClient.java:224 | the datagram is the first `getLength()` bytes of `retrieveBytes`, and nothing is sent when `retrieveBytes` throws |
| `Client.SentWire` | DHCP-master/DHCP-master/sources/DHCPClient/DHCPClient.java:224 | with standard widths and writable options the datagram is the header and the options, without the trailing zero |
| `Client.NewRequest` | DHCP-master/DHCP-master/sources/DHCPClient/DHCPClient.java:156-210 | a fresh request: op 1, the cookie, the given options; standard widths exactly when xid, chaddr and ciaddr have 4, 16 and 4 bytes |
| `Client.DiscoverMessage` | DHCP-master/DHCP-master/sources/DHCPClient/DHCPClient.java:156-220 | the Discover: op 1, zero `clientIP`, the client's hardware address, and exactly three options: code 53 with type Discover, code 51 with a lease whose `toInt` is 60, and the terminator |
| `Client.RequestMessage` | DHCP-master/DHCP-master/sources/DHCPClient/DHCPClient.java:240-266 | the Request keeps the Offer's xid, hardware address and `serverIP`, zeroes `yourIP`, and has exactly five options: code 50 with the offered address, code 53 with type Request, code 54 with the Offer's `serverIP`, code 51 with a lease whose `toInt` is 60, and the terminator |
| `Client.ReleaseMessage` | DHCP-master/DHCP-master/sources/DHCPClient/DHCPClient.java:287-349 | the Release carries the leased address in `clientIP` and the hardware address, and has exactly three options: code 53 with type Release, code 54 with the server's name as its data, and the terminator |
| `Client.DiscoverSize` | DHCP-master/DHCP-master/sources/DHCPClient/DHCPClient.java:151-230 | the Discover has standard widths and well-formed options, and is sent as 240 + 3 + 6 + 2 = 251 bytes |
| `Client.DiscoverDelivered` | DHCP-master/DHCP-master/sources/DHCPClient/DHCPClient.java:156-225 | the server parses the Discover back unchanged, with type Discover and a lease option whose `toInt` is 60 |
| `Client.RequestSize` | DHCP-master/DHCP-master/sources/DHCPClient/DHCPClient.java:236-276 | the Request built from a well-formed Offer is well formed and sent as 263 bytes |
| `Client.RequestDelivered` | DHCP-master/DHCP-master/sources/DHCPClient/DHCPClient.java:240-272 | the server parses the Request back unchanged: type Request, option 50 the offer's `yourIP`, lease 60, the offer's hardware address; it passes the accept rule iff the Offer's `serverIP` is the server's address |
| `Client.ReleaseSize` | DHCP-master/DHCP-master/sources/DHCPClient/DHCPClient.java:281-358 | the Release is sent iff the server's name has at least 4 bytes, and then as 251 bytes, with option 54 holding the name's first 4 bytes |
| `Client.ReleaseDelivered` | DHCP-master/DHCP-master/sources/DHCPClient/DHCPClient.java:287-354 | the server parses the Release back as the message built, with the client's hardware address and the leased address in `clientIP`, except that option 54 keeps only the name's first 4 bytes; its type reads as Release |
| `Client.Exchange` | DHCP-master/DHCP-master/sources/DHCPClient/DHCPClient.java:73-146 | `run` sends at most three datagrams, and at most two when the user does not ask for the Release |
| `Client.ExchangeExtends` | DHCP-master/DHCP-master/sources/DHCPClient/DHCPClient.java:73-146 | `run` sends the Discover first; it halts when the Offer does not parse, and otherwise sends the Request next |
| `Client.ExchangeStarts` | DHCP-master/DHCP-master/sources/DHCPClient/DHCPClient.java:73-76 | whatever the server answers, the first datagram of `run` is the Discover |
| `Client.ExchangeRequests` | DHCP-master/DHCP-master/sources/DHCPClient/DHCPClient.java:94-98 | once the Offer parses, the second datagram is the Request built from it |
| `Client.ExchangeRecords` | DHCP-master/DHCP-master/sources/DHCPClient/DHCPClient.java:114-141 | `IPAllocated` changes only when the answer parses as an Ack, and then becomes that Ack's `yourIP` |
| `Client.ExchangeAcknowledged` | DHCP-master/DHCP-master/sources/DHCPClient/DHCPClient.java:114-136 | on an Ack, `run` records its `yourIP` and, when the user answers 1, sends the Release of that address |
| `Client.DhcpClient.constructor` | DHCP-master/DHCP-master/sources/DHCPClient/DHCPClient.java:45-60 | the client keeps its 16-entry hardware address and the server's name, with `IPAllocated` four zero bytes |
| `Client.DhcpClient.Send` | DHCP-master/DHCP-master/sources/DHCPClient/DHCPClient.java:224 | sends `Sent` of the message built |
| `Client.DhcpClient.FillFresh` | DHCP-master/DHCP-master/sources/DHCPClient/DHCPClient.java:156-210 | the fields filled in a fresh message are those of a new request: op 1, htype 1, hlen 6, hops 0, xid from the hash code, zero counters, addresses and names, the cookie |
| `Client.DhcpClient.FillCounters` | DHCP-master/DHCP-master/sources/DHCPClient/DHCPClient.java:170-176 | secs and flags become two zero bytes each; nothing else changes |
| `Client.DhcpClient.FillAddresses` | DHCP-master/DHCP-master/sources/DHCPClient/DHCPClient.java:178-192 | the four addresses become four zero bytes each; nothing else changes |
| `Client.DhcpClient.FillNames` | DHCP-master/DHCP-master/sources/DHCPClient/DHCPClient.java:194-210 | chaddr becomes the narrowed hardware address, sname and file zeros, the cookie 99.130.83.99 |
| `Client.DhcpClient.DhcpDiscover` | DHCP-master/DHCP-master/sources/DHCPClient/DHCPClient.java:151-230 | sends exactly the `DiscoverMessage` for the hash code and hardware address |
| `Client.DhcpClient.DhcpRequest` | DHCP-master/DHCP-master/sources/DHCPClient/DHCPClient.java:236-276 | sends the `RequestMessage` built from the parsed Offer, and nothing when the Offer does not parse |
| `Client.DhcpClient.Rebuild` | DHCP-master/DHCP-master/sources/DHCPClient/DHCPClient.java:242-266 | turns the Offer into the Request: op 1, `yourIP` zeroed, options 50, 53, 54, 51, 255 in that order |
| `Client.DhcpClient.AddRequestOptions` | DHCP-master/DHCP-master/sources/DHCPClient/DHCPClient.java:254-266 | appends type Request, the `serverIP` field as option 54, the 60-second lease and the terminator |
| `Client.DhcpClient.DhcpRelease` | DHCP-master/DHCP-master/sources/DHCPClient/DHCPClient.java:281-358 | sends exactly the `ReleaseMessage` for the recorded address and the server's name |
| `Client.DhcpClient.Run` | DHCP-master/DHCP-master/sources/DHCPClient/DHCPClient.java:73-146 | the datagrams sent and the outcome are `Exchange` of the inputs, and `IPAllocated` is the address the exchange records |
| `Scenario.DiscoverAnswered` | DHCP-master/DHCP-master/sources/DHCPServer/DHCPServer.java:113-152 | a fresh server answers the client's Discover with an Offer of 128.1.0.1 and reserves it for the client for 60 seconds |
| `Scenario.RequestAnswered` | DHCP-master/DHCP-master/sources/DHCPServer/DHCPServer.java:92-96 | the client's Request for that Offer is accepted, the reservation becomes an allocation, and an Ack of 128.1.0.1 is sent |
| `Scenario.RepliesParsed` | DHCP-master/DHCP-master/sources/DHCPClient/DHCPClient.java:94-118 | the client parses the server's Offer from a fresh array, then the Ack received into the same array, as exactly the messages the server built, and the Ack's type reads as Ack |
| `Scenario.ClientCompletes` | DHCP-master/DHCP-master/sources/DHCPClient/DHCPClient.java:73-146 | receiving that Offer and that Ack, the client sends Discover, Request and Release and records 128.1.0.1 |
| `Scenario.ReleaseAnswered` | DHCP-master/DHCP-master/sources/DHCPServer/DHCPServer.java:278-282 | the client's Release returns the pool to its initial state |

## Where the model follows the code

- A datagram that the parse constructor cannot read halts the server. The parse at DHCPServer.java:81 sits outside any `try`, so the exception escapes `run`. The model's `ServerStep` returns `Halted` and does not go on to the next datagram.
- The client's two parses (DHCPClient.java:94 and 114) are outside any `try` too, so a malformed Offer or answer ends `run` with `Halted`.
- `DHCPAck` ignores what `allocateAddress` returns. An accepted Request from a client that holds no entry leaves the pool unchanged and is still answered with an Ack of the address in option 50.
- `canAcceptRequest` compares the request's fixed `serverIP` field with the server's address. It does not look at option 54.
- The Release's option 54 has declared length 4. Its data is the bytes of the server's name as the client was given it (for example the text `127.0.0.1`), not the server's address. Only the first four bytes go on the wire. When the name has fewer than four bytes, `getBytes` throws and no Release is sent.
- The server sends `retrieveBytes` in full: `getLength() + 1` bytes, with a trailing zero. The client sends only `getLength()` bytes.
- The End option is written as two bytes, 255 and 0, but read back from its first byte alone.
- Pad (0) is an ordinary code/length/data option.
- The cookie is never checked.
- A receive that fails leaves the array as it was. That is `Received` with an empty datagram.

## Left out

- Sockets and UDP are not modelled: `DatagramSocket` send and receive, packet addresses and ports, and closing the socket. Each datagram a side receives is a parameter. What it sends is a result.
- `InetAddress.getByName` and `getByAddress` are not modelled. The server's address is a 4-byte parameter (IPv4 only). A name that fails to resolve, which would stop a client send, is not modelled.
- The `javax.swing.Timer` thread that runs `pool.update()` concurrently is not modelled. `DhcpServer.Tick` is an ordinary sequential operation, and interleavings are out of scope.
- The server's `while (true)` loop is not modelled as a loop. `DhcpServer.HandleDatagram` is one pass of it.
- `getMacAddress` (a `NetworkInterface` query) is a constructor parameter of `DhcpClient`.
- The `hashCode` values used as transaction ids are parameters.
- The `Scanner` prompt is a boolean parameter of `Run`: release or not.
- `IPInUse.getBytes()` in the platform charset is a parameter: the server's name as bytes.
- Console output is not modelled: `toString`, `printDataBytes`, `printContent` and the `System.out` logging.
- `IPStorage.isReserved(InetAddress)` is private and never called, so it is not modelled.
- The launcher Client.java is not part of this model.
- Java reference aliasing is not modelled. Byte arrays are value sequences, so a reserver stored by reference cannot be changed behind the pool's back.
- `Options.DhcpOption.GetBytes`: requires a non-negative length and enough data. Java throws otherwise. Its callers check first and model the throw as a failure.
