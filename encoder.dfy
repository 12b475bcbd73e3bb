/**
 The MessagePack encoder: one append operation per value kind. Each
 `AppendX(dst, v)` is `dst` followed by the MessagePack encoding of `v`;
 `dst` itself is never changed, only extended.
 */
module Encoder {
  import opened GoInt
  import opened BigEndian

  // Fixed-width integers: a tag naming the width, then the value's bytes,
  // most significant first. Signed values are cut to bytes in two's complement.
  // BeBytes(n, k) is the list byte(n >> 8(k-1)), ..., byte(n >> 8), byte(n).

  function AppendInt8(dst: seq<byte>, n: int8): (r: seq<byte>)
    ensures dst <= r && |r| == |dst| + 2
  {
    dst + [0xd0, Lo8(n)]
  }

  function AppendInt16(dst: seq<byte>, n: int16): (r: seq<byte>)
    ensures dst <= r && |r| == |dst| + 3
  {
    dst + [0xd1] + BeBytes(n, 2)
  }

  function AppendInt32(dst: seq<byte>, n: int32): (r: seq<byte>)
    ensures dst <= r && |r| == |dst| + 5
  {
    dst + [0xd2] + BeBytes(n, 4)
  }

  function AppendInt64(dst: seq<byte>, n: int64): (r: seq<byte>)
    ensures dst <= r && |r| == |dst| + 9
  {
    dst + [0xd3] + BeBytes(n, 8)
  }

  function AppendUint8(dst: seq<byte>, n: uint8): (r: seq<byte>)
    ensures dst <= r && |r| == |dst| + 2
  {
    dst + [0xcc, Lo8(n)]
  }

  function AppendUint16(dst: seq<byte>, n: uint16): (r: seq<byte>)
    ensures dst <= r && |r| == |dst| + 3
  {
    dst + [0xcd] + BeBytes(n, 2)
  }

  function AppendUint32(dst: seq<byte>, n: uint32): (r: seq<byte>)
    ensures dst <= r && |r| == |dst| + 5
  {
    dst + [0xce] + BeBytes(n, 4)
  }

  function AppendUint64(dst: seq<byte>, n: uint64): (r: seq<byte>)
    ensures dst <= r && |r| == |dst| + 9
  {
    dst + [0xcf] + BeBytes(n, 8)
  }

  // Strings: a length header, then the string's bytes unchanged. A Go string
  // is a sequence of bytes; nothing checks that they are UTF-8.

  function AppendString(dst: seq<byte>, s: seq<byte>): (r: seq<byte>)
    ensures dst <= r && |r| - |dst| - |s| in {1, 2, 3, 5}
    ensures r[|r| - |s|..] == s
  {
    AppendLen(dst, |s|) + s
  }

  /** The str header: fixstr (0b101 in the top three bits, the length in the
      low five), str8, str16 or str32. The four-byte form keeps only the low
      32 bits of the size. */
  function AppendLen(dst: seq<byte>, size: nat): (r: seq<byte>)
    ensures dst <= r && |r| - |dst| in {1, 2, 3, 5}
  {
    if size < 32 then
      dst + [Lo8(Or(0xa0, size))]
    else if size < 256 then
      dst + [0xd9, Lo8(size)]
    else if size < 65536 then
      dst + [0xda] + BeBytes(size, 2)
    else
      dst + [0xdb] + BeBytes(size, 4)
  }

  // Byte slices: a bin header (there is no inline form), then the bytes.

  function AppendBytes(dst: seq<byte>, s: seq<byte>): (r: seq<byte>)
    ensures dst <= r && |r| - |dst| - |s| in {2, 3, 5}
    ensures r[|r| - |s|..] == s
  {
    AppendByteLen(dst, |s|) + s
  }

  function AppendByteLen(dst: seq<byte>, size: nat): (r: seq<byte>)
    ensures dst <= r && |r| - |dst| in {2, 3, 5}
  {
    if size < 256 then
      dst + [0xc4, Lo8(size)]
    else if size < 65536 then
      dst + [0xc5] + BeBytes(size, 2)
    else
      dst + [0xc6] + BeBytes(size, 4)
  }

  /** The header of an array of `size` elements: fixarray (0b1001 in the top
      four bits, the count in the low four), array16 or array32. The elements
      are the caller's to append. */
  function AppendArrayLen(dst: seq<byte>, size: nat): (r: seq<byte>)
    ensures dst <= r && |r| - |dst| in {1, 3, 5}
  {
    if size < 16 then
      dst + [Lo8(Or(0x90, size))]
    else if size < 65536 then
      dst + [0xdc] + BeBytes(size, 2)
    else
      dst + [0xdd] + BeBytes(size, 4)
  }

  // Extensions: a header, the application's kind byte, then the payload.

  function AppendExt(dst: seq<byte>, kind: byte, b: seq<byte>): (r: seq<byte>)
    ensures dst <= r && |r| - |dst| - |b| in {2, 3, 4, 6}
    ensures r[|r| - |b| - 1] == kind && r[|r| - |b|..] == b
  {
    AppendExtLen(dst, |b|) + [kind] + b
  }

  /** The ext header. The payload sizes 1, 2, 4, 8 and 16 have a tag of their
      own (fixext) and are checked before the size ranges; any other size takes
      ext8, ext16 or ext32 with an explicit length. */
  function AppendExtLen(dst: seq<byte>, size: nat): (r: seq<byte>)
    ensures dst <= r && |r| - |dst| in {1, 2, 3, 5}
  {
    if size == 1 then dst + [0xd4]
    else if size == 2 then dst + [0xd5]
    else if size == 4 then dst + [0xd6]
    else if size == 8 then dst + [0xd7]
    else if size == 16 then dst + [0xd8]
    else if size < 256 then
      dst + [0xc7, Lo8(size)]
    else if size < 65536 then
      dst + [0xc8] + BeBytes(size, 2)
    else
      dst + [0xc9] + BeBytes(size, 4)
  }

  // Timestamps.

  type Nanos = x: int | 0 <= x < 1_000_000_000

  /** A point in time as the encoder reads it: whole seconds since the Unix
      epoch and the nanoseconds within that second. */
  datatype Time = Time(secs: int64, nanos: Nanos)

  /** A timestamp is an extension of kind 1. Without nanoseconds it is a
      fixext4 holding the low 32 bits of the seconds; otherwise a fixext8
      holding the 64-bit word nanos << 34 | secs. */
  function AppendTime(dst: seq<byte>, ts: Time): (r: seq<byte>)
    ensures dst <= r
    ensures |r| == |dst| + (if ts.nanos == 0 then 6 else 10)
  {
    var secs, nanos := ts.secs, ts.nanos;
    if nanos == 0 then
      dst + [0xd6, 1] + BeBytes(secs, 4)
    else
      var n := Or(Shl64(Uint64(nanos), 34), Uint64(secs));
      dst + [0xd7, 1] + BeBytes(n, 8)
  }

  // Nil and booleans: a single tag byte.

  function AppendNil(dst: seq<byte>): (r: seq<byte>)
    ensures dst <= r && r[|dst|..] == [0xc0]
  {
    dst + [0xc0]
  }

  function AppendBool(dst: seq<byte>, v: bool): (r: seq<byte>)
    ensures dst <= r && r[|dst|..] == (if v then [0xc3] else [0xc2])
  {
    if v then dst + [0xc3] else dst + [0xc2]
  }
}
