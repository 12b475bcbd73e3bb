/**
 A reference reader for the MessagePack formats the encoder writes, defined
 from the format's tag table and independently of the encoder: it parses one
 value at the front of a byte sequence and says how many bytes it took.
 Inputs it does not recognise, or that end too early, give None.
 */
module Decoder {
  import opened GoInt
  import opened BigEndian

  datatype Option<T> = None | Some(value: T)

  datatype Value =
    | Nil
    | Bool(b: bool)
    | Int(i: int)
    | Uint(u: nat)
    | Str(s: seq<byte>)
    | Bin(data: seq<byte>)
    | Array(count: nat)     // only the header: the elements follow as values of their own
    | Ext(kind: byte, data: seq<byte>)

  /** A value and the number of bytes it took. */
  datatype Decoded = Decoded(value: Value, size: nat)

  /** A length header: the length it declares and the number of bytes it took. */
  datatype Header = Header(length: nat, size: nat)

  /** The extension kind the encoder gives timestamps. */
  const TimestampKind: byte := 1

  /** A timestamp: seconds since the Unix epoch and nanoseconds. */
  datatype Timestamp = Timestamp(secs: int, nanos: nat)

  /** Reads an unsigned big-endian value of v bits as two's complement. */
  function Signed(v: nat, bits: nat): int
  {
    if bits > 0 && v >= Pow2(bits - 1) then v - Pow2(bits) else v
  }

  /** A header whose tag is followed by a big-endian length of `width` bytes. */
  function LengthField(bs: seq<byte>, width: nat): (r: Option<Header>)
    ensures r.Some? ==> r.value.size == 1 + width <= |bs|
  {
    if 1 + width <= |bs| then Some(Header(BeValue(bs[1..1 + width]), 1 + width)) else None
  }

  /** fixstr (101xxxxx), str8 (0xd9), str16 (0xda), str32 (0xdb). */
  function StrHeader(bs: seq<byte>): (r: Option<Header>)
    ensures r.Some? ==> 0 < r.value.size <= |bs|
    ensures r.Some? ==> 0xa0 <= bs[0] <= 0xbf || 0xd9 <= bs[0] <= 0xdb
  {
    if |bs| == 0 then None
    else if 0xa0 <= bs[0] <= 0xbf then Some(Header(bs[0] - 0xa0, 1))
    else if bs[0] == 0xd9 then LengthField(bs, 1)
    else if bs[0] == 0xda then LengthField(bs, 2)
    else if bs[0] == 0xdb then LengthField(bs, 4)
    else None
  }

  /** bin8 (0xc4), bin16 (0xc5), bin32 (0xc6). */
  function BinHeader(bs: seq<byte>): (r: Option<Header>)
    ensures r.Some? ==> 0 < r.value.size <= |bs|
    ensures r.Some? ==> 0xc4 <= bs[0] <= 0xc6
  {
    if |bs| == 0 then None
    else if bs[0] == 0xc4 then LengthField(bs, 1)
    else if bs[0] == 0xc5 then LengthField(bs, 2)
    else if bs[0] == 0xc6 then LengthField(bs, 4)
    else None
  }

  /** fixarray (1001xxxx), array16 (0xdc), array32 (0xdd). */
  function ArrayHeader(bs: seq<byte>): (r: Option<Header>)
    ensures r.Some? ==> 0 < r.value.size <= |bs|
    ensures r.Some? ==> 0x90 <= bs[0] <= 0x9f || 0xdc <= bs[0] <= 0xdd
  {
    if |bs| == 0 then None
    else if 0x90 <= bs[0] <= 0x9f then Some(Header(bs[0] - 0x90, 1))
    else if bs[0] == 0xdc then LengthField(bs, 2)
    else if bs[0] == 0xdd then LengthField(bs, 4)
    else None
  }

  /** fixext 1, 2, 4, 8, 16 (0xd4 to 0xd8), ext8 (0xc7), ext16 (0xc8),
      ext32 (0xc9). The length counts the payload, not the kind byte. */
  function ExtHeader(bs: seq<byte>): (r: Option<Header>)
    ensures r.Some? ==> 0 < r.value.size <= |bs|
    ensures r.Some? ==> 0xd4 <= bs[0] <= 0xd8 || 0xc7 <= bs[0] <= 0xc9
  {
    if |bs| == 0 then None
    else if 0xd4 <= bs[0] <= 0xd8 then Some(Header(Pow2(bs[0] - 0xd4), 1))
    else if bs[0] == 0xc7 then LengthField(bs, 1)
    else if bs[0] == 0xc8 then LengthField(bs, 2)
    else if bs[0] == 0xc9 then LengthField(bs, 4)
    else None
  }

  /** Parses the value at the front of bs. */
  function Decode(bs: seq<byte>): (r: Option<Decoded>)
    ensures r.Some? ==> 0 < r.value.size <= |bs|
  {
    if |bs| == 0 then None
    else if bs[0] == 0xc0 then Some(Decoded(Nil, 1))
    else if bs[0] == 0xc2 then Some(Decoded(Bool(false), 1))
    else if bs[0] == 0xc3 then Some(Decoded(Bool(true), 1))
    else if 0xcc <= bs[0] <= 0xcf then
      // uint 8, 16, 32, 64
      var width := Pow2(bs[0] - 0xcc);
      if 1 + width <= |bs| then Some(Decoded(Uint(BeValue(bs[1..1 + width])), 1 + width)) else None
    else if 0xd0 <= bs[0] <= 0xd3 then
      // int 8, 16, 32, 64
      var width := Pow2(bs[0] - 0xd0);
      if 1 + width <= |bs| then
        Some(Decoded(Int(Signed(BeValue(bs[1..1 + width]), 8 * width)), 1 + width))
      else None
    else if StrHeader(bs).Some? then
      var h := StrHeader(bs).value;
      if h.size + h.length <= |bs| then
        Some(Decoded(Str(bs[h.size..h.size + h.length]), h.size + h.length))
      else None
    else if BinHeader(bs).Some? then
      var h := BinHeader(bs).value;
      if h.size + h.length <= |bs| then
        Some(Decoded(Bin(bs[h.size..h.size + h.length]), h.size + h.length))
      else None
    else if ArrayHeader(bs).Some? then
      var h := ArrayHeader(bs).value;
      Some(Decoded(Array(h.length), h.size))
    else if ExtHeader(bs).Some? then
      var h := ExtHeader(bs).value;
      if h.size + 1 + h.length <= |bs| then
        Some(Decoded(Ext(bs[h.size], bs[h.size + 1..h.size + 1 + h.length]), h.size + 1 + h.length))
      else None
    else None
  }

  /** Reads a timestamp extension: four bytes of seconds, or one 64-bit word
      with the nanoseconds in its top 30 bits and the seconds in its low 34. */
  function TimestampOf(v: Value): Option<Timestamp>
  {
    if v.Ext? && v.kind == TimestampKind && |v.data| == 4 then
      Some(Timestamp(BeValue(v.data), 0))
    else if v.Ext? && v.kind == TimestampKind && |v.data| == 8 then
      var w := BeValue(v.data);
      Some(Timestamp(w % 0x4_0000_0000, w / 0x4_0000_0000))
    else None
  }
}
