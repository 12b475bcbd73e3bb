# MessagePack encoder, modelled in Dafny

This project models `encoder.go` of the msgpack package: an encoder with one
append operation per value kind. `AppendX(dst, v)` returns `dst` followed by
the MessagePack encoding of `v`. The kinds are the fixed-width signed and
unsigned integers, strings, byte slices, array headers, extensions,
timestamps, nil and booleans. The functions are pure, and so is the model:
each Go function is a Dafny function from a byte sequence (and a value) to a
longer byte sequence.

Files:

- `goint.dfy` (module `GoInt`): Go's integer widths as subset types of `int`,
  and the Go operators the encoder uses, each written out so that every
  truncation can be seen. They are `byte(x)` (`Lo8`, `x mod 256`, which is
  two's complement for negative `x`), `x >> k` (`Shr`, floor division, as
  Go's arithmetic shift), `uint64(x)`, `x << k` on `uint64`, and `|` (`Or`,
  bit by bit).
- `bigendian.dfy` (module `BigEndian`): `BeBytes(x, k)` is the list
  `byte(x >> 8(k-1)), ..., byte(x >> 8), byte(x)` that every multi-byte
  field of the encoder is made of. `BeValue` is the unsigned value a reader
  assembles from big-endian bytes.
- `encoder.dfy` (module `Encoder`): the encoder, one function per Go
  function, with the same branches, the same order of tests and the same
  constants.
- `decoder.dfy` (module `Decoder`): a reference reader for the formats the
  encoder writes, written from the MessagePack tag table rather than from
  the encoder. It parses one value at the front of a byte sequence and
  returns it with the number of bytes it took, or `None`. `TimestampOf`
  reads a timestamp extension back into seconds and nanoseconds. One
  constant comes from the encoder and not from the table: the timestamp
  extension kind is 1, as encoder.go:173 and 179 write it, where the
  MessagePack specification reserves kind -1 (the byte 0xff).
- `properties.dfy` (module `EncoderProperties`): what the encoder promises,
  proved against the reader:
  - every string, byte slice, array header and extension whose size is
    below 2^32, every integer, nil and boolean, and every timestamp whose
    seconds fit the form the encoder chooses (below 2^32 without
    nanoseconds, below 2^34 with them, and not negative) reads back as the
    value it was written from, whatever bytes follow it, so each such
    encoding is self-delimiting; larger sizes and other timestamps read
    back truncated, as the header and timestamp lemmas state;
  - each length header's tier and bytes are given in closed form for every
    size, including the boundaries 16, 32, 256 and 65536 and the fixext
    sizes, which are checked before the ranges;
  - every header the reader accepts is at least as long as the one the
    encoder writes for the same length, so the encoder always picks the
    shortest form;
  - the timestamp word `nanos << 34 | uint64(secs)` is taken apart again,
    and the time reads back exactly when the seconds fit the form chosen.
    Outside it the encoder writes what the code writes: the 6-byte form
    keeps the low 32 bits of the seconds, and in the 10-byte form the bits
    of `uint64(secs)` above bit 33 land among the nanosecond bits, so
    seconds -1 with nanoseconds 1 reads back as seconds 2^34 - 1 and
    nanoseconds 2^30 - 1 (TimeWordForm states this for every input).

## Model

| member | source | states |
|---|---|---|
| GoInt.Lo8 | encoder.go:10 | `byte(x)`: the result is a byte congruent to x modulo 256, its low eight bits, so a negative x gives its two's complement byte |
| GoInt.Shr | encoder.go:15 | `x >> k`: the result r is the floor of x / 2^k, r·2^k <= x < r·2^k + 2^k, which is Go's arithmetic shift for negative x |
| GoInt.Uint64 | encoder.go:177 | `uint64(x)`: a uint64 congruent to x modulo 2^64, so a negative int64 becomes x + 2^64 |
| GoInt.Shl64 | encoder.go:177 | `x << k` on uint64: congruent to x·2^k modulo 2^64, the bits shifted past bit 63 are lost |
| GoInt.Or | encoder.go:177 | Go's bitwise or on non-negative values, the same operator as in `5<<5` or-ed with a size at encoder.go:84: the result is at least each operand and at most their sum |
| GoInt.OrBits | encoder.go:177 | against an independent reading of bits (bit i of x is x halved i times, mod 2), bit i of Or(a, b) is set exactly when bit i of a or of b is set, for every i |
| GoInt.OrShifted | encoder.go:177 | or-ing a value whose low k bits are clear (`nanos << 34`) with `c·2^k + b`, `b < 2^k`, or-s the high parts and keeps `b` below them |
| GoInt.OrBound | encoder.go:177 | the or of two values below 2^k is below 2^k, so the nanoseconds stay within the word's top 30 bits |
| BigEndian.BeBytes | encoder.go:15 | the big-endian field has exactly k bytes |
| BigEndian.BeBytes2 | encoder.go:15 | the two-byte field is `byte(x >> 8), byte(x)`, as the encoder writes it |
| BigEndian.BeBytes4 | encoder.go:20-21 | the four-byte field is `byte(x >> 24)` down to `byte(x)` |
| BigEndian.BeRoundTrip | encoder.go:14-56 | reading the k bytes back big-endian gives x mod 2^(8k): x itself in range, its two's complement when negative |
| Encoder.AppendInt8 | encoder.go:9-11 | dst is an unchanged prefix; exactly 2 bytes are added |
| Encoder.AppendInt16 | encoder.go:14-16 | dst is an unchanged prefix; exactly 3 bytes are added |
| Encoder.AppendInt32 | encoder.go:19-22 | dst is an unchanged prefix; exactly 5 bytes are added |
| Encoder.AppendInt64 | encoder.go:25-31 | dst is an unchanged prefix; exactly 9 bytes are added |
| Encoder.AppendUint8 | encoder.go:34-36 | dst is an unchanged prefix; exactly 2 bytes are added |
| Encoder.AppendUint16 | encoder.go:39-41 | dst is an unchanged prefix; exactly 3 bytes are added |
| Encoder.AppendUint32 | encoder.go:44-47 | dst is an unchanged prefix; exactly 5 bytes are added |
| Encoder.AppendUint64 | encoder.go:50-56 | dst is an unchanged prefix; exactly 9 bytes are added |
| Encoder.AppendString | encoder.go:76-79 | dst is an unchanged prefix, a 1, 2, 3 or 5 byte header follows, and the string's bytes end the result verbatim |
| Encoder.AppendLen | encoder.go:81-96 | dst is an unchanged prefix and the str header is 1, 2, 3 or 5 bytes |
| Encoder.AppendBytes | encoder.go:99-102 | dst is an unchanged prefix, a 2, 3 or 5 byte header follows, and the bytes end the result verbatim |
| Encoder.AppendByteLen | encoder.go:104-117 | dst is an unchanged prefix and the bin header is 2, 3 or 5 bytes, never 1 |
| Encoder.AppendArrayLen | encoder.go:120-133 | dst is an unchanged prefix and the array header is 1, 3 or 5 bytes |
| Encoder.AppendExt | encoder.go:136-140 | dst is an unchanged prefix; the header is followed by the kind byte and then the payload verbatim |
| Encoder.AppendExtLen | encoder.go:142-165 | dst is an unchanged prefix and the ext header is 1, 2, 3 or 5 bytes |
| Encoder.AppendTime | encoder.go:168-187 | dst is an unchanged prefix; 6 bytes are added without nanoseconds and 10 with them |
| Encoder.AppendNil | encoder.go:190-192 | the bytes added are exactly [0xc0], whatever dst held |
| Encoder.AppendBool | encoder.go:195-204 | the bytes added are exactly [0xc3] for true and [0xc2] for false, whatever dst held |
| EncoderProperties.Int8RoundTrip | encoder.go:9-11 | tag 0xd0 and the byte read back as n, whatever follows |
| EncoderProperties.Int16RoundTrip | encoder.go:14-16 | tag 0xd1 and two big-endian bytes read back as n |
| EncoderProperties.Int32RoundTrip | encoder.go:19-22 | tag 0xd2 and four big-endian bytes read back as n |
| EncoderProperties.Int64RoundTrip | encoder.go:25-31 | tag 0xd3 and eight big-endian bytes read back as n |
| EncoderProperties.Uint8RoundTrip | encoder.go:34-36 | tag 0xcc and the byte read back as n |
| EncoderProperties.Uint16RoundTrip | encoder.go:39-41 | tag 0xcd and two big-endian bytes read back as n |
| EncoderProperties.Uint32RoundTrip | encoder.go:44-47 | tag 0xce and four big-endian bytes read back as n |
| EncoderProperties.Uint64RoundTrip | encoder.go:50-56 | tag 0xcf and eight big-endian bytes read back as n |
| EncoderProperties.BeBytesSmallNegative | encoder.go:26-30 | a negative value of one byte's range is written as 0xff bytes of sign extension followed by its low byte |
| EncoderProperties.Int64SmallNegative | encoder_test.go:30-46 | for -256 <= n < 0, as the test's -20, AppendInt64 adds 0xd3, seven 0xff bytes and n + 256, which read back as n |
| EncoderProperties.LenIgnoresDst | encoder.go:81-96 | the str header appended to dst is dst followed by the header appended to nothing |
| EncoderProperties.ByteLenIgnoresDst | encoder.go:104-117 | the bin header does not depend on dst |
| EncoderProperties.ArrayLenIgnoresDst | encoder.go:120-133 | the array header does not depend on dst |
| EncoderProperties.ExtLenIgnoresDst | encoder.go:142-165 | the ext header does not depend on dst |
| EncoderProperties.InlineTier | encoder.go:84 | the inline header byte, the tag (0xa0 for fixstr here, 0x90 for fixarray at line 123) or-ed with a size that fits the tag's clear low bits, is the tag plus the size |
| EncoderProperties.StrHeaderOf | encoder.go:81-96 | the reader's str header gives back size mod 2^32 as the length and the header's own length as its size |
| EncoderProperties.BinHeaderOf | encoder.go:104-117 | the reader's bin header gives back size mod 2^32 and the header's length |
| EncoderProperties.ArrayHeaderOf | encoder.go:120-133 | the reader's array header gives back size mod 2^32 and the header's length |
| EncoderProperties.ExtHeaderOf | encoder.go:142-165 | the reader's ext header gives back size mod 2^32, including the fixext sizes, and the header's length |
| EncoderProperties.StringRoundTrip | encoder_test.go:84-140 | for every string below 2^32 bytes, such as the tests' 1, 16553 and 32220 bytes, the encoding reads back as that string and takes exactly the appended bytes |
| EncoderProperties.BytesRoundTrip | encoder.go:99-117 | for every byte slice below 2^32 bytes the encoding reads back as those bytes and takes exactly the appended bytes |
| EncoderProperties.ArrayLenRoundTrip | encoder.go:120-133 | for every count below 2^32 the header reads back as an array header of that count, and no element bytes are written |
| EncoderProperties.ExtRoundTrip | encoder.go:136-165 | for every payload below 2^32 bytes the encoding reads back as that kind and payload |
| EncoderProperties.NilRoundTrip | encoder.go:190-192 | the encoding reads back as nil and takes one byte |
| EncoderProperties.BoolRoundTrip | encoder.go:195-204 | the encoding reads back as the same boolean and takes one byte |
| EncoderProperties.TimeIsExt | encoder.go:168-187 | a timestamp is exactly the extension of kind 1 whose payload is the bytes after the tag and the kind |
| EncoderProperties.DecodeTimeExt | encoder.go:168-187 | a timestamp reads back as an extension of kind 1 holding its payload |
| EncoderProperties.TimeSecondsForm | encoder.go:172-175 | without nanoseconds the 6 bytes read back as the seconds mod 2^32 and zero nanoseconds |
| EncoderProperties.TimeWord | encoder.go:177 | the word nanos shifted left by 34, or-ed with uint64(secs), is the or of nanos with the bits of uint64(secs) from 34 up, times 2^34, plus the low 34 bits of uint64(secs), and that or stays below 2^30 |
| EncoderProperties.TimeWordPayload | encoder.go:176-183 | with nanoseconds, the 8 payload bytes read big-endian are that word |
| EncoderProperties.TimeWordForm | encoder.go:176-183 | with nanoseconds the 10 bytes read back as seconds = the low 34 bits of uint64(secs) and nanoseconds = nanos or-ed with the bits above them |
| EncoderProperties.TimeRoundTrip | encoder_test.go:142-177 | the time reads back exactly when 0 <= secs < 2^32 without nanoseconds, or 0 <= secs < 2^34 with them |
| EncoderProperties.TimeOutOfRange | encoder.go:168-187 | outside those ranges the time read back is never the time written: the seconds are cut to 32 bits, or spill into the nanosecond bits |
| EncoderProperties.StrHeaderShortest | encoder.go:81-96 | no str header the reader accepts is shorter than the one the encoder writes for the same length |
| EncoderProperties.BinHeaderShortest | encoder.go:104-117 | no bin header the reader accepts is shorter than the one the encoder writes for the same length |
| EncoderProperties.ArrayHeaderShortest | encoder.go:120-133 | no array header the reader accepts is shorter than the one the encoder writes for the same count |
| EncoderProperties.ExtHeaderShortest | encoder.go:142-165 | no ext header the reader accepts is shorter than the one the encoder writes, so sizes 1, 2, 4, 8 and 16 never take ext8 |
| EncoderProperties.StrHeaderTiers | encoder.go:81-96 | size < 32 gives [0xa0 + size]; below 256, [0xd9, size]; below 65536, 0xda and two base-256 digits; otherwise 0xdb and the low four digits |
| EncoderProperties.BinHeaderTiers | encoder.go:104-117 | size < 256 gives [0xc4, size], so size 0 gives [0xc4, 0]; below 65536, 0xc5 and two digits; otherwise 0xc6 and the low four digits |
| EncoderProperties.ArrayHeaderTiers | encoder.go:120-133 | size < 16 gives [0x90 + size]; below 65536, 0xdc and two digits; otherwise 0xdd and the low four digits |
| EncoderProperties.ExtHeaderTiers | encoder.go:142-165 | sizes 1, 2, 4, 8 and 16 give the single tags 0xd4 to 0xd8; any other size below 256, such as 0 or 3, gives [0xc7, size]; below 65536, 0xc8 and two digits; otherwise 0xc9 and the low four digits |

## Left out

- AppendFloat32 and AppendFloat64 (encoder.go:59-73): they reinterpret the float's memory through `unsafe.Pointer` and reverse the bytes, assuming a little-endian machine. Floating point and memory reinterpretation have no counterpart here.
- The `time` package: `time.Time` is replaced by `Time(secs, nanos)`, the values `ts.Unix()` and `ts.Nanosecond()` return. Calendars and `time.Now()` are not modelled.
- Go slices: `dst` is an immutable sequence. Capacity growth and the sharing of a backing array between `dst` and the result are not modelled.
- Sizes: the Go `int` size parameters are modelled as `nat`. `len()` is never negative. A negative count passed to AppendArrayLen by a caller is not modelled.
- The header functions write only the low 32 bits of a size from 2^32 up. The model writes the same bytes, and the header lemmas state the length read back as size mod 2^32. The round-trip lemmas for strings, byte slices, arrays and extensions therefore require a size below 2^32.
- The tests decode with an external MessagePack library, whose code is not part of this model. The reference reader in `decoder.dfy` stands in for it, and only for the formats the encoder writes. The tests of floats (encoder_test.go:48-82) are left out with the floats.
