/**
 What the encoder promises, proved against the reference decoder: every
 encoding parses back to the value it was made from, whatever follows it;
 every length header is the shortest the format offers for its length; and
 the timestamp word keeps nanoseconds and seconds apart.
 */
module EncoderProperties {
  import opened GoInt
  import opened BigEndian
  import opened Encoder
  import opened Decoder

  // ---- Reading back what BeBytes wrote ---------------------------------

  lemma LengthFieldOf(tag: byte, x: int, k: nat, tail: seq<byte>)
    ensures LengthField([tag] + BeBytes(x, k) + tail, k) == Some(Header(x % Pow2(8 * k), 1 + k))
  {
    var bs := [tag] + BeBytes(x, k) + tail;
    assert bs[1..1 + k] == BeBytes(x, k);
    BeRoundTrip(x, k);
  }

  lemma ModSmall(n: int, m: int)
    requires 0 <= n < m
    ensures n % m == n
  {
    DivModUnique(n, m, 0, n);
  }

  /** Reading a bits-wide two's complement pattern gives back the signed value. */
  lemma SignedOfMod(n: int, bits: nat)
    requires bits > 0 && -(Pow2(bits - 1) as int) <= n < Pow2(bits - 1)
    ensures Signed(n % Pow2(bits), bits) == n
  {
    var m := Pow2(bits);
    if n >= 0 {
      ModSmall(n, m);
    } else {
      DivModUnique(n, m, -1, n + m);
    }
  }

  lemma DecodeUintPayload(tag: byte, x: int, k: nat, rest: seq<byte>)
    requires 0xcc <= tag <= 0xcf && k == Pow2(tag - 0xcc)
    ensures Decode([tag] + BeBytes(x, k) + rest) == Some(Decoded(Uint(x % Pow2(8 * k)), 1 + k))
  {
    var bs := [tag] + BeBytes(x, k) + rest;
    assert bs[1..1 + k] == BeBytes(x, k);
    BeRoundTrip(x, k);
  }

  lemma DecodeIntPayload(tag: byte, x: int, k: nat, rest: seq<byte>)
    requires 0xd0 <= tag <= 0xd3 && k == Pow2(tag - 0xd0)
    ensures Decode([tag] + BeBytes(x, k) + rest) == Some(Decoded(Int(Signed(x % Pow2(8 * k), 8 * k)), 1 + k))
  {
    var bs := [tag] + BeBytes(x, k) + rest;
    assert bs[1..1 + k] == BeBytes(x, k);
    BeRoundTrip(x, k);
  }

  // ---- Fixed-width integers --------------------------------------------

  lemma Int8RoundTrip(dst: seq<byte>, n: int8, rest: seq<byte>)
    ensures Decode(AppendInt8(dst, n)[|dst|..] + rest) == Some(Decoded(Int(n), 2))
  {
    BeBytes1(n);
    assert AppendInt8(dst, n)[|dst|..] == [0xd0] + BeBytes(n, 1);
    DecodeIntPayload(0xd0, n, 1, rest);
    Pow2Values();
    SignedOfMod(n, 8);
  }

  lemma Int16RoundTrip(dst: seq<byte>, n: int16, rest: seq<byte>)
    ensures Decode(AppendInt16(dst, n)[|dst|..] + rest) == Some(Decoded(Int(n), 3))
  {
    assert AppendInt16(dst, n)[|dst|..] == [0xd1] + BeBytes(n, 2);
    DecodeIntPayload(0xd1, n, 2, rest);
    Pow2Values();
    SignedOfMod(n, 16);
  }

  lemma Int32RoundTrip(dst: seq<byte>, n: int32, rest: seq<byte>)
    ensures Decode(AppendInt32(dst, n)[|dst|..] + rest) == Some(Decoded(Int(n), 5))
  {
    assert AppendInt32(dst, n)[|dst|..] == [0xd2] + BeBytes(n, 4);
    DecodeIntPayload(0xd2, n, 4, rest);
    Pow2Values();
    SignedOfMod(n, 32);
  }

  lemma Int64RoundTrip(dst: seq<byte>, n: int64, rest: seq<byte>)
    ensures Decode(AppendInt64(dst, n)[|dst|..] + rest) == Some(Decoded(Int(n), 9))
  {
    assert AppendInt64(dst, n)[|dst|..] == [0xd3] + BeBytes(n, 8);
    DecodeIntPayload(0xd3, n, 8, rest);
    Pow2Values();
    SignedOfMod(n, 64);
  }

  lemma Uint8RoundTrip(dst: seq<byte>, n: uint8, rest: seq<byte>)
    ensures Decode(AppendUint8(dst, n)[|dst|..] + rest) == Some(Decoded(Uint(n), 2))
  {
    BeBytes1(n);
    assert AppendUint8(dst, n)[|dst|..] == [0xcc] + BeBytes(n, 1);
    DecodeUintPayload(0xcc, n, 1, rest);
    Pow2Values();
    ModSmall(n, Pow2(8));
  }

  lemma Uint16RoundTrip(dst: seq<byte>, n: uint16, rest: seq<byte>)
    ensures Decode(AppendUint16(dst, n)[|dst|..] + rest) == Some(Decoded(Uint(n), 3))
  {
    assert AppendUint16(dst, n)[|dst|..] == [0xcd] + BeBytes(n, 2);
    DecodeUintPayload(0xcd, n, 2, rest);
    Pow2Values();
    ModSmall(n, Pow2(16));
  }

  lemma Uint32RoundTrip(dst: seq<byte>, n: uint32, rest: seq<byte>)
    ensures Decode(AppendUint32(dst, n)[|dst|..] + rest) == Some(Decoded(Uint(n), 5))
  {
    assert AppendUint32(dst, n)[|dst|..] == [0xce] + BeBytes(n, 4);
    DecodeUintPayload(0xce, n, 4, rest);
    Pow2Values();
    ModSmall(n, Pow2(32));
  }

  lemma Uint64RoundTrip(dst: seq<byte>, n: uint64, rest: seq<byte>)
    ensures Decode(AppendUint64(dst, n)[|dst|..] + rest) == Some(Decoded(Uint(n), 9))
  {
    assert AppendUint64(dst, n)[|dst|..] == [0xcf] + BeBytes(n, 8);
    DecodeUintPayload(0xcf, n, 8, rest);
    Pow2Values();
    ModSmall(n, Pow2(64));
  }

  /** A small negative value shifted right by k >= 8 bits is -1 (all ones). */
  lemma ShrSmallNegative(x: int, k: nat)
    requires k >= 8 && -0x100 <= x < 0
    ensures Shr(x, k) == -1
  {
    Pow2Add(k - 8, 8);
    Pow2Values();
    DivModUnique(x, Pow2(k), -1, x + Pow2(k));
  }

  /** k bytes of 0xff. */
  function Ones(k: nat): (r: seq<byte>)
    ensures |r| == k && forall i :: 0 <= i < k ==> r[i] == 0xff
  {
    if k == 0 then [] else [0xff] + Ones(k - 1)
  }

  /** A negative value of one byte's range is written as 0xff bytes of sign
      extension and then its low byte. */
  lemma {:induction false} BeBytesSmallNegative(x: int, k: nat)
    requires -0x100 <= x < 0 && k >= 1
    ensures BeBytes(x, k) == Ones(k - 1) + [Lo8(x)]
  {
    if k == 1 {
      BeBytes1(x);
    } else {
      ShrSmallNegative(x, 8 * (k - 1));
      BeBytesSmallNegative(x, k - 1);
      assert Ones(k - 1) == [0xff] + Ones(k - 2);
    }
  }

  /** A negative int64 of one byte's range, such as the -20 of the encoder's
      test, is written as seven 0xff bytes of sign extension and its low
      byte, and read back as itself. */
  lemma Int64SmallNegative(dst: seq<byte>, n: int64, rest: seq<byte>)
    requires -0x100 <= n < 0
    ensures AppendInt64(dst, n)[|dst|..] == [0xd3, 0xff, 0xff, 0xff, 0xff, 0xff, 0xff, 0xff, n + 0x100]
    ensures Decode(AppendInt64(dst, n)[|dst|..] + rest) == Some(Decoded(Int(n), 9))
  {
    BeBytesSmallNegative(n, 8);
    assert Ones(7) == [0xff, 0xff, 0xff, 0xff, 0xff, 0xff, 0xff];
    ModSmall(n + 0x100, 0x100);
    assert AppendInt64(dst, n)[|dst|..] == [0xd3] + BeBytes(n, 8);
    Int64RoundTrip(dst, n, rest);
  }

  // ---- Headers do not depend on what dst held ----------------------------

  /** dst + [tag] + field is dst followed by the header [tag] + field. */
  lemma TagFieldIgnoresDst(dst: seq<byte>, tag: byte, field: seq<byte>)
    ensures dst + [tag] + field == dst + ([] + [tag] + field)
  {
    assert [] + [tag] + field == [tag] + field;
  }

  lemma LenIgnoresDst(dst: seq<byte>, size: nat)
    ensures AppendLen(dst, size) == dst + AppendLen([], size)
  {
    if size < 256 {
    } else if size < 65536 {
      TagFieldIgnoresDst(dst, 0xda, BeBytes(size, 2));
    } else {
      TagFieldIgnoresDst(dst, 0xdb, BeBytes(size, 4));
    }
  }

  lemma ByteLenIgnoresDst(dst: seq<byte>, size: nat)
    ensures AppendByteLen(dst, size) == dst + AppendByteLen([], size)
  {
    if size < 256 {
    } else if size < 65536 {
      TagFieldIgnoresDst(dst, 0xc5, BeBytes(size, 2));
    } else {
      TagFieldIgnoresDst(dst, 0xc6, BeBytes(size, 4));
    }
  }

  lemma ArrayLenIgnoresDst(dst: seq<byte>, size: nat)
    ensures AppendArrayLen(dst, size) == dst + AppendArrayLen([], size)
  {
    if size < 16 {
    } else if size < 65536 {
      TagFieldIgnoresDst(dst, 0xdc, BeBytes(size, 2));
    } else {
      TagFieldIgnoresDst(dst, 0xdd, BeBytes(size, 4));
    }
  }

  lemma ExtLenIgnoresDst(dst: seq<byte>, size: nat)
    ensures AppendExtLen(dst, size) == dst + AppendExtLen([], size)
  {
    if size < 256 {
    } else if size < 65536 {
      TagFieldIgnoresDst(dst, 0xc8, BeBytes(size, 2));
    } else {
      TagFieldIgnoresDst(dst, 0xc9, BeBytes(size, 4));
    }
  }

  // ---- Length headers read back, modulo 2^32 ------------------------------

  /** A one-byte length field reads back the size when it is below 256. */
  lemma ByteTier(hdr: seq<byte>, tag: byte, size: nat, tail: seq<byte>)
    requires hdr == [tag, Lo8(size)] && size < 0x100
    ensures LengthField(hdr + tail, 1) == Some(Header(size % 0x1_0000_0000, 2))
  {
    BeBytes1(size);
    LengthFieldOf(tag, size, 1, tail);
    assert Pow2(8) == 0x100;
    ModSmall(size, 0x100);
    ModSmall(size, 0x1_0000_0000);
  }

  /** A two-byte length field reads back the size when it is below 2^16. */
  lemma WordTier(hdr: seq<byte>, tag: byte, size: nat, tail: seq<byte>)
    requires hdr == [tag] + BeBytes(size, 2) && size < 0x1_0000
    ensures LengthField(hdr + tail, 2) == Some(Header(size % 0x1_0000_0000, 3))
  {
    LengthFieldOf(tag, size, 2, tail);
    assert Pow2(16) == 0x1_0000;
    ModSmall(size, 0x1_0000);
    ModSmall(size, 0x1_0000_0000);
  }

  /** A four-byte length field reads back the size modulo 2^32. */
  lemma DwordTier(hdr: seq<byte>, tag: byte, size: nat, tail: seq<byte>)
    requires hdr == [tag] + BeBytes(size, 4)
    ensures LengthField(hdr + tail, 4) == Some(Header(size % 0x1_0000_0000, 5))
  {
    Pow2Values();
    LengthFieldOf(tag, size, 4, tail);
  }

  /** The inline forms: a tag with its low k bits clear, or-ed with a size
      below 2^k, is the tag plus the size. */
  lemma InlineTier(tag: nat, size: nat, k: nat)
    requires tag % Pow2(k) == 0 && size < Pow2(k) && tag + size < 0x100
    ensures Lo8(Or(tag, size)) == tag + size
  {
    var p := Pow2(k);
    var q := tag / p;
    assert tag == q * p;
    assert 0 * p + size == size;
    OrShifted(q, 0, size, k);
    assert Or(q, 0) == q;
    ModSmall(tag + size, 0x100);
  }

  lemma FixstrTier(size: nat, tail: seq<byte>)
    requires size < 32
    ensures StrHeader(AppendLen([], size) + tail) == Some(Header(size % 0x1_0000_0000, 1))
  {
    assert Pow2(5) == 32;
    InlineTier(0xa0, size, 5);
    assert (AppendLen([], size) + tail)[0] == 0xa0 + size;
    ModSmall(size, 0x1_0000_0000);
  }

  lemma FixarrayTier(size: nat, tail: seq<byte>)
    requires size < 16
    ensures ArrayHeader(AppendArrayLen([], size) + tail) == Some(Header(size % 0x1_0000_0000, 1))
  {
    assert Pow2(4) == 16;
    InlineTier(0x90, size, 4);
    assert (AppendArrayLen([], size) + tail)[0] == 0x90 + size;
    ModSmall(size, 0x1_0000_0000);
  }

  /** The str header declares the size; from 2^32 on, only its low 32 bits. */
  lemma StrHeaderOf(size: nat, tail: seq<byte>)
    ensures StrHeader(AppendLen([], size) + tail)
         == Some(Header(size % 0x1_0000_0000, |AppendLen([], size)|))
  {
    var hdr := AppendLen([], size);
    if size < 32 {
      FixstrTier(size, tail);
    } else if size < 256 {
      ByteTier(hdr, 0xd9, size, tail);
    } else if size < 65536 {
      WordTier(hdr, 0xda, size, tail);
    } else {
      DwordTier(hdr, 0xdb, size, tail);
    }
  }

  /** The bin header declares the size; from 2^32 on, only its low 32 bits. */
  lemma BinHeaderOf(size: nat, tail: seq<byte>)
    ensures BinHeader(AppendByteLen([], size) + tail)
         == Some(Header(size % 0x1_0000_0000, |AppendByteLen([], size)|))
  {
    var hdr := AppendByteLen([], size);
    if size < 256 {
      ByteTier(hdr, 0xc4, size, tail);
    } else if size < 65536 {
      WordTier(hdr, 0xc5, size, tail);
    } else {
      DwordTier(hdr, 0xc6, size, tail);
    }
  }

  /** The array header declares the count; from 2^32 on, only its low 32 bits. */
  lemma ArrayHeaderOf(size: nat, tail: seq<byte>)
    ensures ArrayHeader(AppendArrayLen([], size) + tail)
         == Some(Header(size % 0x1_0000_0000, |AppendArrayLen([], size)|))
  {
    var hdr := AppendArrayLen([], size);
    if size < 16 {
      FixarrayTier(size, tail);
    } else if size < 65536 {
      WordTier(hdr, 0xdc, size, tail);
    } else {
      DwordTier(hdr, 0xdd, size, tail);
    }
  }

  /** The ext header declares the payload size; from 2^32 on, only its low
      32 bits. */
  lemma ExtHeaderOf(size: nat, tail: seq<byte>)
    ensures ExtHeader(AppendExtLen([], size) + tail)
         == Some(Header(size % 0x1_0000_0000, |AppendExtLen([], size)|))
  {
    var hdr := AppendExtLen([], size);
    if size in {1, 2, 4, 8, 16} {
      ModSmall(size, 0x1_0000_0000);
    } else if size < 256 {
      ByteTier(hdr, 0xc7, size, tail);
    } else if size < 65536 {
      WordTier(hdr, 0xc8, size, tail);
    } else {
      DwordTier(hdr, 0xc9, size, tail);
    }
  }

  // ---- Whole values read back ---------------------------------------------

  lemma DecodeStrAt(bs: seq<byte>, h: Header)
    requires StrHeader(bs) == Some(h) && h.size + h.length <= |bs|
    ensures Decode(bs) == Some(Decoded(Str(bs[h.size..h.size + h.length]), h.size + h.length))
  {
  }

  lemma DecodeBinAt(bs: seq<byte>, h: Header)
    requires BinHeader(bs) == Some(h) && h.size + h.length <= |bs|
    ensures Decode(bs) == Some(Decoded(Bin(bs[h.size..h.size + h.length]), h.size + h.length))
  {
  }

  lemma DecodeArrayAt(bs: seq<byte>, h: Header)
    requires ArrayHeader(bs) == Some(h)
    ensures Decode(bs) == Some(Decoded(Array(h.length), h.size))
  {
  }

  lemma DecodeExtAt(bs: seq<byte>, h: Header)
    requires ExtHeader(bs) == Some(h) && h.size + 1 + h.length <= |bs|
    ensures Decode(bs) == Some(Decoded(Ext(bs[h.size], bs[h.size + 1..h.size + 1 + h.length]),
                                       h.size + 1 + h.length))
  {
  }

  lemma StringRoundTrip(dst: seq<byte>, s: seq<byte>, rest: seq<byte>)
    requires |s| < 0x1_0000_0000
    ensures Decode(AppendString(dst, s)[|dst|..] + rest)
         == Some(Decoded(Str(s), |AppendString(dst, s)| - |dst|))
  {
    var hdr := AppendLen([], |s|);
    LenIgnoresDst(dst, |s|);
    assert AppendString(dst, s) == dst + (hdr + s);
    assert AppendString(dst, s)[|dst|..] == hdr + s;
    var bs := AppendString(dst, s)[|dst|..] + rest;
    assert bs == hdr + (s + rest);
    StrHeaderOf(|s|, s + rest);
    ModSmall(|s|, 0x1_0000_0000);
    assert StrHeader(bs) == Some(Header(|s|, |hdr|));
    DecodeStrAt(bs, Header(|s|, |hdr|));
    assert bs[|hdr|..|hdr| + |s|] == s;
  }

  lemma BytesRoundTrip(dst: seq<byte>, s: seq<byte>, rest: seq<byte>)
    requires |s| < 0x1_0000_0000
    ensures Decode(AppendBytes(dst, s)[|dst|..] + rest)
         == Some(Decoded(Bin(s), |AppendBytes(dst, s)| - |dst|))
  {
    var hdr := AppendByteLen([], |s|);
    ByteLenIgnoresDst(dst, |s|);
    assert AppendBytes(dst, s) == dst + (hdr + s);
    assert AppendBytes(dst, s)[|dst|..] == hdr + s;
    var bs := AppendBytes(dst, s)[|dst|..] + rest;
    assert bs == hdr + (s + rest);
    BinHeaderOf(|s|, s + rest);
    ModSmall(|s|, 0x1_0000_0000);
    assert BinHeader(bs) == Some(Header(|s|, |hdr|));
    DecodeBinAt(bs, Header(|s|, |hdr|));
    assert bs[|hdr|..|hdr| + |s|] == s;
  }

  lemma ArrayLenRoundTrip(dst: seq<byte>, size: nat, rest: seq<byte>)
    requires size < 0x1_0000_0000
    ensures Decode(AppendArrayLen(dst, size)[|dst|..] + rest)
         == Some(Decoded(Array(size), |AppendArrayLen(dst, size)| - |dst|))
  {
    var hdr := AppendArrayLen([], size);
    ArrayLenIgnoresDst(dst, size);
    assert AppendArrayLen(dst, size)[|dst|..] == hdr;
    var bs := AppendArrayLen(dst, size)[|dst|..] + rest;
    assert bs == hdr + rest;
    ArrayHeaderOf(size, rest);
    ModSmall(size, 0x1_0000_0000);
    assert ArrayHeader(bs) == Some(Header(size, |hdr|));
    DecodeArrayAt(bs, Header(size, |hdr|));
  }

  lemma ExtRoundTrip(dst: seq<byte>, kind: byte, b: seq<byte>, rest: seq<byte>)
    requires |b| < 0x1_0000_0000
    ensures Decode(AppendExt(dst, kind, b)[|dst|..] + rest)
         == Some(Decoded(Ext(kind, b), |AppendExt(dst, kind, b)| - |dst|))
  {
    var hdr := AppendExtLen([], |b|);
    ExtLenIgnoresDst(dst, |b|);
    assert AppendExt(dst, kind, b) == dst + (hdr + [kind] + b);
    assert AppendExt(dst, kind, b)[|dst|..] == hdr + [kind] + b;
    var bs := AppendExt(dst, kind, b)[|dst|..] + rest;
    assert bs == hdr + ([kind] + b + rest);
    ExtHeaderOf(|b|, [kind] + b + rest);
    ModSmall(|b|, 0x1_0000_0000);
    assert ExtHeader(bs) == Some(Header(|b|, |hdr|));
    DecodeExtAt(bs, Header(|b|, |hdr|));
    assert bs[|hdr|] == kind;
    assert bs[|hdr| + 1..|hdr| + 1 + |b|] == b;
  }

  lemma NilRoundTrip(dst: seq<byte>, rest: seq<byte>)
    ensures Decode(AppendNil(dst)[|dst|..] + rest) == Some(Decoded(Nil, 1))
  {
  }

  lemma BoolRoundTrip(dst: seq<byte>, v: bool, rest: seq<byte>)
    ensures Decode(AppendBool(dst, v)[|dst|..] + rest) == Some(Decoded(Bool(v), 1))
  {
  }

  // ---- Timestamps --------------------------------------------------------

  /** A timestamp is an extension of kind 1 whose payload is what follows the
      tag and the kind byte. */
  lemma TimeIsExt(dst: seq<byte>, ts: Time)
    ensures AppendTime(dst, ts) == AppendExt(dst, TimestampKind, AppendTime([], ts)[2..])
  {
  }

  lemma DecodeTimeExt(dst: seq<byte>, ts: Time, rest: seq<byte>)
    ensures var enc := AppendTime(dst, ts)[|dst|..];
            Decode(enc + rest) == Some(Decoded(Ext(TimestampKind, enc[2..]), |enc|))
  {
    var payload := AppendTime([], ts)[2..];
    TimeIsExt(dst, ts);
    ExtRoundTrip(dst, TimestampKind, payload, rest);
    assert AppendTime(dst, ts)[|dst|..][2..] == payload;
  }

  /** Without nanoseconds the payload holds the seconds modulo 2^32: negative
      seconds and seconds from 2^32 on are not read back. */
  lemma TimeSecondsForm(dst: seq<byte>, ts: Time, rest: seq<byte>)
    requires ts.nanos == 0
    ensures var enc := AppendTime(dst, ts)[|dst|..];
            && Decode(enc + rest) == Some(Decoded(Ext(TimestampKind, enc[2..]), 6))
            && TimestampOf(Ext(TimestampKind, enc[2..])) == Some(Timestamp(ts.secs % 0x1_0000_0000, 0))
  {
    DecodeTimeExt(dst, ts, rest);
    assert AppendTime(dst, ts)[|dst|..][2..] == BeBytes(ts.secs, 4);
    BeRoundTrip(ts.secs, 4);
    Pow2Values();
  }

  /** uint64(nanos) << 34 loses no bits. */
  lemma NanosShifted(nanos: Nanos)
    ensures Shl64(Uint64(nanos), 34) == nanos * 0x4_0000_0000
  {
    assert Pow2(34) == 0x4_0000_0000 by {
      Pow2Values();
    }
    ModSmall(nanos, 0x1_0000_0000_0000_0000);
    ModSmall(nanos * 0x4_0000_0000, 0x1_0000_0000_0000_0000);
  }

  /** A 30-bit value shifted up by 34, or-ed with a 64-bit value u: the bits
      of u from 34 up join the 30-bit value, its low 34 bits stay below. */
  lemma SplitAt34(n: nat, u: nat)
    requires n < 0x4000_0000 && u < 0x1_0000_0000_0000_0000
    ensures Or(n, u / 0x4_0000_0000) < 0x4000_0000
    ensures Or(n * 0x4_0000_0000, u) == Or(n, u / 0x4_0000_0000) * 0x4_0000_0000 + u % 0x4_0000_0000
  {
    var j, s := u / 0x4_0000_0000, u % 0x4_0000_0000;
    assert Pow2(34) == 0x4_0000_0000 && Pow2(30) == 0x4000_0000 by {
      Pow2Values();
    }
    OrShifted(n, j, s, 34);
    OrBound(n, j, 30);
  }

  /** The word nanos << 34 | uint64(secs), split at bit 34. */
  lemma TimeWord(nanos: Nanos, secs: int64)
    ensures var u := Uint64(secs);
            var o := Or(nanos, u / 0x4_0000_0000);
            && o < 0x4000_0000
            && Or(Shl64(Uint64(nanos), 34), u) == o * 0x4_0000_0000 + u % 0x4_0000_0000
  {
    NanosShifted(nanos);
    SplitAt34(nanos, Uint64(secs));
  }

  /** With nanoseconds the payload is one 64-bit word: the nanoseconds in the
      top 30 bits, or-ed with whatever of uint64(secs) lies above bit 34, and
      the low 34 bits of uint64(secs) below them. */
  lemma TimeWordPayload(dst: seq<byte>, ts: Time)
    requires ts.nanos != 0
    ensures var u := ts.secs % 0x1_0000_0000_0000_0000;
            BeValue(AppendTime(dst, ts)[|dst|..][2..])
            == Or(ts.nanos, u / 0x4_0000_0000) * 0x4_0000_0000 + u % 0x4_0000_0000
  {
    var w := Or(Shl64(Uint64(ts.nanos), 34), Uint64(ts.secs));
    TimeWord(ts.nanos, ts.secs);
    assert AppendTime(dst, ts)[|dst|..][2..] == BeBytes(w, 8);
    BeRoundTrip(w, 8);
    assert Pow2(8 * 8) == 0x1_0000_0000_0000_0000 by {
      Pow2Values();
    }
    ModSmall(w, 0x1_0000_0000_0000_0000);
  }

  /** The reader takes that word apart again. */
  lemma TimeWordForm(dst: seq<byte>, ts: Time, rest: seq<byte>)
    requires ts.nanos != 0
    ensures var enc := AppendTime(dst, ts)[|dst|..];
            var u := ts.secs % 0x1_0000_0000_0000_0000;
            && Decode(enc + rest) == Some(Decoded(Ext(TimestampKind, enc[2..]), 10))
            && TimestampOf(Ext(TimestampKind, enc[2..]))
               == Some(Timestamp(u % 0x4_0000_0000, Or(ts.nanos, u / 0x4_0000_0000)))
  {
    DecodeTimeExt(dst, ts, rest);
    TimeWordPayload(dst, ts);
    var u := ts.secs % 0x1_0000_0000_0000_0000;
    var o := Or(ts.nanos, u / 0x4_0000_0000);
    DivModUnique(o * 0x4_0000_0000 + u % 0x4_0000_0000, 0x4_0000_0000, o, u % 0x4_0000_0000);
  }

  /** Both forms read back the time they were made from, when the seconds fit
      the form: below 2^32 without nanoseconds, below 2^34 with them. */
  lemma TimeRoundTrip(dst: seq<byte>, ts: Time, rest: seq<byte>)
    requires 0 <= ts.secs < (if ts.nanos == 0 then 0x1_0000_0000 else 0x4_0000_0000)
    ensures var enc := AppendTime(dst, ts)[|dst|..];
            && Decode(enc + rest) == Some(Decoded(Ext(TimestampKind, enc[2..]), |enc|))
            && TimestampOf(Ext(TimestampKind, enc[2..])) == Some(Timestamp(ts.secs, ts.nanos))
  {
    if ts.nanos == 0 {
      TimeSecondsForm(dst, ts, rest);
      ModSmall(ts.secs, 0x1_0000_0000);
    } else {
      TimeWordForm(dst, ts, rest);
      ModSmall(ts.secs, 0x1_0000_0000_0000_0000);
      DivModUnique(ts.secs, 0x4_0000_0000, 0, ts.secs);
    }
  }

  /** Outside those ranges nothing checks the seconds, and the time read back
      is not the time written: without nanoseconds the seconds lose all but
      their low 32 bits, with nanoseconds the bits from 34 up are or-ed into
      the nanoseconds. */
  lemma TimeOutOfRange(dst: seq<byte>, ts: Time)
    requires !(0 <= ts.secs < (if ts.nanos == 0 then 0x1_0000_0000 else 0x4_0000_0000))
    ensures var enc := AppendTime(dst, ts)[|dst|..];
            TimestampOf(Ext(TimestampKind, enc[2..])) != Some(Timestamp(ts.secs, ts.nanos))
  {
    if ts.nanos == 0 {
      TimeSecondsForm(dst, ts, []);
    } else {
      TimeWordForm(dst, ts, []);
    }
  }

  // ---- Each header is the shortest the format offers ----------------------

  /** No str header the reader accepts is shorter than the one appendLen
      writes for the same length. */
  lemma StrHeaderShortest(bs: seq<byte>)
    requires StrHeader(bs).Some?
    ensures |AppendLen([], StrHeader(bs).value.length)| <= StrHeader(bs).value.size
  {
    if bs[0] == 0xd9 {
      BeValueBound(bs[1..2]);
      assert Pow2(8) == 0x100 by { Pow2Values(); }
    } else if bs[0] == 0xda {
      BeValueBound(bs[1..3]);
      assert Pow2(16) == 0x1_0000 by { Pow2Values(); }
    }
  }

  lemma BinHeaderShortest(bs: seq<byte>)
    requires BinHeader(bs).Some?
    ensures |AppendByteLen([], BinHeader(bs).value.length)| <= BinHeader(bs).value.size
  {
    if bs[0] == 0xc4 {
      BeValueBound(bs[1..2]);
      assert Pow2(8) == 0x100 by { Pow2Values(); }
    } else if bs[0] == 0xc5 {
      BeValueBound(bs[1..3]);
      assert Pow2(16) == 0x1_0000 by { Pow2Values(); }
    }
  }

  lemma ArrayHeaderShortest(bs: seq<byte>)
    requires ArrayHeader(bs).Some?
    ensures |AppendArrayLen([], ArrayHeader(bs).value.length)| <= ArrayHeader(bs).value.size
  {
    if bs[0] == 0xdc {
      BeValueBound(bs[1..3]);
      assert Pow2(16) == 0x1_0000 by { Pow2Values(); }
    }
  }

  /** In particular the payload sizes 1, 2, 4, 8 and 16 take the one-byte
      fixext header, never ext8. */
  lemma ExtHeaderShortest(bs: seq<byte>)
    requires ExtHeader(bs).Some?
    ensures |AppendExtLen([], ExtHeader(bs).value.length)| <= ExtHeader(bs).value.size
  {
    var h := ExtHeader(bs).value;
    if 0xd4 <= bs[0] <= 0xd8 {
      Pow2Values();
      assert h.length in {1, 2, 4, 8, 16};
    } else if bs[0] == 0xc7 {
      BeValueBound(bs[1..2]);
      assert Pow2(8) == 0x100 by { Pow2Values(); }
    } else if bs[0] == 0xc8 {
      BeValueBound(bs[1..3]);
      assert Pow2(16) == 0x1_0000 by { Pow2Values(); }
    }
  }

  // ---- The tiers, byte by byte ---------------------------------------------

  /** Two and four length bytes as base-256 digits of the size. */
  lemma Digits2(x: nat)
    ensures BeBytes(x, 2) == [(x / 0x100) % 0x100, x % 0x100]
  {
    BeBytes2(x);
    Pow2Values();
  }

  lemma Digits4(x: nat)
    ensures BeBytes(x, 4) == [(x / 0x100_0000) % 0x100, (x / 0x1_0000) % 0x100, (x / 0x100) % 0x100, x % 0x100]
  {
    BeBytes4(x);
    Pow2Values();
  }

  /** fixstr below 32, str8 below 256, str16 below 65536, str32 from there. */
  lemma StrHeaderTiers(size: nat)
    ensures size < 32 ==> AppendLen([], size) == [0xa0 + size]
    ensures 32 <= size < 0x100 ==> AppendLen([], size) == [0xd9, size]
    ensures 0x100 <= size < 0x1_0000 ==> AppendLen([], size) == [0xda, size / 0x100, size % 0x100]
    ensures 0x1_0000 <= size ==>
              AppendLen([], size) == [0xdb, (size / 0x100_0000) % 0x100, (size / 0x1_0000) % 0x100, (size / 0x100) % 0x100, size % 0x100]
  {
    if size < 32 {
      Pow2Values();
      InlineTier(0xa0, size, 5);
    } else if size < 0x100 {
    } else if size < 0x1_0000 {
      Digits2(size);
      ModSmall(size / 0x100, 0x100);
    } else {
      Digits4(size);
    }
  }

  /** bin8 below 256, bin16 below 65536, bin32 from there: no inline form. */
  lemma BinHeaderTiers(size: nat)
    ensures size < 0x100 ==> AppendByteLen([], size) == [0xc4, size]
    ensures 0x100 <= size < 0x1_0000 ==> AppendByteLen([], size) == [0xc5, size / 0x100, size % 0x100]
    ensures 0x1_0000 <= size ==>
              AppendByteLen([], size) == [0xc6, (size / 0x100_0000) % 0x100, (size / 0x1_0000) % 0x100, (size / 0x100) % 0x100, size % 0x100]
  {
    if size < 0x100 {
    } else if size < 0x1_0000 {
      Digits2(size);
      ModSmall(size / 0x100, 0x100);
    } else {
      Digits4(size);
    }
  }

  /** fixarray below 16, array16 below 65536, array32 from there. */
  lemma ArrayHeaderTiers(size: nat)
    ensures size < 16 ==> AppendArrayLen([], size) == [0x90 + size]
    ensures 16 <= size < 0x1_0000 ==> AppendArrayLen([], size) == [0xdc, size / 0x100, size % 0x100]
    ensures 0x1_0000 <= size ==>
              AppendArrayLen([], size) == [0xdd, (size / 0x100_0000) % 0x100, (size / 0x1_0000) % 0x100, (size / 0x100) % 0x100, size % 0x100]
  {
    if size < 16 {
      Pow2Values();
      InlineTier(0x90, size, 4);
    } else if size < 0x1_0000 {
      Digits2(size);
      ModSmall(size / 0x100, 0x100);
    } else {
      Digits4(size);
    }
  }

  /** The sizes 1, 2, 4, 8 and 16 take fixext whatever the ranges say; any
      other size takes ext8 below 256, ext16 below 65536 and ext32 from there. */
  lemma ExtHeaderTiers(size: nat)
    ensures size == 1 ==> AppendExtLen([], size) == [0xd4]
    ensures size == 2 ==> AppendExtLen([], size) == [0xd5]
    ensures size == 4 ==> AppendExtLen([], size) == [0xd6]
    ensures size == 8 ==> AppendExtLen([], size) == [0xd7]
    ensures size == 16 ==> AppendExtLen([], size) == [0xd8]
    ensures size !in {1, 2, 4, 8, 16} && size < 0x100 ==> AppendExtLen([], size) == [0xc7, size]
    ensures 0x100 <= size < 0x1_0000 ==> AppendExtLen([], size) == [0xc8, size / 0x100, size % 0x100]
    ensures 0x1_0000 <= size ==>
              AppendExtLen([], size) == [0xc9, (size / 0x100_0000) % 0x100, (size / 0x1_0000) % 0x100, (size / 0x100) % 0x100, size % 0x100]
  {
    if size < 0x100 {
    } else if size < 0x1_0000 {
      Digits2(size);
      ModSmall(size / 0x100, 0x100);
    } else {
      Digits4(size);
    }
  }
}
