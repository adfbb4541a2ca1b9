/** Sixteen-bit samples, their byte representations, and the byte-order
    `serialize` step every reader and transcoder applies to a sample.
    The source is generic in the sample type; the model fixes it to
    `int16_t`, the type the tiles are stored in. */
module Samples {

  type Byte = b: int | 0 <= b < 256

  /** A value of `int16_t`. */
  type Int16 = v: int | -32768 <= v < 32768

  /** `INT16_MIN`, the no-data value of the fixed tile metadata. */
  const Int16Min: Int16 := -32768

  /** A byte order: of the host (`std::endian::native`, or the result of
      `is_system_little_endian`) or the one requested for a file. */
  datatype Endian = Little | Big

  function Flip(e: Endian): Endian {
    if e == Little then Big else Little
  }

  /** The byte order named by a `bool little_endian` template argument. */
  function OrderOf(littleEndian: bool): Endian {
    if littleEndian then Little else Big
  }

  /** The two's-complement bit pattern of `v`. */
  function Unsigned(v: Int16): (u: nat)
    ensures u < 65536
    ensures u % 65536 == v % 65536
  {
    if v < 0 then v + 65536 else v
  }

  /** The `int16_t` whose bit pattern is `u`. */
  function Signed(u: nat): (v: Int16)
    requires u < 65536
    ensures Unsigned(v) == u
  {
    if u < 32768 then u else u - 65536
  }

  /** `static_cast<int16_t>(x)`: the value congruent to `x` modulo 2^16. */
  function Narrow(x: int): (v: Int16)
    ensures (v - x) % 65536 == 0
    ensures -32768 <= x < 32768 ==> v == x
  {
    Signed(x % 65536)
  }

  function LowByte(v: Int16): Byte {
    Unsigned(v) % 256
  }

  function HighByte(v: Int16): Byte {
    Unsigned(v) / 256
  }

  /** The two bytes of `v` as they lie in memory, or in a file, written in
      byte order `order`. */
  function BytesOf(v: Int16, order: Endian): (b: seq<Byte>)
    ensures |b| == 2
  {
    if order == Little then [LowByte(v), HighByte(v)] else [HighByte(v), LowByte(v)]
  }

  /** The sample that the bytes `b0, b1` (in that order) represent in
      byte order `order`. */
  function ValueAs(b0: Byte, b1: Byte, order: Endian): Int16 {
    Signed(if order == Little then b1 * 256 + b0 else b0 * 256 + b1)
  }

  /** Reversing the two bytes of a sample. */
  function ByteSwap(v: Int16): Int16 {
    Signed(LowByte(v) * 256 + HighByte(v))
  }

  lemma SplitUnsigned(u: nat, hi: nat, lo: nat)
    requires lo < 256 && u == hi * 256 + lo
    ensures u / 256 == hi && u % 256 == lo
  {
  }

  /** Reading back the bytes a sample was written as gives the sample. */
  lemma {:induction false} ValueOfBytes(v: Int16, order: Endian)
    ensures ValueAs(BytesOf(v, order)[0], BytesOf(v, order)[1], order) == v
  {
    var u := Unsigned(v);
    assert u == HighByte(v) * 256 + LowByte(v);
    assert Signed(u) == v;
  }

  /** Writing the sample that two bytes represent gives back those bytes. */
  lemma {:induction false} BytesOfValue(b0: Byte, b1: Byte, order: Endian)
    ensures BytesOf(ValueAs(b0, b1, order), order) == [b0, b1]
  {
    var u := if order == Little then b1 * 256 + b0 else b0 * 256 + b1;
    var v := ValueAs(b0, b1, order);
    assert Unsigned(v) == u;
    if order == Little {
      SplitUnsigned(u, b1, b0);
    } else {
      SplitUnsigned(u, b0, b1);
    }
  }

  /** Reading two bytes in the other byte order yields the byte-swapped
      sample: this is why reversing the bytes of a value in memory corrects
      a file written in the opposite order to the host's. */
  lemma {:induction false} ReadInOtherOrder(b0: Byte, b1: Byte, order: Endian)
    ensures ValueAs(b0, b1, Flip(order)) == ByteSwap(ValueAs(b0, b1, order))
  {
    var v := ValueAs(b0, b1, order);
    BytesOfValue(b0, b1, order);
    var u := Unsigned(v);
    if order == Little {
      SplitUnsigned(u, b1, b0);
    } else {
      SplitUnsigned(u, b0, b1);
    }
  }

  /** Reversing the bytes twice restores the sample. */
  lemma {:induction false} ByteSwapInvolution(v: Int16)
    ensures ByteSwap(ByteSwap(v)) == v
  {
    var b := BytesOf(v, Little);
    ValueOfBytes(v, Little);
    ReadInOtherOrder(b[0], b[1], Little);
    ReadInOtherOrder(b[0], b[1], Big);
  }

  /** `serialize`: the value unchanged, or its bytes reversed. */
  function Serialized(v: Int16, reverse: bool): Int16 {
    if reverse then ByteSwap(v) else v
  }

  /** The test of include/DEM/DEM.hpp, Utility.hpp, include/DEM/Utility.hpp
      and include/Utility.hpp: keep the value exactly when the requested
      byte order is the host's (an exclusive-or of the two "is little"
      flags). */
  predicate ReversesXor(requested: Endian, native: Endian) {
    (requested == Little) != (native == Little)
  }

  /** The test of include/DEM.hpp and src/Utility.cpp: keep the value only
      when little-endian was requested AND the host is little-endian. */
  predicate ReversesAnd(littleEndian: bool, native: Endian) {
    !(littleEndian && native == Little)
  }

  /** `serialize` is its own inverse, whichever test decides it. */
  lemma {:induction false} SerializeInvolution(v: Int16, reverse: bool)
    ensures Serialized(Serialized(v, reverse), reverse) == v
  {
    if reverse {
      ByteSwapInvolution(v);
    }
  }

  /** With the exclusive-or test, a sample read in host order and then
      serialized is the sample the bytes represent in the requested order,
      on either host. */
  lemma {:induction false} XorDecodesRequestedOrder(b0: Byte, b1: Byte, requested: Endian, native: Endian)
    ensures Serialized(ValueAs(b0, b1, native), ReversesXor(requested, native)) == ValueAs(b0, b1, requested)
  {
    ReadInOtherOrder(b0, b1, native);
  }

  /** The byte order that the conjunction test actually decodes: little
      endian when asked, and otherwise the opposite of the host's. */
  function AndDecodedOrder(littleEndian: bool, native: Endian): Endian {
    if littleEndian then Little else Flip(native)
  }

  lemma {:induction false} AndDecodesOrder(b0: Byte, b1: Byte, littleEndian: bool, native: Endian)
    ensures Serialized(ValueAs(b0, b1, native), ReversesAnd(littleEndian, native))
         == ValueAs(b0, b1, AndDecodedOrder(littleEndian, native))
  {
    ReadInOtherOrder(b0, b1, native);
  }

  /** With the conjunction test, asking for big-endian data on a
      big-endian host still reverses the bytes: the file bytes 0x00 0x01,
      which are 1 in big-endian order, decode as 256. */
  lemma AndMisreadsBigEndianOnBigHost()
    ensures ValueAs(0, 1, Big) == 1
    ensures Serialized(ValueAs(0, 1, Big), ReversesAnd(false, Big)) == 256
  {
    ReadInOtherOrder(0, 1, Big);
  }

  /** `n` samples written one after the other in byte order `order`. */
  function EncodeAs(vs: seq<Int16>, order: Endian): (bytes: seq<Byte>)
    ensures |bytes| == 2 * |vs|
  {
    seq(2 * |vs|, k requires 0 <= k < 2 * |vs| => BytesOf(vs[k / 2], order)[k % 2])
  }

  /** The samples of a byte stream read two bytes at a time in byte order
      `order`; a trailing odd byte is not a sample. */
  function DecodeAs(bytes: seq<Byte>, order: Endian): (vs: seq<Int16>)
    ensures |vs| == |bytes| / 2
  {
    seq(|bytes| / 2, k requires 0 <= k < |bytes| / 2 => ValueAs(bytes[2 * k], bytes[2 * k + 1], order))
  }

  /** Sample `k` is written as bytes `2k` and `2k + 1`. */
  lemma EncodedPair(vs: seq<Int16>, order: Endian, k: nat)
    requires k < |vs|
    ensures 2 * k + 1 < |EncodeAs(vs, order)|
    ensures EncodeAs(vs, order)[2 * k] == BytesOf(vs[k], order)[0]
    ensures EncodeAs(vs, order)[2 * k + 1] == BytesOf(vs[k], order)[1]
  {
    assert (2 * k) / 2 == k && (2 * k) % 2 == 0;
    assert (2 * k + 1) / 2 == k && (2 * k + 1) % 2 == 1;
  }

  /** Sample `k` read back from the written stream, in the order it was
      written and in the other order. */
  lemma DecodedPair(vs: seq<Int16>, order: Endian, k: nat)
    requires k < |vs|
    ensures k < |DecodeAs(EncodeAs(vs, order), order)|
    ensures DecodeAs(EncodeAs(vs, order), order)[k] == vs[k]
    ensures DecodeAs(EncodeAs(vs, order), Flip(order))[k] == ByteSwap(vs[k])
  {
    var bytes := EncodeAs(vs, order);
    EncodedPair(vs, order, k);
    var b0, b1 := bytes[2 * k], bytes[2 * k + 1];
    assert DecodeAs(bytes, order)[k] == ValueAs(b0, b1, order);
    assert DecodeAs(bytes, Flip(order))[k] == ValueAs(b0, b1, Flip(order));
    ValueOfBytes(vs[k], order);
    ReadInOtherOrder(b0, b1, order);
  }

  /** Writing samples in one byte order and reading them in the same order
      gives them back. */
  lemma {:induction false} DecodeEncode(vs: seq<Int16>, order: Endian)
    ensures DecodeAs(EncodeAs(vs, order), order) == vs
  {
    var bytes := EncodeAs(vs, order);
    forall k | 0 <= k < |vs|
      ensures DecodeAs(bytes, order)[k] == vs[k]
    {
      DecodedPair(vs, order, k);
    }
  }

  /** Re-encoding decoded samples reproduces the stream, less a trailing
      odd byte. */
  lemma {:induction false} EncodeDecode(bytes: seq<Byte>, order: Endian)
    ensures EncodeAs(DecodeAs(bytes, order), order) == bytes[..2 * (|bytes| / 2)]
  {
    var vs := DecodeAs(bytes, order);
    forall k | 0 <= k < 2 * |vs|
      ensures EncodeAs(vs, order)[k] == bytes[k]
    {
      var i := k / 2;
      assert k == 2 * i || k == 2 * i + 1;
      BytesOfValue(bytes[2 * i], bytes[2 * i + 1], order);
    }
  }

  /** Every sample of `vs` with its bytes reversed. */
  function SwapAll(vs: seq<Int16>): (ws: seq<Int16>)
    ensures |ws| == |vs|
    ensures forall k :: 0 <= k < |vs| ==> ws[k] == ByteSwap(vs[k])
  {
    seq(|vs|, k requires 0 <= k < |vs| => ByteSwap(vs[k]))
  }

  /** Samples written in one byte order and read in the other come back
      byte-swapped. */
  lemma {:induction false} DecodeOtherOrder(vs: seq<Int16>, order: Endian)
    ensures DecodeAs(EncodeAs(vs, order), Flip(order)) == SwapAll(vs)
  {
    var bytes := EncodeAs(vs, order);
    forall k | 0 <= k < |vs|
      ensures DecodeAs(bytes, Flip(order))[k] == ByteSwap(vs[k])
    {
      DecodedPair(vs, order, k);
    }
  }

  /** `union { int16_t value; uint8_t bytes[2]; }` on a host with byte
      order `host`: the value seen through `value` is what the two bytes
      represent in host order. The source keeps one such union per
      `serialize` and reverses its bytes in place. */
  class Union16 {
    const host: Endian
    const bytes: array<Byte>

    ghost predicate Valid()
      reads this
    {
      bytes.Length == 2
    }

    /** `t.value` */
    function Value(): Int16
      reads this, bytes
      requires Valid()
    {
      ValueAs(bytes[0], bytes[1], host)
    }

    /** The zero-initialised union `t{}`. */
    constructor (host: Endian)
      ensures Valid() && fresh(bytes)
      ensures this.host == host && Value() == 0
    {
      this.host := host;
      bytes := new Byte[2](_ => 0);
    }

    /** `t.value = v` */
    method Store(v: Int16)
      requires Valid()
      modifies bytes
      ensures Valid()
      ensures bytes[..] == BytesOf(v, host) && Value() == v
    {
      var b := BytesOf(v, host);
      bytes[0] := b[0];
      bytes[1] := b[1];
      ValueOfBytes(v, host);
    }

    /** `std::reverse(t.bytes, t.bytes + sizeof(t.value))` */
    method Reverse()
      requires Valid()
      modifies bytes
      ensures Valid()
      ensures bytes[..] == [old(bytes[1]), old(bytes[0])]
      ensures Value() == ByteSwap(old(Value()))
    {
      bytes[0], bytes[1] := bytes[1], bytes[0];
      ReadInOtherOrder(bytes[1], bytes[0], host);
      assert Flip(Flip(host)) == host;
      ReadInOtherOrder(bytes[0], bytes[1], Flip(host));
    }

    /** The body of every `serialize`: store the value, reverse its bytes
        when the variant's test says so, and read the value back. */
    method Serialize(v: Int16, reverse: bool) returns (r: Int16)
      requires Valid()
      modifies bytes
      ensures Valid()
      ensures r == Serialized(v, reverse) && Value() == r
    {
      Store(v);
      if reverse {
        Reverse();
      }
      r := Value();
    }
  }
}
