/** The payload that feeds the machine (unlv_challenge.py lines 132-137 and
    149-173): the least significant bit of every pixel byte, those bits
    packed eight to a byte most significant first, four header bytes
    dropped, and the rest cut at fixed offsets into the machine's setup. */
module Payload {
  import opened Wrappers

  type byte = x: int | 0 <= x < 256

  /** `2^n`. */
  function Pow2(n: nat): (p: nat)
    ensures p >= 1
  {
    if n == 0 then 1 else 2 * Pow2(n - 1)
  }

  /** The value 0 or 1 of a bit. */
  function BitValue(b: bool): (v: nat) {
    if b then 1 else 0
  }

  /** The `n` low bits of `x`, most significant first: the order in which a
      default (big-endian) bitarray holds a byte. */
  function ToBits(x: nat, n: nat): (r: seq<bool>)
    ensures |r| == n
  {
    if n == 0 then [] else ToBits(x / 2, n - 1) + [x % 2 == 1]
  }

  /** The number whose binary digits, most significant first, are `bits`. */
  function FromBits(bits: seq<bool>): (x: nat)
    ensures x < Pow2(|bits|)
  {
    if bits == [] then 0 else 2 * FromBits(bits[..|bits| - 1]) + BitValue(bits[|bits| - 1])
  }

  /** Reading back the bits of a number that fits gives the number. */
  lemma {:induction false} FromToBits(x: nat, n: nat)
    requires x < Pow2(n)
    ensures FromBits(ToBits(x, n)) == x
  {
    if n > 0 {
      FromToBits(x / 2, n - 1);
      var r := ToBits(x, n);
      assert r[..n - 1] == ToBits(x / 2, n - 1);
    }
  }

  /** Writing out the value of a bit string gives the bit string. */
  lemma {:induction false} ToFromBits(bits: seq<bool>)
    ensures ToBits(FromBits(bits), |bits|) == bits
  {
    if bits != [] {
      var init := bits[..|bits| - 1];
      ToFromBits(init);
      var x := FromBits(bits);
      assert x / 2 == FromBits(init);
      assert (x % 2 == 1) == bits[|bits| - 1];
      assert bits == init + [bits[|bits| - 1]];
    }
  }

  /** The first bit is the most significant: it alone decides whether the
      value reaches the top half of the range. */
  lemma {:induction false} FirstBitIsMostSignificant(bits: seq<bool>)
    requires |bits| > 0
    ensures FromBits(bits) >= Pow2(|bits| - 1) <==> bits[0]
  {
    if |bits| > 1 {
      var init := bits[..|bits| - 1];
      FirstBitIsMostSignificant(init);
      assert init[0] == bits[0];
    }
  }

  /** `bits.frombytes(byte)`: the eight bits of one byte. */
  function ByteBits(b: byte): (r: seq<bool>)
    ensures |r| == 8
  {
    ToBits(b, 8)
  }

  /** `bits[7]`, the last of a byte's eight bits, is its least significant
      bit. */
  lemma LastBitIsLeastSignificant(b: byte)
    ensures ByteBits(b)[7] == (b % 2 == 1)
  {
    assert ToBits(b, 8) == ToBits(b / 2, 7) + [b % 2 == 1];
  }

  /** The bits `readFile` collects: one per pixel byte, in order. */
  function Lsbs(raw: seq<byte>): (r: seq<bool>)
    ensures |r| == |raw|
    ensures forall i :: 0 <= i < |raw| ==> r[i] == (raw[i] % 2 == 1)
  {
    if raw == [] then []
    else
      LastBitIsLeastSignificant(raw[|raw| - 1]);
      Lsbs(raw[..|raw| - 1]) + [ByteBits(raw[|raw| - 1])[7]]
  }

  /** The loop of `readFile` (lines 132-137) over bytes already read: append
      bit 7 of each byte's bits. */
  method ExtractLsbs(raw: seq<byte>) returns (bits: seq<bool>)
    ensures bits == Lsbs(raw)
    ensures |bits| == |raw|
  {
    bits := [];
    var i := 0;
    while i < |raw|
      invariant 0 <= i <= |raw|
      invariant bits == Lsbs(raw[..i])
    {
      var b := ByteBits(raw[i]);
      assert raw[..i + 1][..i] == raw[..i];
      bits := bits + [b[7]];
      i := i + 1;
    }
    assert raw[..i] == raw;
  }

  /** `n` zero bits. */
  function Zeros(n: nat): (r: seq<bool>)
    ensures |r| == n && forall i :: 0 <= i < n ==> !r[i]
  {
    if n == 0 then [] else Zeros(n - 1) + [false]
  }

  /** `bitarray.tobytes()`: eight bits to a byte, most significant first; a
      short last group is padded with zero bits on the right. */
  function Pack(bits: seq<bool>): (r: seq<byte>)
    ensures 8 * |r| == |bits| + PadLength(|bits|)
    decreases |bits|
  {
    if |bits| == 0 then []
    else if |bits| < 8 then [FromBits(bits + Zeros(8 - |bits|))]
    else [FromBits(bits[..8])] + Pack(bits[8..])
  }

  /** The bits of a byte string, eight per byte. */
  function Unpack(bytes: seq<byte>): (r: seq<bool>)
    ensures |r| == 8 * |bytes|
  {
    if bytes == [] then [] else ByteBits(bytes[0]) + Unpack(bytes[1..])
  }

  /** The padding `tobytes` adds to reach a whole number of bytes: none
      after a whole byte, otherwise up to the next one. */
  function PadLength(n: nat): (k: nat)
    ensures k < 8
  {
    if n == 0 then 0 else if n < 8 then 8 - n else PadLength(n - 8)
  }

  /** The padding is the least that completes a byte. */
  lemma {:induction false} PadLengthCompletes(n: nat)
    ensures (n + PadLength(n)) % 8 == 0
    ensures PadLength(n) == (8 - n % 8) % 8
  {
    if n >= 8 {
      PadLengthCompletes(n - 8);
      var j, k := n - 8, PadLength(n - 8);
      assert PadLength(n) == k;
      assert (n + PadLength(n)) % 8 == 0 by {
        assert (j + k + 8) % 8 == (j + k) % 8;
      }
      assert PadLength(n) == (8 - n % 8) % 8 by {
        assert (j + 8) % 8 == j % 8;
      }
    }
  }

  /** Eight more bits need the same padding. */
  lemma PadLengthShift(n: nat)
    ensures PadLength(n + 8) == PadLength(n)
  {
  }

  /** Unpacking a byte string that starts with `b`. */
  lemma UnpackCons(b: byte, rest: seq<byte>)
    ensures Unpack([b] + rest) == ByteBits(b) + Unpack(rest)
  {
    assert ([b] + rest)[1..] == rest;
  }

  /** A short last group comes back with its zero padding. */
  lemma PackShort(bits: seq<bool>)
    requires 0 < |bits| < 8
    ensures Unpack(Pack(bits)) == bits + Zeros(PadLength(|bits|))
  {
    var padded := bits + Zeros(8 - |bits|);
    ToFromBits(padded);
    UnpackCons(FromBits(padded), []);
    assert PadLength(|bits|) == 8 - |bits|;
  }

  /** Unpacking what was packed gives the bits back followed by the zero
      padding: no bit is lost and the tail is not dropped. */
  lemma {:induction false} PackRoundTrip(bits: seq<bool>)
    ensures Unpack(Pack(bits)) == bits + Zeros(PadLength(|bits|))
    decreases |bits|
  {
    if |bits| == 0 {
    } else if |bits| < 8 {
      PackShort(bits);
    } else {
      var head, tail := bits[..8], bits[8..];
      PackRoundTrip(tail);
      ToFromBits(head);
      PadLengthShift(|tail|);
      UnpackCons(FromBits(head), Pack(tail));
      assert bits == head + tail;
    }
  }

  /** Packing the bits of a byte string gives the byte string. */
  lemma {:induction false} UnpackRoundTrip(bytes: seq<byte>)
    ensures Pack(Unpack(bytes)) == bytes
  {
    if bytes != [] {
      UnpackRoundTrip(bytes[1..]);
      var u := Unpack(bytes);
      assert u[..8] == ByteBits(bytes[0]);
      assert u[8..] == Unpack(bytes[1..]);
      FromToBits(bytes[0], 8);
      assert bytes == [bytes[0]] + bytes[1..];
    }
  }

  /** One more bit on the right doubles the value of a prefix and adds
      the bit. */
  lemma FromBitsPrefix(bits: seq<bool>, k: nat)
    requires k < |bits|
    ensures FromBits(bits[..k + 1]) == 2 * FromBits(bits[..k]) + BitValue(bits[k])
  {
    assert bits[..k + 1][..k] == bits[..k];
  }

  /** Eight bits make one byte whose value weighs the first bit 128 and the
      last bit 1. */
  lemma PackEight(bits: seq<bool>)
    requires |bits| == 8
    ensures Pack(bits) == [128 * BitValue(bits[0]) + 64 * BitValue(bits[1]) + 32 * BitValue(bits[2]) +
                           16 * BitValue(bits[3]) + 8 * BitValue(bits[4]) + 4 * BitValue(bits[5]) +
                           2 * BitValue(bits[6]) + BitValue(bits[7])]
  {
    assert bits[..0] == [];
    FromBitsPrefix(bits, 0);
    FromBitsPrefix(bits, 1);
    FromBitsPrefix(bits, 2);
    FromBitsPrefix(bits, 3);
    FromBitsPrefix(bits, 4);
    FromBitsPrefix(bits, 5);
    FromBitsPrefix(bits, 6);
    FromBitsPrefix(bits, 7);
    assert bits[..8] == bits;
    assert bits[8..] == [];
  }

  /** Nine bits make two bytes, the second holding the ninth bit as its most
      significant bit and zeros after it. */
  lemma NineBits(bits: seq<bool>)
    requires |bits| == 9
    ensures |Pack(bits)| == 2
    ensures Pack(bits)[1] == if bits[8] then 128 else 0
  {
    var last := bits[8..] + Zeros(7);
    assert Pack(bits[8..]) == [FromBits(last)];
    ToFromBits(last);
    FirstBitIsMostSignificant(last);
    assert last[1..] == Zeros(7);
    ZerosValue(7);
    assert last[..1] + last[1..] == last;
    FromBitsAppendZeros(last[..1], 7);
  }

  /** Zero bits have value zero. */
  lemma {:induction false} ZerosValue(n: nat)
    ensures FromBits(Zeros(n)) == 0
  {
    if n > 0 {
      ZerosValue(n - 1);
      assert Zeros(n)[..n - 1] == Zeros(n - 1);
    }
  }

  /** Doubling a product doubles its second factor. Kept apart from
      `FromBitsAppendZeros`, where the solver does not find it unaided. */
  lemma DoubleProduct(a: int, b: int)
    ensures 2 * (a * b) == a * (2 * b)
  {
  }

  /** Appending `n` zero bits multiplies the value by `2^n`. */
  lemma {:induction false} FromBitsAppendZeros(bits: seq<bool>, n: nat)
    ensures FromBits(bits + Zeros(n)) == FromBits(bits) * Pow2(n)
  {
    if n > 0 {
      FromBitsAppendZeros(bits, n - 1);
      var s := bits + Zeros(n);
      assert s[..|s| - 1] == bits + Zeros(n - 1);
      assert FromBits(s) == 2 * FromBits(bits + Zeros(n - 1)) by {
        assert s[|s| - 1] == false;
      }
      DoubleProduct(FromBits(bits), Pow2(n - 1));
    } else {
      assert bits + Zeros(0) == bits;
    }
  }

  /** Lines 151-152: `del array[0]` four times. Deleting from an empty array
      raises IndexError, reported as `None`. */
  method DropHeader(a: seq<byte>) returns (r: Option<seq<byte>>)
    ensures r.Some? <==> |a| >= HeaderLength
    ensures r.Some? ==> r.value == a[HeaderLength..] && |r.value| == |a| - HeaderLength
  {
    var rest := a;
    for i := 0 to HeaderLength
      invariant i <= |a| && rest == a[i..]
    {
      if |rest| == 0 {
        return None;
      }
      rest := rest[1..];
    }
    r := Some(rest);
  }

  /** Bytes dropped ahead of the setup. */
  const HeaderLength: nat := 4

  /** Symbols on each wheel and on the reflector. */
  const WheelSize: nat := 94

  /** Offset of the first single-byte field (the first notch). */
  const ScalarStart: nat := 5 * WheelSize

  /** Offset of the message. */
  const MessageStart: nat := ScalarStart + 5

  /** End of the message slice. */
  const MessageEnd: nat := MessageStart + 39

  /** The machine's setup, as read from the payload (lines 163-173). */
  datatype Layout = Layout(
    stat: seq<byte>, reflector: seq<byte>,
    scram1: seq<byte>, scram2: seq<byte>, scram3: seq<byte>,
    notch1: byte, notch2: byte,
    start1: byte, start2: byte, start3: byte,
    message: seq<byte>)

  /** Every wheel has `WheelSize` symbols and the message fits its slice. */
  predicate WellSized(l: Layout) {
    |l.stat| == WheelSize && |l.reflector| == WheelSize &&
    |l.scram1| == WheelSize && |l.scram2| == WheelSize && |l.scram3| == WheelSize &&
    |l.message| <= MessageEnd - MessageStart
  }

  /** `min(a, b)`. */
  function Min(a: nat, b: nat): (m: nat) {
    if a <= b then a else b
  }

  /** Lines 163-173: five 94-byte slices, five single bytes, then the
      message. Indexing a single byte past the end raises IndexError, so a
      payload shorter than `MessageStart` fails; the message slice, like
      every Python slice, stops at the end of the payload instead. */
  function ParseLayout(p: seq<byte>): (r: Option<Layout>)
    ensures r.Some? <==> |p| >= MessageStart
    ensures r.Some? ==> WellSized(r.value)
    ensures r.Some? ==> |r.value.message| == Min(|p|, MessageEnd) - MessageStart
  {
    if |p| < MessageStart then None
    else
      Some(Layout(
        p[0..94], p[94..188], p[188..282], p[282..376], p[376..470],
        p[470], p[471], p[472], p[473], p[474],
        p[475..Min(|p|, MessageEnd)]))
  }

  /** The payload a setup is read from. */
  function Serialize(l: Layout): (p: seq<byte>)
    ensures |p| == |l.stat| + |l.reflector| + |l.scram1| + |l.scram2| + |l.scram3| + 5 + |l.message|
  {
    l.stat + l.reflector + l.scram1 + l.scram2 + l.scram3 +
    [l.notch1, l.notch2, l.start1, l.start2, l.start3] + l.message
  }

  /** Every well-sized setup is read back from its payload. */
  lemma ParseSerialize(l: Layout)
    requires WellSized(l)
    ensures ParseLayout(Serialize(l)) == Some(l)
  {
    var p := Serialize(l);
    assert p[0..94] == l.stat;
    assert p[94..188] == l.reflector;
    assert p[188..282] == l.scram1;
    assert p[282..376] == l.scram2;
    assert p[376..470] == l.scram3;
    assert p[475..Min(|p|, MessageEnd)] == l.message;
  }

  /** Reading a setup uses the payload up to the end of the message slice
      and ignores every byte after it. */
  lemma SerializeParse(p: seq<byte>)
    requires |p| >= MessageStart
    ensures Serialize(ParseLayout(p).value) == p[..Min(|p|, MessageEnd)]
  {
    var q := p[..Min(|p|, MessageEnd)];
    assert q == p[0..94] + p[94..188] + p[188..282] + p[282..376] + p[376..470] +
                [p[470], p[471], p[472], p[473], p[474]] + p[475..Min(|p|, MessageEnd)];
  }
}
