/**
 * Bit and word codecs shared by the scan cycle and the change relay.
 *
 * A coil bank is a byte buffer in which coil `a` is bit `a % 8` of byte
 * `a / 8`, least significant bit first (the packing of Read Coils,
 * section 6.1 of the Modbus Application Protocol Specification V1.1b3).
 * A holding-register bank is a buffer of 16-bit words; the gateway never
 * converts byte order itself, so a word is kept as the two bytes it
 * occupies in memory.
 */
module Bits {

  type byte = bv8

  /** Bytes in a coil bank: 65536 coils, eight per byte. */
  const CoilBankBytes: nat := 8192
  /** Words in a holding-register bank. */
  const RegisterBankWords: nat := 65536

  // ---------------------------------------------------------------------
  // Single bits
  // ---------------------------------------------------------------------

  /** Bit `k` of `b`, tested as `(b & (1 << k)) != 0`. */
  function Bit(b: byte, k: nat): bool
    requires k < 8
  {
    b & (1 << k) != 0
  }

  /** `b` with bit `k` set (`b | (1 << k)`) or cleared (`b & ~(1 << k)`). */
  function SetBit(b: byte, k: nat, value: bool): (r: byte)
    requires k < 8
    ensures Bit(r, k) == value
    ensures forall j :: 0 <= j < 8 && j != k ==> Bit(r, j) == Bit(b, j)
  {
    SetBitKeeps(b, k, value);
    if value then b | (1 << k) else b & !(1 << k)
  }

  lemma SetBitKeeps(b: byte, k: nat, value: bool)
    requires k < 8
    ensures var r := if value then b | (1 << k) else b & !(1 << k);
      Bit(r, k) == value && forall j :: 0 <= j < 8 && j != k ==> Bit(r, j) == Bit(b, j)
  {
    forall j | 0 <= j < 8 && j != k
      ensures Bit(if value then b | (1 << k) else b & !(1 << k), j) == Bit(b, j)
    {
      SetBitOther(b, k, value, j);
    }
  }

  /** The masks of two different bits are disjoint, so setting or clearing one keeps the other. */
  lemma SetBitOther(b: byte, k: nat, value: bool, j: nat)
    requires k < 8 && j < 8 && j != k
    ensures Bit(if value then b | (1 << k) else b & !(1 << k), j) == Bit(b, j)
  {
    var mk: byte := 1 << k;
    var mj: byte := 1 << j;
    assert mk & mj == 0;
  }

  /** Two bytes that agree on all eight bits are equal. */
  lemma ByteExtensionality(a: byte, b: byte)
    requires forall k :: 0 <= k < 8 ==> Bit(a, k) == Bit(b, k)
    ensures a == b
  {
    assert Bit(a, 0) == Bit(b, 0) && Bit(a, 1) == Bit(b, 1);
    assert Bit(a, 2) == Bit(b, 2) && Bit(a, 3) == Bit(b, 3);
    assert Bit(a, 4) == Bit(b, 4) && Bit(a, 5) == Bit(b, 5);
    assert Bit(a, 6) == Bit(b, 6) && Bit(a, 7) == Bit(b, 7);
  }

  // ---------------------------------------------------------------------
  // Coil banks
  // ---------------------------------------------------------------------

  /** Coil `address` of a byte-packed coil buffer. */
  function CoilAt(bank: seq<byte>, address: nat): bool
    requires address / 8 < |bank|
  {
    Bit(bank[address / 8], address % 8)
  }

  /** The coil buffer after coil `address` is forced to `value`. */
  function SetCoil(bank: seq<byte>, address: nat, value: bool): (r: seq<byte>)
    requires address / 8 < |bank|
    ensures |r| == |bank|
  {
    bank[address / 8 := SetBit(bank[address / 8], address % 8, value)]
  }

  /** Forcing coil `address` changes that one coil; every other coil, and every other byte, keeps its value. */
  lemma SetCoilFrame(bank: seq<byte>, address: nat, value: bool)
    requires address / 8 < |bank|
    ensures var r := SetCoil(bank, address, value);
      && CoilAt(r, address) == value
      && (forall a: nat :: a / 8 < |bank| && a != address ==> CoilAt(r, a) == CoilAt(bank, a))
      && (forall j :: 0 <= j < |bank| && j != address / 8 ==> r[j] == bank[j])
  {
    assert forall a: nat :: a / 8 == address / 8 && a != address ==> a % 8 != address % 8;
  }

  /** Forcing a coil twice to the same value is the same as forcing it once. */
  lemma SetCoilIdempotent(bank: seq<byte>, address: nat, value: bool)
    requires address / 8 < |bank|
    ensures SetCoil(SetCoil(bank, address, value), address, value) == SetCoil(bank, address, value)
  {
    var once := SetCoil(bank, address, value);
    var twice := SetCoil(once, address, value);
    var i := address / 8;
    SetCoilFrame(bank, address, value);
    SetCoilFrame(once, address, value);
    forall k | 0 <= k < 8
      ensures Bit(twice[i], k) == Bit(once[i], k)
    {
      assert Bit(twice[i], k) == CoilAt(twice, 8 * i + k);
      assert Bit(once[i], k) == CoilAt(once, 8 * i + k);
    }
    ByteExtensionality(twice[i], once[i]);
  }

  // ---------------------------------------------------------------------
  // Packing coils into bytes and back
  // ---------------------------------------------------------------------

  /**
   * The first `k` bits (LSB first) of the byte that holds `bits[base..base+8]`;
   * positions past the end of `bits` stay 0.
   */
  function PackByte(bits: seq<bool>, base: nat, k: nat): (r: byte)
    requires k <= 8
    ensures forall j :: 0 <= j < 8 ==> Bit(r, j) == (j < k && base + j < |bits| && bits[base + j])
  {
    if k == 0 then 0
    else
      var low := PackByte(bits, base, k - 1);
      if base + k - 1 < |bits| && bits[base + k - 1] then SetBit(low, k - 1, true) else low
  }

  /**
   * `n` bytes holding `bits` packed LSB first: bit `i` goes to bit `i % 8` of
   * byte `i / 8`; bits that do not fit are dropped and missing ones are 0.
   */
  function PackInto(bits: seq<bool>, n: nat): (r: seq<byte>)
    ensures |r| == n
    ensures forall j, k :: 0 <= j < n && 0 <= k < 8 ==> Bit(r[j], k) == (8 * j + k < |bits| && bits[8 * j + k])
  {
    seq(n, j requires 0 <= j => PackByte(bits, 8 * j, 8))
  }

  /** Just enough bytes for all of `bits`, packed LSB first, the last one zero-padded. */
  function PackBits(bits: seq<bool>): (r: seq<byte>)
    ensures |r| == (|bits| + 7) / 8
    ensures forall j, k :: 0 <= j < |r| && 0 <= k < 8 ==> Bit(r[j], k) == (8 * j + k < |bits| && bits[8 * j + k])
  {
    PackInto(bits, (|bits| + 7) / 8)
  }

  /** A zeroed buffer holds no bits. */
  lemma PackIntoNothing(n: nat)
    ensures PackInto([], n) == seq(n, _ => 0)
  {
    var r := PackInto([], n);
    forall j | 0 <= j < n
      ensures r[j] == 0
    {
      ByteExtensionality(r[j], 0);
    }
  }

  /**
   * Packing one more bit sets bit `i % 8` of byte `i / 8` when the bit is on
   * and that byte exists, and changes nothing otherwise: one step of a loop
   * that ORs bits into a zeroed buffer.
   */
  lemma PackIntoStep(bits: seq<bool>, i: nat, n: nat)
    requires i < |bits|
    ensures var before := PackInto(bits[..i], n);
      PackInto(bits[..i + 1], n) ==
        if bits[i] && i / 8 < n then before[i / 8 := SetBit(before[i / 8], i % 8, true)] else before
  {
    var before := PackInto(bits[..i], n);
    var after := PackInto(bits[..i + 1], n);
    var expected := if bits[i] && i / 8 < n then before[i / 8 := SetBit(before[i / 8], i % 8, true)] else before;
    forall j | 0 <= j < n
      ensures after[j] == expected[j]
    {
      forall k | 0 <= k < 8
        ensures Bit(after[j], k) == Bit(expected[j], k)
      {
        if 8 * j + k == i {
          assert j == i / 8 && k == i % 8;
        } else if j == i / 8 {
          assert k != i % 8;
        }
      }
      ByteExtensionality(after[j], expected[j]);
    }
  }

  /** The first `count` coils of a byte-packed buffer; coils past its end read as off. */
  function UnpackBits(bytes: seq<byte>, count: nat): (r: seq<bool>)
    ensures |r| == count
    ensures forall i :: 0 <= i < count && i / 8 < |bytes| ==> r[i] == CoilAt(bytes, i)
    ensures forall i :: 0 <= i < count && |bytes| <= i / 8 ==> !r[i]
  {
    seq(count, i requires 0 <= i => i / 8 < |bytes| && CoilAt(bytes, i))
  }

  /** Unpacking what was packed gives back the original coils. */
  lemma UnpackPackBits(bits: seq<bool>)
    ensures UnpackBits(PackBits(bits), |bits|) == bits
  {
    var packed := PackBits(bits);
    var back := UnpackBits(packed, |bits|);
    forall i | 0 <= i < |bits|
      ensures back[i] == bits[i]
    {
      assert i / 8 < |packed|;
      assert 8 * (i / 8) + i % 8 == i;
      assert Bit(packed[i / 8], i % 8) == bits[i];
    }
  }

  /** Packing the coils of whole bytes gives back those bytes. */
  lemma PackUnpackBits(bytes: seq<byte>)
    ensures PackBits(UnpackBits(bytes, 8 * |bytes|)) == bytes
  {
    var packed := PackBits(UnpackBits(bytes, 8 * |bytes|));
    assert |packed| == |bytes|;
    forall j | 0 <= j < |bytes|
      ensures packed[j] == bytes[j]
    {
      PackUnpackByte(bytes, j);
    }
  }

  /** Byte `j` of the repacked coils is byte `j` of the original. */
  lemma PackUnpackByte(bytes: seq<byte>, j: nat)
    requires j < |bytes|
    ensures PackBits(UnpackBits(bytes, 8 * |bytes|))[j] == bytes[j]
  {
    var bits := UnpackBits(bytes, 8 * |bytes|);
    var packed := PackBits(bits);
    forall k | 0 <= k < 8
      ensures Bit(packed[j], k) == Bit(bytes[j], k)
    {
      CoilOfByte(bytes, j, k);
      assert bits[8 * j + k] == CoilAt(bytes, 8 * j + k);
    }
    ByteExtensionality(packed[j], bytes[j]);
  }

  lemma CoilOfByte(bytes: seq<byte>, j: nat, k: nat)
    requires j < |bytes| && k < 8
    ensures (8 * j + k) / 8 == j && (8 * j + k) % 8 == k
    ensures CoilAt(bytes, 8 * j + k) == Bit(bytes[j], k)
  {
  }

  // ---------------------------------------------------------------------
  // The "b8" round trip of the coil relay
  // ---------------------------------------------------------------------

  /**
   * `b.ToString("b8")`: the eight binary digits of `b`, most significant
   * first, so character `i` is bit `7 - i`.
   */
  function FormatB8(b: byte): (s: string)
    ensures |s| == 8
    ensures forall i :: 0 <= i < 8 ==> s[i] == '0' || s[i] == '1'
  {
    seq(8, i requires 0 <= i < 8 => if Bit(b, 7 - i) then '1' else '0')
  }

  function Reverse<T>(s: seq<T>): (r: seq<T>)
    ensures |r| == |s|
    ensures forall i :: 0 <= i < |s| ==> r[i] == s[|s| - 1 - i]
  {
    if s == [] then [] else Reverse(s[1..]) + [s[0]]
  }

  /**
   * The coil relay's `b.ToString("b8").Select(e => e != '0')` followed by
   * `Array.Reverse`: an eight-element array whose entry `k` is bit `k` of `b`.
   */
  function ByteToCoils(b: byte): (r: seq<bool>)
    ensures |r| == 8
    ensures forall k :: 0 <= k < 8 ==> r[k] == Bit(b, k)
  {
    var digits := FormatB8(b);
    Reverse(seq(8, i requires 0 <= i < 8 => digits[i] != '0'))
  }

  /** Reading the eight coils of a byte and packing them again gives back the byte. */
  lemma ByteToCoilsRoundTrip(b: byte)
    ensures PackBits(ByteToCoils(b)) == [b]
  {
    var packed := PackBits(ByteToCoils(b));
    assert |packed| == 1;
    ByteExtensionality(packed[0], b);
  }

  // ---------------------------------------------------------------------
  // Holding-register words
  // ---------------------------------------------------------------------

  /** A 16-bit register kept as the two bytes it occupies in memory, in address order. */
  datatype RawWord = RawWord(b0: byte, b1: byte)

  /**
   * `MemoryMarshal.Cast<byte, short>`: the bytes read two at a time as words,
   * a trailing odd byte dropped.
   */
  function WordsOf(bytes: seq<byte>): (r: seq<RawWord>)
    ensures |r| == |bytes| / 2
  {
    seq(|bytes| / 2, k requires 0 <= k < |bytes| / 2 => RawWord(bytes[2 * k], bytes[2 * k + 1]))
  }

  /** The byte view of a word buffer, as the TCP server's holding-register buffer exposes it. */
  function BytesOf(words: seq<RawWord>): (r: seq<byte>)
    ensures |r| == 2 * |words|
  {
    seq(2 * |words|, j requires 0 <= j < 2 * |words| => if j % 2 == 0 then words[j / 2].b0 else words[j / 2].b1)
  }

  /** Reinterpreting the byte view of words gives back the words. */
  lemma WordsOfBytesOf(words: seq<RawWord>)
    ensures WordsOf(BytesOf(words)) == words
  {
    var back := WordsOf(BytesOf(words));
    assert |back| == |words|;
    forall k | 0 <= k < |words| ensures back[k] == words[k] { }
  }

  /** Taking the byte view of reinterpreted bytes gives back every byte but a trailing odd one. */
  lemma BytesOfWordsOf(bytes: seq<byte>)
    ensures BytesOf(WordsOf(bytes)) == bytes[..|bytes| / 2 * 2]
  {
    var words := WordsOf(bytes);
    var back := BytesOf(words);
    var n := |bytes| / 2 * 2;
    assert |back| == n;
    forall j | 0 <= j < n
      ensures back[j] == bytes[j]
    {
      var k := j / 2;
      assert k < |words|;
      assert words[k] == RawWord(bytes[2 * k], bytes[2 * k + 1]);
      if j % 2 == 0 {
        assert j == 2 * k;
      } else {
        assert j == 2 * k + 1;
      }
    }
  }

  /** Bytes `[2a, 2a + 2c)` of the byte view are the byte view of words `[a, a + c)`. */
  lemma BytesOfSlice(words: seq<RawWord>, a: nat, c: nat)
    requires a + c <= |words|
    ensures BytesOf(words)[2 * a .. 2 * a + 2 * c] == BytesOf(words[a .. a + c])
  {
    var whole := BytesOf(words);
    var part := BytesOf(words[a .. a + c]);
    forall j | 0 <= j < 2 * c
      ensures whole[2 * a + j] == part[j]
    {
      assert (2 * a + j) / 2 == a + j / 2 && (2 * a + j) % 2 == j % 2;
    }
  }
}
