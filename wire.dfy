/**
 * The pure part of the Protocol Buffers binary wire format as ktbuf implements
 * it: Kotlin's fixed-width integers and their two's complement conversions, the
 * wire-type constants and field-tag packing of `ProtoConstants`, ZigZag, the
 * base-128 varint, and little-endian fixed32/fixed64 words.
 *
 * Kotlin integers are fixed width; here they are unbounded `int`s restricted by
 * subset types, and every conversion or shift that can wrap is written out.
 * A Kotlin `Byte` is represented by its bit pattern read as 0..255.
 */
module Wire {

  /** A Kotlin nullable: `null` or a value. */
  datatype Option<T> = None | Some(value: T)

  type byte = x: int | 0 <= x < 256
  type u32 = x: int | 0 <= x < 0x1_0000_0000
  type u64 = x: int | 0 <= x < 0x1_0000_0000_0000_0000
  type i32 = x: int | -0x8000_0000 <= x < 0x8000_0000
  type i64 = x: int | -0x8000_0000_0000_0000 <= x < 0x8000_0000_0000_0000

  const TWO_31: nat := 0x8000_0000
  const TWO_32: nat := 0x1_0000_0000
  const TWO_63: nat := 0x8000_0000_0000_0000
  const TWO_64: nat := 0x1_0000_0000_0000_0000

  function Pow2(n: nat): (r: nat)
    ensures r >= 1
  {
    if n == 0 then 1 else 2 * Pow2(n - 1)
  }

  lemma {:induction false} Pow2Add(a: nat, b: nat)
    ensures Pow2(a + b) == Pow2(a) * Pow2(b)
  {
    if a > 0 {
      Pow2Add(a - 1, b);
    }
  }

  lemma {:induction false} Pow2Monotone(a: nat, b: nat)
    requires a <= b
    ensures Pow2(a) <= Pow2(b)
  {
    if a < b {
      Pow2Monotone(a, b - 1);
    }
  }

  /** The powers of two the wire format uses, as literals. */
  lemma Pow2Table()
    ensures Pow2(7) == 0x80 && Pow2(8) == 0x100 && Pow2(14) == 0x4000
    ensures Pow2(16) == 0x1_0000 && Pow2(21) == 0x20_0000 && Pow2(24) == 0x100_0000
    ensures Pow2(28) == 0x1000_0000 && Pow2(29) == 0x2000_0000 && Pow2(31) == 0x8000_0000
    ensures Pow2(32) == 0x1_0000_0000 && Pow2(35) == 0x8_0000_0000
    ensures Pow2(40) == 0x100_0000_0000 && Pow2(48) == 0x1_0000_0000_0000
    ensures Pow2(56) == 0x100_0000_0000_0000 && Pow2(63) == 0x8000_0000_0000_0000
    ensures Pow2(64) == 0x1_0000_0000_0000_0000 && Pow2(70) == 0x40_0000_0000_0000_0000
  {
    assert Pow2(7) == 0x80 && Pow2(8) == 0x100;
    Pow2Add(7, 7);
    assert Pow2(14) == 0x4000;
    Pow2Add(8, 8);
    assert Pow2(16) == 0x1_0000;
    Pow2Add(14, 7);
    assert Pow2(21) == 0x20_0000;
    Pow2Add(16, 8);
    assert Pow2(24) == 0x100_0000;
    Pow2Add(21, 7);
    assert Pow2(28) == 0x1000_0000;
    Pow2Add(28, 1);
    assert Pow2(29) == 0x2000_0000;
    Pow2Add(24, 7);
    assert Pow2(31) == 0x8000_0000;
    Pow2Add(24, 8);
    assert Pow2(32) == 0x1_0000_0000;
    Pow2Add(28, 7);
    assert Pow2(35) == 0x8_0000_0000;
    Pow2Add(32, 8);
    assert Pow2(40) == 0x100_0000_0000;
    Pow2Add(40, 8);
    assert Pow2(48) == 0x1_0000_0000_0000;
    Pow2Add(48, 8);
    assert Pow2(56) == 0x100_0000_0000_0000;
    Pow2Add(56, 7);
    assert Pow2(63) == 0x8000_0000_0000_0000;
    Pow2Add(56, 8);
    assert Pow2(64) == 0x1_0000_0000_0000_0000;
    Pow2Add(63, 7);
  }

  /** 128^k, the weight of the k-th seven-bit group of a varint. */
  lemma Pow2Group(k: nat)
    ensures Pow2(7 * (k + 1)) == 128 * Pow2(7 * k)
  {
    Pow2Add(7 * k, 7);
  }

  // ---------------------------------------------------------------------------
  // Two's complement reinterpretation (Kotlin's toULong, toUInt, toInt, toLong)
  // ---------------------------------------------------------------------------

  /** `x.toULong()`: sign extension of a signed value, truncation of a wider one. */
  function ToU64(x: int): u64 { x % TWO_64 }

  /** `x.toUInt()`: the low 32 bits. */
  function ToU32(x: int): u32 { x % TWO_32 }

  /** `x.toInt()`: the low 32 bits read as a signed value. */
  function ToI32(x: int): i32
  {
    var u := x % TWO_32;
    if u < TWO_31 then u else u - TWO_32
  }

  /** `x.toLong()`: the low 64 bits read as a signed value. */
  function ToI64(x: int): i64
  {
    var u := x % TWO_64;
    if u < TWO_63 then u else u - TWO_64
  }

  lemma SignedRoundTrip32(v: i32)
    ensures ToI32(ToU64(v)) == v && ToI32(ToU32(v)) == v
  {
  }

  lemma SignedRoundTrip64(v: i64)
    ensures ToI64(ToU64(v)) == v
  {
  }

  /** `x shl n` on a ULong: the count is taken modulo 64 and the result wraps. */
  function Shl64(x: u64, n: nat): u64
  {
    Doubled(x, n % 64)
  }

  /** x doubled k times, dropping the bits that leave the 64. */
  function Doubled(x: u64, k: nat): u64
    decreases k
  {
    if k == 0 then x else Doubled((2 * x) % TWO_64, k - 1)
  }

  lemma Twice(x: nat, p: nat)
    requires p >= 1
    ensures x * (2 * p) == (2 * x) * p && 2 * x <= x * (2 * p)
  {
  }

  /** A shift that loses no bits multiplies by a power of two. */
  lemma {:induction false} DoubledNoWrap(x: u64, k: nat)
    requires x * Pow2(k) < TWO_64
    ensures Doubled(x, k) == x * Pow2(k)
    decreases k
  {
    if k > 0 {
      var p := Pow2(k - 1);
      assert Pow2(k) == 2 * p;
      Twice(x, p);
      assert 2 * x < TWO_64;
      ModSmall(2 * x, TWO_64);
      assert Doubled(x, k) == Doubled(2 * x, k - 1);
      DoubledNoWrap(2 * x, k - 1);
    }
  }

  // ---------------------------------------------------------------------------
  // Bitwise or on naturals
  // ---------------------------------------------------------------------------

  /** The bitwise `or` of two non-negative numbers, bit by bit from the lowest. */
  function Or(a: nat, b: nat): nat
    decreases a + b
  {
    if a == 0 then b
    else if b == 0 then a
    else 2 * Or(a / 2, b / 2) + (if a % 2 == 1 || b % 2 == 1 then 1 else 0)
  }

  /** Or-ing a number below 2^k with a multiple of 2^k adds them. */
  lemma {:induction false} OrDisjoint(a: nat, b: nat, k: nat)
    requires a < Pow2(k)
    ensures Or(a, b * Pow2(k)) == a + b * Pow2(k)
  {
    if k > 0 && a != 0 && b != 0 {
      var c := b * Pow2(k);
      assert c == 2 * (b * Pow2(k - 1));
      assert c / 2 == b * Pow2(k - 1) && c % 2 == 0;
      OrDisjoint(a / 2, b, k - 1);
    }
  }

  lemma {:induction false} OrCommutes(a: nat, b: nat)
    ensures Or(a, b) == Or(b, a)
    decreases a + b
  {
    if a != 0 && b != 0 {
      OrCommutes(a / 2, b / 2);
    }
  }

  lemma {:induction false} OrBound(a: nat, b: nat, k: nat)
    requires a < Pow2(k) && b < Pow2(k)
    ensures Or(a, b) < Pow2(k)
  {
    if k > 0 && a != 0 && b != 0 {
      OrBound(a / 2, b / 2, k - 1);
    }
  }

  /** The `or` of two numbers is at most their sum. */
  lemma {:induction false} OrAtMostSum(a: nat, b: nat)
    ensures Or(a, b) <= a + b
    decreases a + b
  {
    if a != 0 && b != 0 {
      OrAtMostSum(a / 2, b / 2);
    }
  }

  /** The `or` of two 64-bit patterns is a 64-bit pattern. */
  lemma OrBound64(a: u64, b: u64)
    ensures Or(a, b) < TWO_64
  {
    Pow2Table();
    OrBound(a, b, 64);
  }

  /** `a or b` on ULong values. */
  function Or64(a: u64, b: u64): u64
  {
    OrBound64(a, b);
    Or(a, b)
  }

  // ---------------------------------------------------------------------------
  // ProtoConstants: wire types and tags
  // ---------------------------------------------------------------------------

  const TAG_TYPE: nat := 7
  const TAG_TYPE_BIT_COUNT: nat := 3

  const VARINT: u32 := 0
  const FIXED64: u32 := 1
  const LENGTH_DELIMITED: u32 := 2
  const FIXED32: u32 := 5

  /** `fieldTag`: `fieldNumber.toULong() shl 3 or wireType.toULong()`. */
  function FieldTag(fieldNumber: i32, wireType: u32): u64
  {
    Or64(Shl64(ToU64(fieldNumber), TAG_TYPE_BIT_COUNT), wireType)
  }

  /** `ProtoConstants.fieldNumberFromTag`: `(tag.toUInt() shr 3).toInt()`. */
  function FieldNumberFromTag(tag: i32): i32
  {
    ToI32(ToU32(tag) / Pow2(TAG_TYPE_BIT_COUNT))
  }

  /** `ProtoConstants.wireTypeFromTag`: `tag and 7`. */
  function WireTypeFromTag(tag: u32): (r: u32)
    ensures r <= TAG_TYPE
  {
    tag % (TAG_TYPE + 1)
  }

  /** For a non-negative field number below 2^29 and any wire type below 8, the tag
      is `8 * fieldNumber + wireType`, and unpacking it the way the reader does
      (`tag.toInt()` then shift; `tag.toUInt()` then mask) gives both parts back. */
  lemma TagRoundTrip(fieldNumber: i32, wireType: u32)
    requires 0 <= fieldNumber < 0x2000_0000 && wireType <= TAG_TYPE
    ensures FieldTag(fieldNumber, wireType) == 8 * fieldNumber + wireType
    ensures FieldNumberFromTag(ToI32(FieldTag(fieldNumber, wireType))) == fieldNumber
    ensures WireTypeFromTag(ToU32(FieldTag(fieldNumber, wireType))) == wireType
  {
    var tag := TagValue(fieldNumber, wireType);
    assert Pow2(3) == 8;
    SignedRoundTripU32(tag);
    DivMod8(fieldNumber, wireType);
    ToI32Small(fieldNumber);
  }

  lemma ToI32Small(x: int)
    requires 0 <= x < TWO_31
    ensures ToI32(x) == x
  {
  }

  lemma ToU64Small(x: int)
    requires 0 <= x < TWO_64
    ensures ToU64(x) == x
  {
  }

  /** Reading a 32-bit pattern as an Int and back gives the pattern. */
  lemma SignedRoundTripU32(u: u32)
    ensures ToU32(ToI32(u)) == u && ToU32(u) == u
  {
  }

  lemma DivMod8(q: nat, r: nat)
    requires r < 8
    ensures (8 * q + r) / 8 == q && (8 * q + r) % 8 == r
  {
  }

  /** The arithmetic half of `TagRoundTrip`: the shift and the or add up. */
  lemma TagValue(fieldNumber: i32, wireType: u32) returns (tag: nat)
    requires 0 <= fieldNumber < 0x2000_0000 && wireType <= TAG_TYPE
    ensures tag == FieldTag(fieldNumber, wireType) == 8 * fieldNumber + wireType
    ensures tag < TWO_32
  {
    ShlTag(fieldNumber);
    OrTag(fieldNumber, wireType);
    tag := 8 * fieldNumber + wireType;
  }

  /** Shifting a field number below 2^29 left by three multiplies it by 8. */
  lemma ShlTag(fieldNumber: i32)
    requires 0 <= fieldNumber < 0x2000_0000
    ensures Shl64(ToU64(fieldNumber), TAG_TYPE_BIT_COUNT) == 8 * fieldNumber
  {
    ToU64Small(fieldNumber);
    var x: u64 := fieldNumber;
    assert x < 0x2000_0000;
    ModSmall(2 * x, TWO_64);
    ModSmall(4 * x, TWO_64);
    ModSmall(8 * x, TWO_64);
    assert Doubled(8 * x, 0) == 8 * x;
    assert Doubled(4 * x, 1) == Doubled(8 * x, 0);
    assert Doubled(2 * x, 2) == Doubled(4 * x, 1);
    assert Doubled(x, 3) == Doubled(2 * x, 2);
  }

  lemma ModSmall(a: nat, m: nat)
    requires a < m
    ensures a % m == a
  {
  }

  /** Or-ing a wire type into the three free low bits adds it. */
  lemma OrTag(q: nat, wireType: nat)
    requires wireType < 8 && 8 * q < TWO_64
    ensures Or64(8 * q, wireType) == 8 * q + wireType
  {
    assert Pow2(1) == 2 && Pow2(2) == 4 && Pow2(3) == 8;
    OrDisjoint(wireType, q, 3);
    OrCommutes(wireType, 8 * q);
  }

  /** Field 5 with wire type VARINT is tag 40; field 1, LENGTH_DELIMITED, is tag 10. */
  lemma TagExamples()
    ensures FieldTag(5, VARINT) == 40 && FieldTag(1, LENGTH_DELIMITED) == 10
  {
    TagRoundTrip(5, VARINT);
    TagRoundTrip(1, LENGTH_DELIMITED);
  }

  // ---------------------------------------------------------------------------
  // ZigZag
  // ---------------------------------------------------------------------------

  /** `zigZag`: `((value shl 1) xor (value shr 63)).toULong()`. The arithmetic
      shift by 63 is all zeros for a non-negative value and all ones for a
      negative one; xor with all ones is the complement `-x - 1`. */
  function ZigZag(value: i64): u64
  {
    var shifted := ToI64(value * 2);
    var s: int := shifted;
    var mixed := if value < 0 then -s - 1 else s;
    ToU64(mixed)
  }

  /** `readSInt64`'s inverse transform: shift right by one, complement when the
      low bit is set, reinterpret as Long. */
  function UnZigZag64(unsigned: u64): i64
  {
    var x := unsigned / 2;
    var y := if unsigned % 2 != 0 then TWO_64 - 1 - x else x;
    ToI64(y)
  }

  /** `readSInt32`'s inverse transform, on the low 32 bits of the varint. */
  function UnZigZag32(unsigned: u64): i32
  {
    var u := ToU32(unsigned);
    var x := u / 2;
    var y := if u % 2 != 0 then TWO_32 - 1 - x else x;
    ToI32(y)
  }

  /** ZigZag interleaves signs: 0, -1, 1, -2, 2, ... map to 0, 1, 2, 3, 4, ... */
  lemma ZigZagValue(value: i64)
    ensures ZigZag(value) == if value >= 0 then 2 * value else -2 * value - 1
  {
  }

  lemma ZigZagExamples()
    ensures ZigZag(0) == 0 && ZigZag(-1) == 1 && ZigZag(1) == 2
    ensures ZigZag(-2) == 3 && ZigZag(2) == 4
  {
    ZigZagValue(0);
    ZigZagValue(-1);
    ZigZagValue(1);
    ZigZagValue(-2);
    ZigZagValue(2);
  }

  /** Decoding `encodeSInt(v: Long)` with `readSInt64` gives `v` back. */
  lemma ZigZagRoundTrip64(value: i64)
    ensures UnZigZag64(ZigZag(value)) == value
  {
    ZigZagValue(value);
  }

  /** Decoding `encodeSInt(v: Int)` (ZigZag of `v.toLong()`) with `readSInt32`
      gives `v` back. */
  lemma ZigZagRoundTrip32(value: i32)
    ensures UnZigZag32(ZigZag(value)) == value
  {
    ZigZagValue(value);
    var z := ZigZag(value);
    assert ToU32(z) == z;
    if value >= 0 {
      assert z / 2 == value && z % 2 == 0;
    } else {
      assert z / 2 == -(value as int) - 1 && z % 2 == 1;
    }
  }

  // ---------------------------------------------------------------------------
  // Varints
  // ---------------------------------------------------------------------------

  /** The bytes `writeVarint(v)` emits: seven-bit groups from the lowest, with
      0x80 set on every byte but the last. */
  function VarintBytes(v: nat): (r: seq<byte>)
    ensures |r| >= 1
    decreases v
  {
    if v < 128 then [v] else [v % 128 + 128] + VarintBytes(v / 128)
  }

  /** One step of the encoding loop: the low seven bits, with the top bit
      set exactly when something is left to write. */
  lemma VarintStep(v: nat)
    ensures VarintBytes(v) == if v / 0x80 == 0 then [v % 0x80] else [v % 0x80 + 0x80] + VarintBytes(v / 0x80)
  {
  }

  /** Every byte but the last carries the continuation bit; the last does not. */
  lemma {:induction false} VarintShape(v: nat)
    ensures forall i :: 0 <= i < |VarintBytes(v)| - 1 ==> VarintBytes(v)[i] >= 128
    ensures VarintBytes(v)[|VarintBytes(v)| - 1] < 128
    decreases v
  {
    if v >= 128 {
      VarintShape(v / 128);
    }
  }

  /** A value below 128^k takes at most k bytes. */
  lemma {:induction false} VarintLengthAtMost(v: nat, k: nat)
    requires 1 <= k && v < Pow2(7 * k)
    ensures |VarintBytes(v)| <= k
    decreases k
  {
    assert Pow2(7) == 128;
    if v >= 128 {
      Pow2Group(k - 1);
      VarintLengthAtMost(v / 128, k - 1);
    }
  }

  /** A value of at least 128^k takes more than k bytes. */
  lemma {:induction false} VarintLengthAtLeast(v: nat, k: nat)
    requires v >= Pow2(7 * k)
    ensures |VarintBytes(v)| > k
    decreases k
  {
    if k > 0 {
      Pow2Group(k - 1);
      assert v >= 128;
      VarintLengthAtLeast(v / 128, k - 1);
    }
  }

  /** One byte exactly for 0..127; at most ten bytes for any ULong. */
  lemma VarintLength(v: u64)
    ensures |VarintBytes(v)| == 1 <==> v < 128
    ensures |VarintBytes(v)| <= 10
  {
    Pow2Table();
    VarintLengthAtMost(v, 10);
    if v >= 128 {
      VarintLengthAtLeast(v, 1);
    }
  }

  /** 127, 128, 16383 and 16384 take 1, 2, 2 and 3 bytes. */
  lemma VarintBoundaries()
    ensures |VarintBytes(127)| == 1 && |VarintBytes(128)| == 2
    ensures |VarintBytes(16383)| == 2 && |VarintBytes(16384)| == 3
  {
  }

  /** `sizeofVarint32`: `value and (-1 shl k) == 0` holds exactly when no bit at
      or above k is set in the 32-bit pattern, i.e. when `value.toUInt() < 2^k`. */
  function SizeofVarint32(value: i32): (r: nat)
    ensures 1 <= r <= 5
  {
    var u := ToU32(value);
    if u < 0x80 then 1
    else if u < 0x4000 then 2
    else if u < 0x20_0000 then 3
    else if u < 0x1000_0000 then 4
    else 5
  }

  /** For a non-negative Int, `sizeofVarint32` predicts the varint's length. */
  lemma SizeofVarint32Exact(n: i32)
    requires n >= 0
    ensures SizeofVarint32(n) == |VarintBytes(n)|
  {
    Pow2Table();
    assert ToU32(n) == n;
    if n < 0x80 {
      VarintLengthBetween(n, 1, 1, 0x80);
    } else if n < 0x4000 {
      VarintLengthBetween(n, 2, 0x80, 0x4000);
    } else if n < 0x20_0000 {
      VarintLengthBetween(n, 3, 0x4000, 0x20_0000);
    } else if n < 0x1000_0000 {
      VarintLengthBetween(n, 4, 0x20_0000, 0x1000_0000);
    } else {
      VarintLengthBetween(n, 5, 0x1000_0000, 0x8_0000_0000);
    }
  }

  /** A value in [2^(7(k-1)), 2^(7k)) takes exactly k bytes; below 2^7, one. */
  lemma VarintLengthBetween(v: nat, k: nat, lo: nat, hi: nat)
    requires 1 <= k && lo == Pow2(7 * (k - 1)) && hi == Pow2(7 * k)
    requires (k == 1 || lo <= v) && v < hi
    ensures |VarintBytes(v)| == k
  {
    VarintLengthAtMost(v, k);
    if k > 1 {
      VarintLengthAtLeast(v, k - 1);
    }
  }

  /** What `readVarInt` returns and how many bytes it consumes, given the bytes
      readable in its scope: nothing available gives 0; otherwise groups are
      or-ed in until a byte without the continuation bit, ten groups, or the end
      of the scope. */
  function ReadVarint(s: seq<byte>): (r: (u64, nat))
    ensures r.1 <= |s|
    ensures |s| > 0 ==> r.1 >= 1
  {
    if |s| == 0 then (0, 0) else ReadVarintLoop(s, 1, 0, 0, s[0])
  }

  /** One turn of `readVarInt`'s loop: `tmp` is the byte last read, `pos` the
      number of bytes consumed so far. A loop left by `break` (scope exhausted)
      still or-s the last byte, continuation bit included, at the next shift. */
  function ReadVarintLoop(s: seq<byte>, pos: nat, shift: nat, result: u64, tmp: byte): (r: (u64, nat))
    requires pos <= |s| && shift <= 10
    ensures pos <= r.1 <= |s|
    decreases 10 - shift
  {
    if tmp >= 128 && shift < 10 then
      var result' := Or64(result, Shl64(tmp % 128, shift * 7));
      if pos == |s| then (Or64(result', Shl64(tmp, (shift + 1) * 7)), pos)
      else ReadVarintLoop(s, pos + 1, shift + 1, result', s[pos])
    else
      (Or64(result, Shl64(tmp, shift * 7)), pos)
  }

  /** Shifting a group into place at bit 7k, when nothing falls off the top. */
  lemma ShlGroup(g: nat, k: nat)
    requires k <= 9 && g * Pow2(7 * k) < TWO_64
    ensures g < TWO_64 && Shl64(g, k * 7) == g * Pow2(7 * k)
  {
    assert k * 7 % 64 == 7 * k;
    assert g <= g * Pow2(7 * k);
    DoubledNoWrap(g, 7 * k);
  }

  /** Or-ing a group at bit 7k into a result below 2^(7k) adds it. */
  lemma OrGroup(r: nat, g: nat, k: nat)
    requires r < Pow2(7 * k) && r + g * Pow2(7 * k) < TWO_64
    ensures g * Pow2(7 * k) < TWO_64 && Or64(r, g * Pow2(7 * k)) == r + g * Pow2(7 * k)
  {
    OrDisjoint(r, g, 7 * k);
  }

  /** Splitting off the low group of w at weight p = 128^k. */
  lemma GroupSplit(r: nat, w: nat, p: nat)
    requires r < p
    ensures r + (w % 128) * p < 128 * p
    ensures r + w * p == (r + (w % 128) * p) + (w / 128) * (128 * p)
  {
    var g := w % 128;
    var q := w / 128;
    MulMonotone(g, 127, p);
    MulSplit(q, g, p);
  }

  lemma MulMonotone(a: nat, b: nat, c: nat)
    requires a <= b
    ensures a * c <= b * c
  {
  }

  lemma MulSplit(q: nat, g: nat, p: nat)
    ensures (128 * q + g) * p == q * (128 * p) + g * p
  {
  }

  /** One turn of the loop when the byte read carries the continuation bit and
      the scope has more bytes. */
  lemma ReadVarintLoopUnfold(s: seq<byte>, pos: nat, shift: nat, result: u64, tmp: byte)
    requires pos < |s| && shift < 10 && tmp >= 128
    ensures ReadVarintLoop(s, pos, shift, result, tmp)
         == ReadVarintLoop(s, pos + 1, shift + 1, Or64(result, Shl64(tmp % 128, shift * 7)), s[pos])
  {
  }

  /** The loop left by `break`: the scope ran out after a byte with the
      continuation bit set. */
  lemma ReadVarintLoopBreaks(s: seq<byte>, pos: nat, shift: nat, result: u64, tmp: byte)
    requires pos == |s| && shift < 10 && tmp >= 128
    ensures ReadVarintLoop(s, pos, shift, result, tmp)
         == (Or64(Or64(result, Shl64(tmp % 128, shift * 7)), Shl64(tmp, (shift + 1) * 7)), pos)
  {
  }

  /** The loop left by its condition. */
  lemma ReadVarintLoopExits(s: seq<byte>, pos: nat, shift: nat, result: u64, tmp: byte)
    requires pos <= |s| && shift <= 10 && !(tmp >= 128 && shift < 10)
    ensures ReadVarintLoop(s, pos, shift, result, tmp) == (Or64(result, Shl64(tmp, shift * 7)), pos)
  {
  }

  /** A group with the continuation bit set, read at shift k, is or-ed in and
      the loop goes on with the next byte. */
  lemma ReadVarintLoopContinues(s: seq<byte>, k: nat, r: u64, g: nat, r': u64)
    requires k < 9 && k + 1 < |s| && g < 128 && s[k] == g + 128
    requires r < Pow2(7 * k) && r' == r + g * Pow2(7 * k)
    ensures ReadVarintLoop(s, k + 1, k, r, s[k]) == ReadVarintLoop(s, k + 1 + 1, k + 1, r', s[k + 1])
  {
    ContinuedGroup(r, g, k, s[k]);
    ReadVarintLoopUnfold(s, k + 1, k, r, s[k]);
  }

  /** The group of a byte with the continuation bit set, or-ed in at shift k. */
  lemma ContinuedGroup(r: u64, g: nat, k: nat, tmp: byte)
    requires k < 9 && g < 128 && tmp == g + 128
    requires r < Pow2(7 * k) && r + g * Pow2(7 * k) < TWO_64
    ensures Or64(r, Shl64(tmp % 128, k * 7)) == r + g * Pow2(7 * k)
  {
    assert tmp % 128 == g;
    ShlGroup(g, k);
    OrGroup(r, g, k);
  }

  /** The last group of a varint, read at shift k, ends the loop. */
  lemma ReadVarintLoopEnds(s: seq<byte>, k: nat, r: u64, w: nat)
    requires k <= 9 && k < |s| && w < 128 && s[k] == w
    requires r < Pow2(7 * k) && r + w * Pow2(7 * k) < TWO_64
    ensures ReadVarintLoop(s, k + 1, k, r, s[k]) == (r + w * Pow2(7 * k), k + 1)
  {
    OrGroup(r, w, k);
    ShlGroup(w, k);
  }

  /** A varint of more than one group cannot start at the tenth group. */
  lemma GroupFits(k: nat, w: nat)
    requires w >= 128 && w * Pow2(7 * k) < TWO_64
    ensures k < 9
  {
    if k >= 9 {
      Pow2Monotone(63, 7 * k);
      Pow2Table();
      assert false;
    }
  }

  /** The accumulator after or-ing in the low group of w at group k. */
  lemma GroupStep(r: nat, w: nat, k: nat) returns (r': nat)
    requires w >= 128 && r < Pow2(7 * k) && r + w * Pow2(7 * k) < TWO_64
    ensures k < 9 && r' == r + (w % 128) * Pow2(7 * k) && r' < TWO_64
    ensures r' < Pow2(7 * (k + 1)) && r' + (w / 128) * Pow2(7 * (k + 1)) == r + w * Pow2(7 * k)
  {
    var p := Pow2(7 * k);
    GroupSplit(r, w, p);
    GroupFits(k, w);
    Pow2Group(k);
    r' := r + (w % 128) * p;
  }

  /** Where the bytes of a multi-group varint sit in the scope. */
  lemma VarintBytesAt(s: seq<byte>, k: nat, w: nat)
    requires w >= 128
    requires k + |VarintBytes(w)| <= |s| && s[k..k + |VarintBytes(w)|] == VarintBytes(w)
    ensures s[k] == w % 128 + 128
    ensures k + 1 + |VarintBytes(w / 128)| <= |s|
    ensures s[k + 1..k + 1 + |VarintBytes(w / 128)|] == VarintBytes(w / 128)
  {
    assert s[k] == VarintBytes(w)[0];
    assert VarintBytes(w) == [w % 128 + 128] + VarintBytes(w / 128);
    assert s[k + 1..k + 1 + |VarintBytes(w / 128)|] == VarintBytes(w)[1..];
  }

  lemma {:induction false} ReadVarintLoopOfVarint(s: seq<byte>, k: nat, r: u64, w: nat)
    requires k <= 9 && r < Pow2(7 * k) && r + w * Pow2(7 * k) < TWO_64
    requires k + |VarintBytes(w)| <= |s| && s[k..k + |VarintBytes(w)|] == VarintBytes(w)
    ensures ReadVarintLoop(s, k + 1, k, r, s[k]) == (r + w * Pow2(7 * k), k + |VarintBytes(w)|)
    decreases w
  {
    if w < 128 {
      assert s[k] == VarintBytes(w)[0];
      ReadVarintLoopEnds(s, k, r, w);
    } else {
      var r' := GroupStep(r, w, k);
      VarintBytesAt(s, k, w);
      ReadVarintLoopContinues(s, k, r, w % 128, r');
      ReadVarintLoopOfVarint(s, k + 1, r', w / 128);
      assert |VarintBytes(w)| == 1 + |VarintBytes(w / 128)|;
    }
  }

  /** Reading back the bytes `writeVarint(v)` produced, followed by anything,
      gives v and consumes exactly those bytes. */
  lemma VarintRoundTrip(v: u64, rest: seq<byte>)
    ensures ReadVarint(VarintBytes(v) + rest) == (v, |VarintBytes(v)|)
  {
    var s := VarintBytes(v) + rest;
    assert s[0..|VarintBytes(v)|] == VarintBytes(v);
    ReadVarintLoopOfVarint(s, 0, 0, v);
  }

  lemma {:induction false} ReadVarintLoopStops(s: seq<byte>, pos: nat, shift: nat, result: u64, j: nat)
    requires 1 <= pos <= |s| && shift <= 10 && pos - 1 == shift
    requires pos - 1 <= j < |s| && j < 10 && s[j] < 128
    requires forall i :: pos - 1 <= i < j ==> s[i] >= 128
    ensures ReadVarintLoop(s, pos, shift, result, s[pos - 1]).1 == j + 1
    decreases 10 - shift
  {
    if s[pos - 1] >= 128 {
      var result' := Or64(result, Shl64(s[pos - 1] % 128, shift * 7));
      ReadVarintLoopStops(s, pos + 1, shift + 1, result', j);
    }
  }

  /** Decoding stops at the first byte whose high bit is clear (when it is among
      the first ten). */
  lemma ReadVarintStopsAtTerminator(s: seq<byte>, j: nat)
    requires j < |s| && j < 10 && s[j] < 128
    requires forall i :: 0 <= i < j ==> s[i] >= 128
    ensures ReadVarint(s).1 == j + 1
  {
    ReadVarintLoopStops(s, 1, 0, 0, j);
  }

  // ---------------------------------------------------------------------------
  // Little-endian fixed-width words
  // ---------------------------------------------------------------------------

  /** The n bytes of v, least significant first (`writeFixed32`/`writeFixed64`
      with n = 4 and 8). */
  function LittleEndian(v: nat, n: nat): (r: seq<byte>)
    ensures |r| == n
  {
    if n == 0 then [] else [v % 256] + LittleEndian(v / 256, n - 1)
  }

  /** The value of a little-endian byte string. */
  function LittleEndianValue(s: seq<byte>): nat
  {
    if s == [] then 0 else s[0] + 256 * LittleEndianValue(s[1..])
  }

  lemma {:induction false} LittleEndianRoundTrip(v: nat, n: nat)
    requires v < Pow2(8 * n)
    ensures LittleEndianValue(LittleEndian(v, n)) == v
  {
    if n > 0 {
      Pow2Add(8 * (n - 1), 8);
      LittleEndianRoundTrip(v / 256, n - 1);
      assert LittleEndian(v, n)[1..] == LittleEndian(v / 256, n - 1);
    }
  }

  lemma {:induction false} LittleEndianValueBound(s: seq<byte>)
    ensures LittleEndianValue(s) < Pow2(8 * |s|)
  {
    if s != [] {
      var p := Pow2(8 * (|s| - 1));
      LittleEndianValueBound(s[1..]);
      Pow2Add(8 * (|s| - 1), 8);
      assert Pow2(8) == 256;
      MulMonotone(LittleEndianValue(s[1..]), p - 1, 256);
    }
  }

  /** `readFixedInt32`: `b0 shl 0 or b1 shl 8 or b2 shl 16 or b3 shl 24`. */
  function Fixed32Value(b: seq<byte>): u32
    requires |b| >= 4
  {
    var b0: nat, b1: nat, b2: nat, b3: nat := b[0], b[1], b[2], b[3];
    OrAtMostSum(b0, b1 * 0x100);
    var x1 := Or(b0, b1 * 0x100);
    OrAtMostSum(x1, b2 * 0x1_0000);
    var x2 := Or(x1, b2 * 0x1_0000);
    OrAtMostSum(x2, b3 * 0x100_0000);
    Or(x2, b3 * 0x100_0000)
  }

  /** `readFixedInt64`: the same assembly over eight bytes. */
  function Fixed64Value(b: seq<byte>): u64
    requires |b| >= 8
  {
    var b4: nat, b5: nat, b6: nat, b7: nat := b[4], b[5], b[6], b[7];
    var x3 := Fixed32Value(b);
    OrAtMostSum(x3, b4 * 0x1_0000_0000);
    var x4 := Or(x3, b4 * 0x1_0000_0000);
    OrAtMostSum(x4, b5 * 0x100_0000_0000);
    var x5 := Or(x4, b5 * 0x100_0000_0000);
    OrAtMostSum(x5, b6 * 0x1_0000_0000_0000);
    var x6 := Or(x5, b6 * 0x1_0000_0000_0000);
    OrAtMostSum(x6, b7 * 0x100_0000_0000_0000);
    Or(x6, b7 * 0x100_0000_0000_0000)
  }

  /** Four little-endian bytes, written out. */
  lemma LittleEndianValue4(s: seq<byte>)
    requires |s| == 4
    ensures LittleEndianValue(s)
         == s[0] as int + 0x100 * (s[1] as int) + 0x1_0000 * (s[2] as int) + 0x100_0000 * (s[3] as int)
  {
    assert s[1..][1..] == s[2..];
    assert s[2..][1..] == s[3..];
    assert s[3..][1..] == [];
    assert LittleEndianValue(s[3..]) == s[3];
    assert LittleEndianValue(s[2..]) == s[2] + 256 * LittleEndianValue(s[3..]);
    assert LittleEndianValue(s[1..]) == s[1] + 256 * LittleEndianValue(s[2..]);
  }

  lemma {:induction false} LittleEndianValueAppend(a: seq<byte>, b: seq<byte>)
    ensures LittleEndianValue(a + b) == LittleEndianValue(a) + Pow2(8 * |a|) * LittleEndianValue(b)
  {
    if a == [] {
      assert a + b == b;
    } else {
      assert (a + b)[1..] == a[1..] + b;
      LittleEndianValueAppend(a[1..], b);
      Pow2Add(8, 8 * (|a| - 1));
      assert Pow2(8) == 256;
      ScaleSum(LittleEndianValue(a[1..]), Pow2(8 * (|a| - 1)), LittleEndianValue(b));
    }
  }

  lemma ScaleSum(x: nat, p: nat, y: nat)
    ensures 256 * (x + p * y) == 256 * x + (256 * p) * y
  {
  }

  /** `readFixedInt32` assembles the four bytes it read as a little-endian word. */
  lemma Fixed32ValueIsLittleEndian(b: seq<byte>)
    requires |b| >= 4
    ensures Fixed32Value(b) == LittleEndianValue(b[..4])
  {
    var b0: nat, b1: nat, b2: nat, b3: nat := b[0], b[1], b[2], b[3];
    Pow2Table();
    OrDisjoint(b0, b1, 8);
    var x1 := b0 + b1 * 0x100;
    OrDisjoint(x1, b2, 16);
    var x2 := x1 + b2 * 0x1_0000;
    OrDisjoint(x2, b3, 24);
    LittleEndianValue4(b[..4]);
  }

  /** `readFixedInt64` assembles the eight bytes it read as a little-endian word. */
  lemma Fixed64ValueIsLittleEndian(b: seq<byte>)
    requires |b| >= 8
    ensures Fixed64Value(b) == LittleEndianValue(b[..8])
  {
    var b4: nat, b5: nat, b6: nat, b7: nat := b[4], b[5], b[6], b[7];
    Fixed32ValueIsLittleEndian(b);
    var x3 := Fixed32Value(b);
    LittleEndianValueBound(b[..4]);
    Pow2Table();
    OrDisjoint(x3, b4, 32);
    var x4 := x3 + b4 * 0x1_0000_0000;
    OrDisjoint(x4, b5, 40);
    var x5 := x4 + b5 * 0x100_0000_0000;
    OrDisjoint(x5, b6, 48);
    var x6 := x5 + b6 * 0x1_0000_0000_0000;
    OrDisjoint(x6, b7, 56);
    assert b[..8] == b[..4] + b[4..8];
    LittleEndianValueAppend(b[..4], b[4..8]);
    LittleEndianValue4(b[4..8]);
  }

  /** Re-encoding the value of a little-endian byte string gives the string back. */
  lemma {:induction false} LittleEndianOfValue(b: seq<byte>)
    ensures LittleEndian(LittleEndianValue(b), |b|) == b
  {
    if b != [] {
      var x := LittleEndianValue(b[1..]);
      var v := LittleEndianValue(b);
      assert v == b[0] + 256 * x;
      DivMod256(x, b[0]);
      LittleEndianOfValue(b[1..]);
    }
  }

  lemma DivMod256(q: nat, r: nat)
    requires r < 256
    ensures (r + 256 * q) / 256 == q && (r + 256 * q) % 256 == r
  {
  }

  /** `writeFixed32` then `readFixedInt32` gives the value back, whatever follows. */
  lemma Fixed32RoundTrip(v: u32, rest: seq<byte>)
    ensures Fixed32Value(LittleEndian(v, 4) + rest) == v
  {
    var b := LittleEndian(v, 4) + rest;
    Fixed32ValueIsLittleEndian(b);
    assert b[..4] == LittleEndian(v, 4);
    Pow2Table();
    LittleEndianRoundTrip(v, 4);
  }

  /** `writeFixed64` then `readFixedInt64` gives the value back, whatever follows. */
  lemma Fixed64RoundTrip(v: u64, rest: seq<byte>)
    ensures Fixed64Value(LittleEndian(v, 8) + rest) == v
  {
    var b := LittleEndian(v, 8) + rest;
    Fixed64ValueIsLittleEndian(b);
    assert b[..8] == LittleEndian(v, 8);
    Pow2Table();
    LittleEndianRoundTrip(v, 8);
  }
}
