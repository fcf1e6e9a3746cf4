/**
 * ktbuf's Base64 codec (`bytes/Base64.kt`): the URL-safe alphabet of
 * RFC 4648 section 5, written without `=` padding, and a lenient decoder.
 *
 * The encoder and the decoder are loops over a Kotlin `Int` accumulator `b`.
 * Here `b` is held as its 32-bit pattern read as 0..2^32-1, so `b shl n` is
 * `(b * 2^n) % 2^32` and a mask-and-shift such as `b and 0xFC0000 shr 18` is
 * `(b / 2^18) % 64`.  Both methods are proved against reference definitions
 * that work group by group on the 24-bit value of three bytes.
 */
module Base64 {
  import opened Wire
  import opened LinkedBytes

  /** `BASE64_ALPHABET`, the 64 digits in order of value (the same text as
      one literal, written here range by range). */
  const BASE64_ALPHABET: string := "ABCDEFGHIJKLMNOPQRSTUVWXYZ" + "abcdefghijklmnopqrstuvwxyz" + "0123456789" + "-_"

  /** The character code of the digit whose value is `k`, by ranges. */
  function AlphabetCode(k: nat): int
    requires k < 64
  {
    if k < 26 then 'A' as int + k
    else if k < 52 then 'a' as int + (k - 26)
    else if k < 62 then '0' as int + (k - 52)
    else if k == 62 then '-' as int
    else '_' as int
  }

  lemma AlphabetByRanges()
    ensures |BASE64_ALPHABET| == 64
    ensures forall k :: 0 <= k < 64 ==> BASE64_ALPHABET[k] as int == AlphabetCode(k)
  {
    var upper, lower := "ABCDEFGHIJKLMNOPQRSTUVWXYZ", "abcdefghijklmnopqrstuvwxyz";
    var digits, marks := "0123456789", "-_";
    assert forall k :: 0 <= k < 26 ==> upper[k] as int == 'A' as int + k;
    assert forall k :: 0 <= k < 26 ==> lower[k] as int == 'a' as int + k;
    assert forall k :: 0 <= k < 10 ==> digits[k] as int == '0' as int + k;
    assert BASE64_ALPHABET == upper + lower + digits + marks;
  }

  /** `BASE64_INVERSE_ALPHABET[x]`: the value of the byte `x` as a digit, or -1
      when it is none (see `InverseIsIndexOf`). */
  function InverseAlphabet(x: byte): (r: int)
    ensures -1 <= r < 64
  {
    if 'A' as int <= x <= 'Z' as int then x - 'A' as int
    else if 'a' as int <= x <= 'z' as int then x - 'a' as int + 26
    else if '0' as int <= x <= '9' as int then x - '0' as int + 52
    else if x == '-' as int then 62
    else if x == '_' as int then 63
    else -1
  }

  /** The table is `BASE64_ALPHABET.indexOf(x.toChar())`: the first index of
      `x` in the alphabet, or -1 when the alphabet does not hold it. */
  lemma InverseIsIndexOf(x: byte)
    ensures InverseAlphabet(x) == -1 ==> forall k :: 0 <= k < 64 ==> BASE64_ALPHABET[k] as int != x
    ensures InverseAlphabet(x) != -1 ==> BASE64_ALPHABET[InverseAlphabet(x)] as int == x
    ensures InverseAlphabet(x) != -1 ==> forall k :: 0 <= k < InverseAlphabet(x) ==> BASE64_ALPHABET[k] as int != x
  {
    AlphabetByRanges();
  }

  /** Every digit of the alphabet decodes to its own index. */
  lemma InverseOfAlphabet(k: nat)
    requires k < 64
    ensures BASE64_ALPHABET[k] as int < 128
    ensures InverseAlphabet(BASE64_ALPHABET[k] as int) == k
  {
    AlphabetByRanges();
  }

  // ---------------------------------------------------------------------------
  // Reference encoding
  // ---------------------------------------------------------------------------

  /** The 24-bit value of a group of three bytes, most significant first. */
  function GroupValue(x: byte, y: byte, z: byte): (v: nat)
    ensures v < 0x100_0000
  {
    x * 0x1_0000 + y * 0x100 + z
  }

  /** The `i`-th 6-bit digit of a 24-bit value, most significant first. */
  function Sextet(v: nat, i: nat): (d: nat)
    requires i < 4
    ensures d < 64
  {
    if i == 0 then v / 0x4_0000 % 64
    else if i == 1 then v / 0x1000 % 64
    else if i == 2 then v / 0x40 % 64
    else v % 64
  }

  /** The four alphabet characters of a 24-bit value. */
  function GroupChars(v: nat): (r: string)
    ensures |r| == 4
  {
    seq(4, i requires 0 <= i < 4 => BASE64_ALPHABET[Sextet(v, i)])
  }

  /** The unpadded URL-safe Base64 text of `a`: four characters per whole group,
      and a short last group of one or two bytes, filled with zero bits, gives
      two or three characters. */
  function Encode64(a: seq<byte>): string
    decreases |a|
  {
    if |a| == 0 then ""
    else if |a| <= 3 then GroupText(a)
    else GroupText(a) + Encode64(a[3..])
  }

  /** The byte at `i`, or zero bits past the end of `a`. */
  function ByteAt(a: seq<byte>, i: nat): byte
  {
    if i < |a| then a[i] else 0
  }

  /** The characters of the first group of `a`: its first three bytes, or all
      of them when fewer, the missing ones read as zero bits; one character
      more than there are bytes. */
  function GroupText(a: seq<byte>): (r: string)
    requires |a| > 0
    ensures |r| == if |a| >= 3 then 4 else |a| + 1
  {
    GroupChars(GroupValue(a[0], ByteAt(a, 1), ByteAt(a, 2)))[..if |a| >= 3 then 4 else |a| + 1]
  }

  // ---------------------------------------------------------------------------
  // Reference decoding
  // ---------------------------------------------------------------------------

  predicate IsDigit(x: byte)
  {
    InverseAlphabet(x) != -1
  }

  /** The digit the byte at offset `j` of a group contributes: its value when
      it is present and a digit, zero otherwise. */
  function Digit(s: seq<byte>, j: nat): (d: nat)
    ensures d < 64
  {
    if j < |s| && IsDigit(s[j]) then InverseAlphabet(s[j]) else 0
  }

  /** Whether the byte at offset `j` of a group is present and a digit. */
  function Counted(s: seq<byte>, j: nat): nat
  {
    if j < |s| && IsDigit(s[j]) then 1 else 0
  }

  /** The value of the group starting at `s[0]`: the digits among the next
      three bytes are placed by their offset, and those that are not digits
      leave their place zero. */
  function DecodedValue(s: seq<byte>): nat
    requires |s| > 0 && IsDigit(s[0])
  {
    InverseAlphabet(s[0]) * 0x4_0000 + Digit(s, 1) * 0x1000 + Digit(s, 2) * 0x40 + Digit(s, 3)
  }

  /** How many bytes the group gives: one for each digit among the three
      bytes after the first. */
  function DecodedCount(s: seq<byte>): nat
  {
    Counted(s, 1) + Counted(s, 2) + Counted(s, 3)
  }

  /** The `i`-th byte of a 24-bit value, most significant first. */
  function Octet(v: nat, i: nat): byte
    requires i < 3
  {
    if i == 0 then v / 0x1_0000 % 256
    else if i == 1 then v / 0x100 % 256
    else v % 256
  }

  /** The three bytes of a 24-bit value. */
  function Octets(v: nat): (r: seq<byte>)
    ensures |r| == 3
  {
    seq(3, i requires 0 <= i < 3 => Octet(v, i))
  }

  function DecodeGroup(s: seq<byte>): (r: seq<byte>)
    requires |s| > 0 && IsDigit(s[0])
    ensures |r| == DecodedCount(s) <= 3
  {
    Octets(DecodedValue(s))[..DecodedCount(s)]
  }

  /** `decodeBase64`: a byte that is not a digit where a group would start is
      skipped; otherwise the next four bytes (fewer at the end) form a group. */
  function Decode(s: seq<byte>): seq<byte>
    decreases |s|
  {
    if |s| == 0 then []
    else if !IsDigit(s[0]) then Decode(s[1..])
    else if |s| <= 4 then DecodeGroup(s)
    else DecodeGroup(s) + Decode(s[4..])
  }

  // ---------------------------------------------------------------------------
  // The 32-bit accumulator
  // ---------------------------------------------------------------------------

  function Pow64(i: nat): (r: nat)
    ensures r > 0
  {
    if i == 0 then 1 else 64 * Pow64(i - 1)
  }

  function Pow256(i: nat): (r: nat)
    ensures r > 0
  {
    if i == 0 then 1 else 256 * Pow256(i - 1)
  }

  /** Kotlin's `b shl n` on the 32-bit pattern of an `Int`. */
  function Shl32(b: nat, p: nat): nat
  {
    (b * p) % TWO_32
  }

  lemma MulAtLeast(k: int, d: int)
    requires k >= 1 && d > 0
    ensures k * d >= d
  {
  }

  /** Quotient and remainder are the only ones with `x == q * d + r`. */
  lemma DivUnique(x: int, d: int, q: int, r: int)
    requires d > 0 && 0 <= r < d && x == q * d + r
    ensures x / d == q && x % d == r
  {
    var q', r' := x / d, x % d;
    assert (q - q') * d == r' - r;
    if q' < q {
      MulAtLeast(q - q', d);
    } else if q < q' {
      assert (q' - q) * d == r - r';
      MulAtLeast(q' - q, d);
    }
  }

  lemma Shl32Once(v: nat)
    requires v < 0x100_0000
    ensures Shl32(v, Pow64(0)) == v && Shl32(v, Pow256(0)) == v
  {
    DivUnique(v, TWO_32, 0, v);
  }

  /** Shifting the pattern twice is shifting it once by the product. */
  lemma Shl32Twice(b: nat, p: nat, q: nat)
    ensures Shl32(Shl32(b, p), q) == Shl32(b, p * q)
  {
    var m := b * p;
    var h, r := m / TWO_32, m % TWO_32;
    assert m * q == (h * q) * TWO_32 + r * q;
    var k, l := (r * q) / TWO_32, (r * q) % TWO_32;
    DivUnique(m * q, TWO_32, h * q + k, l);
    assert b * (p * q) == m * q;
  }

  /** The 6-bit digit `b and 0xFC0000 shr 18` reads after `i` shifts by six of
      a 24-bit value is its `i`-th sextet: the bits shifted past bit 31 are
      never the ones the mask keeps. */
  lemma SextetAfterShifts(v: nat, i: nat)
    requires v < 0x100_0000 && i < 4
    ensures Shl32(v, Pow64(i)) / 0x4_0000 % 64 == Sextet(v, i)
  {
    if i == 0 {
      DivUnique(v, TWO_32, 0, v);
    } else if i == 1 {
      assert Pow64(1) == 0x40;
      DivUnique(v * 0x40, TWO_32, 0, v * 0x40);
      DivUnique(v * 0x40, 0x4_0000, v / 0x1000, (v % 0x1000) * 0x40);
    } else if i == 2 {
      assert Pow64(2) == 0x1000;
      ThirdSextet(v);
    } else {
      assert Pow64(3) == 0x4_0000;
      FourthSextet(v);
    }
  }

  lemma ThirdSextet(v: nat)
    requires v < 0x100_0000
    ensures (v * 0x1000) % TWO_32 / 0x4_0000 % 64 == v / 0x40 % 64
  {
    var h, l := v / 0x10_0000, v % 0x10_0000;
    DivUnique(v * 0x1000, TWO_32, h, l * 0x1000);
    DivUnique(l * 0x1000, 0x4_0000, l / 0x40, (l % 0x40) * 0x1000);
    DivUnique(v, 0x40, h * 0x4000 + l / 0x40, l % 0x40);
    DivUnique(v / 0x40, 64, h * 0x100 + l / 0x1000, (l / 0x40) % 64);
  }

  lemma FourthSextet(v: nat)
    requires v < 0x100_0000
    ensures (v * 0x4_0000) % TWO_32 / 0x4_0000 % 64 == v % 64
  {
    var h, l := v / 0x4000, v % 0x4000;
    DivUnique(v * 0x4_0000, TWO_32, h, l * 0x4_0000);
    DivUnique(l * 0x4_0000, 0x4_0000, l, 0);
    DivUnique(v, 64, h * 0x100 + l / 64, l % 64);
  }

  /** The byte `b and 0xFF0000 shr 16` reads after `i` shifts by eight of a
      24-bit value is its `i`-th octet. */
  lemma OctetAfterShifts(v: nat, i: nat)
    requires v < 0x100_0000 && i < 3
    ensures Shl32(v, Pow256(i)) / 0x1_0000 % 256 == Octet(v, i)
  {
    if i == 0 {
      DivUnique(v, TWO_32, 0, v);
    } else if i == 1 {
      assert Pow256(1) == 0x100;
      DivUnique(v * 0x100, TWO_32, 0, v * 0x100);
      DivUnique(v * 0x100, 0x1_0000, v / 0x100, (v % 0x100) * 0x100);
    } else {
      assert Pow256(2) == 0x1_0000;
      ThirdOctet(v);
    }
  }

  lemma ThirdOctet(v: nat)
    requires v < 0x100_0000
    ensures (v * 0x1_0000) % TWO_32 / 0x1_0000 % 256 == v % 256
  {
    var h, l := v / 0x1_0000, v % 0x1_0000;
    DivUnique(v * 0x1_0000, TWO_32, h, l * 0x1_0000);
    DivUnique(l * 0x1_0000, 0x1_0000, l, 0);
    DivUnique(v, 0x100, h * 0x100 + l / 0x100, l % 0x100);
  }

  /** Or-ing a multiple of 2^k with a number below 2^k adds them. */
  lemma OrLow(q: nat, t: nat, k: nat, p: nat)
    requires p == Pow2(k) && t < p
    ensures Or(q * p, t) == q * p + t
  {
    OrCommutes(q * p, t);
    OrDisjoint(t, q, k);
  }

  /** Or-ing a multiple of one of the weights the codec uses with a number
      below that weight adds them. */
  lemma OrBelow(q: nat, t: nat, p: nat)
    requires p == 0x40 || p == 0x100 || p == 0x1000 || p == 0x1_0000 || p == 0x4_0000
    requires t < p
    ensures Or(q * p, t) == q * p + t
  {
    Pow2Sextets();
    if p == 0x40 {
      OrLow(q, t, 6, p);
    } else if p == 0x100 {
      OrLow(q, t, 8, p);
    } else if p == 0x1000 {
      OrLow(q, t, 12, p);
    } else if p == 0x1_0000 {
      OrLow(q, t, 16, p);
    } else {
      OrLow(q, t, 18, p);
    }
  }

  /** Kotlin's `b or t` where `b` is a multiple of the weight `p` and `t` lies
      below it, so that the two have no bit in common: the or adds them. */
  method OrInto(b: nat, t: nat, ghost q: nat, p: nat) returns (r: nat)
    requires p == 0x40 || p == 0x100 || p == 0x1000 || p == 0x1_0000 || p == 0x4_0000
    requires b == q * p && t < p
    ensures r == b + t
  {
    OrBelow(q, t, p);
    r := Or(b, t);
  }

  lemma Pow2Sextets()
    ensures Pow2(6) == 0x40 && Pow2(8) == 0x100 && Pow2(12) == 0x1000
    ensures Pow2(16) == 0x1_0000 && Pow2(18) == 0x4_0000
  {
    Pow2Add(6, 6);
    Pow2Add(12, 6);
    Pow2Add(8, 8);
    Pow2Add(16, 2);
  }

  // ---------------------------------------------------------------------------
  // toBase64String
  // ---------------------------------------------------------------------------

  /** The bytes of `s` from `p` on; empty once `p` runs past the end. */
  function Rest(s: seq<byte>, p: nat): (r: seq<byte>)
    ensures |r| == if p < |s| then |s| - p else 0
  {
    if p < |s| then s[p..] else []
  }

  lemma Encode64Step(s: seq<byte>, p: nat)
    requires p < |s|
    ensures Encode64(Rest(s, p)) == GroupText(s[p..]) + Encode64(Rest(s, p + 3))
  {
    if p + 3 < |s| {
      assert s[p..][3..] == s[p + 3..];
    }
  }

  lemma EncodeLoopStep(s: seq<byte>, p: nat, output: string, output': string)
    requires p < |s| && output + Encode64(Rest(s, p)) == Encode64(s)
    requires output' == output + GroupText(s[p..])
    ensures output' + Encode64(Rest(s, p + 3)) == Encode64(s)
  {
    Encode64Step(s, p);
    Regroup(output, GroupText(s[p..]), Encode64(Rest(s, p + 3)), Encode64(Rest(s, p)), Encode64(s), output');
  }

  /** Appending a piece and then the rest is appending the piece followed by
      the rest. */
  lemma Regroup<T>(done: seq<T>, piece: seq<T>, rest: seq<T>, tail: seq<T>, whole: seq<T>, done': seq<T>)
    requires done + tail == whole && tail == piece + rest && done' == done + piece
    ensures done' + rest == whole
  {
    assert (done + piece) + rest == done + (piece + rest);
  }

  /** `toBase64String`. */
  method ToBase64String(a: array<byte>) returns (s: string)
    ensures s == Encode64(a[..])
  {
    ghost var bytes := a[..];
    var output: string := [];
    var padding := 0;
    var position := 0;
    assert Rest(bytes, 0) == bytes;
    while position < a.Length
      invariant padding == 0 || position >= a.Length
      invariant output + Encode64(Rest(bytes, position)) == Encode64(bytes)
      decreases a.Length - position
    {
      ghost var before := output;
      output, padding := EncodeGroupAt(a, position, output, padding);
      EncodeLoopStep(bytes, position, before, output);
      position := position + 3;
    }
    s := output;
  }

  /** One pass of the outer loop of `toBase64String`: the group at `position`
      packed into `b`, and one character for each of its bytes and one more
      taken from the top six bits while `b` shifts left.  `padding` counts the
      missing bytes; only the last group can have any. */
  method EncodeGroupAt(a: array<byte>, position: nat, output: string, padding: nat)
    returns (output': string, padding': nat)
    requires position < a.Length && padding == 0
    ensures output' == output + GroupText(a[position..])
    ensures padding' == (if position + 1 < a.Length then 0 else 1) + (if position + 2 < a.Length then 0 else 1)
  {
    output', padding' := output, padding;
    var x: nat := a[position];
    ghost var y: nat := if position + 1 < a.Length then a[position + 1] else 0;
    ghost var z: nat := if position + 2 < a.Length then a[position + 2] else 0;
    var b: nat := x * 0x1_0000 % 0x100_0000;
    assert b == x * 0x1_0000;
    if position + 1 < a.Length {
      b := OrInto(b, a[position + 1] as nat * 0x100, x, 0x1_0000);
    } else {
      padding' := padding' + 1;
    }
    assert b == x * 0x1_0000 + y * 0x100;
    if position + 2 < a.Length {
      b := OrInto(b, a[position + 2] as nat, x * 0x100 + y, 0x100);
    } else {
      padding' := padding' + 1;
    }
    ghost var v := b;
    assert v == GroupValue(x, y, z);
    Shl32Once(v);
    for i := 0 to 4 - padding'
      invariant b == Shl32(v, Pow64(i))
      invariant output' == output + GroupChars(v)[..i]
    {
      SextetAfterShifts(v, i);
      var c := b / 0x4_0000 % 64;
      output' := output' + [BASE64_ALPHABET[c]];
      Shl32Twice(v, Pow64(i), 64);
      b := Shl32(b, 64);
    }
    ghost var g := a[position..];
    assert g[0] == x && (|g| > 1 ==> g[1] == y) && (|g| > 2 ==> g[2] == z);
  }

  // ---------------------------------------------------------------------------
  // decodeBase64 and fromBase64String
  // ---------------------------------------------------------------------------

  lemma DecodeStep(a: array<byte>, p: nat)
    requires p < a.Length
    ensures !IsDigit(a[p]) ==> Decode(a[p..]) == Decode(a[p + 1..])
    ensures IsDigit(a[p]) && p + 4 < a.Length ==> Decode(a[p..]) == DecodeGroup(a[p..]) + Decode(a[p + 4..])
    ensures IsDigit(a[p]) && p + 4 >= a.Length ==> Decode(a[p..]) == DecodeGroup(a[p..])
  {
    assert a[p..][1..] == a[p + 1..];
    if p + 4 < a.Length {
      assert a[p..][4..] == a[p + 4..];
    }
  }

  /** `decodeBase64`. */
  method DecodeBase64(a: array<byte>) returns (r: seq<byte>)
    ensures r == Decode(a[..])
  {
    var output: seq<byte> := [];
    var position := 0;
    while position < a.Length
      invariant position <= a.Length + 3
      invariant position <= a.Length ==> output + Decode(a[position..]) == Decode(a[..])
      invariant position > a.Length ==> output == Decode(a[..])
    {
      DecodeStep(a, position);
      if InverseAlphabet(a[position]) != -1 {
        var b, count := PackGroup(a, position);
        output := UnpackGroup(b, count, output);
      } else {
        position := position + 1;
        continue;
      }
      position := position + 4;
    }
    r := output;
  }

  /** The digits of the group at `p`, read off the array. */
  lemma DigitsAt(a: array<byte>, p: nat)
    requires p < a.Length
    ensures forall j :: 1 <= j <= 3 ==> Digit(a[p..], j) == (if p + j < a.Length && IsDigit(a[p + j]) then InverseAlphabet(a[p + j]) else 0)
    ensures forall j :: 1 <= j <= 3 ==> Counted(a[p..], j) == (if p + j < a.Length && IsDigit(a[p + j]) then 1 else 0)
  {
  }

  /** The first half of a pass of the outer loop of `decodeBase64` at a
      digit: the digits among the next three bytes or-ed into `b` by their
      offset, and counted. */
  method PackGroup(a: array<byte>, position: nat) returns (b: nat, count: nat)
    requires position < a.Length && IsDigit(a[position])
    ensures b == DecodedValue(a[position..]) && count == DecodedCount(a[position..])
  {
    b := InverseAlphabet(a[position]) % 256 * 0x4_0000;
    ghost var g := a[position..];
    DigitsAt(a, position);
    ghost var d0, d1, d2, d3 := InverseAlphabet(a[position]), Digit(g, 1), Digit(g, 2), Digit(g, 3);
    count := 0;
    if position + 1 < a.Length && InverseAlphabet(a[position + 1]) != -1 {
      b := OrInto(b, InverseAlphabet(a[position + 1]) % 256 * 0x1000, d0, 0x4_0000);
      count := count + 1;
    }
    assert b == (d0 * 0x40 + d1) * 0x1000;
    if position + 2 < a.Length && InverseAlphabet(a[position + 2]) != -1 {
      b := OrInto(b, InverseAlphabet(a[position + 2]) % 256 * 0x40, d0 * 0x40 + d1, 0x1000);
      count := count + 1;
    }
    assert b == (d0 * 0x1000 + d1 * 0x40 + d2) * 0x40;
    if position + 3 < a.Length && InverseAlphabet(a[position + 3]) != -1 {
      b := OrInto(b, InverseAlphabet(a[position + 3]) % 256, d0 * 0x1000 + d1 * 0x40 + d2, 0x40);
      count := count + 1;
    }
  }

  /** The second half: one byte for each counted digit, taken from bits
      16..23 while `b` shifts left by eight. */
  method UnpackGroup(b: nat, count: nat, output: seq<byte>) returns (output': seq<byte>)
    requires b < 0x100_0000 && count <= 3
    ensures output' == output + Octets(b)[..count]
  {
    output' := output;
    var acc, left := b, count;
    Shl32Once(b);
    while left > 0
      invariant 0 <= left <= count
      invariant acc == Shl32(b, Pow256(count - left))
      invariant output' == output + Octets(b)[..count - left]
    {
      OctetAfterShifts(b, count - left);
      var c: byte := acc / 0x1_0000 % 256;
      output' := output' + [c];
      Shl32Twice(b, Pow256(count - left), 256);
      acc := Shl32(acc, 256);
      left := left - 1;
    }
  }

  // ---------------------------------------------------------------------------
  // Text: `fromBase64String`
  // ---------------------------------------------------------------------------

  /** The UTF-8 bytes of one character (RFC 3629 section 3): the code itself
      below U+0080; above it, a lead byte and continuation bytes, all of them
      at least 0x80. */
  function CharBytes(c: char): (r: seq<byte>)
    ensures 1 <= |r| <= 4
    ensures c as int < 0x80 ==> r == [c as int]
    ensures c as int >= 0x80 ==> forall i :: 0 <= i < |r| ==> r[i] >= 0x80
  {
    var n := c as int;
    if n < 0x80 then [n]
    else if n < 0x800 then [0xC0 + n / 0x40, 0x80 + n % 0x40]
    else if n < 0x1_0000 then [0xE0 + n / 0x1000, 0x80 + n / 0x40 % 0x40, 0x80 + n % 0x40]
    else [0xF0 + n / 0x4_0000, 0x80 + n / 0x1000 % 0x40, 0x80 + n / 0x40 % 0x40, 0x80 + n % 0x40]
  }

  /** `encodeToByteArray()`: the UTF-8 bytes of a string, character by
      character. */
  function Utf8(s: string): (r: seq<byte>)
    ensures |r| >= |s|
  {
    if |s| == 0 then [] else CharBytes(s[0]) + Utf8(s[1..])
  }

  lemma {:induction false} Utf8Append(s: string, t: string)
    ensures Utf8(s + t) == Utf8(s) + Utf8(t)
  {
    if |s| == 0 {
      assert s + t == t;
    } else {
      assert (s + t)[1..] == s[1..] + t;
      Utf8Append(s[1..], t);
    }
  }

  predicate IsAscii(s: string)
  {
    forall i :: 0 <= i < |s| ==> s[i] as int < 0x80
  }

  /** ASCII text is its own UTF-8 encoding, byte for character. */
  lemma {:induction false} Utf8OfAscii(s: string)
    requires IsAscii(s)
    ensures |Utf8(s)| == |s|
    ensures forall i :: 0 <= i < |s| ==> Utf8(s)[i] == s[i] as int
  {
    if |s| > 0 {
      Utf8OfAscii(s[1..]);
    }
  }

  /** A byte of the UTF-8 encoding of a character outside ASCII is never a
      digit, so such characters only ever stand where the decoder skips or
      ignores a byte. */
  lemma NonAsciiBytesAreNoDigits(c: char, i: nat)
    requires c as int >= 0x80 && i < |CharBytes(c)|
    ensures !IsDigit(CharBytes(c)[i])
  {
    InverseIsIndexOf(CharBytes(c)[i]);
    AlphabetByRanges();
  }

  /** `fromBase64String`. */
  method FromBase64String(s: string) returns (r: seq<byte>)
    ensures r == Decode(Utf8(s))
  {
    var bytes := Utf8(s);
    var a := new byte[|bytes|](i requires 0 <= i < |bytes| => bytes[i]);
    assert a[..] == bytes;
    r := DecodeBase64(a);
  }

  // ---------------------------------------------------------------------------
  // Properties of the codec
  // ---------------------------------------------------------------------------

  /** Unpadded Base64 takes four characters for every three bytes, rounded up. */
  lemma {:induction false} EncodedLength(a: seq<byte>)
    ensures |Encode64(a)| == (4 * |a| + 2) / 3
    ensures |Encode64(a)| == 4 * (|a| / 3) + (if |a| % 3 == 0 then 0 else |a| % 3 + 1)
    decreases |a|
  {
    if |a| > 3 {
      EncodedLength(a[3..]);
    }
  }

  /** The characters of a group are digits of the alphabet: those of the
      group's 24-bit value. */
  lemma GroupTextDigits(a: seq<byte>)
    requires |a| > 0
    ensures forall j :: 0 <= j < |GroupText(a)| ==>
      GroupText(a)[j] == BASE64_ALPHABET[Sextet(GroupValue(a[0], ByteAt(a, 1), ByteAt(a, 2)), j)]
  {
  }

  /** The text holds nothing but digits of the alphabet: no padding, and none
      of the `+` and `/` of the standard alphabet. */
  lemma {:induction false} EncodedInAlphabet(a: seq<byte>)
    ensures forall i :: 0 <= i < |Encode64(a)| ==> Encode64(a)[i] in BASE64_ALPHABET
    ensures '=' !in Encode64(a)
    decreases |a|
  {
    if |a| > 0 {
      GroupTextDigits(a);
      AlphabetByRanges();
      if |a| > 3 {
        EncodedInAlphabet(a[3..]);
      }
    }
  }

  /** The four digits of a 24-bit value put back together by their weights
      give the value. */
  lemma SextetsJoin(v: nat)
    requires v < 0x100_0000
    ensures Sextet(v, 0) * 0x4_0000 + Sextet(v, 1) * 0x1000 + Sextet(v, 2) * 0x40 + Sextet(v, 3) == v
  {
    var s0, r0 := v / 0x4_0000, v % 0x4_0000;
    var s1, r1 := r0 / 0x1000, r0 % 0x1000;
    var s2, s3 := r1 / 0x40, r1 % 0x40;
    DivUnique(s0, 64, 0, s0);
    DivUnique(v, 0x1000, s0 * 64 + s1, r1);
    DivUnique(s0 * 64 + s1, 64, s0, s1);
    DivUnique(v, 0x40, (s0 * 64 + s1) * 64 + s2, s3);
    DivUnique((s0 * 64 + s1) * 64 + s2, 64, s0 * 64 + s1, s2);
  }

  /** The missing bytes of a short group leave its last digits zero. */
  lemma ShortGroupSextets(x: byte, y: byte)
    ensures Sextet(GroupValue(x, y, 0), 3) == 0
    ensures Sextet(GroupValue(x, 0, 0), 2) == 0 && Sextet(GroupValue(x, 0, 0), 3) == 0
  {
    DivUnique(GroupValue(x, y, 0), 64, x * 0x400 + y * 4, 0);
    DivUnique(GroupValue(x, 0, 0), 64, x * 0x400, 0);
    DivUnique(x * 0x400, 64, x * 16, 0);
  }

  /** The three bytes of a group's 24-bit value are the group's bytes. */
  lemma OctetsOfGroup(x: byte, y: byte, z: byte)
    ensures Octets(GroupValue(x, y, z)) == [x, y, z]
  {
    var v := GroupValue(x, y, z);
    DivUnique(v, 0x1_0000, x, y * 0x100 + z);
    DivUnique(x, 256, 0, x);
    DivUnique(v, 0x100, x * 0x100 + y, z);
    DivUnique(x * 0x100 + y, 256, x, y);
    assert Octets(v)[0] == x && Octets(v)[1] == y && Octets(v)[2] == z;
  }

  /** The UTF-8 bytes of a group's text, followed by anything when the group
      is whole, decode to the group's bytes. */
  lemma DecodeGroupText(a: seq<byte>, rest: seq<byte>)
    requires |a| > 0 && (|a| >= 3 || rest == [])
    ensures |Utf8(GroupText(a))| == |GroupText(a)| && IsDigit((Utf8(GroupText(a)) + rest)[0])
    ensures DecodeGroup(Utf8(GroupText(a)) + rest) == a[..if |a| >= 3 then 3 else |a|]
  {
    var g := GroupText(a);
    var x, y, z := a[0], ByteAt(a, 1), ByteAt(a, 2);
    var v := GroupValue(x, y, z);
    GroupTextDigits(a);
    AlphabetByRanges();
    assert IsAscii(g);
    Utf8OfAscii(g);
    var t := Utf8(g) + rest;
    forall j | 0 <= j < |g|
      ensures IsDigit(t[j]) && InverseAlphabet(t[j]) == Sextet(v, j)
    {
      InverseOfAlphabet(Sextet(v, j));
    }
    SextetsJoin(v);
    ShortGroupSextets(x, y);
    assert DecodedValue(t) == v;
    assert DecodedCount(t) == |g| - 1;
    OctetsOfGroup(x, y, z);
  }

  /** Decoding the UTF-8 bytes of the text `toBase64String` produces gives the
      bytes back: `fromBase64String` undoes `toBase64String`. */
  lemma {:induction false} RoundTrip(a: seq<byte>)
    ensures Decode(Utf8(Encode64(a))) == a
    decreases |a|
  {
    if 0 < |a| <= 3 {
      var t := Utf8(GroupText(a));
      DecodeGroupText(a, []);
      assert t + [] == t;
      assert Decode(t) == DecodeGroup(t);
    } else if |a| > 3 {
      var g, e := GroupText(a), Encode64(a[3..]);
      Utf8Append(g, e);
      EncodedLength(a[3..]);
      DecodeGroupText(a, Utf8(e));
      var t := Utf8(g) + Utf8(e);
      assert t[4..] == Utf8(e);
      assert Decode(t) == DecodeGroup(t) + Decode(Utf8(e));
      RoundTrip(a[3..]);
      assert a == a[..3] + a[3..];
    }
  }
}
