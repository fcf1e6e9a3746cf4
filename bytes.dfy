/**
 * ktbuf's growable byte store (`ConcreteLinkedByteArray`) and its zero-copy
 * bounded views (`LinkedByteSubarray`), over Kotlin `ByteArray`s modelled as
 * `array<byte>`.
 *
 * Every array operation is specified against a function on `buffer[..]`:
 * `Resized` is `copyOf`, `Overwrite` is `copyInto`, `Inserted` is the intended
 * result of `insert`. The two library primitives themselves (`copyOf`,
 * `copyInto` with its memmove semantics for overlapping ranges) are written out
 * as loops.
 */
module LinkedBytes {
  import opened Wire

  function Max(a: int, b: int): (r: int)
    ensures r >= a && r >= b && (r == a || r == b)
  {
    if a >= b then a else b
  }

  // ---------------------------------------------------------------------------
  // Sequence-level specification of the array operations
  // ---------------------------------------------------------------------------

  function Zeros(n: nat): (r: seq<byte>)
    ensures |r| == n && forall i :: 0 <= i < n ==> r[i] == 0
  {
    if n == 0 then [] else Zeros(n - 1) + [0]
  }

  /** `copyOf(n)`: the first n bytes, padded with zeros when n is larger. */
  function Resized(s: seq<byte>, n: nat): (r: seq<byte>)
    ensures |r| == n
    ensures forall i :: 0 <= i < n ==> r[i] == if i < |s| then s[i] else 0
  {
    if n <= |s| then s[..n] else s + Zeros(n - |s|)
  }

  /** Resizing keeps every byte below both lengths. */
  lemma ResizedPrefix(s: seq<byte>, n: nat, k: nat)
    requires k <= n && k <= |s|
    ensures Resized(s, n)[..k] == s[..k]
  {
  }

  /** `data.copyInto(s, off)`: the bytes at [off, off + |data|) replaced, all
      others kept. */
  function Overwrite(s: seq<byte>, off: nat, data: seq<byte>): (r: seq<byte>)
    requires off + |data| <= |s|
    ensures |r| == |s|
  {
    s[..off] + data + s[off + |data|..]
  }

  lemma SliceParts(s: seq<byte>, a: nat, b: nat, i: nat)
    requires a + i <= b <= |s|
    ensures s[a..b][..i] == s[a..a + i] && s[a..b][i..] == s[a + i..b]
  {
  }

  lemma SliceOfSlice(s: seq<byte>, a: nat, b: nat, i: nat, j: nat)
    requires a <= b <= |s| && i <= j <= b - a
    ensures s[a..b][i..j] == s[a + i..a + j]
  {
    assert forall k | 0 <= k < j - i :: s[a..b][i..j][k] == s[a + i..a + j][k];
  }

  lemma OverwriteAt(s: seq<byte>, off: nat, data: seq<byte>)
    requires off + |data| <= |s|
    ensures forall i :: 0 <= i < |s| ==>
      Overwrite(s, off, data)[i] == if off <= i < off + |data| then data[i - off] else s[i]
  {
  }

  /** What inserting `data` at `o` should give: prefix, the new bytes, then the
      old suffix shifted up. */
  function Inserted(s: seq<byte>, o: nat, data: seq<byte>): (r: seq<byte>)
    requires o <= |s|
    ensures |r| == |s| + |data|
  {
    s[..o] + data + s[o..]
  }

  /** Insert correctness: [0,o) unchanged, [o,o+k) the inserted bytes,
      [o+k,n+k) the old [o,n). */
  lemma InsertedLayout(s: seq<byte>, o: nat, data: seq<byte>)
    requires o <= |s|
    ensures Inserted(s, o, data)[..o] == s[..o]
    ensures Inserted(s, o, data)[o..o + |data|] == data
    ensures Inserted(s, o, data)[o + |data|..] == s[o..]
  {
    var r := Inserted(s, o, data);
    assert r == (s[..o] + data) + s[o..];
    assert r[..o + |data|] == s[..o] + data;
  }

  /** Appending is inserting at the end. */
  lemma InsertedAtEnd(s: seq<byte>, data: seq<byte>)
    ensures Inserted(s, |s|, data) == s + data
  {
    assert s[|s|..] == [];
  }

  /** Overwriting at the logical end of a resized store appends. */
  lemma OverwriteAtEnd(g: seq<byte>, n: nat, data: seq<byte>)
    requires n + |data| <= |g|
    ensures Overwrite(g, n, data)[..n + |data|] == g[..n] + data
  {
  }

  /** Overwriting inside the logical content replaces exactly that range. */
  lemma OverwriteInside(g: seq<byte>, n: nat, off: nat, data: seq<byte>)
    requires off + |data| <= n <= |g|
    ensures Overwrite(g, off, data)[..n] == g[..off] + data + g[off + |data|..n]
  {
  }

  /** Overwriting a store whose first |c| bytes are the content c: inside the
      content it overwrites the content, at its end it appends. */
  lemma OverwriteContents(g: seq<byte>, c: seq<byte>, off: nat, data: seq<byte>)
    requires |c| <= |g| && g[..|c|] == c && off + |data| <= |g|
    ensures off + |data| <= |c| ==> Overwrite(g, off, data)[..|c|] == Overwrite(c, off, data)
    ensures off == |c| ==> Overwrite(g, off, data)[..|c| + |data|] == c + data
  {
    if off + |data| <= |c| {
      OverwriteInside(g, |c|, off, data);
    } else if off == |c| {
      OverwriteAtEnd(g, |c|, data);
    }
  }

  /** The two moves `insert` makes (shift the tail up by |data|, then write the
      new bytes into the gap) give `Inserted` on the logical content, and leave
      the bytes past the new end alone. */
  lemma InsertByShifting(g: seq<byte>, n: nat, o: nat, data: seq<byte>, shifted: seq<byte>, filled: seq<byte>)
    requires o <= n && n + |data| <= |g|
    requires shifted == Overwrite(g, o + |data|, g[o..n])
    requires filled == Overwrite(shifted, o, data)
    ensures filled[..n + |data|] == Inserted(g[..n], o, data)
    ensures filled[n + |data|..] == g[n + |data|..]
  {
    var want := Inserted(g[..n], o, data);
    OverwriteAt(g, o + |data|, g[o..n]);
    OverwriteAt(shifted, o, data);
    forall i | 0 <= i < n + |data|
      ensures filled[i] == want[i]
    {
      if i < o {
        assert want[i] == g[i];
      } else if i < o + |data| {
        assert want[i] == data[i - o];
      } else {
        assert want[i] == g[..n][i - |data|];
      }
    }
  }

  // ---------------------------------------------------------------------------
  // Buffer growth
  // ---------------------------------------------------------------------------

  /** The capacity `write` (both forms) reallocates to as written: it sizes the
      new array from the size *before* the write, `cachedSize * 4 / 3`. */
  function WriteGrowthAsWritten(capacity: nat, cachedSize: nat, targetSize: nat): nat
  {
    if capacity < targetSize then cachedSize * 4 / 3 else capacity
  }

  /** Whether the array `write` as written ends up with holds the range it
      copies into, `destinationOffset until destinationOffset + length`, for
      content that fits its array: exactly when the array already reaches the
      target size or `cachedSize * 4 / 3` happens to. Otherwise the source's
      `copyInto` (or the indexed store) throws. */
  lemma WriteFitsAsWritten(capacity: nat, cachedSize: nat, destinationOffset: nat, length: nat)
    requires cachedSize <= capacity
    ensures var targetSize := if cachedSize < destinationOffset + length then destinationOffset + length else cachedSize;
      WriteGrowthAsWritten(capacity, cachedSize, targetSize) >= destinationOffset + length
      <==> capacity >= targetSize || cachedSize * 4 / 3 >= targetSize
  {
  }

  /** A writer on a fresh 8192-byte stream that encodes a 10000-byte `bytes`
      field as field 1 has written the tag (one byte) and the length (two
      bytes), then writes the 10000 payload bytes at offset 3. The write
      wants 10003 bytes of storage and reallocates to 3 * 4 / 3 = 4, so the
      copy that follows runs past the end of the array. */
  lemma WriteGrowthTooSmall()
    ensures |VarintBytes(FieldTag(1, LENGTH_DELIMITED))| + |VarintBytes(10000)| == 3
    ensures WriteGrowthAsWritten(8192, 3, 3 + 10000) == 4 < 3 + 10000
  {
    TagExamples();
    assert VarintBytes(10) == [10];
    assert 10000 / 128 == 78 && 10000 % 128 + 128 == 0x90;
    assert VarintBytes(10000) == [0x90] + VarintBytes(78) == [0x90, 78];
  }

  /** The capacity growth should give, as `insert` computes it: `targetSize * 4 / 3`
      when the array is too small. It always suffices and never shrinks. */
  function GrownCapacity(capacity: nat, targetSize: nat): (r: nat)
    ensures r >= targetSize && r >= capacity
    ensures capacity >= targetSize ==> r == capacity
  {
    if capacity < targetSize then targetSize * 4 / 3 else capacity
  }

  // ---------------------------------------------------------------------------
  // The two array primitives
  // ---------------------------------------------------------------------------

  /** A fresh `ByteArray` holding `s`. */
  method ArrayOf(s: seq<byte>) returns (a: array<byte>)
    ensures fresh(a) && a[..] == s
  {
    a := new byte[|s|](i requires 0 <= i < |s| => s[i]);
  }

  /** Kotlin's `copyOf(n)`. */
  method CopyOf(a: array<byte>, n: nat) returns (r: array<byte>)
    ensures fresh(r) && r[..] == Resized(a[..], n)
  {
    r := new byte[n](_ => 0);
    var k := if n < a.Length then n else a.Length;
    var i := 0;
    while i < k
      invariant 0 <= i <= k
      invariant forall j :: 0 <= j < i ==> r[j] == a[j]
      invariant forall j :: i <= j < n ==> r[j] == 0
    {
      r[i] := a[i];
      i := i + 1;
    }
  }

  lemma OverwriteForward(s: seq<byte>, off: nat, data: seq<byte>, i: nat)
    requires off + |data| <= |s| && i < |data|
    ensures Overwrite(s, off, data[..i])[off + i := data[i]] == Overwrite(s, off, data[..i + 1])
  {
    var a := Overwrite(s, off, data[..i])[off + i := data[i]];
    var b := Overwrite(s, off, data[..i + 1]);
    OverwriteAt(s, off, data[..i]);
    OverwriteAt(s, off, data[..i + 1]);
    forall j | 0 <= j < |s|
      ensures a[j] == b[j]
    {
    }
  }

  lemma OverwriteBackward(s: seq<byte>, off: nat, data: seq<byte>, i: nat)
    requires off + |data| <= |s| && 0 < i <= |data|
    ensures Overwrite(s, off + i, data[i..])[off + i - 1 := data[i - 1]] == Overwrite(s, off + i - 1, data[i - 1..])
  {
    var a := Overwrite(s, off + i, data[i..])[off + i - 1 := data[i - 1]];
    var b := Overwrite(s, off + i - 1, data[i - 1..]);
    OverwriteAt(s, off + i, data[i..]);
    OverwriteAt(s, off + i - 1, data[i - 1..]);
    forall j | 0 <= j < |s|
      ensures a[j] == b[j]
    {
    }
  }

  /** Kotlin's `src.copyInto(dst, dstOff, start, end)`, which behaves as if the
      source range were copied out first even when `src` and `dst` are the same
      array and the ranges overlap. */
  method CopyInto(src: array<byte>, dst: array<byte>, dstOff: nat, start: nat, end: nat)
    requires start <= end <= src.Length && dstOff + (end - start) <= dst.Length
    modifies dst
    ensures dst[..] == Overwrite(old(dst[..]), dstOff, old(src[start..end]))
  {
    if src == dst && start < dstOff {
      ShiftUp(dst, start, end, dstOff);
    } else {
      CopyForward(src, dst, dstOff, start, end);
    }
  }

  /** Copying low index first, safe unless the source range starts below the
      destination inside the same array. */
  method CopyForward(src: array<byte>, dst: array<byte>, dstOff: nat, start: nat, end: nat)
    requires start <= end <= src.Length && dstOff + (end - start) <= dst.Length
    requires src == dst ==> dstOff <= start
    modifies dst
    ensures dst[..] == Overwrite(old(dst[..]), dstOff, old(src[start..end]))
  {
    ghost var data := src[start..end];
    ghost var before := dst[..];
    var n := end - start;
    var i := 0;
    while i < n
      invariant 0 <= i <= n
      invariant dst[..] == Overwrite(before, dstOff, data[..i])
      invariant forall j :: i <= j < n ==> src[start + j] == data[j]
    {
      OverwriteForward(before, dstOff, data, i);
      dst[dstOff + i] := src[start + i];
      i := i + 1;
    }
    assert data[..n] == data;
  }

  /** Moving a range of one array up to `dstOff`, high index first. */
  method ShiftUp(a: array<byte>, start: nat, end: nat, dstOff: nat)
    requires start <= end <= a.Length && start <= dstOff && dstOff + (end - start) <= a.Length
    modifies a
    ensures a[..] == Overwrite(old(a[..]), dstOff, old(a[start..end]))
  {
    ghost var data := a[start..end];
    ghost var before := a[..];
    var n := end - start;
    var i := n;
    while i > 0
      invariant 0 <= i <= n
      invariant a[..] == Overwrite(before, dstOff + i, data[i..])
      invariant forall j :: 0 <= j < i ==> a[start + j] == data[j]
    {
      OverwriteBackward(before, dstOff, data, i);
      a[dstOff + i - 1] := a[start + i - 1];
      i := i - 1;
    }
  }

  /** The two copies `insert` makes on an array holding n bytes of content:
      shift [o, n) up by `length`, then copy the new bytes into the gap. */
  method OpenGap(a: array<byte>, n: nat, o: nat, bytes: array<byte>, sourceOffset: nat, length: nat)
    requires a != bytes && o <= n && n + length <= a.Length && sourceOffset + length <= bytes.Length
    modifies a
    ensures a[..n + length] == Inserted(old(a[..n]), o, bytes[sourceOffset..sourceOffset + length])
    ensures a[n + length..] == old(a[n + length..])
  {
    ghost var g := a[..];
    ghost var src := bytes[..];
    ghost var data := bytes[sourceOffset..sourceOffset + length];
    CopyInto(a, a, o + length, o, n);
    ghost var shifted := a[..];
    assert bytes[..] == src;
    CopyInto(bytes, a, o, sourceOffset, length + sourceOffset);
    InsertByShifting(g, n, o, data, shifted, a[..]);
  }

  /** The copy `write` makes into an array holding n bytes of content. */
  method StoreAt(a: array<byte>, n: nat, bytes: array<byte>, sourceOffset: nat, destinationOffset: nat, length: nat)
    requires a != bytes && n <= a.Length && destinationOffset + length <= a.Length
    requires sourceOffset + length <= bytes.Length
    modifies a
    ensures a[..] == Overwrite(old(a[..]), destinationOffset, bytes[sourceOffset..sourceOffset + length])
    ensures destinationOffset + length <= n ==>
      a[..n] == Overwrite(old(a[..n]), destinationOffset, bytes[sourceOffset..sourceOffset + length])
    ensures destinationOffset == n ==> a[..n + length] == old(a[..n]) + bytes[sourceOffset..sourceOffset + length]
  {
    ghost var g := a[..];
    CopyInto(bytes, a, destinationOffset, sourceOffset, length + sourceOffset);
    assert g[..n] == old(a[..n]);
    OverwriteContents(g, g[..n], destinationOffset, bytes[sourceOffset..sourceOffset + length]);
  }

  // ---------------------------------------------------------------------------
  // ConcreteLinkedByteArray
  // ---------------------------------------------------------------------------

  /** `ConcreteLinkedByteArray.defaultBufferSize`. */
  const DEFAULT_BUFFER_SIZE: nat := 10 * 2048

  /** The owning store: `buffer[..cachedSize]` is the content written so far,
      `tipOffset` the read cursor. Nothing ties the cursor to the content:
      `advance` is unchecked, so `size` may go negative. */
  class ConcreteLinkedByteArray {
    var buffer: array<byte>
    var cachedSize: int
    var tipOffset: int

    ghost predicate Valid()
      reads this
    {
      0 <= cachedSize <= buffer.Length && 0 <= tipOffset
    }

    /** `size`: the bytes written and not yet read. */
    function Size(): int
      reads this
    {
      cachedSize - tipOffset
    }

    /** The bytes written so far, from offset 0, whatever the cursor. */
    function Contents(): seq<byte>
      reads this, buffer
      requires Valid()
    {
      buffer[..cachedSize]
    }

    constructor (bufferSize: nat)
      ensures Valid() && fresh(buffer) && buffer.Length == bufferSize
      ensures cachedSize == 0 && tipOffset == 0 && Contents() == []
    {
      buffer := new byte[bufferSize](_ => 0);
      cachedSize := 0;
      tipOffset := 0;
    }

    /** `write(byte, destinationOffset)`: store one byte at an absolute offset,
        extending the content when the offset is at or past its end. */
    method WriteByte(b: byte, destinationOffset: int)
      requires Valid() && 0 <= destinationOffset
      modifies this, buffer
      ensures Valid() && tipOffset == old(tipOffset)
      ensures buffer == old(buffer) || fresh(buffer)
      ensures cachedSize == Max(old(cachedSize), destinationOffset + 1)
      ensures buffer[..] == Overwrite(Resized(old(buffer[..]), GrownCapacity(old(buffer.Length), cachedSize)),
                                      destinationOffset, [b])
      ensures destinationOffset < old(cachedSize) ==> Contents() == old(Contents())[destinationOffset := b]
      ensures destinationOffset == old(cachedSize) ==> Contents() == old(Contents()) + [b]
    {
      var targetSize := Max(cachedSize, destinationOffset + 1);
      Grow(targetSize);
      ResizedPrefix(old(buffer[..]), buffer.Length, cachedSize);
      cachedSize := targetSize;
      buffer[destinationOffset] := b;
    }

    /** `write(bytes, sourceOffset, destinationOffset, length)`: store
        `bytes[sourceOffset..sourceOffset + length]` at an absolute offset. */
    method Write(bytes: array<byte>, sourceOffset: int, destinationOffset: int, length: int)
      requires Valid() && bytes != buffer
      requires 0 <= sourceOffset && 0 <= length && sourceOffset + length <= bytes.Length
      requires 0 <= destinationOffset
      modifies this, buffer
      ensures Valid() && tipOffset == old(tipOffset)
      ensures buffer == old(buffer) || fresh(buffer)
      ensures cachedSize == Max(old(cachedSize), destinationOffset + length)
      ensures buffer[..] == Overwrite(Resized(old(buffer[..]), GrownCapacity(old(buffer.Length), cachedSize)),
                                      destinationOffset, bytes[sourceOffset..sourceOffset + length])
      ensures destinationOffset + length <= old(cachedSize) ==>
        Contents() == Overwrite(old(Contents()), destinationOffset, bytes[sourceOffset..sourceOffset + length])
      ensures destinationOffset == old(cachedSize) ==> Contents() == old(Contents()) + bytes[sourceOffset..sourceOffset + length]
    {
      var oldSize := cachedSize;
      var targetSize := Max(cachedSize, destinationOffset + length);
      Grow(targetSize);
      ResizedPrefix(old(buffer[..]), buffer.Length, oldSize);
      cachedSize := targetSize;
      StoreAt(buffer, oldSize, bytes, sourceOffset, destinationOffset, length);
    }

    /** The reallocation step of `write` and `insert`: when `targetSize` bytes
        do not fit, the buffer is replaced by a copy of `GrownCapacity` bytes. */
    method Grow(targetSize: int)
      requires Valid()
      modifies this
      ensures Valid() && cachedSize == old(cachedSize) && tipOffset == old(tipOffset)
      ensures buffer == old(buffer) || fresh(buffer)
      ensures buffer.Length == GrownCapacity(old(buffer.Length), if targetSize < 0 then 0 else targetSize)
      ensures buffer[..] == Resized(old(buffer[..]), buffer.Length)
    {
      if buffer.Length < targetSize {
        buffer := CopyOf(buffer, GrownCapacity(buffer.Length, targetSize));
      } else {
        assert buffer[..] == Resized(buffer[..], buffer.Length);
      }
    }

    /** `insert(bytes, sourceOffset, destinationOffset, length)`: open a gap of
        `length` bytes at `destinationOffset` by shifting the tail up, and fill
        it. The destination must lie inside the content (the shift's range
        `[destinationOffset, cachedSize)` is otherwise reversed and `copyInto`
        throws). */
    method Insert(bytes: array<byte>, sourceOffset: int, destinationOffset: int, length: int)
      requires Valid() && bytes != buffer
      requires 0 <= sourceOffset && 0 <= length && sourceOffset + length <= bytes.Length
      requires 0 <= destinationOffset <= cachedSize
      modifies this, buffer
      ensures Valid() && tipOffset == old(tipOffset)
      ensures buffer == old(buffer) || fresh(buffer)
      ensures cachedSize == old(cachedSize) + length
      ensures Contents() == Inserted(old(Contents()), destinationOffset, bytes[sourceOffset..sourceOffset + length])
      ensures buffer.Length == GrownCapacity(old(buffer.Length), cachedSize)
      ensures buffer[cachedSize..] == Resized(old(buffer[..]), buffer.Length)[cachedSize..]
    {
      ghost var oldSize := cachedSize;
      Grow(cachedSize + length);
      cachedSize := cachedSize + length;
      ResizedPrefix(old(buffer[..]), buffer.Length, oldSize);
      OpenGap(buffer, cachedSize - length, destinationOffset, bytes, sourceOffset, length);
    }

    /** `reset`: rewind the cursor; the content stays. */
    method Reset()
      requires Valid()
      modifies this
      ensures Valid() && tipOffset == 0
      ensures buffer == old(buffer) && cachedSize == old(cachedSize)
    {
      tipOffset := 0;
    }

    /** `clear`: forget the content and rewind. */
    method Clear()
      requires Valid()
      modifies this
      ensures Valid() && cachedSize == 0 && tipOffset == 0
      ensures buffer == old(buffer)
    {
      cachedSize := 0;
      tipOffset := 0;
    }

    /** `toByteArray`: a copy of the whole content, ignoring the cursor. */
    method ToByteArray() returns (r: array<byte>)
      requires Valid()
      ensures fresh(r) && r[..] == Contents()
    {
      r := CopyOf(buffer, cachedSize);
    }

    /** `copyTo(bytes, destinationOffset, offset, length)`: copy `length` bytes
        starting `offset` past the cursor. Only the array bounds are checked. */
    method CopyTo(bytes: array<byte>, destinationOffset: int, offset: int, length: int)
      requires Valid() && bytes != buffer
      requires 0 <= destinationOffset && 0 <= length && destinationOffset + length <= bytes.Length
      requires 0 <= tipOffset + offset && tipOffset + offset + length <= buffer.Length
      modifies bytes
      ensures bytes[..] == Overwrite(old(bytes[..]), destinationOffset,
                                     buffer[tipOffset + offset..tipOffset + offset + length])
    {
      CopyInto(buffer, bytes, destinationOffset, tipOffset + offset, tipOffset + length + offset);
    }

    /** `read(bytes, destinationOffset, length)`: copy at the cursor without
        moving it. */
    method ReadInto(bytes: array<byte>, destinationOffset: int, length: int)
      requires Valid() && bytes != buffer
      requires 0 <= destinationOffset && 0 <= length && destinationOffset + length <= bytes.Length
      requires tipOffset + length <= buffer.Length
      modifies bytes
      ensures bytes[..] == Overwrite(old(bytes[..]), destinationOffset, buffer[tipOffset..tipOffset + length])
    {
      CopyTo(bytes, destinationOffset, 0, length);
    }

    /** `read(length)`: the `length` bytes at the cursor, as a new array. */
    method Read(length: int) returns (r: array<byte>)
      requires Valid() && 0 <= length && tipOffset + length <= buffer.Length
      ensures fresh(r) && r[..] == buffer[tipOffset..tipOffset + length]
    {
      r := new byte[length](_ => 0);
      CopyInto(buffer, r, 0, tipOffset, tipOffset + length);
    }

    /** `readAdvance(bytes, destinationOffset, length)`. */
    method ReadAdvanceInto(bytes: array<byte>, destinationOffset: int, length: int)
      requires Valid() && bytes != buffer
      requires 0 <= destinationOffset && 0 <= length && destinationOffset + length <= bytes.Length
      requires tipOffset + length <= buffer.Length
      modifies this, bytes
      ensures tipOffset == old(tipOffset) + length
      ensures buffer == old(buffer) && cachedSize == old(cachedSize)
      ensures bytes[..] == Overwrite(old(bytes[..]), destinationOffset, old(buffer[tipOffset..tipOffset + length]))
    {
      ReadInto(bytes, destinationOffset, length);
      Advance(length);
    }

    /** `readAdvance(length)`. */
    method ReadAdvance(length: int) returns (r: array<byte>)
      requires Valid() && 0 <= length && tipOffset + length <= buffer.Length
      modifies this
      ensures tipOffset == old(tipOffset) + length
      ensures buffer == old(buffer) && cachedSize == old(cachedSize)
      ensures fresh(r) && r[..] == old(buffer[tipOffset..tipOffset + length])
    {
      r := Read(length);
      Advance(length);
    }

    /** `advance(length)`: move the cursor, unchecked against the content. */
    method Advance(length: int)
      requires 0 <= tipOffset + length
      modifies this
      ensures tipOffset == old(tipOffset) + length
      ensures buffer == old(buffer) && cachedSize == old(cachedSize)
    {
      tipOffset := tipOffset + length;
    }

    /** `subarray(offset, length)`: a window `offset` bytes past the cursor. */
    method Subarray(offset: int, length: int) returns (w: LinkedByteSubarray)
      ensures fresh(w) && w.parent == this && w.offset == offset && w.length == length && w.progress == 0
    {
      w := new LinkedByteSubarray(this, offset, length);
    }
  }

  // ---------------------------------------------------------------------------
  // LinkedByteSubarray
  // ---------------------------------------------------------------------------

  /** A window of `length` bytes starting `offset` past the parent's cursor *at
      the time of each read*, with its own cursor `progress`. Windows of windows
      are flattened onto the owning store, so the parent is always one. */
  class LinkedByteSubarray {
    const parent: ConcreteLinkedByteArray
    const offset: int
    const length: int
    var progress: int

    constructor (parent: ConcreteLinkedByteArray, offset: int, length: int)
      ensures this.parent == parent && this.offset == offset && this.length == length && progress == 0
    {
      this.parent := parent;
      this.offset := offset;
      this.length := length;
      progress := 0;
    }

    /** `size`. */
    function Size(): int
      reads this
    {
      length - progress
    }

    /** Where the window's cursor is in the parent's array. */
    function Start(): int
      reads this, parent
    {
      parent.tipOffset + offset + progress
    }

    /** `reset`: the window is used up. */
    method Reset()
      modifies this
      ensures progress == length
    {
      progress := length;
    }

    /** `clear`: the same as `reset`. */
    method Clear()
      modifies this
      ensures progress == length
    {
      Reset();
    }

    /** `copyTo(bytes, destinationOffset, offset, length)`: delegated to the
        parent at `offset + this.offset + progress`. */
    method CopyTo(bytes: array<byte>, destinationOffset: int, offset: int, length: int)
      requires parent.Valid() && bytes != parent.buffer
      requires 0 <= destinationOffset && 0 <= length && destinationOffset + length <= bytes.Length
      requires 0 <= Start() + offset && Start() + offset + length <= parent.buffer.Length
      modifies bytes
      ensures bytes[..] == Overwrite(old(bytes[..]), destinationOffset,
                                     parent.buffer[Start() + offset..Start() + offset + length])
    {
      parent.CopyTo(bytes, destinationOffset, offset + this.offset + progress, length);
    }

    /** `read(bytes, destinationOffset, length)`. */
    method ReadInto(bytes: array<byte>, destinationOffset: int, length: int)
      requires parent.Valid() && bytes != parent.buffer
      requires 0 <= destinationOffset && 0 <= length && destinationOffset + length <= bytes.Length
      requires 0 <= Start() && Start() + length <= parent.buffer.Length
      modifies bytes
      ensures bytes[..] == Overwrite(old(bytes[..]), destinationOffset, parent.buffer[Start()..Start() + length])
    {
      CopyTo(bytes, destinationOffset, 0, length);
    }

    /** `read(length)`: a new array of `length` bytes filled by `read`. */
    method Read(length: int) returns (r: array<byte>)
      requires parent.Valid() && 0 <= length
      requires 0 <= Start() && Start() + length <= parent.buffer.Length
      ensures fresh(r) && r[..] == parent.buffer[Start()..Start() + length]
    {
      r := new byte[length](_ => 0);
      ReadInto(r, 0, length);
    }

    /** `readAdvance(length)`. */
    method ReadAdvance(length: int) returns (r: array<byte>)
      requires parent.Valid() && 0 <= length
      requires 0 <= Start() && Start() + length <= parent.buffer.Length
      modifies this
      ensures fresh(r) && r[..] == old(parent.buffer[Start()..Start() + length])
      ensures progress == old(progress) + length
    {
      r := Read(length);
      Advance(length);
    }

    /** `readAdvance(bytes, destinationOffset, length)`. */
    method ReadAdvanceInto(bytes: array<byte>, destinationOffset: int, length: int)
      requires parent.Valid() && bytes != parent.buffer
      requires 0 <= destinationOffset && 0 <= length && destinationOffset + length <= bytes.Length
      requires 0 <= Start() && Start() + length <= parent.buffer.Length
      modifies this, bytes
      ensures bytes[..] == Overwrite(old(bytes[..]), destinationOffset, old(parent.buffer[Start()..Start() + length]))
      ensures progress == old(progress) + length
    {
      ReadInto(bytes, destinationOffset, length);
      Advance(length);
    }

    /** `advance(length)`: only this window's cursor moves, unchecked. */
    method Advance(length: int)
      modifies this
      ensures progress == old(progress) + length
    {
      progress := progress + length;
    }

    /** `toByteArray`: the bytes left in the window. */
    method ToByteArray() returns (r: array<byte>)
      requires parent.Valid() && 0 <= Size()
      requires 0 <= Start() && Start() + Size() <= parent.buffer.Length
      ensures fresh(r) && r[..] == parent.buffer[Start()..Start() + Size()]
    {
      r := new byte[Size()](_ => 0);
      CopyTo(r, 0, 0, r.Length);
    }

    /** `subarray(offset, length)`: a window of the parent, `offset` past this
        window's cursor. */
    method Subarray(offset: int, length: int) returns (w: LinkedByteSubarray)
      ensures fresh(w) && w.parent == parent && w.offset == offset + this.offset + progress
      ensures w.length == length && w.progress == 0
    {
      w := parent.Subarray(offset + this.offset + progress, length);
    }
  }

  // ---------------------------------------------------------------------------
  // LinkedByteArray: what a reader sees, a store or a window
  // ---------------------------------------------------------------------------

  /** The `LinkedByteArray` interface a reader consumes: either the store itself
      or a window onto one. Its scope is the bytes from the cursor to the end of
      the content (store) or of the declared range (window). */
  datatype LinkedByteArray = Buffer(buf: ConcreteLinkedByteArray) | Window(win: LinkedByteSubarray)
  {
    /** The store the bytes live in. */
    function Store(): ConcreteLinkedByteArray
    {
      if Buffer? then buf else win.parent
    }

    /** The object whose cursor reads move. */
    function Cursor(): object
    {
      if Buffer? then buf else win
    }

    /** `size`. */
    function Size(): int
      reads Cursor()
    {
      match this
      case Buffer(b) => b.Size()
      case Window(w) => w.Size()
    }

    /** The cursor lies inside the scope and the scope inside the store's
        content. */
    ghost predicate InScope()
      reads Cursor(), Store()
    {
      match this
      case Buffer(b) => b.Valid() && b.tipOffset <= b.cachedSize
      case Window(w) =>
        w.parent.Valid() && 0 <= w.offset && 0 <= w.progress <= w.length
        && w.parent.tipOffset + w.offset + w.length <= w.parent.cachedSize
    }

    /** Where the scope ends in the store's array. */
    function End(): int
      reads Cursor(), Store()
    {
      match this
      case Buffer(b) => b.cachedSize
      case Window(w) => w.parent.tipOffset + w.offset + w.length
    }

    /** Where the cursor is in the store's array. */
    function Start(): int
      reads Cursor(), Store()
    {
      match this
      case Buffer(b) => b.tipOffset
      case Window(w) => w.Start()
    }

    /** The unread bytes in scope. */
    function Remaining(): (r: seq<byte>)
      reads Cursor(), Store(), Store().buffer
      requires InScope()
      ensures |r| == Size()
    {
      Store().buffer[Start()..End()]
    }

    /** `read(bytes, destinationOffset, length)` within the scope: the cursor
        does not move. */
    method ReadInto(bytes: array<byte>, destinationOffset: int, length: int)
      requires InScope() && bytes != Store().buffer
      requires 0 <= length <= Size()
      requires 0 <= destinationOffset && destinationOffset + length <= bytes.Length
      modifies bytes
      ensures bytes[..] == Overwrite(old(bytes[..]), destinationOffset, Remaining()[..length])
    {
      ghost var rem := Remaining();
      ghost var start := Start();
      SliceParts(Store().buffer[..], start, End(), length);
      assert rem[..length] == Store().buffer[start..start + length];
      ghost var before := bytes[..];
      match this {
        case Buffer(b) => b.ReadInto(bytes, destinationOffset, length);
        case Window(w) => w.ReadInto(bytes, destinationOffset, length);
      }
      assert bytes[..] == Overwrite(before, destinationOffset, rem[..length]);
      assert unchanged(Cursor(), Store(), Store().buffer);
    }

    /** `readAdvance(bytes, destinationOffset, length)` within the scope: `read`,
        then `advance`. */
    method ReadAdvanceInto(bytes: array<byte>, destinationOffset: int, length: int)
      requires InScope() && bytes != Store().buffer
      requires 0 <= length <= Size()
      requires 0 <= destinationOffset && destinationOffset + length <= bytes.Length
      modifies Cursor(), bytes
      ensures InScope() && Store().buffer == old(Store().buffer) && Store().cachedSize == old(Store().cachedSize)
      ensures Remaining() == old(Remaining())[length..]
      ensures bytes[..] == Overwrite(old(bytes[..]), destinationOffset, old(Remaining())[..length])
    {
      ReadInto(bytes, destinationOffset, length);
      assert unchanged(Cursor(), Store(), Store().buffer);
      ghost var read := bytes[..];
      Advance(length);
      assert bytes[..] == read;
    }

    /** `read(length)` within the scope: the `length` bytes at the cursor, as
        a new array; the cursor does not move. */
    method Read(length: int) returns (r: array<byte>)
      requires InScope() && 0 <= length <= Size()
      ensures fresh(r) && r[..] == Remaining()[..length]
    {
      ghost var rem := Remaining();
      ghost var start := Start();
      SliceParts(Store().buffer[..], start, End(), length);
      assert rem[..length] == Store().buffer[start..start + length];
      match this {
        case Buffer(b) => r := b.Read(length);
        case Window(w) => r := w.Read(length);
      }
      assert r[..] == rem[..length];
      assert unchanged(Cursor(), Store(), Store().buffer);
    }

    /** `readAdvance(length)` within the scope: `read`, then `advance`. */
    method ReadAdvance(length: int) returns (r: array<byte>)
      requires InScope() && 0 <= length <= Size()
      modifies Cursor()
      ensures InScope() && Store().buffer == old(Store().buffer) && Store().cachedSize == old(Store().cachedSize)
      ensures fresh(r) && r[..] == old(Remaining())[..length]
      ensures Remaining() == old(Remaining())[length..]
    {
      r := Read(length);
      ghost var read := r[..];
      Advance(length);
      assert r[..] == read;
    }

    /** `advance(length)` within the scope. */
    method Advance(length: int)
      requires InScope() && 0 <= length <= Size()
      modifies Cursor()
      ensures InScope() && Store().buffer == old(Store().buffer) && Store().cachedSize == old(Store().cachedSize)
      ensures Remaining() == old(Remaining())[length..]
    {
      ghost var rem := Remaining();
      SliceParts(Store().buffer[..], Start(), End(), length);
      match this
      case Buffer(b) =>
        b.Advance(length);
        assert Remaining() == rem[length..];
      case Window(w) =>
        w.Advance(length);
        assert unchanged(w.parent, w.parent.buffer);
        assert Remaining() == rem[length..];
    }

    /** `subarray(offset, length)` within the scope: a new window onto the same
        store whose scope is exactly the requested bytes. */
    method Subarray(offset: int, length: int) returns (sub: LinkedByteArray)
      requires InScope() && 0 <= offset && 0 <= length && offset + length <= Size()
      ensures sub.Window? && fresh(sub.win) && sub.Store() == Store()
      ensures sub.InScope() && sub.Size() == length
      ensures sub.Remaining() == Remaining()[offset..offset + length]
      ensures InScope() && Remaining() == old(Remaining())
    {
      var w: LinkedByteSubarray;
      if Buffer? {
        w := buf.Subarray(offset, length);
      } else {
        w := win.Subarray(offset, length);
      }
      assert unchanged(Cursor(), Store(), Store().buffer);
      sub := Window(w);
      assert sub.Start() == Start() + offset && sub.End() == Start() + offset + length;
      SliceOfSlice(Store().buffer[..], Start(), End(), offset, offset + length);
    }
  }
}
