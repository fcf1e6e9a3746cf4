/**
 * ktbuf's Protocol Buffers decoder: `ScopedProtobufReader`, which reads fields
 * from a `LinkedByteArray` scope (the whole store, or a window of it for a
 * nested message), and the `ProtobufInputStream` that owns a store.
 *
 * Every read is specified against the unread bytes of the scope,
 * `Unread()`: what it returns is a function of those bytes (`ReadVarint`,
 * `LittleEndianValue`, `ReadPayload`), and what is left unread is a suffix of
 * them. The reads past the end of a scope that the source leaves unchecked are
 * preconditions here.
 */
module ProtoReader {
  import opened Wire
  import opened LinkedBytes
  import opened ProtoWriter

  // ---------------------------------------------------------------------------
  // What a reader reads
  // ---------------------------------------------------------------------------

  /** The length prefix of a length-delimited value, read as `readInt32`
      does, and the number of bytes it takes. */
  function LengthPrefix(s: seq<byte>): (r: (int, nat))
    ensures r.1 <= |s| && -(TWO_31 as int) <= r.0 < TWO_31
  {
    var r := ReadVarint(s);
    (ToI32(r.0), r.1)
  }

  /** The length prefix is non-negative and the bytes it announces are all in
      scope. */
  predicate LengthFits(s: seq<byte>)
  {
    var (len, n) := LengthPrefix(s);
    0 <= len && n + len <= |s|
  }

  /** The length prefix announces no more bytes than are in scope. A negative
      length, which `readInt32` returns for a prefix with bit 31 set, passes:
      it is what the reads below refuse. */
  predicate LengthWithin(s: seq<byte>)
  {
    var (len, n) := LengthPrefix(s);
    n + len <= |s|
  }

  /** Where `readField` as written leaves the cursor, counted from the start
      of the length prefix: past the prefix, then `advance(expectedLength)`,
      which moves it back for a negative length. */
  function ReadFieldEndAsWritten(s: seq<byte>): (r: int)
    ensures r < LengthPrefix(s).1 <==> LengthPrefix(s).0 < 0
    ensures LengthFits(s) ==> r == DelimitedLength(s)
  {
    LengthPrefix(s).1 + LengthPrefix(s).0
  }

  /** A field-1 length-delimited tag followed by the length -6, as the five
      bytes of its 32-bit pattern: `readField` as written reads six bytes and
      then moves the cursor back by six, to the tag again, so a loop over
      `nextField` reads this field forever. */
  lemma NegativeLengthRewinds()
    ensures var s: seq<byte> := [0x0A, 0xFA, 0xFF, 0xFF, 0xFF, 0x0F];
      ReadVarint(s) == (FieldTag(1, LENGTH_DELIMITED), 1)
      && LengthPrefix(s[1..]) == (-6, 5)
      && 1 + ReadFieldEndAsWritten(s[1..]) == 0
  {
    var s: seq<byte> := [0x0A, 0xFA, 0xFF, 0xFF, 0xFF, 0x0F];
    TagExamples();
    assert VarintBytes(10) == [0x0A];
    VarintRoundTrip(10, s[1..]);
    assert s == VarintBytes(10) + s[1..];
    assert VarintBytes(0xFFFF_FFFA) == [0xFA, 0xFF, 0xFF, 0xFF, 0x0F];
    VarintRoundTrip(0xFFFF_FFFA, []);
    assert s[1..] == VarintBytes(0xFFFF_FFFA) + [];
  }

  /** The bytes a length-delimited value at the start of `s` holds. */
  function Delimited(s: seq<byte>): (r: seq<byte>)
    requires LengthFits(s)
    ensures |r| == LengthPrefix(s).0
  {
    var (len, n) := LengthPrefix(s);
    s[n..n + len]
  }

  /** How many bytes a length-delimited value at the start of `s` takes,
      prefix included. */
  function DelimitedLength(s: seq<byte>): (r: nat)
    requires LengthFits(s)
    ensures r <= |s|
  {
    LengthPrefix(s).1 + LengthPrefix(s).0
  }

  /** After the length prefix, the value's bytes and then the rest. */
  lemma DelimitedSplit(s: seq<byte>, rest: seq<byte>)
    requires LengthFits(s) && rest == s[LengthPrefix(s).1..]
    ensures rest[..LengthPrefix(s).0] == Delimited(s)
    ensures rest[LengthPrefix(s).0..] == s[DelimitedLength(s)..]
  {
  }

  /** The payload of a field of type `wireType` can be read whole from `s`. */
  predicate PayloadReadable(wireType: u32, s: seq<byte>)
  {
    if wireType == FIXED32 then |s| >= 4
    else if wireType == FIXED64 then |s| >= 8
    else if wireType == LENGTH_DELIMITED then LengthFits(s)
    else true
  }

  /** What `skipField` accepts: a length-delimited payload may declare a
      negative length, which `readBytes` then refuses; every other wire type
      needs its payload whole. */
  predicate SkipReadable(wireType: u32, s: seq<byte>)
  {
    if wireType == LENGTH_DELIMITED then LengthWithin(s) else PayloadReadable(wireType, s)
  }

  /** `skipField` throws: a length-delimited payload with a negative length. */
  predicate SkipRefused(wireType: u32, s: seq<byte>)
  {
    wireType == LENGTH_DELIMITED && LengthPrefix(s).0 < 0
  }

  /** Of what `skipField` accepts, it reads the payload whole exactly when
      it does not throw, and a payload read whole is always accepted. */
  lemma SkipReadableCases(wireType: u32, s: seq<byte>)
    ensures SkipReadable(wireType, s) ==> (PayloadReadable(wireType, s) <==> !SkipRefused(wireType, s))
    ensures PayloadReadable(wireType, s) ==> SkipReadable(wireType, s)
  {
  }

  /** The payload a field of type `wireType` holds at the start of `s` and the
      number of bytes it takes; nothing for a wire type `skipField` does not
      know. */
  function ReadPayload(wireType: u32, s: seq<byte>): (r: Option<(Payload, nat)>)
    requires PayloadReadable(wireType, s)
    ensures r.Some? <==> (wireType == VARINT || wireType == FIXED64 || wireType == LENGTH_DELIMITED || wireType == FIXED32)
    ensures r.Some? ==> WireType(r.value.0) == wireType && r.value.1 <= |s|
  {
    if wireType == VARINT then
      var (v, n) := ReadVarint(s);
      Some((VarintPayload(v), n))
    else if wireType == FIXED32 then
      Some((Fixed32Payload(Fixed32Value(s)), 4))
    else if wireType == FIXED64 then
      Some((Fixed64Payload(Fixed64Value(s)), 8))
    else if wireType == LENGTH_DELIMITED then
      Some((DelimitedPayload(Delimited(s)), DelimitedLength(s)))
    else
      None
  }

  /** What `skipField` returns for a field numbered `fieldNumber` of type
      `wireType` whose payload starts `s`: the field written again. */
  function SkippedBytes(fieldNumber: i32, wireType: u32, s: seq<byte>): seq<byte>
    requires PayloadReadable(wireType, s)
  {
    RewrittenBytes(fieldNumber, SkippedPayload(wireType, s))
  }

  /** The payload `skipField` reads, if any. */
  function SkippedPayload(wireType: u32, s: seq<byte>): (r: Option<Payload>)
    requires PayloadReadable(wireType, s)
    ensures r.Some? ==> WireType(r.value) == wireType
  {
    match ReadPayload(wireType, s)
    case None => None
    case Some((p, _)) => Some(p)
  }

  /** `SkippedPayload` and `SkippedLength` for each wire type. */
  lemma SkippedCases(wireType: u32, s: seq<byte>)
    requires PayloadReadable(wireType, s)
    ensures wireType == VARINT ==>
      SkippedPayload(wireType, s) == Some(VarintPayload(ReadVarint(s).0)) && SkippedLength(wireType, s) == ReadVarint(s).1
    ensures wireType == FIXED32 ==>
      SkippedPayload(wireType, s) == Some(Fixed32Payload(Fixed32Value(s))) && SkippedLength(wireType, s) == 4
    ensures wireType == FIXED64 ==>
      SkippedPayload(wireType, s) == Some(Fixed64Payload(Fixed64Value(s))) && SkippedLength(wireType, s) == 8
    ensures wireType == LENGTH_DELIMITED ==>
      SkippedPayload(wireType, s) == Some(DelimitedPayload(Delimited(s))) && SkippedLength(wireType, s) == DelimitedLength(s)
    ensures wireType != VARINT && wireType != FIXED32 && wireType != FIXED64 && wireType != LENGTH_DELIMITED ==>
      SkippedPayload(wireType, s) == None && SkippedLength(wireType, s) == 0
  {
  }

  /** What a writer on a fresh store holds after writing `skipped`, if any,
      as field `fieldNumber`. */
  lemma SkippedBytesOf(fieldNumber: i32, wireType: u32, s: seq<byte>, skipped: Option<Payload>)
    requires PayloadReadable(wireType, s) && skipped == SkippedPayload(wireType, s)
    ensures SkippedBytes(fieldNumber, wireType, s) == RewrittenBytes(fieldNumber, skipped)
  {
  }

  function RewrittenBytes(fieldNumber: i32, skipped: Option<Payload>): seq<byte>
  {
    match skipped
    case None => []
    case Some(p) => TagBytes(Some(fieldNumber), WireType(p)) + PayloadBytes(p)
  }

  /** How many bytes `skipField` consumes. */
  function SkippedLength(wireType: u32, s: seq<byte>): (r: nat)
    requires PayloadReadable(wireType, s)
    ensures r <= |s|
  {
    match ReadPayload(wireType, s)
    case None => 0
    case Some((_, n)) => n
  }

  // ---------------------------------------------------------------------------
  // Reading back what the writer wrote
  // ---------------------------------------------------------------------------

  /** A length-delimited payload below 2^31 bytes is read back whole. */
  lemma DelimitedRoundTrip(data: seq<byte>, rest: seq<byte>)
    requires |data| < TWO_31
    ensures LengthPrefix(PayloadBytes(DelimitedPayload(data)) + rest) == (|data|, |VarintBytes(|data|)|)
    ensures LengthFits(PayloadBytes(DelimitedPayload(data)) + rest)
  {
    var s := VarintBytes(|data|) + (data + rest);
    ToU64Small(|data|);
    assert PayloadBytes(DelimitedPayload(data)) + rest == s;
    VarintRoundTrip(|data|, data + rest);
    ToI32Small(|data|);
  }

  /** Every payload the writer produces (with bytes below 2^31) is read back as
      the same payload, consuming exactly its bytes, whatever follows. */
  lemma PayloadRoundTrip(p: Payload, rest: seq<byte>)
    requires p.DelimitedPayload? ==> |p.data| < TWO_31
    ensures PayloadReadable(WireType(p), PayloadBytes(p) + rest)
    ensures ReadPayload(WireType(p), PayloadBytes(p) + rest) == Some((p, |PayloadBytes(p)|))
  {
    match p
    case VarintPayload(v) => VarintPayloadRoundTrip(v, rest);
    case Fixed32Payload(v) => Fixed32PayloadRoundTrip(v, rest);
    case Fixed64Payload(v) => Fixed64PayloadRoundTrip(v, rest);
    case DelimitedPayload(data) => DelimitedPayloadRoundTrip(data, rest);
  }

  lemma VarintPayloadRoundTrip(v: u64, rest: seq<byte>)
    ensures ReadPayload(VARINT, PayloadBytes(VarintPayload(v)) + rest)
         == Some((VarintPayload(v), |PayloadBytes(VarintPayload(v))|))
  {
    VarintRoundTrip(v, rest);
  }

  lemma Fixed32PayloadRoundTrip(v: u32, rest: seq<byte>)
    ensures PayloadReadable(FIXED32, PayloadBytes(Fixed32Payload(v)) + rest)
    ensures ReadPayload(FIXED32, PayloadBytes(Fixed32Payload(v)) + rest)
         == Some((Fixed32Payload(v), |PayloadBytes(Fixed32Payload(v))|))
  {
    Fixed32RoundTrip(v, rest);
  }

  lemma Fixed64PayloadRoundTrip(v: u64, rest: seq<byte>)
    ensures PayloadReadable(FIXED64, PayloadBytes(Fixed64Payload(v)) + rest)
    ensures ReadPayload(FIXED64, PayloadBytes(Fixed64Payload(v)) + rest)
         == Some((Fixed64Payload(v), |PayloadBytes(Fixed64Payload(v))|))
  {
    Fixed64RoundTrip(v, rest);
  }

  lemma DelimitedPayloadRoundTrip(data: seq<byte>, rest: seq<byte>)
    requires |data| < TWO_31
    ensures PayloadReadable(LENGTH_DELIMITED, PayloadBytes(DelimitedPayload(data)) + rest)
    ensures ReadPayload(LENGTH_DELIMITED, PayloadBytes(DelimitedPayload(data)) + rest)
         == Some((DelimitedPayload(data), |PayloadBytes(DelimitedPayload(data))|))
  {
    var s := PayloadBytes(DelimitedPayload(data)) + rest;
    DelimitedRoundTrip(data, rest);
    var n := |VarintBytes(|data|)|;
    ToU64Small(|data|);
    assert s[n..n + |data|] == data;
  }

  /** `skipField` on a payload as the writer produces it returns the field
      exactly as written: the tag, then the payload's own bytes. */
  lemma SkipReencodes(fieldNumber: i32, p: Payload, rest: seq<byte>)
    requires p.DelimitedPayload? ==> |p.data| < TWO_31
    ensures PayloadReadable(WireType(p), PayloadBytes(p) + rest)
    ensures SkippedBytes(fieldNumber, WireType(p), PayloadBytes(p) + rest)
         == TagBytes(Some(fieldNumber), WireType(p)) + PayloadBytes(p)
    ensures SkippedLength(WireType(p), PayloadBytes(p) + rest) == |PayloadBytes(p)|
  {
    PayloadRoundTrip(p, rest);
  }

  /** A fixed-width payload, read and written again, is the bytes it was read
      from. */
  lemma FixedReencodes(wireType: u32, s: seq<byte>)
    requires (wireType == FIXED32 && |s| >= 4) || (wireType == FIXED64 && |s| >= 8)
    ensures PayloadBytes(ReadPayload(wireType, s).value.0) == s[..ReadPayload(wireType, s).value.1]
  {
    if wireType == FIXED32 {
      Fixed32ValueIsLittleEndian(s);
      LittleEndianOfValue(s[..4]);
    } else {
      Fixed64ValueIsLittleEndian(s);
      LittleEndianOfValue(s[..8]);
    }
  }

  /** A whole field as `encode` writes it, with a field number below 2^29: the
      tag read back gives the number and the wire type, and the payload after
      it gives the payload back. */
  lemma FieldRoundTrip(fieldNumber: i32, v: Value, rest: seq<byte>)
    requires 0 <= fieldNumber < 0x2000_0000
    requires PayloadOf(v).DelimitedPayload? ==> |PayloadOf(v).data| < TWO_31
    ensures var s := FieldBytes(Some(fieldNumber), v) + rest;
            var (tag, n) := ReadVarint(s);
            FieldNumberFromTag(ToI32(tag)) == fieldNumber
            && WireTypeFromTag(ToU32(tag)) == WireType(PayloadOf(v))
            && PayloadReadable(WireType(PayloadOf(v)), s[n..])
            && ReadPayload(WireType(PayloadOf(v)), s[n..]) == Some((PayloadOf(v), |PayloadBytes(PayloadOf(v))|))
  {
    var p := PayloadOf(v);
    var wt := WireType(p);
    var tag := FieldTag(fieldNumber, wt);
    var s := FieldBytes(Some(fieldNumber), v) + rest;
    assert s == VarintBytes(tag) + (PayloadBytes(p) + rest);
    VarintRoundTrip(tag, PayloadBytes(p) + rest);
    TagRoundTrip(fieldNumber, wt);
    assert s[|VarintBytes(tag)|..] == PayloadBytes(p) + rest;
    PayloadRoundTrip(p, rest);
  }

  /** A nested message as `encode(fieldNumber) { … }` writes it, with a field
      number below 2^29 and content below 2^31 bytes: the tag read back gives
      the number and the length-delimited wire type, and the length after it
      announces exactly the content. So `readField`'s window is the content,
      and its `advance` lands on whatever follows the message. */
  lemma MessageRoundTrip(fieldNumber: i32, content: seq<byte>, rest: seq<byte>)
    requires 0 <= fieldNumber < 0x2000_0000 && |content| < TWO_31
    ensures var s := MessageBytes(fieldNumber, content) + rest;
            var (tag, n) := ReadVarint(s);
            FieldNumberFromTag(ToI32(tag)) == fieldNumber
            && WireTypeFromTag(ToU32(tag)) == LENGTH_DELIMITED
            && LengthFits(s[n..]) && Delimited(s[n..]) == content
            && s[n..][DelimitedLength(s[n..])..] == rest
  {
    var tag := FieldTag(fieldNumber, LENGTH_DELIMITED);
    var after := PayloadBytes(DelimitedPayload(content)) + rest;
    MessageAsField(fieldNumber, content, rest);
    VarintRoundTrip(tag, after);
    TagRoundTrip(fieldNumber, LENGTH_DELIMITED);
    DelimitedAfterTag(content, rest);
  }

  /** A nested message is laid out as a length-delimited field would be. */
  lemma MessageAsField(fieldNumber: i32, content: seq<byte>, rest: seq<byte>)
    requires |content| < TWO_31
    ensures var tagBytes := VarintBytes(FieldTag(fieldNumber, LENGTH_DELIMITED));
            var s := MessageBytes(fieldNumber, content) + rest;
            s == tagBytes + (PayloadBytes(DelimitedPayload(content)) + rest)
            && s[|tagBytes|..] == PayloadBytes(DelimitedPayload(content)) + rest
  {
    ToU64Small(|content|);
  }

  /** The length-delimited payload of `content` announces exactly it. */
  lemma DelimitedAfterTag(content: seq<byte>, rest: seq<byte>)
    requires |content| < TWO_31
    ensures var after := PayloadBytes(DelimitedPayload(content)) + rest;
            LengthFits(after) && Delimited(after) == content && after[DelimitedLength(after)..] == rest
  {
    var after := PayloadBytes(DelimitedPayload(content)) + rest;
    DelimitedPayloadRoundTrip(content, rest);
    assert after[|PayloadBytes(DelimitedPayload(content))|..] == rest;
  }

  // ---------------------------------------------------------------------------
  // ScopedProtobufReader
  // ---------------------------------------------------------------------------

  /** A reader over one scope: `currentFieldNumber` and `currentFieldType` are
      those of the tag `nextField` read last. */
  class ScopedProtobufReader {
    const input: LinkedByteArray
    const tempBuffer: array<byte>
    var currentFieldType: u32
    var currentFieldNumber: i32

    ghost predicate Valid()
      reads input.Cursor(), input.Store()
    {
      input.InScope() && tempBuffer.Length == 8 && tempBuffer != input.Store().buffer
      && input.Cursor() != this
    }

    /** The unread bytes of the scope. */
    ghost function Unread(): (r: seq<byte>)
      reads input.Cursor(), input.Store(), input.Store().buffer
      requires Valid()
      ensures |r| == input.Size()
    {
      input.Remaining()
    }

    constructor (input: LinkedByteArray)
      requires input.InScope()
      ensures Valid() && this.input == input && fresh(tempBuffer)
      ensures Unread() == old(input.Remaining())
      ensures currentFieldType == 0 && currentFieldNumber == 0
    {
      this.input := input;
      tempBuffer := new byte[8](_ => 0);
      currentFieldType := 0;
      currentFieldNumber := 0;
    }

    /** `isByteAvailable()`. */
    function IsByteAvailable(): (r: bool)
      reads input.Cursor(), input.Store(), input.Store().buffer
      requires Valid()
      ensures r <==> |Unread()| > 0
    {
      input.Size() > 0
    }

    /** `nextByte()`: the next byte, or the "Message length exceeded"
        exception (`None`) when the scope is used up. */
    method NextByte() returns (b: Option<byte>)
      requires Valid()
      modifies input.Cursor(), tempBuffer
      ensures Valid() && input.Store().buffer == old(input.Store().buffer)
      ensures input.Store().cachedSize == old(input.Store().cachedSize)
      ensures old(|Unread()|) == 0 ==> b == None && Unread() == old(Unread())
      ensures old(|Unread()|) > 0 ==> b == Some(old(Unread())[0]) && Unread() == old(Unread())[1..]
    {
      if input.Size() == 0 {
        return None;
      }
      input.ReadAdvanceInto(tempBuffer, 0, 1);
      b := Some(tempBuffer[0]);
    }

    /** `readVarInt()`: 0 when nothing is available; otherwise the do-while
        loop over `nextByte`, proved against `ReadVarint`. */
    method ReadVarInt() returns (r: u64)
      requires Valid()
      modifies input.Cursor(), tempBuffer
      ensures Valid() && input.Store().buffer == old(input.Store().buffer)
      ensures input.Store().cachedSize == old(input.Store().cachedSize)
      ensures r == ReadVarint(old(Unread())).0
      ensures Unread() == old(Unread())[ReadVarint(old(Unread())).1..]
    {
      ghost var s := Unread();
      if !IsByteAvailable() {
        return 0;
      }
      var shift := 0;
      var result: u64 := 0;
      var next := NextByte();
      var tmp := next.value;
      ghost var pos: nat := 1;
      ghost var exhausted := false;
      while tmp >= 0x80 && shift < 10
        invariant Valid() && input.Store().buffer == old(input.Store().buffer)
        invariant input.Store().cachedSize == old(input.Store().cachedSize)
        invariant pos == shift + 1 <= |s| && shift <= 10 && tmp == s[pos - 1]
        invariant Unread() == s[pos..]
        invariant ReadVarintLoop(s, pos, shift, result, tmp) == ReadVarint(s)
        decreases 10 - shift
      {
        ghost var before := result;
        ghost var k := shift;
        result := Or64(result, Shl64(tmp % 0x80, shift * 7));
        shift := shift + 1;
        if !IsByteAvailable() {
          ReadVarintLoopBreaks(s, pos, k, before, tmp);
          exhausted := true;
          break;
        }
        ReadVarintLoopUnfold(s, pos, k, before, tmp);
        next := NextByte();
        tmp := next.value;
        pos := pos + 1;
      }
      if !exhausted {
        ReadVarintLoopExits(s, pos, shift, result, tmp);
      }
      r := Or64(result, Shl64(tmp, shift * 7));
    }

    /** `nextField()`: false, consuming nothing, when the scope is used up;
        otherwise the tag is read and split into number and wire type. */
    method NextField() returns (r: bool)
      requires Valid()
      modifies this, input.Cursor(), tempBuffer
      ensures Valid() && input.Store().buffer == old(input.Store().buffer)
      ensures input.Store().cachedSize == old(input.Store().cachedSize)
      ensures r <==> old(|Unread()|) > 0
      ensures !r ==> (Unread() == old(Unread())
        && currentFieldNumber == old(currentFieldNumber) && currentFieldType == old(currentFieldType))
      ensures r ==> (currentFieldNumber == FieldNumberFromTag(ToI32(ReadVarint(old(Unread())).0))
        && currentFieldType == WireTypeFromTag(ToU32(ReadVarint(old(Unread())).0))
        && Unread() == old(Unread())[ReadVarint(old(Unread())).1..])
    {
      if input.Size() <= 0 {
        return false;
      }
      ghost var s := Unread();
      var tag := ReadVarInt();
      assert tag == ReadVarint(s).0 && Unread() == s[ReadVarint(s).1..];
      currentFieldNumber := FieldNumberFromTag(ToI32(tag));
      currentFieldType := WireTypeFromTag(ToU32(tag));
      assert Unread() == s[ReadVarint(s).1..];
      return true;
    }

    /** `readInt32()`: the varint's low 32 bits as an `Int`. */
    method ReadInt32() returns (r: i32)
      requires Valid()
      modifies input.Cursor(), tempBuffer
      ensures Valid() && input.Store().buffer == old(input.Store().buffer)
      ensures input.Store().cachedSize == old(input.Store().cachedSize)
      ensures r == ToI32(ReadVarint(old(Unread())).0)
      ensures Unread() == old(Unread())[ReadVarint(old(Unread())).1..]
    {
      var v := ReadVarInt();
      r := ToI32(v);
    }

    /** `readInt64()`: the varint as a `Long`. */
    method ReadInt64() returns (r: i64)
      requires Valid()
      modifies input.Cursor(), tempBuffer
      ensures Valid() && input.Store().buffer == old(input.Store().buffer)
      ensures input.Store().cachedSize == old(input.Store().cachedSize)
      ensures r == ToI64(ReadVarint(old(Unread())).0)
      ensures Unread() == old(Unread())[ReadVarint(old(Unread())).1..]
    {
      var v := ReadVarInt();
      r := ToI64(v);
    }

    /** `readUInt32()`: the varint's low 32 bits. */
    method ReadUInt32() returns (r: u32)
      requires Valid()
      modifies input.Cursor(), tempBuffer
      ensures Valid() && input.Store().buffer == old(input.Store().buffer)
      ensures input.Store().cachedSize == old(input.Store().cachedSize)
      ensures r == ReadVarint(old(Unread())).0 % TWO_32
      ensures Unread() == old(Unread())[ReadVarint(old(Unread())).1..]
    {
      var v := ReadVarInt();
      r := ToU32(v);
    }

    /** `readUInt64()`: the varint. */
    method ReadUInt64() returns (r: u64)
      requires Valid()
      modifies input.Cursor(), tempBuffer
      ensures Valid() && input.Store().buffer == old(input.Store().buffer)
      ensures input.Store().cachedSize == old(input.Store().cachedSize)
      ensures r == ReadVarint(old(Unread())).0
      ensures Unread() == old(Unread())[ReadVarint(old(Unread())).1..]
    {
      r := ReadVarInt();
    }

    /** `readSInt32()`: the low 32 bits shifted right by one, complemented
        when the low bit is set. */
    method ReadSInt32() returns (r: i32)
      requires Valid()
      modifies input.Cursor(), tempBuffer
      ensures Valid() && input.Store().buffer == old(input.Store().buffer)
      ensures input.Store().cachedSize == old(input.Store().cachedSize)
      ensures r == UnZigZag32(ReadVarint(old(Unread())).0)
      ensures Unread() == old(Unread())[ReadVarint(old(Unread())).1..]
    {
      var unsigned := ReadVarInt();
      r := UnZigZag32(unsigned);
    }

    /** `readSInt64()`: the varint shifted right by one, complemented when the
        low bit is set. */
    method ReadSInt64() returns (r: i64)
      requires Valid()
      modifies input.Cursor(), tempBuffer
      ensures Valid() && input.Store().buffer == old(input.Store().buffer)
      ensures input.Store().cachedSize == old(input.Store().cachedSize)
      ensures r == UnZigZag64(ReadVarint(old(Unread())).0)
      ensures Unread() == old(Unread())[ReadVarint(old(Unread())).1..]
    {
      var unsigned := ReadVarInt();
      r := UnZigZag64(unsigned);
    }

    /** `readBool()`: true exactly when the varint is 1. */
    method ReadBool() returns (r: bool)
      requires Valid()
      modifies input.Cursor(), tempBuffer
      ensures Valid() && input.Store().buffer == old(input.Store().buffer)
      ensures input.Store().cachedSize == old(input.Store().cachedSize)
      ensures r <==> ReadVarint(old(Unread())).0 == 1
      ensures Unread() == old(Unread())[ReadVarint(old(Unread())).1..]
    {
      var v := ReadVarInt();
      r := v == 1;
    }

    /** `readFixedInt32()`: four bytes through `tempBuffer`, least significant
        first. */
    method ReadFixedInt32() returns (r: u32)
      requires Valid() && |Unread()| >= 4
      modifies input.Cursor(), tempBuffer
      ensures Valid() && input.Store().buffer == old(input.Store().buffer)
      ensures input.Store().cachedSize == old(input.Store().cachedSize)
      ensures r == Fixed32Value(old(Unread())) == LittleEndianValue(old(Unread())[..4])
      ensures Unread() == old(Unread())[4..]
    {
      ghost var s := Unread();
      input.ReadAdvanceInto(tempBuffer, 0, 4);
      assert tempBuffer[..4] == s[..4];
      r := Fixed32Value(tempBuffer[..]);
      Fixed32ValueIsLittleEndian(s);
    }

    /** `readFixedInt64()`: eight bytes through `tempBuffer`, least
        significant first. */
    method ReadFixedInt64() returns (r: u64)
      requires Valid() && |Unread()| >= 8
      modifies input.Cursor(), tempBuffer
      ensures Valid() && input.Store().buffer == old(input.Store().buffer)
      ensures input.Store().cachedSize == old(input.Store().cachedSize)
      ensures r == Fixed64Value(old(Unread())) == LittleEndianValue(old(Unread())[..8])
      ensures Unread() == old(Unread())[8..]
    {
      ghost var s := Unread();
      input.ReadAdvanceInto(tempBuffer, 0, 8);
      assert tempBuffer[..8] == s[..8];
      r := Fixed64Value(tempBuffer[..]);
      Fixed64ValueIsLittleEndian(s);
    }

    /** `readSFixedInt32()`: the fixed32 as an `Int`. */
    method ReadSFixedInt32() returns (r: i32)
      requires Valid() && |Unread()| >= 4
      modifies input.Cursor(), tempBuffer
      ensures Valid() && input.Store().buffer == old(input.Store().buffer)
      ensures input.Store().cachedSize == old(input.Store().cachedSize)
      ensures r == ToI32(LittleEndianValue(old(Unread())[..4]))
      ensures Unread() == old(Unread())[4..]
    {
      var u := ReadFixedInt32();
      r := ToI32(u);
    }

    /** `readSFixedInt64()`: the fixed64 as a `Long`. */
    method ReadSFixedInt64() returns (r: i64)
      requires Valid() && |Unread()| >= 8
      modifies input.Cursor(), tempBuffer
      ensures Valid() && input.Store().buffer == old(input.Store().buffer)
      ensures input.Store().cachedSize == old(input.Store().cachedSize)
      ensures r == ToI64(LittleEndianValue(old(Unread())[..8]))
      ensures Unread() == old(Unread())[8..]
    {
      var u := ReadFixedInt64();
      r := ToI64(u);
    }

    /** `readFloat()`: the IEEE 754 bits of the fixed32 (`Float.fromBits` of
        its `toInt()`). */
    method ReadFloat() returns (bits: u32)
      requires Valid() && |Unread()| >= 4
      modifies input.Cursor(), tempBuffer
      ensures Valid() && input.Store().buffer == old(input.Store().buffer)
      ensures input.Store().cachedSize == old(input.Store().cachedSize)
      ensures bits == LittleEndianValue(old(Unread())[..4])
      ensures Unread() == old(Unread())[4..]
    {
      var u := ReadFixedInt32();
      SignedRoundTripU32(u);
      bits := ToU32(ToI32(u));
    }

    /** `readDouble()`: the IEEE 754 bits of the fixed64. */
    method ReadDouble() returns (bits: u64)
      requires Valid() && |Unread()| >= 8
      modifies input.Cursor(), tempBuffer
      ensures Valid() && input.Store().buffer == old(input.Store().buffer)
      ensures input.Store().cachedSize == old(input.Store().cachedSize)
      ensures bits == LittleEndianValue(old(Unread())[..8])
      ensures Unread() == old(Unread())[8..]
    {
      var u := ReadFixedInt64();
      bits := ToU64(ToI64(u));
    }

    /** `readBytes()`: the length as `readInt32`, then that many bytes. A
        negative length makes the source throw once the prefix is read
        (`copyOfRange` on the store, `ByteArray(length)` on a window): `None`. */
    method ReadBytes() returns (r: Option<array<byte>>)
      requires Valid() && LengthWithin(Unread())
      modifies input.Cursor(), tempBuffer
      ensures Valid() && input.Store().buffer == old(input.Store().buffer)
      ensures input.Store().cachedSize == old(input.Store().cachedSize)
      ensures r.None? <==> LengthPrefix(old(Unread())).0 < 0
      ensures r.None? ==> Unread() == old(Unread())[LengthPrefix(old(Unread())).1..]
      ensures r.Some? ==> fresh(r.value) && r.value[..] == Delimited(old(Unread()))
      ensures r.Some? ==> Unread() == old(Unread())[DelimitedLength(old(Unread()))..]
    {
      ghost var s := Unread();
      var len := ReadInt32();
      if len < 0 {
        r := None;
      } else {
        ghost var rest := Unread();
        var bytes := input.ReadAdvance(len);
        DelimitedSplit(s, rest);
        r := Some(bytes);
      }
    }

    /** `readString()`: the bytes of `readBytes`, which the source decodes as
        UTF-8; `None` where `readBytes` throws. */
    method ReadString() returns (utf8: Option<seq<byte>>)
      requires Valid() && LengthWithin(Unread())
      modifies input.Cursor(), tempBuffer
      ensures Valid() && input.Store().buffer == old(input.Store().buffer)
      ensures input.Store().cachedSize == old(input.Store().cachedSize)
      ensures utf8.None? <==> LengthPrefix(old(Unread())).0 < 0
      ensures utf8.None? ==> Unread() == old(Unread())[LengthPrefix(old(Unread())).1..]
      ensures utf8.Some? ==> utf8.value == Delimited(old(Unread()))
      ensures utf8.Some? ==> Unread() == old(Unread())[DelimitedLength(old(Unread()))..]
    {
      var bytes := ReadBytes();
      if bytes.Some? {
        utf8 := Some(bytes.value[..]);
      } else {
        utf8 := None;
      }
    }

    /** The first half of `readField(builder)`: the length, then a reader over
        a window of exactly that many bytes, for the builder. Nothing but the
        length is consumed yet. A negative length opens no window (`None`);
        the source opens one of negative size, and its `advance` then moves
        the cursor back (`ReadFieldEndAsWritten`). */
    method ReadFieldOpen() returns (sub: Option<ScopedProtobufReader>, expectedLength: i32)
      requires Valid() && LengthWithin(Unread())
      modifies input.Cursor(), tempBuffer
      ensures Valid() && input.Store().buffer == old(input.Store().buffer)
      ensures input.Store().cachedSize == old(input.Store().cachedSize)
      ensures expectedLength == LengthPrefix(old(Unread())).0
      ensures Unread() == old(Unread())[LengthPrefix(old(Unread())).1..]
      ensures sub.None? <==> expectedLength < 0
      ensures sub.Some? ==> fresh(sub.value) && fresh(sub.value.tempBuffer)
      ensures sub.Some? ==> sub.value.input.Window? && fresh(sub.value.input.win)
      ensures sub.Some? ==> sub.value.input.Store() == input.Store() && sub.value.Valid()
      ensures sub.Some? ==> sub.value.Unread() == Unread()[..expectedLength]
    {
      ghost var s := Unread();
      expectedLength := ReadInt32();
      ghost var rest := Unread();
      assert rest == s[LengthPrefix(s).1..];
      if expectedLength < 0 {
        sub := None;
      } else {
        var window := OpenWindow(expectedLength);
        sub := Some(window);
        assert Unread() == rest;
      }
    }

    /** A reader over the next `length` bytes of the scope, with no bytes
        consumed. */
    method OpenWindow(length: int) returns (sub: ScopedProtobufReader)
      requires Valid() && 0 <= length <= |Unread()|
      ensures Valid() && Unread() == old(Unread())
      ensures input.Store().buffer == old(input.Store().buffer)
      ensures input.Store().cachedSize == old(input.Store().cachedSize)
      ensures fresh(sub) && fresh(sub.tempBuffer) && sub.input.Window? && fresh(sub.input.win)
      ensures sub.input.Store() == input.Store() && sub.Valid()
      ensures sub.Unread() == Unread()[..length]
    {
      var window := input.Subarray(0, length);
      sub := new ScopedProtobufReader(window);
      assert unchanged(input.Cursor(), input.Store(), input.Store().buffer);
    }

    /** The second half of `readField(builder)`: once the builder is done with
        its window, `advance(expectedLength)` moves past the nested bytes,
        whatever the builder read of them. */
    method ReadFieldClose(expectedLength: i32)
      requires Valid() && 0 <= expectedLength <= |Unread()|
      modifies input.Cursor()
      ensures Valid() && input.Store().buffer == old(input.Store().buffer)
      ensures input.Store().cachedSize == old(input.Store().cachedSize)
      ensures Unread() == old(Unread())[expectedLength..]
    {
      input.Advance(expectedLength);
    }

    /** `skipField()`: the current field's payload, read by its wire type and
        written again, tag included, by a writer on a fresh store; nothing is
        read for a wire type other than the four, and the result is empty.
        `None` where `readBytes` throws on a negative length, with only the
        length prefix consumed. */
    method SkipField() returns (r: Option<array<byte>>)
      requires Valid() && SkipReadable(currentFieldType, Unread())
      modifies input.Cursor(), tempBuffer
      ensures Valid() && input.Store().buffer == old(input.Store().buffer)
      ensures input.Store().cachedSize == old(input.Store().cachedSize)
      ensures r.None? <==> SkipRefused(currentFieldType, old(Unread()))
      ensures r.None? ==> Unread() == old(Unread())[LengthPrefix(old(Unread())).1..]
      ensures r.Some? ==> fresh(r.value)
      ensures r.Some? ==> r.value[..] == SkippedBytes(currentFieldNumber, currentFieldType, old(Unread()))
      ensures r.Some? ==> Unread() == old(Unread())[SkippedLength(currentFieldType, old(Unread()))..]
    {
      ghost var s := Unread();
      var fieldNumber, fieldType := currentFieldNumber, currentFieldType;
      var read := ReadSkipped();
      if read.None? {
        r := None;
      } else {
        var skipped := read.value;
        SkippedBytesOf(fieldNumber, fieldType, s, skipped);
        ghost var bytes := SkippedBytes(fieldNumber, fieldType, s);
        ghost var cursor, store := input.Cursor(), input.Store();
        label Read:
        var rewritten := Rewritten(fieldNumber, skipped);
        assert unchanged@Read(cursor, store, store.buffer);
        assert rewritten[..] == bytes;
        r := Some(rewritten);
      }
    }

    /** The reading half of `skipField`: the payload for one of the four wire
        types, nothing (and no bytes consumed) for any other; `None` where
        `readBytes` throws. */
    method ReadSkipped() returns (read: Option<Option<Payload>>)
      requires Valid() && SkipReadable(currentFieldType, Unread())
      modifies input.Cursor(), tempBuffer
      ensures Valid() && input.Store().buffer == old(input.Store().buffer)
      ensures input.Store().cachedSize == old(input.Store().cachedSize)
      ensures read.None? <==> SkipRefused(currentFieldType, old(Unread()))
      ensures read.None? ==> Unread() == old(Unread())[LengthPrefix(old(Unread())).1..]
      ensures read.Some? ==> read.value == SkippedPayload(currentFieldType, old(Unread()))
      ensures read.Some? ==> Unread() == old(Unread())[SkippedLength(currentFieldType, old(Unread()))..]
    {
      ghost var s := Unread();
      var t := currentFieldType;
      if t == LENGTH_DELIMITED {
        var bytes := ReadBytes();
        if bytes.Some? {
          SkippedCases(t, s);
          read := Some(Some(DelimitedPayload(bytes.value[..])));
        } else {
          read := None;
        }
      } else {
        SkippedCases(t, s);
        if t == VARINT {
          var v := ReadUInt64();
          read := Some(Some(VarintPayload(v)));
        } else if t == FIXED32 {
          var v := ReadFixedInt32();
          read := Some(Some(Fixed32Payload(v)));
        } else if t == FIXED64 {
          var v := ReadFixedInt64();
          read := Some(Some(Fixed64Payload(v)));
        } else {
          read := Some(None);
        }
      }
    }
  }

  /** The writer half of `skipField`: a writer on a fresh store writes the
      skipped payload, if any, as field `fieldNumber`, and the store's bytes
      are returned. */
  method Rewritten(fieldNumber: i32, skipped: Option<Payload>) returns (r: array<byte>)
    ensures fresh(r) && r[..] == RewrittenBytes(fieldNumber, skipped)
  {
    var result := new ConcreteLinkedByteArray(DEFAULT_BUFFER_SIZE);
    var writer := new ScopedProtobufWriter(result);
    match skipped {
      case None =>
      case Some(p) =>
        writer.WritePayload(p, Some(fieldNumber));
        ghost var field := TagBytes(Some(fieldNumber), WireType(p)) + PayloadBytes(p);
        assert result.Contents() == [] + field;
    }
    assert result.Contents() == RewrittenBytes(fieldNumber, skipped);
    r := result.ToByteArray();
  }

  // ---------------------------------------------------------------------------
  // ProtobufInputStream
  // ---------------------------------------------------------------------------

  /** A store bytes are added to, with one reader over the whole of it. */
  class ProtobufInputStream {
    const input: ConcreteLinkedByteArray
    const reader: ScopedProtobufReader

    ghost predicate Valid()
      reads this, input, reader
    {
      reader.input == Buffer(input) && reader.Valid()
    }

    /** `ProtobufInputStream(bufferSize)`, 2024 by default. */
    constructor (bufferSize: nat)
      ensures Valid() && fresh(input) && fresh(reader) && fresh(reader.tempBuffer)
      ensures reader.Unread() == []
    {
      var store := new ConcreteLinkedByteArray(bufferSize);
      input := store;
      reader := new ScopedProtobufReader(Buffer(store));
    }

    /** `addBytes(bytes)`: insert at the end of the content; the new bytes
        are read after the ones still unread. */
    method AddBytes(bytes: array<byte>)
      requires Valid() && bytes != input.buffer && bytes != reader.tempBuffer
      modifies input, input.buffer
      ensures Valid()
      ensures reader.Unread() == old(reader.Unread()) + bytes[..]
    {
      ghost var s := reader.Unread();
      input.Insert(bytes, 0, input.cachedSize, bytes.Length);
      assert bytes[0..bytes.Length] == bytes[..];
      assert reader.Unread() == input.Contents()[input.tipOffset..];
    }
  }

  /** The default buffer size of `ProtobufInputStream`. */
  const DEFAULT_INPUT_BUFFER_SIZE: nat := 2024
}
