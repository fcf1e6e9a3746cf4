/**
 * ktbuf's Protocol Buffers encoder: `ScopedProtobufWriter`, which appends
 * encoded fields to a shared `ConcreteLinkedByteArray`, and the
 * `ProtobufOutputStream` that owns one.
 *
 * The builder lambdas of the source (`(ProtobufWriter) -> Unit`) are
 * represented by the sequence of writer calls they make, a `seq<Op>`; `Run`
 * performs them one after another. The bytes each call appends are specified by
 * the pure functions `FieldBytes` and `Encoding`, which follow the Protocol
 * Buffers binary wire format ("Base 128 Varints", "Signed Integers",
 * "Non-varint Numbers", "Length-Delimited Records" of the protobuf.dev
 * *Encoding* guide).
 */
module ProtoWriter {
  import opened Wire
  import opened LinkedBytes

  // ---------------------------------------------------------------------------
  // What a writer can be asked to encode
  // ---------------------------------------------------------------------------

  /** The argument of one scalar or bytes `encode*` overload. A Float or Double
      is carried as its IEEE 754 bit pattern (`toRawBits`); a String as its
      UTF-8 bytes (`encodeToByteArray`); an Enum as its `value`. */
  datatype Value =
    | Float(floatBits: u32)              // encode(Float)
    | Double(doubleBits: u64)            // encode(Double)
    | Int32(int32: i32)                  // encode(Int)
    | SInt32(sint32: i32)                // encodeSInt(Int)
    | FixedInt32(sfixed32: i32)          // encodeFixed(Int)
    | Int64(int64: i64)                  // encode(Long)
    | SInt64(sint64: i64)                // encodeSInt(Long)
    | FixedInt64(sfixed64: i64)          // encodeFixed(Long)
    | UInt32(uint32: u32)                // encode(UInt)
    | FixedUInt32(fixed32: u32)          // encodeFixed(UInt)
    | UInt64(uint64: u64)                // encode(ULong)
    | FixedUInt64(fixed64: u64)          // encodeFixed(ULong)
    | Bool(boolean: bool)                // encode(Boolean)
    | Str(utf8: seq<byte>)               // encode(String)
    | Bytes(bytes: seq<byte>)            // encode(ByteArray)
    | Enum(enumValue: i32)               // encode(T : Enum)

  /** One call a builder makes on its writer. */
  datatype Op =
    | Field(fieldNumber: Option<i32>, value: Value)    // encode(value, fieldNumber)
    | Message(number: i32, body: seq<Op>)              // encode(fieldNumber) { body }
    | Raw(raw: seq<byte>)                              // encodeRaw(value)

  // ---------------------------------------------------------------------------
  // The bytes each call appends
  // ---------------------------------------------------------------------------

  /** The four shapes a payload takes on the wire. */
  datatype Payload =
    | VarintPayload(varint: u64)
    | Fixed32Payload(word32: u32)
    | Fixed64Payload(word64: u64)
    | DelimitedPayload(data: seq<byte>)

  /** What each overload writes after the tag, before it becomes bytes. */
  function PayloadOf(v: Value): Payload
  {
    match v
    case Float(bits) => Fixed32Payload(bits)
    case Double(bits) => Fixed64Payload(bits)
    case Int32(x) => VarintPayload(ToU64(x))
    case SInt32(x) => VarintPayload(ZigZag(x))
    case FixedInt32(x) => Fixed32Payload(ToU32(x))
    case Int64(x) => VarintPayload(ToU64(x))
    case SInt64(x) => VarintPayload(ZigZag(x))
    case FixedInt64(x) => Fixed64Payload(ToU64(x))
    case UInt32(x) => VarintPayload(x)
    case FixedUInt32(x) => Fixed32Payload(x)
    case UInt64(x) => VarintPayload(x)
    case FixedUInt64(x) => Fixed64Payload(x)
    case Bool(b) => VarintPayload(if b then 1 else 0)
    case Str(data) => DelimitedPayload(data)
    case Bytes(data) => DelimitedPayload(data)
    case Enum(x) => VarintPayload(ToU64(x))
  }

  /** The wire type a payload is tagged with. */
  function WireType(p: Payload): (r: u32)
    ensures r == VARINT || r == FIXED64 || r == LENGTH_DELIMITED || r == FIXED32
  {
    match p
    case VarintPayload(_) => VARINT
    case Fixed32Payload(_) => FIXED32
    case Fixed64Payload(_) => FIXED64
    case DelimitedPayload(_) => LENGTH_DELIMITED
  }

  /** The bytes of a payload: a varint, four or eight little-endian bytes, or
      the length as a varint followed by the bytes. */
  function PayloadBytes(p: Payload): seq<byte>
  {
    match p
    case VarintPayload(x) => VarintBytes(x)
    case Fixed32Payload(x) => LittleEndian(x, 4)
    case Fixed64Payload(x) => LittleEndian(x, 8)
    case DelimitedPayload(data) => VarintBytes(ToU64(|data|)) + data
  }

  /** The tag, written only when a field number is given. */
  function TagBytes(fieldNumber: Option<i32>, wireType: u32): seq<byte>
  {
    match fieldNumber
    case None => []
    case Some(f) => VarintBytes(FieldTag(f, wireType))
  }

  /** What `encode(value, fieldNumber)` appends. */
  function FieldBytes(fieldNumber: Option<i32>, v: Value): seq<byte>
  {
    var p := PayloadOf(v);
    TagBytes(fieldNumber, WireType(p)) + PayloadBytes(p)
  }

  /** What a builder's calls append, in order. */
  function Encoding(ops: seq<Op>): seq<byte>
    decreases ops, 1
  {
    if ops == [] then [] else Encoding(ops[..|ops| - 1]) + OpEncoding(ops[|ops| - 1])
  }

  /** What one call appends. A nested message is its tag, the varint of the
      length of its content, and the content. */
  function OpEncoding(op: Op): seq<byte>
    decreases op, 0
  {
    match op
    case Field(f, v) => FieldBytes(f, v)
    case Message(f, body) =>
      MessageBytes(f, Encoding(body))
    case Raw(data) => data
  }

  /** A nested message: its tag, the varint of the length of its content,
      and the content. */
  function MessageBytes(fieldNumber: i32, content: seq<byte>): seq<byte>
  {
    VarintBytes(FieldTag(fieldNumber, LENGTH_DELIMITED)) + VarintBytes(|content|) + content
  }

  // ---------------------------------------------------------------------------
  // Properties of the specification
  // ---------------------------------------------------------------------------

  /** Splitting a builder in two and running the halves one after the other
      writes the same bytes. */
  lemma {:induction false} EncodingAppend(a: seq<Op>, b: seq<Op>)
    ensures Encoding(a + b) == Encoding(a) + Encoding(b)
    decreases |b|
  {
    if b == [] {
      assert a + b == a;
    } else {
      var n := |b| - 1;
      var ab := a + b;
      assert ab[..|ab| - 1] == a + b[..n];
      assert ab[|ab| - 1] == b[n];
      EncodingLast(ab);
      EncodingLast(b);
      EncodingAppend(a, b[..n]);
      AppendAssoc(Encoding(a), Encoding(b[..n]), OpEncoding(b[n]));
    }
  }

  /** The first `i + 1` calls write what the first `i` write, then the bytes
      of call `i`. */
  lemma EncodingPrefix(ops: seq<Op>, i: nat)
    requires i < |ops|
    ensures Encoding(ops[..i + 1]) == Encoding(ops[..i]) + OpEncoding(ops[i])
  {
    assert ops[..i + 1][..i] == ops[..i];
  }

  /** The first `k` calls write no more than all of them. */
  lemma EncodingPrefixWithin(ops: seq<Op>, k: nat)
    requires k <= |ops|
    ensures |Encoding(ops[..k])| <= |Encoding(ops)|
  {
    SplitJoin(ops, k);
    EncodingAppend(ops[..k], ops[k..]);
  }

  /** A non-empty builder writes what all its calls but the last write, then
      the last call's bytes. */
  lemma EncodingLast(ops: seq<Op>)
    requires ops != []
    ensures Encoding(ops) == Encoding(ops[..|ops| - 1]) + OpEncoding(ops[|ops| - 1])
  {
  }

  lemma SplitJoin<T>(s: seq<T>, k: nat)
    requires k <= |s|
    ensures s[..k] + s[k..] == s
  {
  }

  /** A call's bytes lie within its builder's bytes, so a builder below 2^31
      bytes has every nested message below that size too. */
  lemma OpEncodingWithin(ops: seq<Op>, i: nat)
    requires i < |ops|
    ensures |OpEncoding(ops[i])| <= |Encoding(ops)|
  {
    EncodingPrefix(ops, i);
    EncodingPrefixWithin(ops, i + 1);
  }

  lemma AppendAssoc(a: seq<byte>, b: seq<byte>, c: seq<byte>)
    ensures a + b + c == a + (b + c)
  {
  }

  /** Every field starts with its tag when a number is given and with its
      payload otherwise. */
  lemma FieldLayout(fieldNumber: Option<i32>, v: Value)
    ensures fieldNumber.None? ==> FieldBytes(fieldNumber, v) == PayloadBytes(PayloadOf(v))
    ensures fieldNumber.Some? ==>
      FieldBytes(fieldNumber, v)[..|VarintBytes(FieldTag(fieldNumber.value, WireType(PayloadOf(v))))|]
        == VarintBytes(FieldTag(fieldNumber.value, WireType(PayloadOf(v))))
  {
  }

  /** `true` and `false` are the one-byte varints 1 and 0. */
  lemma BoolExamples()
    ensures FieldBytes(None, Bool(true)) == [1] && FieldBytes(None, Bool(false)) == [0]
  {
  }

  /** A short byte array is its length in one byte and then its bytes. */
  lemma ShortBytesExample(data: seq<byte>)
    requires |data| < 128
    ensures FieldBytes(None, Bytes(data)) == [|data|] + data
  {
    ToU64Small(|data|);
  }

  /** A fixed32 is its four bytes, least significant first. */
  lemma Fixed32Example()
    ensures FieldBytes(None, FixedUInt32(0x0403_0201)) == [1, 2, 3, 4]
  {
    assert LittleEndian(0x04, 1) == [4];
    assert LittleEndian(0x0403, 2) == [3] + LittleEndian(0x04, 1);
    assert LittleEndian(0x04_0302, 3) == [2] + LittleEndian(0x0403, 2);
    assert LittleEndian(0x0403_0201, 4) == [1] + LittleEndian(0x04_0302, 3);
  }

  /** Scalars have their exact wire size: fixed32 kinds four bytes, fixed64
      kinds eight, varints between one and ten. */
  lemma PayloadSize(p: Payload)
    ensures WireType(p) == FIXED32 ==> |PayloadBytes(p)| == 4
    ensures WireType(p) == FIXED64 ==> |PayloadBytes(p)| == 8
    ensures WireType(p) == VARINT ==> 1 <= |PayloadBytes(p)| <= 10
  {
    if p.VarintPayload? {
      VarintLength(p.varint);
    }
  }

  /** A nested message of 127 content bytes gets a one-byte length prefix, one
      of 128 bytes a two-byte prefix. */
  lemma MessageLengthPrefix()
    ensures |VarintBytes(127)| == 1 && |VarintBytes(128)| == 2
    ensures SizeofVarint32(127) == 1 && SizeofVarint32(128) == 2
  {
    VarintBoundaries();
  }

  /** Widening a reserved zero byte by `|v| - 1` more zeros and writing `v`
      over the reservation puts `v` in place of the byte. */
  lemma Patched(s: seq<byte>, o: nat, v: seq<byte>)
    requires o < |s| && s[o] == 0 && 1 <= |v|
    ensures o + |v| <= |Inserted(s, o, Zeros(|v| - 1))|
    ensures Overwrite(Inserted(s, o, Zeros(|v| - 1)), o, v) == s[..o] + v + s[o + 1..]
  {
    var x := Inserted(s, o, Zeros(|v| - 1));
    assert x == s[..o] + Zeros(|v| - 1) + s[o..];
    assert s[o..] == [0] + s[o + 1..];
    assert x[..o] == s[..o];
    assert x[o + |v|..] == s[o + 1..];
  }

  /** The bytes `encode(fieldNumber) { body }` leaves behind. */
  lemma MessageLayout(start: seq<byte>, tag: u64, prefix: seq<byte>, content: seq<byte>)
    requires prefix == start + VarintBytes(tag)
    ensures (prefix + [0] + content)[..|prefix|] + VarintBytes(|content|) + (prefix + [0] + content)[|prefix| + 1..]
         == start + (VarintBytes(tag) + VarintBytes(|content|) + content)
  {
    var x := prefix + [0] + content;
    assert x[..|prefix|] == prefix;
    assert x[|prefix| + 1..] == content;
    var t, v := VarintBytes(tag), VarintBytes(|content|);
    AppendAssoc(start, t, v);
    AppendAssoc(start, t + v, content);
  }

  /** A length-delimited field: tag, length varint, bytes. */
  lemma DelimitedLayout(fieldNumber: Option<i32>, v: Value)
    requires PayloadOf(v).DelimitedPayload?
    ensures FieldBytes(fieldNumber, v)
         == TagBytes(fieldNumber, LENGTH_DELIMITED) + VarintBytes(ToU64(|PayloadOf(v).data|)) + PayloadOf(v).data
  {
  }

  // ---------------------------------------------------------------------------
  // ScopedProtobufWriter
  // ---------------------------------------------------------------------------

  /** A writer appending to `output`: `length` counts the bytes it (and the
      nested writers it started) appended. Nested messages are measured by the
      output's `size`, which is the content's end only while nothing has been
      read from it, hence `tipOffset == 0`. */
  class ScopedProtobufWriter {
    const output: ConcreteLinkedByteArray
    const tempBuffer: array<byte>
    var length: int

    ghost predicate Valid()
      reads this, output
    {
      output.Valid() && output.tipOffset == 0 && tempBuffer.Length == 12 && tempBuffer != output.buffer
    }

    constructor (output: ConcreteLinkedByteArray)
      requires output.Valid() && output.tipOffset == 0
      ensures Valid() && this.output == output && length == 0 && fresh(tempBuffer)
    {
      this.output := output;
      tempBuffer := new byte[12](_ => 0);
      length := 0;
    }

    /** `writeBytes(value, sourceLength)`: append the first `sourceLength`
        bytes of `value` at the end of the content. */
    method WriteBytes(value: array<byte>, sourceLength: int)
      requires Valid() && value != output.buffer && 0 <= sourceLength <= value.Length
      modifies this, output, output.buffer
      ensures Valid() && (output.buffer == old(output.buffer) || fresh(output.buffer))
      ensures output.Contents() == old(output.Contents()) + value[..sourceLength]
      ensures length == old(length) + sourceLength
    {
      output.Write(value, 0, output.cachedSize, sourceLength);
      length := length + sourceLength;
    }

    /** `writeByte(byte)`: append one byte. */
    method WriteByte(b: byte)
      requires Valid()
      modifies this, output, output.buffer
      ensures Valid() && (output.buffer == old(output.buffer) || fresh(output.buffer))
      ensures output.Contents() == old(output.Contents()) + [b]
      ensures length == old(length) + 1
    {
      output.WriteByte(b, output.cachedSize);
      length := length + 1;
    }

    /** `writeVarint(value)`: the seven-bit groups are collected in
        `tempBuffer` by a do-while loop, then appended at once. */
    method WriteVarint(value: u64)
      requires Valid()
      modifies this, output, output.buffer, tempBuffer
      ensures Valid() && (output.buffer == old(output.buffer) || fresh(output.buffer))
      ensures output.Contents() == old(output.Contents()) + VarintBytes(value)
      ensures length == old(length) + |VarintBytes(value)|
    {
      ghost var want := VarintBytes(value);
      VarintLength(value);
      var pendingWrite: nat := value;
      var written := 0;
      var done := false;
      while !done
        invariant 0 <= written <= |want| <= 10
        invariant !done ==> want == tempBuffer[..written] + VarintBytes(pendingWrite)
        invariant done ==> want == tempBuffer[..written]
        modifies tempBuffer
        decreases !done, pendingWrite
      {
        ghost var p := pendingWrite;
        var b := pendingWrite % 0x80;
        pendingWrite := pendingWrite / 0x80;
        if pendingWrite != 0 {
          b := b + 0x80;  // b < 0x80, so setting the top bit adds 0x80
        }
        VarintStep(p);
        tempBuffer[written] := b;
        assert tempBuffer[..written + 1] == tempBuffer[..written] + [b];
        written := written + 1;
        done := pendingWrite == 0;
      }
      WriteBytes(tempBuffer, written);
    }

    /** `writeFixed32(value)`: four bytes, least significant first. */
    method WriteFixed32(value: u32)
      requires Valid()
      modifies this, output, output.buffer, tempBuffer
      ensures Valid() && (output.buffer == old(output.buffer) || fresh(output.buffer))
      ensures output.Contents() == old(output.Contents()) + LittleEndian(value, 4)
      ensures length == old(length) + 4
    {
      var pendingWrite: nat := value;
      var offset := 0;
      for i := 1 to 5
        invariant offset == i - 1
        invariant tempBuffer[..offset] + LittleEndian(pendingWrite, 4 - offset) == LittleEndian(value, 4)
        modifies tempBuffer
      {
        tempBuffer[offset] := pendingWrite % 0x100;
        pendingWrite := pendingWrite / 0x100;
        offset := offset + 1;
      }
      WriteBytes(tempBuffer, offset);
    }

    /** `writeFixed64(value)`: eight bytes, least significant first. */
    method WriteFixed64(value: u64)
      requires Valid()
      modifies this, output, output.buffer, tempBuffer
      ensures Valid() && (output.buffer == old(output.buffer) || fresh(output.buffer))
      ensures output.Contents() == old(output.Contents()) + LittleEndian(value, 8)
      ensures length == old(length) + 8
    {
      var pendingWrite: nat := value;
      var offset := 0;
      for i := 1 to 9
        invariant offset == i - 1
        invariant tempBuffer[..offset] + LittleEndian(pendingWrite, 8 - offset) == LittleEndian(value, 8)
        modifies tempBuffer
      {
        tempBuffer[offset] := pendingWrite % 0x100;
        pendingWrite := pendingWrite / 0x100;
        offset := offset + 1;
      }
      WriteBytes(tempBuffer, offset);
    }

    /** Writes the tag of a field when a number is given. */
    method WriteTag(fieldNumber: Option<i32>, wireType: u32)
      requires Valid()
      modifies this, output, output.buffer, tempBuffer
      ensures Valid() && (output.buffer == old(output.buffer) || fresh(output.buffer))
      ensures output.Contents() == old(output.Contents()) + TagBytes(fieldNumber, wireType)
      ensures length == old(length) + |TagBytes(fieldNumber, wireType)|
    {
      if fieldNumber.Some? {
        WriteVarint(FieldTag(fieldNumber.value, wireType));
      }
    }

    /** `encode(value: ByteArray, fieldNumber)`: the length as a varint, then
        the bytes. */
    method EncodeBytes(value: array<byte>, fieldNumber: Option<i32>)
      requires Valid() && value != output.buffer && value != tempBuffer
      modifies this, output, output.buffer, tempBuffer
      ensures Valid() && (output.buffer == old(output.buffer) || fresh(output.buffer))
      ensures output.Contents()
           == old(output.Contents()) + TagBytes(fieldNumber, LENGTH_DELIMITED) + PayloadBytes(DelimitedPayload(value[..]))
      ensures length == old(length) + |TagBytes(fieldNumber, LENGTH_DELIMITED)| + |PayloadBytes(DelimitedPayload(value[..]))|
    {
      ghost var start := output.Contents() + TagBytes(fieldNumber, LENGTH_DELIMITED);
      WriteTag(fieldNumber, LENGTH_DELIMITED);
      WriteVarint(ToU64(value.Length));
      WriteBytes(value, value.Length);
      assert value[..value.Length] == value[..];
      AppendAssoc(start, VarintBytes(ToU64(value.Length)), value[..]);
    }

    /** The `encode*` overloads: the tag when a field number is given, then the
        payload. A String goes through `encode(ByteArray)`. */
    method Encode(v: Value, fieldNumber: Option<i32>)
      requires Valid()
      modifies this, output, output.buffer, tempBuffer
      ensures Valid() && (output.buffer == old(output.buffer) || fresh(output.buffer))
      ensures output.Contents() == old(output.Contents()) + FieldBytes(fieldNumber, v)
      ensures length == old(length) + |FieldBytes(fieldNumber, v)|
    {
      WritePayload(PayloadOf(v), fieldNumber);
    }

    /** The tag and the payload of one overload. */
    method WritePayload(p: Payload, fieldNumber: Option<i32>)
      requires Valid()
      modifies this, output, output.buffer, tempBuffer
      ensures Valid() && (output.buffer == old(output.buffer) || fresh(output.buffer))
      ensures output.Contents() == old(output.Contents()) + TagBytes(fieldNumber, WireType(p)) + PayloadBytes(p)
      ensures length == old(length) + |TagBytes(fieldNumber, WireType(p))| + |PayloadBytes(p)|
    {
      if p.DelimitedPayload? {
        var a := ArrayOf(p.data);
        EncodeBytes(a, fieldNumber);
      } else {
        WriteTag(fieldNumber, WireType(p));
        WriteScalar(p);
      }
    }

    /** The payload of a scalar overload. */
    method WriteScalar(p: Payload)
      requires Valid() && !p.DelimitedPayload?
      modifies this, output, output.buffer, tempBuffer
      ensures Valid() && (output.buffer == old(output.buffer) || fresh(output.buffer))
      ensures output.Contents() == old(output.Contents()) + PayloadBytes(p)
      ensures length == old(length) + |PayloadBytes(p)|
    {
      match p {
        case VarintPayload(x) => WriteVarint(x);
        case Fixed32Payload(x) => WriteFixed32(x);
        case Fixed64Payload(x) => WriteFixed64(x);
      }
    }

    /** `encodeRaw(value)`: the bytes as they are. */
    method EncodeRaw(value: array<byte>)
      requires Valid() && value != output.buffer
      modifies this, output, output.buffer
      ensures Valid() && (output.buffer == old(output.buffer) || fresh(output.buffer))
      ensures output.Contents() == old(output.Contents()) + value[..]
      ensures length == old(length) + value.Length
    {
      WriteBytes(value, value.Length);
    }

    /** The calls a builder makes, one after another: all but the last, then
        the last. */
    method Run(ops: seq<Op>)
      requires Valid() && |Encoding(ops)| < TWO_31
      modifies this, output, output.buffer, tempBuffer
      ensures Valid() && (output.buffer == old(output.buffer) || fresh(output.buffer))
      ensures output.Contents() == old(output.Contents()) + Encoding(ops)
      ensures length == old(length) + |Encoding(ops)|
      decreases ops, 2
    {
      if ops != [] {
        var n := |ops| - 1;
        EncodingPrefixWithin(ops, n);
        OpEncodingWithin(ops, n);
        ghost var start := output.Contents();
        Run(ops[..n]);
        Perform(ops[n]);
        AppendAssoc(start, Encoding(ops[..n]), OpEncoding(ops[n]));
      }
    }

    /** One call of a builder. */
    method Perform(op: Op)
      requires Valid() && |OpEncoding(op)| < TWO_31
      modifies this, output, output.buffer, tempBuffer
      ensures Valid() && (output.buffer == old(output.buffer) || fresh(output.buffer))
      ensures output.Contents() == old(output.Contents()) + OpEncoding(op)
      ensures length == old(length) + |OpEncoding(op)|
      decreases op, 1
    {
      match op {
        case Field(f, v) => Encode(v, f);
        case Message(f, body) => EncodeMessage(f, body);
        case Raw(data) =>
          var a := ArrayOf(data);
          EncodeRaw(a);
      }
    }

    /** `encode(fieldNumber) { body }`: the tag, one reserved length byte, the
        content written by a nested writer on the same output, then the length
        patched in. */
    method EncodeMessage(fieldNumber: i32, body: seq<Op>)
      requires Valid() && |Encoding(body)| < TWO_31
      modifies this, output, output.buffer, tempBuffer
      ensures Valid() && (output.buffer == old(output.buffer) || fresh(output.buffer))
      ensures output.Contents() == old(output.Contents()) + MessageBytes(fieldNumber, Encoding(body))
      ensures length == old(length) + |MessageBytes(fieldNumber, Encoding(body))|
      decreases body, 4
    {
      WriteVarint(FieldTag(fieldNumber, LENGTH_DELIMITED));
      ghost var prefix := output.Contents();
      var messageLengthOffset := output.Size();
      WriteByte(0x00);
      var messageLength := EncodeNested(body);
      var varintSize := PatchLength(messageLengthOffset, messageLength);
      length := length + varintSize - 1 + messageLength;
      MessageLayout(old(output.Contents()), FieldTag(fieldNumber, LENGTH_DELIMITED), prefix, Encoding(body));
    }

    /** The content of a nested message: a fresh writer on the same output
        runs the builder; its `length` is the content's size. */
    method EncodeNested(body: seq<Op>) returns (messageLength: int)
      requires Valid() && |Encoding(body)| < TWO_31
      modifies output, output.buffer
      ensures Valid() && (output.buffer == old(output.buffer) || fresh(output.buffer))
      ensures output.Contents() == old(output.Contents()) + Encoding(body)
      ensures messageLength == |Encoding(body)|
      decreases body, 3
    {
      var nested := new ScopedProtobufWriter(output);
      nested.Run(body);
      messageLength := nested.length;
    }

    /** The second half of `encode(fieldNumber) { body }`: the content of
        `messageLength` bytes follows a reserved zero byte at
        `messageLengthOffset`; widen the reservation by inserting
        `varintSize - 1` zeros in front of it, then write the length varint
        over it. */
    method PatchLength(messageLengthOffset: int, messageLength: int) returns (varintSize: int)
      requires Valid() && 0 <= messageLength < TWO_31
      requires 0 <= messageLengthOffset && messageLengthOffset + 1 + messageLength == output.cachedSize
      requires output.Contents()[messageLengthOffset] == 0
      modifies output, output.buffer
      ensures Valid() && (output.buffer == old(output.buffer) || fresh(output.buffer))
      ensures varintSize == |VarintBytes(messageLength)|
      ensures output.Contents()
           == old(output.Contents())[..messageLengthOffset] + VarintBytes(messageLength)
              + old(output.Contents())[messageLengthOffset + 1..]
    {
      ghost var start := output.Contents();
      varintSize := SizeofVarint32(messageLength);
      SizeofVarint32Exact(messageLength);
      ToU64Small(messageLength);
      Reserve(messageLengthOffset, varintSize - 1);
      OverwriteVarint(messageLengthOffset, messageLength);
      Patched(start, messageLengthOffset, VarintBytes(messageLength));
    }

    /** `insert(ByteArray(k), 0, offset)`, done only when `k > 0`. */
    method Reserve(offset: int, k: int)
      requires Valid() && 0 <= offset <= output.cachedSize && 0 <= k
      modifies output, output.buffer
      ensures Valid() && (output.buffer == old(output.buffer) || fresh(output.buffer))
      ensures output.Contents() == Inserted(old(output.Contents()), offset, Zeros(k))
    {
      if k > 0 {
        var zeros := new byte[k](_ => 0);
        assert zeros[..] == Zeros(k);
        output.Insert(zeros, 0, offset, zeros.Length);
        assert zeros[0..zeros.Length] == zeros[..];
      } else {
        assert Inserted(output.Contents(), offset, []) == output.Contents();
      }
    }

    /** The do-while loop of `encode(fieldNumber) { body }` that writes the
        varint of `value` byte by byte over the bytes at `offset`. */
    method OverwriteVarint(offset: int, value: u64)
      requires Valid() && 0 <= offset && offset + |VarintBytes(value)| <= output.cachedSize
      modifies output, output.buffer
      ensures Valid() && (output.buffer == old(output.buffer) || fresh(output.buffer))
      ensures output.cachedSize == old(output.cachedSize)
      ensures output.Contents() == Overwrite(old(output.Contents()), offset, VarintBytes(value))
    {
      ghost var start := output.Contents();
      ghost var bytes := VarintBytes(value);
      var position := offset;
      var pendingWrite: nat := value;
      var done := false;
      while !done
        invariant Valid() && (output.buffer == old(output.buffer) || fresh(output.buffer))
        invariant offset <= position <= offset + |bytes|
        invariant output.cachedSize == |start|
        invariant output.Contents() == Overwrite(start, offset, bytes[..position - offset])
        invariant !done ==> bytes[position - offset..] == VarintBytes(pendingWrite)
        invariant done ==> position == offset + |bytes|
        decreases !done, pendingWrite
      {
        ghost var p := pendingWrite;
        var b := pendingWrite % 0x80;
        pendingWrite := pendingWrite / 0x80;
        if pendingWrite != 0 {
          b := b + 0x80;  // b < 0x80, so setting the top bit adds 0x80
        }
        VarintStep(p);
        ghost var j := position - offset;
        assert b == bytes[j] && (pendingWrite != 0 ==> bytes[j + 1..] == VarintBytes(pendingWrite));
        assert position < output.cachedSize;
        OverwriteForward(start, offset, bytes, j);
        output.WriteByte(b, position);
        assert output.Contents() == Overwrite(start, offset, bytes[..j + 1]);
        position := position + 1;
        done := pendingWrite == 0;
      }
      assert bytes[..|bytes|] == bytes;
    }
  }

  // ---------------------------------------------------------------------------
  // ProtobufOutputStream
  // ---------------------------------------------------------------------------

  /** A store with one writer on it. */
  class ProtobufOutputStream {
    const output: ConcreteLinkedByteArray
    const writer: ScopedProtobufWriter

    ghost predicate Valid()
      reads this, output, writer
    {
      writer.output == output && writer.Valid()
    }

    /** `ProtobufOutputStream(bufferSize)`, 8192 by default. */
    constructor (bufferSize: nat)
      ensures Valid() && fresh(output) && fresh(output.buffer) && fresh(writer) && fresh(writer.tempBuffer)
      ensures output.Contents() == []
    {
      var store := new ConcreteLinkedByteArray(bufferSize);
      output := store;
      writer := new ScopedProtobufWriter(store);
    }

    /** `write(encoder)`: the encoder's calls on the writer. */
    method Write(encoder: seq<Op>)
      requires Valid() && |Encoding(encoder)| < TWO_31
      modifies writer, output, output.buffer, writer.tempBuffer
      ensures Valid()
      ensures output.Contents() == old(output.Contents()) + Encoding(encoder)
    {
      writer.Run(encoder);
    }

    /** `toByteArray()`: everything written so far. */
    method ToByteArray() returns (r: array<byte>)
      requires Valid()
      ensures fresh(r) && r[..] == output.Contents()
    {
      r := output.ToByteArray();
    }
  }
}
