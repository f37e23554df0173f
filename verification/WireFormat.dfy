/** The bytes themselves: what the serializer writes for each kind of number, by base-128
    arithmetic and in literal bytes, without going through the parser. */
module WireFormat {
  import opened Wire
  import opened Schema
  import opened Numeric
  import opened Messages
  import opened Parse
  import opened RoundTrip
  import opened MessageValue

  // --------------------------------------------------------------------- varints

  /** A varint is written in base 128, lowest digit first, with the high bit on all bytes but
      the last. */
  lemma {:induction false} EncodedVarint(n: nat)
    ensures IsVarint(EncodeVarint(n)) && VarintValue(EncodeVarint(n)) == n
    decreases n
  {
    var s := EncodeVarint(n);
    if n >= 128 {
      EncodedVarint(n / 128);
      var t := EncodeVarint(n / 128);
      assert s == [128 + n % 128] + t && s[1..] == t;
      forall i | 0 <= i < |s| - 1 ensures s[i] >= 128 {
        if i > 0 { assert s[i] == t[i - 1]; }
      }
    } else {
      assert s[1..] == [];
    }
  }

  lemma {:induction false} VarintLength(n: nat, k: nat)
    requires k > 1 && Pow128(k - 1) <= n < Pow128(k)
    ensures |EncodeVarint(n)| == k
    decreases k
  {
    assert Pow128(k - 1) == 128 * Pow128(k - 2) && Pow128(k) == 128 * Pow128(k - 1);
    if k > 2 {
      VarintLength(n / 128, k - 1);
    } else {
      assert Pow128(0) == 1 && n / 128 < 128;
    }
  }

  lemma Pow128Nine()
    ensures Pow128(9) == TWO_63 && Pow128(10) > TWO_64
  {
    assert Pow128(5) == 0x8_0000_0000;
    assert Pow128(10) == 128 * (128 * (128 * (128 * (128 * Pow128(5)))));
    assert Pow128(9) == 128 * (128 * (128 * (128 * Pow128(5))));
  }

  lemma TenBytes(n: nat)
    requires TWO_63 <= n < TWO_64
    ensures |EncodeVarint(n)| == 10
  {
    Pow128Nine();
    VarintLength(n, 10);
  }

  /** int32, int64 and enum: the number modulo 2^64, so ten bytes for a negative one. */
  lemma SignedVarint(k: Kind, v: int)
    requires (k.Int32Value? || k.EnumValue? || k.Int64Value?) && InRange(k, v)
    ensures IsVarint(EncodeNumber(k, v)) && VarintValue(EncodeNumber(k, v)) == v % 0x1_0000_0000_0000_0000
    ensures v < 0 ==> |EncodeNumber(k, v)| == 10 && NumberSize(k, v) == 10
    ensures 0 <= v < 128 ==> EncodeNumber(k, v) == [v]
  {
    hide EncodeVarint, VarintValue, IsVarint;
    EncodedVarint(Raw(k, v));
    NumberSizeIsLength(k, v);
    if v < 0 {
      assert v % 0x1_0000_0000_0000_0000 == v + 0x1_0000_0000_0000_0000;
      TenBytes(Raw(k, v));
    } else if v < 128 {
      OneByte(v);
    }
  }

  lemma OneByte(n: nat)
    requires n < 128
    ensures EncodeVarint(n) == [n]
  {
  }

  /** uint32, uint64 and bool: the number itself. */
  lemma UnsignedVarint(k: Kind, v: int)
    requires (k.UInt32Value? || k.UInt64Value? || k.BoolValue?) && InRange(k, v)
    ensures IsVarint(EncodeNumber(k, v)) && VarintValue(EncodeNumber(k, v)) == v
    ensures k.BoolValue? ==> EncodeNumber(k, v) == [v] && (v == 0 || v == 1)
  {
    hide EncodeVarint, VarintValue, IsVarint;
    EncodedVarint(v);
    if k.BoolValue? { OneByte(v); }
  }

  /** sint32 and sint64: zigzag, so that -1 is 1, 1 is 2, -2 is 3. */
  lemma ZigZagVarint(k: Kind, v: int)
    requires (k.SInt32Value? || k.SInt64Value?) && InRange(k, v)
    ensures IsVarint(EncodeNumber(k, v))
    ensures VarintValue(EncodeNumber(k, v)) == if v < 0 then -2 * v - 1 else 2 * v
  {
    hide EncodeVarint, VarintValue, IsVarint;
    EncodedVarint(Raw(k, v));
  }

  // ----------------------------------------------------------------------- words

  /** The byte of weight 256^j. */
  function ByteAt(n: nat, j: nat): byte {
    if j == 0 then n % 256 else ByteAt(n / 256, j - 1)
  }

  lemma {:induction false} LittleEndian(n: nat, width: nat, j: nat)
    requires j < width
    ensures EncodeLE(n, width)[j] == ByteAt(n, j)
    decreases width
  {
    if j > 0 { LittleEndian(n / 256, width - 1, j - 1); }
  }

  /** Fixed-width kinds: four or eight bytes, the low byte first; negative numbers in two's
      complement, float and double by their bits. */
  lemma FixedBytes(k: Kind, v: int, j: nat)
    requires (k in {FloatValue, Fixed32Value, SFixed32Value, DoubleValue, Fixed64Value, SFixed64Value}) && InRange(k, v)
    requires j < if k in {FloatValue, Fixed32Value, SFixed32Value} then 4 else 8
    ensures |EncodeNumber(k, v)| == if k in {FloatValue, Fixed32Value, SFixed32Value} then 4 else 8
    ensures k in {FloatValue, Fixed32Value, SFixed32Value} ==> EncodeNumber(k, v)[j] == ByteAt(v % 0x1_0000_0000, j)
    ensures k in {DoubleValue, Fixed64Value, SFixed64Value} ==>
              EncodeNumber(k, v)[j] == ByteAt(v % 0x1_0000_0000_0000_0000, j)
    ensures EncodeNumber(k, v)[0] == v % 256
  {
    hide EncodeNumber, EncodeLE, ByteAt, InRange, Raw;
    if k in {FloatValue, Fixed32Value, SFixed32Value} {
      FourBytes(k, v, j);
    } else {
      EightBytes(k, v, j);
    }
  }

  lemma FourBytes(k: Kind, v: int, j: nat)
    requires (k in {FloatValue, Fixed32Value, SFixed32Value}) && InRange(k, v) && j < 4
    ensures |EncodeNumber(k, v)| == 4 && EncodeNumber(k, v)[j] == ByteAt(v % 0x1_0000_0000, j)
    ensures EncodeNumber(k, v)[0] == v % 256
  {
    hide EncodeLE, ByteAt;
    LittleEndian(Raw(k, v), 4, j);
    LittleEndian(Raw(k, v), 4, 0);
    LowestByte(Raw(k, v));
    if v < 0 {
      assert v % 0x1_0000_0000 == v + 0x1_0000_0000;
    }
  }

  lemma EightBytes(k: Kind, v: int, j: nat)
    requires (k in {DoubleValue, Fixed64Value, SFixed64Value}) && InRange(k, v) && j < 8
    ensures |EncodeNumber(k, v)| == 8 && EncodeNumber(k, v)[j] == ByteAt(v % 0x1_0000_0000_0000_0000, j)
    ensures EncodeNumber(k, v)[0] == v % 256
  {
    hide EncodeLE, ByteAt;
    LittleEndian(Raw(k, v), 8, j);
    LittleEndian(Raw(k, v), 8, 0);
    LowestByte(Raw(k, v));
    if v < 0 {
      assert v % 0x1_0000_0000_0000_0000 == v + 0x1_0000_0000_0000_0000;
    }
  }

  lemma LowestByte(n: nat)
    ensures ByteAt(n, 0) == n % 256
  {
  }

  // ------------------------------------------------------------------------ tags

  /** The wire type that goes with each kind. */
  lemma WireTypes(k: Kind)
    requires k.IsNumeric()
    ensures NaturalWireType(k)
         == if k in {DoubleValue, Fixed64Value, SFixed64Value} then 1
            else if k in {FloatValue, Fixed32Value, SFixed32Value} then 5 else 0
    ensures WIRETYPE_VARINT == 0 && WIRETYPE_FIXED64 == 1 && WIRETYPE_LENGTH_DELIMITED == 2
    ensures WIRETYPE_START_GROUP == 3 && WIRETYPE_END_GROUP == 4 && WIRETYPE_FIXED32 == 5
    ensures MAX_FIELD_NUMBER == 536870911 && INT_MAX == 2147483647
  {
  }

  /** A tag is the varint of eight times the number plus the wire type. */
  lemma TagIsVarint(n: nat, wireType: nat)
    ensures IsVarint(EncodeTag(n, wireType)) && VarintValue(EncodeTag(n, wireType)) == 8 * n + wireType
  {
    EncodedVarint(MakeTag(n, wireType));
  }

  /** A number has its tag before it; lists of numbers are packed; text, nested messages and
      packed lists have wire type 2, their length, and their content. */
  lemma Framing(n: nat, v: Value)
    ensures v.Scalar? && InRange(v.kind, v.number) ==>
              EncodeValue(n, v) == EncodeVarint(8 * n + NaturalWireType(v.kind)) + EncodeNumber(v.kind, v.number)
    ensures v.Packed? && v.numbers != [] && AllInRange(v.kind, v.numbers) ==>
              EncodeValue(n, v)
              == EncodeVarint(8 * n + 2) + EncodeVarint(|EncodeNumbers(v.kind, v.numbers)|) + EncodeNumbers(v.kind, v.numbers)
    ensures v.Text? ==> EncodeValue(n, v) == EncodeVarint(8 * n + 2) + EncodeVarint(|v.text|) + v.text
    ensures v.Nested? ==>
              EncodeValue(n, v)
              == EncodeVarint(8 * n + 2) + EncodeVarint(|EncodeMessage(v.message)|) + EncodeMessage(v.message)
  {
    hide EncodeVarint, EncodeNumber, EncodeNumbers, EncodeMessage;
  }

  /** Only an empty list is left out: zero numbers, empty text and empty messages are written. */
  lemma OnlyEmptyListsAreLeftOut(reg: Registry, f: Field, n: nat, v: Value)
    requires WellTypedValue(reg, f, v)
    ensures EncodeValue(n, v) == [] <==> IsEmptyList(v)
  {
    hide EncodeNumber, EncodeNumbers, EncodeMessage, EncodeVarint;
  }

  /** Repeated text and repeated messages are written one by one, each with its tag. */
  lemma ListFraming(n: nat, ss: seq<bytes>, ms: seq<Message>)
    ensures ss != [] ==>
              EncodeTexts(n, ss) == EncodeVarint(8 * n + 2) + EncodeVarint(|ss[0]|) + ss[0] + EncodeTexts(n, ss[1..])
    ensures ms != [] ==>
              EncodeList(n, ms)
              == EncodeVarint(8 * n + 2) + EncodeVarint(|EncodeMessage(ms[0])|) + EncodeMessage(ms[0]) + EncodeList(n, ms[1..])
  {
    hide EncodeVarint, EncodeMessage;
  }

  /** Fields are written in ascending order of their numbers, and nothing else is. */
  lemma FieldsAscend(m: Message, a: nat, b: nat)
    requires 0 < a < b <= 536870911 && m.values.Keys == {a as int, b}
    ensures EncodeMessage(m) == EncodeValue(a, m.values[a]) + EncodeValue(b, m.values[b])
  {
    hide EncodeValue, EncodeFields;
    NoFields(m);
    FieldsSkip(m, 0, a - 1);
    FieldIsWritten(m, a);
    FieldsSkip(m, a, b - 1);
    FieldIsWritten(m, b);
    FieldsSkip(m, b, MAX_FIELD_NUMBER);
    assert [] + EncodeValue(a, m.values[a]) == EncodeValue(a, m.values[a]);
  }

  lemma FieldIsWritten(m: Message, n: nat)
    requires n > 0 && n in m.values
    ensures EncodeFields(m, n) == EncodeFields(m, n - 1) + EncodeValue(n, m.values[n])
  {
    hide EncodeValue;
  }

  // --------------------------------------------------------------------- reading

  /** What the parser makes of the word it reads, for every word. */
  lemma Transforms(k: Kind, raw: nat)
    requires k.IsNumeric() && raw < if Form(k).Varint32? || Form(k).Word32? then TWO_32 else TWO_64
    ensures Form(k) == if k in {Int32Value, UInt32Value, SInt32Value, BoolValue, EnumValue} then WireForm.Varint32
                       else if k in {Int64Value, UInt64Value, SInt64Value} then WireForm.Varint64
                       else if k in {FloatValue, Fixed32Value, SFixed32Value} then WireForm.Word32 else WireForm.Word64
    ensures k in {Int32Value, EnumValue, SFixed32Value} ==> Transform(k, raw) % 0x1_0000_0000 == raw
    ensures k in {Int64Value, SFixed64Value} ==> Transform(k, raw) % 0x1_0000_0000_0000_0000 == raw
    ensures k in {UInt32Value, UInt64Value, Fixed32Value, Fixed64Value, FloatValue, DoubleValue} ==> Transform(k, raw) == raw
    ensures k == BoolValue ==> Transform(k, raw) == if raw == 0 then 0 else 1
    ensures k in {SInt32Value, SInt64Value} && raw % 2 == 0 ==> Transform(k, raw) * 2 == raw
    ensures k in {SInt32Value, SInt64Value} && raw % 2 == 1 ==> Transform(k, raw) * -2 == raw + 1
    ensures InRange(k, Transform(k, raw))
  {
  }

  /** A complete varint, however padded, is read as its base-128 value, cut to 32 or 64 bits; a
      word as the four or eight bytes it is. */
  lemma NumbersAreRead(k: Kind, s: bytes, i: Input)
    requires k.IsNumeric() && i.Valid()
    ensures k in {Int32Value, UInt32Value, SInt32Value, BoolValue, EnumValue} && IsVarint(s) && |s| <= 10 ==>
              ReadNumber(k, Before(s, i)) == Read(true, Transform(k, VarintValue(s) % 0x1_0000_0000), i)
    ensures k in {Int64Value, UInt64Value, SInt64Value} && IsVarint(s) && |s| <= 10 ==>
              ReadNumber(k, Before(s, i)) == Read(true, Transform(k, VarintValue(s) % 0x1_0000_0000_0000_0000), i)
    ensures k in {FloatValue, Fixed32Value, SFixed32Value} && |s| == 4 ==>
              DecodeLE(s) < TWO_32 && ReadNumber(k, Before(s, i)) == Read(true, Transform(k, DecodeLE(s)), i)
    ensures k in {DoubleValue, Fixed64Value, SFixed64Value} && |s| == 8 ==>
              DecodeLE(s) < TWO_64 && ReadNumber(k, Before(s, i)) == Read(true, Transform(k, DecodeLE(s)), i)
  {
    hide VarintValue, IsVarint, Transform, DecodeLE, ScanVarint;
    if IsVarint(s) && |s| <= 10 {
      ScanAcceptsAVarint(s, MAX_VARINT_BYTES, i.data);
      SkipBefore(s, i);
    }
    Pow256Words();
    EncodeInvertsDecodeLE(s);
    assert (s + i.data)[..|s|] == s;
    SkipBefore(s, i);
  }

  /** A varint of more than ten bytes is broken. */
  lemma {:induction false} LongVarintFails(s: bytes, room: nat)
    requires |s| >= room && forall i :: 0 <= i < room ==> s[i] >= 128
    ensures !ScanVarint(s, room).ok
    decreases room
  {
    if room > 0 { LongVarintFails(s[1..], room - 1); }
  }

  lemma ElevenBytesFail(i: Input)
    requires i.Valid() && |i.data| >= 10 && forall j :: 0 <= j < 10 ==> i.data[j] >= 128
    ensures !ReadVarint32(i).ok && !ReadVarint64(i).ok && ReadTag(i).tag == 0 && !ReadTag(i).atEnd
  {
    LongVarintFails(i.data, 10);
  }

  /** Text is rejected when it is not all there, and throws when it is a string and not UTF-8. */
  lemma TextOutcome(reg: Registry, f: Field, n: nat, i: Input, m: Message)
    requires i.Valid()
    ensures var r, o := ReadLengthDelimited(i), ParseTextField(reg, f, n, i, m);
            && (o.status == Rejected <==> !r.ok)
            && (o.status == Threw <==> r.ok && f.kind == StringValue && !reg.validUtf8(r.value))
  {
    hide ReadLengthDelimited;
  }

  /** A limit is pushed only strictly inside the enclosing one. */
  lemma LimitsAreStrict(data: bytes, lim: nat, bounded: bool, length: nat)
    requires |data| <= lim && length <= 2147483647
    ensures length >= lim ==> Input(data, lim, bounded).Push(length) == Input(data, lim, bounded)
    ensures length < lim && length <= |data| ==> Input(data, lim, bounded).Push(length) == Input(data[..length], length, true)
    ensures length < lim && length > |data| ==> Input(data, lim, bounded).Push(length) == Input(data, length, true)
  {
    if length == |data| { assert data[..length] == data; }
  }

  // ------------------------------------------------------------- literal examples

  lemma SmallVarints()
    ensures EncodeVarint(150) == [0x96, 0x01] && EncodeVarint(300) == [0xAC, 0x02]
    ensures EncodeVarint(270) == [0x8E, 0x02] && EncodeVarint(86942) == [0x9E, 0xA7, 0x05]
    ensures VarintValue([0x96, 0x01]) == 150 && VarintValue([0xAC, 0x02]) == 300
  {
    assert EncodeVarint(1) == [1] && EncodeVarint(2) == [2] && EncodeVarint(5) == [5];
    assert 86942 / 128 == 679 && 679 / 128 == 5;
    assert EncodeVarint(679) == [0xA7, 0x05];
    assert VarintValue([0x01]) == 1 && VarintValue([0x02]) == 2;
    assert [0x96, 0x01][1..] == [0x01] && [0xAC, 0x02][1..] == [0x02];
  }

  lemma TagBytes()
    ensures EncodeTag(1, 0) == [0x08] && EncodeTag(2, 2) == [0x12] && EncodeTag(4, 2) == [0x22] && EncodeTag(5, 5) == [0x2D]
  {
    hide EncodeVarint;
    OneByte(0x08); OneByte(0x12); OneByte(0x22); OneByte(0x2D);
  }

  /** Field 1 is int32 150, field 2 is "testing", field 4 the packed list 3, 270, 86942, field 5
      fixed32 1. */
  lemma Examples()
    ensures EncodeValue(1, Scalar(Int32Value, 150)) == [0x08, 0x96, 0x01]
    ensures EncodeValue(2, Text(StringValue, [0x74, 0x65, 0x73, 0x74, 0x69, 0x6E, 0x67]))
         == [0x12, 0x07, 0x74, 0x65, 0x73, 0x74, 0x69, 0x6E, 0x67]
    ensures EncodeValue(4, Packed(Int32Value, [3, 270, 86942])) == [0x22, 0x06, 0x03, 0x8E, 0x02, 0x9E, 0xA7, 0x05]
    ensures EncodeValue(5, Scalar(Fixed32Value, 1)) == [0x2D, 0x01, 0x00, 0x00, 0x00]
  {
    hide EncodeVarint, EncodeTag, EncodeLE, EncodeNumbers;
    SmallVarints();
    OneByte(6);
    OneByte(7);
    TagBytes();
    PackedExample();
    WordBytes();
  }

  lemma PackedExample()
    ensures EncodeNumbers(Int32Value, [3, 270, 86942]) == [0x03, 0x8E, 0x02, 0x9E, 0xA7, 0x05]
  {
    SmallVarints();
    OneByte(3);
    hide EncodeVarint;
    assert [3, 270, 86942][1..] == [270, 86942] && [270, 86942][1..] == [86942] && [86942][1..] == [];
    assert EncodeNumbers(Int32Value, [86942]) == EncodeVarint(86942) + EncodeNumbers(Int32Value, []);
    assert EncodeNumbers(Int32Value, [270, 86942]) == EncodeVarint(270) + EncodeNumbers(Int32Value, [86942]);
  }

  lemma WordBytes()
    ensures EncodeLE(1, 4) == [1, 0, 0, 0]
  {
    assert EncodeLE(0, 1) == [0] + EncodeLE(0, 0);
    assert EncodeLE(0, 2) == [0] + EncodeLE(0, 1);
    assert EncodeLE(0, 3) == [0] + EncodeLE(0, 2);
  }
}
