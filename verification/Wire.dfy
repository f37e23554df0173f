/** The Protocol Buffers wire primitives that the codec is built on: base-128 varints,
    ZigZag, little-endian words, tags, and a reader with a movable limit. */
module Wire {
  type byte = b: int | 0 <= b < 256
  type bytes = seq<byte>

  const INT_MAX: int := 0x7FFF_FFFF
  const TWO_31: int := 0x8000_0000
  const TWO_32: int := 0x1_0000_0000
  const TWO_63: int := 0x8000_0000_0000_0000
  const TWO_64: int := 0x1_0000_0000_0000_0000

  /** An unbroken varint never occupies more bytes than this. */
  const MAX_VARINT_BYTES: nat := 10

  // ---------------------------------------------------------------- varints

  function EncodeVarint(n: nat): (s: bytes)
    ensures s != []
  {
    if n < 128 then [n] else [128 + n % 128] + EncodeVarint(n / 128)
  }

  /** The size tables of the serializer count bytes without producing them. */
  function VarintSize(n: nat): nat {
    if n < 128 then 1 else 1 + VarintSize(n / 128)
  }

  lemma {:induction false} VarintSizeIsLength(n: nat)
    ensures VarintSize(n) == |EncodeVarint(n)|
  {
    if n >= 128 {
      VarintSizeIsLength(n / 128);
    }
  }

  function Pow128(k: nat): (p: nat)
    ensures p > 0
  {
    if k == 0 then 1 else 128 * Pow128(k - 1)
  }

  lemma Pow128Ten()
    ensures Pow128(10) == 64 * TWO_64
  {
    assert Pow128(5) == 0x8_0000_0000;
    assert Pow128(10) == 128 * (128 * (128 * (128 * (128 * Pow128(5)))));
  }

  /** Result of scanning at most `room` bytes for a varint. A failed scan has used up the
      bytes it looked at. */
  datatype Scan = Scan(ok: bool, value: nat, used: nat)

  function ScanVarint(s: bytes, room: nat): (r: Scan)
    ensures r.used <= |s|
    ensures r.ok ==> r.used > 0
    decreases room
  {
    if room == 0 || s == [] then Scan(false, 0, 0)
    else if s[0] < 128 then Scan(true, s[0], 1)
    else
      var r := ScanVarint(s[1..], room - 1);
      Scan(r.ok, s[0] - 128 + 128 * r.value, 1 + r.used)
  }

  lemma {:induction false} ScanInvertsEncode(n: nat, room: nat, rest: bytes)
    requires room > 0 && n < Pow128(room)
    ensures ScanVarint(EncodeVarint(n) + rest, room) == Scan(true, n, |EncodeVarint(n)|)
    decreases room
  {
    if n >= 128 {
      var s := EncodeVarint(n) + rest;
      assert s[1..] == EncodeVarint(n / 128) + rest;
      ScanInvertsEncode(n / 128, room - 1, rest);
    }
  }

  /** Base-128 value of a run of bytes: what a varint means when nothing is truncated. */
  function VarintValue(s: bytes): nat {
    if s == [] then 0 else s[0] % 128 + 128 * VarintValue(s[1..])
  }

  /** A byte run is a complete varint when exactly its last byte has the high bit clear. */
  predicate IsVarint(s: bytes) {
    s != [] && s[|s| - 1] < 128 && forall i :: 0 <= i < |s| - 1 ==> s[i] >= 128
  }

  lemma {:induction false} ScanReadsAVarint(s: bytes, room: nat)
    ensures var r := ScanVarint(s, room);
            r.ok ==> IsVarint(s[..r.used]) && r.used <= room && r.value == VarintValue(s[..r.used])
    decreases room
  {
    var r := ScanVarint(s, room);
    if r.ok && s[0] >= 128 {
      ScanReadsAVarint(s[1..], room - 1);
      var t := s[1..][..r.used - 1];
      assert s[..r.used][1..] == t;
      forall i | 0 <= i < r.used - 1 ensures s[..r.used][i] >= 128 {
        if i > 0 { assert s[i] == t[i - 1]; }
      }
    }
  }

  lemma {:induction false} ScanAcceptsAVarint(v: bytes, room: nat, rest: bytes)
    requires IsVarint(v) && |v| <= room
    ensures ScanVarint(v + rest, room) == Scan(true, VarintValue(v), |v|)
    decreases room
  {
    if |v| > 1 {
      assert (v + rest)[1..] == v[1..] + rest;
      ScanAcceptsAVarint(v[1..], room - 1, rest);
    }
  }

  // ---------------------------------------------------------------- ZigZag

  function ZigZagEncode(v: int): (n: nat)
  {
    if v >= 0 then 2 * v else -2 * v - 1
  }

  function ZigZagDecode(n: nat): (v: int)
    ensures ZigZagEncode(v) == n
  {
    if n % 2 == 0 then n / 2 else -(n + 1) / 2
  }

  // ------------------------------------------------------ little-endian words

  function EncodeLE(n: nat, width: nat): (s: bytes)
    ensures |s| == width
  {
    if width == 0 then [] else [n % 256] + EncodeLE(n / 256, width - 1)
  }

  function DecodeLE(s: bytes): (n: nat)
  {
    if s == [] then 0 else s[0] + 256 * DecodeLE(s[1..])
  }

  function Pow256(k: nat): (p: nat)
    ensures p > 0
  {
    if k == 0 then 1 else 256 * Pow256(k - 1)
  }

  lemma Pow256Words()
    ensures Pow256(4) == TWO_32 && Pow256(8) == TWO_64
  {
    assert Pow256(4) == 256 * (256 * (256 * Pow256(1)));
    assert Pow256(8) == 256 * (256 * (256 * (256 * Pow256(4))));
  }

  lemma {:induction false} DecodeInvertsEncodeLE(n: nat, width: nat)
    requires n < Pow256(width)
    ensures DecodeLE(EncodeLE(n, width)) == n
  {
    if width > 0 {
      DecodeInvertsEncodeLE(n / 256, width - 1);
      assert EncodeLE(n, width)[1..] == EncodeLE(n / 256, width - 1);
    }
  }

  lemma {:induction false} EncodeInvertsDecodeLE(s: bytes)
    ensures DecodeLE(s) < Pow256(|s|)
    ensures EncodeLE(DecodeLE(s), |s|) == s
  {
    if s != [] {
      EncodeInvertsDecodeLE(s[1..]);
      var t, n := DecodeLE(s[1..]), DecodeLE(s);
      LowByte(s[0], t);
      assert EncodeLE(n, |s|) == [n % 256] + EncodeLE(n / 256, |s| - 1);
      hide DecodeLE, EncodeLE;
      assert s == [s[0]] + s[1..];
    }
  }

  lemma LowByte(b: byte, t: nat)
    ensures (b + 256 * t) % 256 == b && (b + 256 * t) / 256 == t
  {
  }

  // ------------------------------------------------------------- the reader

  /** What a coded input stream can still see. `data` are the bytes before both the end of
      the stream and the current limit, `lim` is the distance to the current limit (INT_MAX
      counts from the start of the stream when no limit was pushed), and `bounded` says
      whether a limit has been pushed. A limit may lie beyond the end of the stream. */
  datatype Input = Input(data: bytes, lim: nat, bounded: bool) {
    predicate Valid() { |data| <= lim }

    function Skip(k: nat): Input
      requires k <= |data| && Valid()
    {
      Input(data[k..], lim - k, bounded)
    }

    /** CodedInputStream::PushLimit: `length` arrives as an unsigned 32-bit number and is
        reinterpreted as a signed one; a limit can only shrink. */
    function Push(length: nat): Input
      requires Valid()
    {
      if length <= INT_MAX && length < lim
      then Input(if length < |data| then data[..length] else data, length, true)
      else this
    }

    /** CodedInputStream::PopLimit after a nested read that ended in `inner`. */
    function Pop(pushed: Input, inner: Input): Input
      requires Valid() && |inner.data| <= |pushed.data| <= |data|
    {
      Skip(|pushed.data| - |inner.data|)
    }

    /** CodedInputStream::BytesUntilLimit() > 0. */
    predicate BytesUntilLimit() { bounded && lim > 0 }
  }

  datatype Read<+T> = Read(ok: bool, value: T, rest: Input)

  function ReadVarint64(i: Input): (r: Read<nat>)
    requires i.Valid()
    ensures r.rest.Valid() && |r.rest.data| <= |i.data| && r.value < TWO_64
    ensures r.ok ==> |r.rest.data| < |i.data|
  {
    var s := ScanVarint(i.data, MAX_VARINT_BYTES);
    Read(s.ok, s.value % TWO_64, i.Skip(s.used))
  }

  function ReadVarint32(i: Input): (r: Read<nat>)
    requires i.Valid()
    ensures r.rest.Valid() && |r.rest.data| <= |i.data| && r.value < TWO_32
    ensures r.ok ==> |r.rest.data| < |i.data|
  {
    var s := ScanVarint(i.data, MAX_VARINT_BYTES);
    Read(s.ok, s.value % TWO_32, i.Skip(s.used))
  }

  function ReadLE(i: Input, width: nat): (r: Read<nat>)
    requires i.Valid()
    ensures r.rest.Valid() && |r.rest.data| <= |i.data|
    ensures r.ok && width > 0 ==> |r.rest.data| < |i.data|
  {
    if width <= |i.data| then Read(true, DecodeLE(i.data[..width]), i.Skip(width))
    else Read(false, 0, i.Skip(|i.data|))
  }

  function ReadString(i: Input, length: nat): (r: Read<bytes>)
    requires i.Valid()
    ensures r.rest.Valid() && |r.rest.data| <= |i.data|
  {
    if length <= |i.data| then Read(true, i.data[..length], i.Skip(length))
    else Read(false, [], i.Skip(|i.data|))
  }

  /** A 32-bit length, checked against INT_MAX, and that many bytes. */
  function ReadLengthDelimited(i: Input): (r: Read<bytes>)
    requires i.Valid()
    ensures r.rest.Valid() && |r.rest.data| <= |i.data|
    ensures r.ok ==> |r.rest.data| < |i.data|
  {
    var n := ReadVarint32(i);
    if !n.ok || n.value > INT_MAX then Read(false, [], n.rest)
    else ReadString(n.rest, n.value)
  }

  /** Zero stands for "no more tags": end of data (`atEnd`), a broken varint, or a literal
      zero tag. ConsumedEntireMessage holds only after the first. */
  datatype Tag = Tag(tag: nat, atEnd: bool, rest: Input)

  function ReadTag(i: Input): (t: Tag)
    requires i.Valid()
    ensures t.rest.Valid() && |t.rest.data| <= |i.data| && t.tag < TWO_32
    ensures t.tag != 0 ==> |t.rest.data| < |i.data|
    ensures t.atEnd <==> i.data == []
  {
    if i.data == [] then Tag(0, true, i)
    else
      var r := ReadVarint32(i);
      Tag(if r.ok then r.value else 0, false, r.rest)
  }

  /** A fresh stream over `s`: no limit has been pushed. */
  function Whole(s: bytes): Input
    requires |s| <= INT_MAX
  {
    Input(s, INT_MAX, false)
  }

  // ------------------------------------------------------------------- tags

  const WIRETYPE_VARINT := 0
  const WIRETYPE_FIXED64 := 1
  const WIRETYPE_LENGTH_DELIMITED := 2
  const WIRETYPE_START_GROUP := 3
  const WIRETYPE_END_GROUP := 4
  const WIRETYPE_FIXED32 := 5

  const MAX_FIELD_NUMBER := 0x1FFF_FFFF

  predicate IsFieldNumber(n: int) { 1 <= n <= MAX_FIELD_NUMBER }

  function MakeTag(number: nat, wireType: nat): nat { number * 8 + wireType }

  function TagFieldNumber(tag: nat): nat { tag / 8 }

  function TagWireType(tag: nat): nat { tag % 8 }

  function EncodeTag(number: nat, wireType: nat): (s: bytes)
    ensures s != []
  {
    EncodeVarint(MakeTag(number, wireType))
  }

  /** Tag, varint length, payload. */
  function LenDelim(number: nat, payload: bytes): bytes {
    EncodeTag(number, WIRETYPE_LENGTH_DELIMITED) + EncodeVarint(|payload|) + payload
  }

  // ------------------------------------- reading back what was just written

  /** `i` stands before the bytes `s`: it has them, and a limit no nearer than its end. */
  function Before(s: bytes, i: Input): Input
    requires i.Valid()
  {
    Input(s + i.data, |s| + i.lim, i.bounded)
  }

  lemma BeforeSplits(a: bytes, b: bytes, i: Input)
    requires i.Valid()
    ensures Before(a + b, i) == Before(a, Before(b, i))
  {
    assert (a + b) + i.data == a + (b + i.data);
  }

  lemma SkipBefore(a: bytes, i: Input)
    requires i.Valid()
    ensures Before(a, i).Skip(|a|) == i
  {
    assert (a + i.data)[|a|..] == i.data;
  }

  lemma ScanEncoded(n: nat, rest: bytes)
    requires n < TWO_64
    ensures ScanVarint(EncodeVarint(n) + rest, MAX_VARINT_BYTES) == Scan(true, n, |EncodeVarint(n)|)
  {
    Pow128Ten();
    ScanInvertsEncode(n, MAX_VARINT_BYTES, rest);
  }

  lemma ReadVarintBefore(n: nat, i: Input)
    requires i.Valid() && n < TWO_64
    ensures ReadVarint64(Before(EncodeVarint(n), i)) == Read(true, n, i)
    ensures ReadVarint32(Before(EncodeVarint(n), i)) == Read(true, n % TWO_32, i)
  {
    hide EncodeVarint, ScanVarint;
    ScanEncoded(n, i.data);
    SkipBefore(EncodeVarint(n), i);
  }

  lemma ReadTagBefore(number: nat, wireType: nat, i: Input)
    requires i.Valid() && IsFieldNumber(number) && wireType < 8
    ensures ReadTag(Before(EncodeTag(number, wireType), i)) == Tag(MakeTag(number, wireType), false, i)
    ensures MakeTag(number, wireType) != 0
    ensures TagFieldNumber(MakeTag(number, wireType)) == number
    ensures TagWireType(MakeTag(number, wireType)) == wireType
  {
    hide EncodeVarint, ScanVarint, ReadVarint32;
    ReadLengthBefore(MakeTag(number, wireType), i);
  }

  lemma ReadLEBefore(n: nat, width: nat, i: Input)
    requires i.Valid() && n < Pow256(width)
    ensures ReadLE(Before(EncodeLE(n, width), i), width) == Read(true, n, i)
  {
    var s := EncodeLE(n, width);
    DecodeInvertsEncodeLE(n, width);
    assert (s + i.data)[..width] == s;
    SkipBefore(s, i);
  }

  lemma ReadLengthDelimitedBefore(s: bytes, i: Input)
    requires i.Valid() && |s| <= INT_MAX
    ensures ReadLengthDelimited(Before(EncodeVarint(|s|) + s, i)) == Read(true, s, i)
  {
    BeforeSplits(EncodeVarint(|s|), s, i);
    ReadLengthBefore(|s|, Before(s, i));
    ReadAfterLength(s, Before(EncodeVarint(|s|) + s, i), i);
  }

  lemma ReadLengthBefore(n: nat, i: Input)
    requires i.Valid() && n < TWO_32
    ensures ReadVarint32(Before(EncodeVarint(n), i)) == Read(true, n, i)
  {
    hide EncodeVarint, ScanVarint;
    ReadVarintBefore(n, i);
  }

  lemma ReadAfterLength(s: bytes, h: Input, i: Input)
    requires h.Valid() && i.Valid() && |s| <= INT_MAX
    requires ReadVarint32(h) == Read(true, |s|, Before(s, i))
    ensures ReadLengthDelimited(h) == Read(true, s, i)
  {
    ReadStringBefore(s, i);
  }

  lemma ReadStringBefore(s: bytes, i: Input)
    requires i.Valid()
    ensures ReadString(Before(s, i), |s|) == Read(true, s, i)
  {
    assert (s + i.data)[..|s|] == s;
    SkipBefore(s, i);
  }

  /** Pushing the limit that was written before `s` confines the reader to `s`. The test
      `length < lim` in PushLimit needs either bytes after `s` or a limit beyond its end;
      when the enclosing limit ends exactly with `s` it is already the right one. */
  lemma PushBefore(s: bytes, i: Input)
    requires i.Valid() && |s| <= INT_MAX && (i.bounded || i.lim > 0)
    ensures var p := Before(s, i).Push(|s|);
            p.data == s && p.lim == |s| && p.bounded
  {
    assert (s + i.data)[..|s|] == s;
    if i.lim == 0 { assert s + i.data == s; }
  }
}
