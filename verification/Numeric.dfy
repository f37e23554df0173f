/** How one number of each numeric kind travels on the wire. Numbers are held as
    mathematical integers in the range of the C++ type that stores them; float and double
    are held as their bit patterns. */
module Numeric {
  import opened Wire
  import opened Schema

  predicate InRange(k: Kind, v: int)
  {
    match k
    case Int32Value | EnumValue | SInt32Value | SFixed32Value => -TWO_31 <= v < TWO_31
    case Int64Value | SInt64Value | SFixed64Value => -TWO_63 <= v < TWO_63
    case UInt32Value | Fixed32Value | FloatValue => 0 <= v < TWO_32
    case UInt64Value | Fixed64Value | DoubleValue => 0 <= v < TWO_64
    case BoolValue => 0 <= v <= 1
    case StringValue | BytesValue | MessageValue => false
  }

  /** Which primitive the traits' Read uses. */
  datatype WireForm = Varint32 | Varint64 | Word32 | Word64

  function Form(k: Kind): WireForm
    requires k.IsNumeric()
  {
    match k
    case Int32Value | UInt32Value | SInt32Value | BoolValue | EnumValue => Varint32
    case Int64Value | UInt64Value | SInt64Value => Varint64
    case FloatValue | Fixed32Value | SFixed32Value => Word32
    case DoubleValue | Fixed64Value | SFixed64Value => Word64
  }

  function NaturalWireType(k: Kind): nat
    requires k.IsNumeric()
  {
    match Form(k)
    case Varint32 | Varint64 => WIRETYPE_VARINT
    case Word32 => WIRETYPE_FIXED32
    case Word64 => WIRETYPE_FIXED64
  }

  function Unsigned(v: int, modulus: int): int { if v < 0 then v + modulus else v }

  function Signed(n: int, modulus: int): int { if 2 * n >= modulus then n - modulus else n }

  /** The unsigned number the serializer hands to the wire. Negative int32 and enum values
      are sign-extended to 64 bits first. */
  function Raw(k: Kind, v: int): (n: nat)
    requires InRange(k, v)
    ensures n < if Form(k).Word32? then TWO_32 else TWO_64
  {
    match k
    case Int32Value | EnumValue | Int64Value => Unsigned(v, TWO_64)
    case SFixed32Value => Unsigned(v, TWO_32)
    case SFixed64Value => Unsigned(v, TWO_64)
    case SInt32Value | SInt64Value => ZigZagEncode(v)
    case UInt32Value | UInt64Value | BoolValue | FloatValue | DoubleValue | Fixed32Value | Fixed64Value => v
  }

  /** The traits' Transform. */
  function Transform(k: Kind, raw: nat): (v: int)
    requires k.IsNumeric()
    requires raw < if Form(k).Varint32? || Form(k).Word32? then TWO_32 else TWO_64
    ensures InRange(k, v)
  {
    match k
    case Int32Value | EnumValue | SFixed32Value => Signed(raw, TWO_32)
    case Int64Value | SFixed64Value => Signed(raw, TWO_64)
    case SInt32Value | SInt64Value => ZigZagDecode(raw)
    case BoolValue => if raw != 0 then 1 else 0
    case UInt32Value | UInt64Value | FloatValue | DoubleValue | Fixed32Value | Fixed64Value => raw
  }

  function EncodeNumber(k: Kind, v: int): (s: bytes)
    requires InRange(k, v)
    ensures s != []
  {
    match Form(k)
    case Varint32 | Varint64 => EncodeVarint(Raw(k, v))
    case Word32 => EncodeLE(Raw(k, v), 4)
    case Word64 => EncodeLE(Raw(k, v), 8)
  }

  function NumberSize(k: Kind, v: int): nat
    requires InRange(k, v)
  {
    match Form(k)
    case Varint32 | Varint64 => VarintSize(Raw(k, v))
    case Word32 => 4
    case Word64 => 8
  }

  lemma NumberSizeIsLength(k: Kind, v: int)
    requires InRange(k, v)
    ensures NumberSize(k, v) == |EncodeNumber(k, v)|
  {
    VarintSizeIsLength(Raw(k, v));
  }

  /** Traits::Read followed by Traits::Transform. */
  function ReadNumber(k: Kind, i: Input): (r: Read<int>)
    requires k.IsNumeric() && i.Valid()
    ensures r.rest.Valid() && |r.rest.data| <= |i.data|
    ensures r.ok ==> |r.rest.data| < |i.data| && InRange(k, r.value)
  {
    var r := ReadRaw(Form(k), i);
    Read(r.ok, if r.ok then Transform(k, r.value) else 0, r.rest)
  }

  function ReadRaw(f: WireForm, i: Input): (r: Read<nat>)
    requires i.Valid()
    ensures r.rest.Valid() && |r.rest.data| <= |i.data|
    ensures r.ok ==> |r.rest.data| < |i.data|
    ensures r.value < if f.Varint32? || f.Word32? then TWO_32 else TWO_64
  {
    match f
    case Varint32 => ReadVarint32(i)
    case Varint64 => ReadVarint64(i)
    case Word32 => LEBound(i, 4); ReadLE(i, 4)
    case Word64 => LEBound(i, 8); ReadLE(i, 8)
  }

  lemma LEBound(i: Input, width: nat)
    requires i.Valid()
    ensures ReadLE(i, width).value < Pow256(width)
    ensures Pow256(4) == TWO_32 && Pow256(8) == TWO_64
  {
    Pow256Words();
    if width <= |i.data| { EncodeInvertsDecodeLE(i.data[..width]); }
  }

  /** Sign extension, ZigZag and two's complement all come back to the number written. */
  lemma TransformInvertsRaw(k: Kind, v: int)
    requires InRange(k, v)
    ensures var n := Raw(k, v);
            Transform(k, if Form(k).Varint32? then n % TWO_32 else n) == v
  {
    match k
    case SInt32Value | SInt64Value => ZigZagInverts(v);
    case Int32Value | EnumValue => SignExtensionInverts(v);
    case UInt32Value | UInt64Value | BoolValue | FloatValue | DoubleValue | Fixed32Value | Fixed64Value =>
    case Int64Value | SFixed32Value | SFixed64Value =>
  }

  lemma ZigZagInverts(v: int)
    ensures ZigZagDecode(ZigZagEncode(v)) == v
    ensures -TWO_31 <= v < TWO_31 ==> ZigZagEncode(v) % TWO_32 == ZigZagEncode(v)
  {
  }

  lemma SignExtensionInverts(v: int)
    requires -TWO_31 <= v < TWO_31
    ensures Signed(Unsigned(v, TWO_64) % TWO_32, TWO_32) == v
  {
    if v < 0 {
      assert v + TWO_64 == (TWO_32 - 1) * TWO_32 + (v + TWO_32);
      assert (v + TWO_64) % TWO_32 == v + TWO_32;
    }
  }

  lemma ReadNumberBefore(k: Kind, v: int, i: Input)
    requires InRange(k, v) && i.Valid()
    ensures ReadNumber(k, Before(EncodeNumber(k, v), i)) == Read(true, v, i)
  {
    Pow256Words();
    TransformInvertsRaw(k, v);
    match Form(k) {
      case Varint32 | Varint64 => ReadVarintBefore(Raw(k, v), i);
      case Word32 => ReadLEBefore(Raw(k, v), 4, i);
      case Word64 => ReadLEBefore(Raw(k, v), 8, i);
    }
  }

  // ------------------------------------------------------------ packed runs

  predicate AllInRange(k: Kind, vs: seq<int>) {
    forall v :: v in vs ==> InRange(k, v)
  }

  /** The payload of a packed field. */
  function EncodeNumbers(k: Kind, vs: seq<int>): (s: bytes)
    requires AllInRange(k, vs)
    ensures |s| >= |vs|
  {
    if vs == [] then [] else EncodeNumber(k, vs[0]) + EncodeNumbers(k, vs[1..])
  }

  function NumbersSize(k: Kind, vs: seq<int>): nat
    requires AllInRange(k, vs)
  {
    if vs == [] then 0 else NumberSize(k, vs[0]) + NumbersSize(k, vs[1..])
  }

  lemma {:induction false} NumbersSizeIsLength(k: Kind, vs: seq<int>)
    requires AllInRange(k, vs)
    ensures NumbersSize(k, vs) == |EncodeNumbers(k, vs)|
  {
    if vs != [] {
      NumberSizeIsLength(k, vs[0]);
      NumbersSizeIsLength(k, vs[1..]);
    }
  }

  /** The loop of a packed field: numbers are read until the limit is reached. */
  function ReadPacked(k: Kind, i: Input): (r: Read<seq<int>>)
    requires k.IsNumeric() && i.Valid()
    ensures r.rest.Valid() && |r.rest.data| <= |i.data|
    ensures AllInRange(k, r.value)
    decreases |i.data|
  {
    if !i.BytesUntilLimit() then Read(true, [], i)
    else
      var one := ReadNumber(k, i);
      if !one.ok then Read(false, [], one.rest)
      else
        var more := ReadPacked(k, one.rest);
        Read(more.ok, [one.value] + more.value, more.rest)
  }

  lemma {:induction false} ReadPackedInvertsEncode(k: Kind, vs: seq<int>, i: Input)
    requires AllInRange(k, vs) && k.IsNumeric()
    requires i == Input(EncodeNumbers(k, vs), |EncodeNumbers(k, vs)|, true)
    ensures ReadPacked(k, i) == Read(true, vs, Input([], 0, true))
  {
    if vs != [] {
      var tail := EncodeNumbers(k, vs[1..]);
      var j := Input(tail, |tail|, true);
      assert i == Before(EncodeNumber(k, vs[0]), j);
      ReadNumberBefore(k, vs[0], j);
      ReadPackedInvertsEncode(k, vs[1..], j);
      assert [vs[0]] + vs[1..] == vs;
    }
  }

  // ------------------------------------------------------- the loop, round by round

  /** The loop that reads `whole` has read `xs` and goes on at `i`. */
  ghost predicate PackedSoFar(k: Kind, whole: Read<seq<int>>, xs: seq<int>, i: Input)
    requires k.IsNumeric() && i.Valid()
  {
    var r := ReadPacked(k, i);
    whole.ok == r.ok && whole.rest == r.rest && whole.value == xs + r.value
  }

  lemma PackedStarts(k: Kind, i: Input)
    requires k.IsNumeric() && i.Valid()
    ensures PackedSoFar(k, ReadPacked(k, i), [], i)
  {
    assert [] + ReadPacked(k, i).value == ReadPacked(k, i).value;
  }

  lemma PackedGoesOn(k: Kind, whole: Read<seq<int>>, xs: seq<int>, i: Input)
    requires k.IsNumeric() && i.Valid() && i.BytesUntilLimit() && PackedSoFar(k, whole, xs, i)
    ensures var one := ReadNumber(k, i);
            if one.ok then PackedSoFar(k, whole, xs + [one.value], one.rest) else !whole.ok
  {
    hide ReadNumber;
    var one := ReadNumber(k, i);
    if one.ok {
      var more := ReadPacked(k, one.rest);
      assert xs + ([one.value] + more.value) == xs + [one.value] + more.value;
    }
  }

  lemma PackedStops(k: Kind, whole: Read<seq<int>>, xs: seq<int>, i: Input)
    requires k.IsNumeric() && i.Valid() && !i.BytesUntilLimit() && PackedSoFar(k, whole, xs, i)
    ensures whole == Read(true, xs, i)
  {
    assert xs + [] == xs;
  }
}
