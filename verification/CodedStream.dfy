/** The coded input stream: reads the concatenated slices one chunk at a time and refines
    the reading functions of Wire. Where the slices were cut is invisible. */
module CodedStream {
  import opened Wire
  import opened Schema
  import opened Numeric
  import opened SliceStream

  function Min(a: int, b: int): int { if a < b then a else b }

  /** The view from position `p` of the bytes `all` with the current limit at `limit`. */
  function At(all: bytes, p: nat, limit: int): (i: Input)
    requires p <= |all| && p <= limit
    ensures i.Valid()
  {
    Input(all[p..Min(limit, |all|)], limit - p, limit != INT_MAX)
  }

  lemma AtSkips(all: bytes, p: nat, limit: int, k: nat)
    requires p <= |all| && p <= limit && k <= |At(all, p, limit).data|
    ensures At(all, p, limit).Skip(k) == At(all, p + k, limit)
  {
  }

  lemma AtPushed(all: bytes, p: nat, limit: int, length: nat)
    requires p <= |all| && p <= limit <= INT_MAX
    ensures At(all, p, limit).Push(length)
         == if length <= INT_MAX && length < limit - p then At(all, p, p + length) else At(all, p, limit)
  {
    if length <= INT_MAX && length < limit - p && p + length <= |all| {
      PrefixOfSlice(all, p, Min(limit, |all|), length);
    }
  }

  lemma PrefixOfSlice(s: bytes, a: nat, b: nat, n: nat)
    requires a + n <= b <= |s|
    ensures s[a..b][..n] == s[a..a + n]
  {
  }

  lemma PopAtPushed(all: bytes, p: nat, limit: int, inner: int, q: nat)
    requires p <= q <= |all| && q <= inner <= limit
    ensures |At(all, q, inner).data| <= |At(all, p, inner).data| <= |At(all, p, limit).data|
    ensures At(all, p, limit).Pop(At(all, p, inner), At(all, q, inner)) == At(all, q, limit)
  {
    AtSkips(all, p, limit, q - p);
  }

  class CodedInputStream {
    const source: MultiSliceInputStream
    ghost const all: bytes
    var buffer: bytes
    var bufferPos: nat
    var position: nat
    var limit: int
    var legitimateEnd: bool

    ghost predicate Valid()
      reads this`buffer, this`bufferPos, this`position, this`limit, source
    {
      && source.Valid() && all == Flatten(source.slices) && |all| < INT_MAX
      && bufferPos <= |buffer|
      && position <= limit <= INT_MAX
      && position + |buffer| - bufferPos == source.Position()
      && buffer[bufferPos..] == all[position..source.Position()]
    }

    ghost function In(): (i: Input)
      requires Valid()
      reads this`buffer, this`bufferPos, this`position, this`limit, source
      ensures i.Valid()
    {
      At(all, position, limit)
    }

    constructor (source: MultiSliceInputStream)
      requires source.Valid() && source.Position() == 0 && |Flatten(source.slices)| < INT_MAX
      ensures Valid() && this.source == source && all == Flatten(source.slices)
      ensures In() == Whole(all) && !legitimateEnd
    {
      this.source := source;
      all := Flatten(source.slices);
      buffer, bufferPos, position, limit, legitimateEnd := [], 0, 0, INT_MAX, false;
    }

    /** The next byte before the limit. */
    method ReadByte() returns (ok: bool, b: byte)
      requires Valid()
      modifies this`buffer, this`bufferPos, this`position, source
      ensures Valid()
      ensures ok <==> old(In()).data != []
      ensures ok ==> b == old(In()).data[0] && In() == old(In()).Skip(1)
      ensures !ok ==> In() == old(In())
    {
      var end := AtEnd();
      if end {
        return false, 0;
      }
      b := buffer[bufferPos];
      Aligned(buffer, bufferPos, all, position, source.Position());
      AtSkips(all, position, limit, 1);
      bufferPos, position := bufferPos + 1, position + 1;
      return true, b;
    }

    /** Whether a limit or the end of the stream has been reached; fetches another chunk when
        the current one is used up. */
    method AtEnd() returns (end: bool)
      requires Valid()
      modifies this`buffer, this`bufferPos, source
      ensures Valid() && end == (In().data == []) && In() == old(In())
      ensures !end ==> bufferPos < |buffer|
    {
      if position == limit {
        return true;
      }
      if bufferPos == |buffer| {
        var more, chunk := source.Next();
        buffer, bufferPos := chunk, 0;
        return !more;
      }
      return false;
    }

    /** The unread part of the chunk starts with the next byte of the stream. */
    lemma Aligned(chunk: bytes, k: nat, all: bytes, p: nat, q: nat)
      requires k < |chunk| && p <= q <= |all| && chunk[k..] == all[p..q]
      ensures p < q && chunk[k] == all[p] && chunk[k + 1..] == all[p + 1..q]
    {
      assert chunk[k..][0] == all[p..q][0];
      assert chunk[k..][1..] == all[p..q][1..];
    }

    /** At most ten bytes, seven bits each, least significant first. */
    method ScanVarint() returns (ok: bool, value: nat)
      requires Valid()
      modifies this`buffer, this`bufferPos, this`position, source
      ensures Valid()
      ensures var s := Wire.ScanVarint(old(In()).data, MAX_VARINT_BYTES);
              ok == s.ok && (ok ==> value == s.value) && In() == old(In()).Skip(s.used)
    {
      hide At, Valid, Wire.ScanVarint, Continues, Accumulate, Input.Skip;
      ghost var first := In();
      ghost var s := Wire.ScanVarint(first.data, MAX_VARINT_BYTES);
      StartScan(first);
      var count, weight := 0, 1;
      value := 0;
      while count < MAX_VARINT_BYTES
        invariant Valid() && count <= MAX_VARINT_BYTES && weight > 0
        invariant count <= |first.data| && In() == first.Skip(count)
        invariant Continues(s, value, weight, count, Wire.ScanVarint(In().data, MAX_VARINT_BYTES - count))
      {
        ghost var here := In();
        var more, b := ReadByte();
        ScanStep(here.data, MAX_VARINT_BYTES - count);
        if !more {
          FailedScan(s, value, weight, count);
          return false, value;
        }
        SkipOne(first, count);
        if b < 128 {
          FinalStep(s, value, weight, count, b);
          return true, Accumulate(value, weight, b);
        }
        ContinueStep(s, value, weight, count, b, Wire.ScanVarint(In().data, MAX_VARINT_BYTES - count - 1));
        value := Accumulate(value, weight, b);
        weight := weight * 128;
        count := count + 1;
      }
      ScanStep(In().data, 0);
      FailedScan(s, value, weight, count);
      return false, value;
    }

    function Accumulate(value: nat, weight: nat, b: byte): nat { value + weight * (b % 128) }

    /** `s` is what has been accumulated so far, continued by `rest`. */
    ghost predicate Continues(s: Scan, value: nat, weight: nat, count: nat, rest: Scan) {
      s.ok == rest.ok && s.value == value + weight * rest.value && s.used == count + rest.used
    }

    lemma ContinueStep(s: Scan, value: nat, weight: nat, count: nat, b: byte, rest: Scan)
      requires b >= 128 && Continues(s, value, weight, count, Scan(rest.ok, b - 128 + 128 * rest.value, 1 + rest.used))
      ensures Continues(s, Accumulate(value, weight, b), weight * 128, count + 1, rest)
    {
      var low, high := b - 128, rest.value;
      assert weight * (low + 128 * high) == weight * low + (weight * 128) * high;
    }

    lemma FinalStep(s: Scan, value: nat, weight: nat, count: nat, b: byte)
      requires b < 128 && Continues(s, value, weight, count, Scan(true, b, 1))
      ensures s == Scan(true, Accumulate(value, weight, b), count + 1)
    {
    }

    lemma FailedScan(s: Scan, value: nat, weight: nat, count: nat)
      requires Continues(s, value, weight, count, Scan(false, 0, 0))
      ensures !s.ok && s.used == count
    {
    }

    lemma ScanStep(s: bytes, room: nat)
      ensures Wire.ScanVarint(s, room)
           == if room == 0 || s == [] then Scan(false, 0, 0)
              else if s[0] < 128 then Scan(true, s[0], 1)
              else var r := Wire.ScanVarint(s[1..], room - 1); Scan(r.ok, s[0] - 128 + 128 * r.value, 1 + r.used)
    {
    }

    lemma StartScan(i: Input)
      requires i.Valid()
      ensures i.Skip(0) == i
      ensures var s := Wire.ScanVarint(i.data, MAX_VARINT_BYTES); Continues(s, 0, 1, 0, s)
    {
    }

    lemma SkipOne(i: Input, k: nat)
      requires i.Valid() && k <= |i.data| && i.Skip(k).data != []
      ensures k < |i.data| && i.Skip(k).data[0] == i.data[k]
      ensures i.Skip(k).Skip(1) == i.Skip(k + 1) && i.Skip(k).Skip(1).data == i.Skip(k).data[1..]
    {
    }

    method ReadVarint64() returns (ok: bool, value: nat)
      requires Valid()
      modifies this`buffer, this`bufferPos, this`position, source
      ensures Valid()
      ensures var r := Wire.ReadVarint64(old(In())); ok == r.ok && (ok ==> value == r.value) && In() == r.rest
    {
      hide At, Valid, Wire.ScanVarint;
      ok, value := ScanVarint();
      value := value % TWO_64;
    }

    method ReadVarint32() returns (ok: bool, value: nat)
      requires Valid()
      modifies this`buffer, this`bufferPos, this`position, source
      ensures Valid() && value < TWO_32
      ensures var r := Wire.ReadVarint32(old(In())); ok == r.ok && (ok ==> value == r.value) && In() == r.rest
    {
      hide At, Valid, Wire.ScanVarint;
      ok, value := ScanVarint();
      value := value % TWO_32;
    }

    method ReadTag() returns (tag: nat)
      requires Valid()
      modifies this`buffer, this`bufferPos, this`position, this`legitimateEnd, source
      ensures Valid()
      ensures var t := Wire.ReadTag(old(In()));
              tag == t.tag && In() == t.rest && legitimateEnd == (old(legitimateEnd) || t.atEnd)
    {
      hide At, Valid, Wire.ReadVarint32;
      var atEnd := AtEnd();
      if atEnd {
        legitimateEnd := true;
        return 0;
      }
      var ok, value := ReadVarint32();
      return if ok then value else 0;
    }

    /** `n` bytes, or all that is left and failure. */
    method ReadRaw(n: nat) returns (ok: bool, s: bytes)
      requires Valid()
      modifies this`buffer, this`bufferPos, this`position, source
      ensures Valid()
      ensures var r := Wire.ReadString(old(In()), n); ok == r.ok && (ok ==> s == r.value) && In() == r.rest
    {
      hide At, Valid;
      ghost var first := In();
      s := [];
      while |s| < n
        invariant Valid() && |s| <= n && |s| <= |first.data|
        invariant s == first.data[..|s|] && In() == first.Skip(|s|)
      {
        var more, b := ReadByte();
        if !more {
          return false, s;
        }
        SkipOne(first, |s|);
        s := s + [b];
      }
      return true, s;
    }

    /** ReadLittleEndian32 and ReadLittleEndian64. */
    method ReadLittleEndian(width: nat) returns (ok: bool, value: nat)
      requires Valid()
      modifies this`buffer, this`bufferPos, this`position, source
      ensures Valid()
      ensures var r := Wire.ReadLE(old(In()), width); ok == r.ok && (ok ==> value == r.value) && In() == r.rest
    {
      hide At, Valid;
      var s;
      ok, s := ReadRaw(width);
      value := DecodeLE(s);
    }

    /** A length, refused above INT_MAX, and that many bytes. */
    method ReadLengthDelimited() returns (ok: bool, s: bytes)
      requires Valid()
      modifies this`buffer, this`bufferPos, this`position, source
      ensures Valid()
      ensures var r := Wire.ReadLengthDelimited(old(In())); ok == r.ok && (ok ==> s == r.value) && In() == r.rest
    {
      hide At, Valid, Wire.ReadVarint32;
      var n;
      ok, n := ReadVarint32();
      if !ok || n > INT_MAX {
        return false, [];
      }
      ok, s := ReadRaw(n);
    }

    /** BytesUntilLimit() > 0. */
    method HasBytesUntilLimit() returns (more: bool)
      requires Valid()
      ensures more == In().BytesUntilLimit()
    {
      return limit != INT_MAX && limit > position;
    }

    /** Returns the limit to restore. */
    method PushLimit(length: nat) returns (outer: int)
      requires Valid()
      modifies this`limit
      ensures Valid() && outer == old(limit) && limit <= outer
      ensures In() == old(In()).Push(length)
    {
      AtPushed(all, position, limit, length);
      outer := limit;
      if length <= INT_MAX && length < limit - position {
        limit := position + length;
      }
    }

    method PopLimit(outer: int)
      requires Valid() && limit <= outer <= INT_MAX
      modifies this`limit, this`legitimateEnd
      ensures Valid() && limit == outer && !legitimateEnd
      ensures In() == At(all, position, outer)
    {
      limit, legitimateEnd := outer, false;
    }

    /** One number of kind `k`: the traits' Read and Transform. */
    method ReadNumber(k: Kind) returns (ok: bool, v: int)
      requires Valid() && k.IsNumeric()
      modifies this`buffer, this`bufferPos, this`position, source
      ensures Valid()
      ensures var r := Numeric.ReadNumber(k, old(In())); ok == r.ok && (ok ==> v == r.value) && In() == r.rest
    {
      hide At, Valid, Wire.ReadVarint32, Wire.ReadVarint64, Wire.ReadLE, Transform;
      var raw;
      match Form(k) {
        case Varint32 => ok, raw := ReadVarint32();
        case Varint64 => ok, raw := ReadVarint64();
        case Word32 => ok, raw := ReadLittleEndian(4);
        case Word64 => ok, raw := ReadLittleEndian(8);
      }
      assert var r := Numeric.ReadRaw(Form(k), old(In())); ok == r.ok && (ok ==> raw == r.value);
      v := if ok then Transform(k, raw) else 0;
    }
  }
}
