/** The zero-copy stream over the slices of a byte buffer. */
module SliceStream {
  import opened Wire

  function Flatten(slices: seq<bytes>): bytes {
    if slices == [] then [] else slices[0] + Flatten(slices[1..])
  }

  lemma {:induction false} FlattenAppend(a: seq<bytes>, b: seq<bytes>)
    ensures Flatten(a + b) == Flatten(a) + Flatten(b)
  {
    if a == [] {
      assert a + b == b;
    } else {
      assert (a + b)[1..] == a[1..] + b;
      FlattenAppend(a[1..], b);
      assert a[0] + (Flatten(a[1..]) + Flatten(b)) == a[0] + Flatten(a[1..]) + Flatten(b);
    }
  }

  lemma FlattenNext(slices: seq<bytes>, k: nat)
    requires k < |slices|
    ensures Flatten(slices[..k + 1]) == Flatten(slices[..k]) + slices[k]
  {
    assert slices[..k + 1] == slices[..k] + [slices[k]];
    FlattenAppend(slices[..k], [slices[k]]);
    assert Flatten([slices[k]]) == slices[k] + [];
  }

  lemma FlattenSplit(slices: seq<bytes>, k: nat)
    requires k <= |slices|
    ensures Flatten(slices) == Flatten(slices[..k]) + Flatten(slices[k..])
  {
    assert slices == slices[..k] + slices[k..];
    FlattenAppend(slices[..k], slices[k..]);
  }

  /** Slice `k` from `offset` on, found in the concatenation. */
  lemma ChunkAt(slices: seq<bytes>, k: nat, offset: nat)
    requires k < |slices| && offset <= |slices[k]|
    ensures var p, q := |Flatten(slices[..k])| + offset, |Flatten(slices[..k + 1])|;
            p <= q <= |Flatten(slices)| && q - p == |slices[k]| - offset && Flatten(slices)[p..q] == slices[k][offset..]
  {
    hide Flatten;
    FlattenNext(slices, k);
    FlattenSplit(slices, k + 1);
  }

  class MultiSliceInputStream {
    const slices: seq<bytes>
    var sliceIndex: nat
    var offsetInSlice: nat
    var byteCount: int

    /** How much of the last call's chunk may still be backed up over: the size of the chunk
        after Next, nothing after any other call. */
    ghost var returnable: int

    ghost predicate Valid()
      reads this
    {
      && sliceIndex <= |slices|
      && offsetInSlice <= (if sliceIndex < |slices| then |slices[sliceIndex]| else 0)
      && byteCount == |Flatten(slices[..sliceIndex])| + offsetInSlice
      && -1 <= returnable
      && (returnable >= 0 ==> offsetInSlice == 0 && 0 < sliceIndex && returnable <= |slices[sliceIndex - 1]|)
    }

    /** ByteCount(): how many of the concatenated bytes have been handed out. */
    ghost function Position(): (p: nat)
      requires Valid()
      reads this
      ensures p <= |Flatten(slices)|
    {
      PositionInRange();
      byteCount
    }

    lemma PositionInRange()
      requires Valid()
      ensures 0 <= byteCount <= |Flatten(slices)|
      ensures sliceIndex == |slices| ==> byteCount == |Flatten(slices)|
    {
      hide Flatten;
      if sliceIndex < |slices| {
        ChunkAt(slices, sliceIndex, offsetInSlice);
      } else {
        assert slices[..sliceIndex] == slices;
      }
    }

    constructor (slices: seq<bytes>)
      ensures Valid() && this.slices == slices && Position() == 0 && returnable == -1
    {
      this.slices := slices;
      sliceIndex, offsetInSlice, byteCount := 0, 0, 0;
      returnable := -1;
      new;
      assert slices[..0] == [];
    }

    /** Hands out the next non-empty stretch of the concatenated bytes, skipping empty slices;
        fails only at their end. */
    method Next() returns (more: bool, data: bytes)
      requires Valid()
      modifies this
      ensures Valid()
      ensures more <==> old(Position()) < |Flatten(slices)|
      ensures more ==> data != [] && Position() == old(Position()) + |data|
                       && data == Flatten(slices)[old(Position())..Position()] && returnable == |data|
      ensures !more ==> data == [] && Position() == old(Position()) && returnable == -1
    {
      hide Flatten;
      ghost var p := Position();
      returnable := -1;
      while sliceIndex < |slices|
        invariant Valid() && Position() == p && returnable == -1
        decreases |slices| - sliceIndex
      {
        var s := slices[sliceIndex];
        var remaining := |s| - offsetInSlice;
        ChunkAt(slices, sliceIndex, offsetInSlice);
        if remaining > 0 {
          data := s[offsetInSlice..];
          byteCount := byteCount + remaining;
          sliceIndex := sliceIndex + 1;
          offsetInSlice := 0;
          returnable := remaining;
          return true, data;
        }
        sliceIndex := sliceIndex + 1;
        offsetInSlice := 0;
      }
      PositionInRange();
      return false, [];
    }

    /** Returns the last `count` bytes of the chunk that Next just handed out. */
    method BackUp(count: nat)
      requires Valid() && count <= returnable
      modifies this
      ensures Valid() && Position() == old(Position()) - count && returnable == -1
    {
      FlattenNext(slices, sliceIndex - 1);
      byteCount := byteCount - count;
      sliceIndex := sliceIndex - 1;
      offsetInSlice := |slices[sliceIndex]| - count;
      returnable := -1;
    }

    /** Passes over `count` bytes, or over all that is left. */
    method Skip(count: nat) returns (ok: bool)
      requires Valid()
      modifies this
      ensures Valid() && returnable == -1
      ensures ok <==> old(Position()) + count <= |Flatten(slices)|
      ensures Position() == if ok then old(Position()) + count else |Flatten(slices)|
    {
      hide Flatten;
      ghost var p := Position();
      var left := count;
      returnable := -1;
      while left > 0 && sliceIndex < |slices|
        invariant Valid() && returnable == -1
        invariant 0 <= left <= count && Position() == p + count - left
        decreases |slices| - sliceIndex, left
      {
        var remaining := |slices[sliceIndex]| - offsetInSlice;
        ChunkAt(slices, sliceIndex, offsetInSlice);
        if left < remaining {
          offsetInSlice := offsetInSlice + left;
          byteCount := byteCount + left;
          left := 0;
        } else {
          byteCount := byteCount + remaining;
          left := left - remaining;
          sliceIndex := sliceIndex + 1;
          offsetInSlice := 0;
        }
      }
      PositionInRange();
      return left == 0;
    }
  }
}
