/** The memory layout of clusters (64-bit, alignment active): sizes, alignments and offsets
    as functions of the message types, and what they guarantee. */
module Layout {
  import opened Schema

  const POINTER_SIZE: nat := 8

  /** Types may only embed types of lower rank, so the recursion below ends; the rank itself
      plays no part in the result. */
  type Rank = string -> nat

  predicate EmbedsCluster(f: Field) {
    f.kind == MessageValue && f.WellKnown() == NotWellKnown
  }

  /** What FinalizeMetadata relies on: embedded names resolve, no message contains itself
      directly or indirectly, and singular embedded messages have elements. */
  ghost predicate Layable(types: map<string, MessageType>, rank: Rank) {
    forall name, f :: name in types && f in types[name] && EmbedsCluster(f) ==>
      && f.embedded in types && rank(f.embedded) < rank(name)
      && (!f.repeated ==> types[f.embedded] != [])
  }

  /** AlignClusterOffset. */
  function Align(offset: nat, alignment: nat): (r: nat)
    requires alignment > 0
    ensures offset <= r < offset + alignment && r % alignment == 0
  {
    var remainder := offset % alignment;
    if remainder == 0 then offset else AlignUp(offset, alignment); offset + alignment - remainder
  }

  lemma AlignUp(offset: nat, alignment: nat)
    requires alignment > 0
    ensures (offset + alignment - offset % alignment) % alignment == 0
  {
    MultipleIsAligned(offset / alignment + 1, alignment);
    assert (offset / alignment + 1) * alignment == offset - offset % alignment + alignment;
  }

  lemma ProductAtLeast(n: nat, a: nat)
    requires n >= 1
    ensures n * a >= a
  {
  }

  lemma Opposite(n: int, a: nat)
    ensures (-n) * a == -(n * a)
  {
  }

  lemma MultipleIsAligned(q: nat, a: nat)
    requires a > 0
    ensures (q * a) % a == 0
  {
    var x := q * a;
    var d, r := x / a, x % a;
    assert r == (q - d) * a;
    if q > d { ProductAtLeast(q - d, a); }
    if d > q {
      ProductAtLeast(d - q, a);
      Opposite(q - d, a);
    }
  }

  ghost predicate IsAligned(x: nat, a: nat) { a > 0 && x % a == 0 }

  /** ClusterElementSize for everything but singular messages, which take their own size. */
  function ElementSize(k: Kind, repeated: bool): nat {
    if repeated then POINTER_SIZE
    else
      match k
      case BoolValue => 1
      case Int32Value | UInt32Value | EnumValue | FloatValue | SFixed32Value | SInt32Value | Fixed32Value => 4
      case Int64Value | UInt64Value | DoubleValue | SFixed64Value | SInt64Value | Fixed64Value => 8
      case StringValue | BytesValue | MessageValue => POINTER_SIZE
  }

  datatype Extent = Extent(size: nat, alignment: nat)

  /** Size and alignment of one element. */
  ghost function ExtentOf(types: map<string, MessageType>, rank: Rank, name: string, f: Field): Extent
    requires Layable(types, rank) && name in types && f in types[name]
    decreases rank(name), 0, 0
  {
    if EmbedsCluster(f) && !f.repeated then ClusterExtent(types, rank, f.embedded)
    else Extent(ElementSize(f.kind, f.repeated), ElementSize(f.kind, f.repeated))
  }

  /** Where the first `k` elements end. */
  ghost function EndOf(types: map<string, MessageType>, rank: Rank, name: string, k: nat): nat
    requires Layable(types, rank) && name in types && k <= |types[name]|
    decreases rank(name), 1, k
  {
    if k == 0 then 0
    else
      OffsetOf(types, rank, name, k - 1) + ExtentOf(types, rank, name, types[name][k - 1]).size
  }

  ghost function OffsetOf(types: map<string, MessageType>, rank: Rank, name: string, k: nat): nat
    requires Layable(types, rank) && name in types && k < |types[name]|
    decreases rank(name), 1, k + 1, 0
  {
    var a := ExtentOf(types, rank, name, types[name][k]).alignment;
    if a == 0 then 0 else Align(EndOf(types, rank, name, k), a)
  }

  ghost function MaxAlignment(types: map<string, MessageType>, rank: Rank, name: string, k: nat): nat
    requires Layable(types, rank) && name in types && k <= |types[name]|
    decreases rank(name), 1, k
  {
    if k == 0 then 0
    else
      var m, a := MaxAlignment(types, rank, name, k - 1), ExtentOf(types, rank, name, types[name][k - 1]).alignment;
      if m < a then a else m
  }

  /** clusterSize and alignmentRequirement of a message. */
  ghost function ClusterExtent(types: map<string, MessageType>, rank: Rank, name: string): Extent
    requires Layable(types, rank) && name in types
    decreases rank(name), 2
  {
    var n := |types[name]|;
    var a := MaxAlignment(types, rank, name, n);
    if n == 0 || a == 0 then Extent(0, 0)
    else Extent(Align(EndOf(types, rank, name, n), a), a)
  }

  /** What FinalizeMetadata leaves in a message's metadata. */
  datatype ClusterLayout = ClusterLayout(extent: Extent, offsets: seq<nat>)

  ghost function LayoutOf(types: map<string, MessageType>, rank: Rank, name: string): ClusterLayout
    requires Layable(types, rank) && name in types
  {
    ClusterLayout(ClusterExtent(types, rank, name),
      seq(|types[name]|, k requires 0 <= k < |types[name]| => OffsetOf(types, rank, name, k)))
  }

  // ------------------------------------------------------------------- soundness

  predicate IsAlignment(a: nat) { a in {1, 4, 8} }

  lemma AlignmentsDivide(a: nat, b: nat, x: nat)
    requires IsAlignment(a) && IsAlignment(b) && a <= b && IsAligned(x, b)
    ensures IsAligned(x, a)
  {
  }

  /** A message with elements has a positive size, a power-of-two alignment, and a size that
      is a multiple of it. So a non-zero clusterSize marks the message as laid out. */
  lemma {:induction false} ClusterIsSound(types: map<string, MessageType>, rank: Rank, name: string)
    requires Layable(types, rank) && name in types && types[name] != []
    ensures var e := ClusterExtent(types, rank, name);
            e.size > 0 && IsAlignment(e.alignment) && IsAligned(e.size, e.alignment)
            && EndOf(types, rank, name, |types[name]|) <= e.size
    decreases rank(name), 2
  {
    PrefixIsSound(types, rank, name, |types[name]|);
  }

  lemma {:induction false} ElementIsSound(types: map<string, MessageType>, rank: Rank, name: string, f: Field)
    requires Layable(types, rank) && name in types && f in types[name]
    ensures var e := ExtentOf(types, rank, name, f);
            e.size > 0 && IsAlignment(e.alignment) && IsAligned(e.size, e.alignment)
    decreases rank(name), 0
  {
    if EmbedsCluster(f) && !f.repeated { ClusterIsSound(types, rank, f.embedded); }
  }

  lemma {:induction false} PrefixIsSound(types: map<string, MessageType>, rank: Rank, name: string, k: nat)
    requires Layable(types, rank) && name in types && 0 < k <= |types[name]|
    ensures IsAlignment(MaxAlignment(types, rank, name, k)) && EndOf(types, rank, name, k) > 0
    decreases rank(name), 1, k
  {
    ElementIsSound(types, rank, name, types[name][k - 1]);
    if k > 1 { PrefixIsSound(types, rank, name, k - 1); }
  }

  /** Element `k` is aligned, begins where or after the one before it ends, ends inside the
      cluster, and its alignment divides the cluster's. */
  lemma {:induction false} ElementIsPlaced(types: map<string, MessageType>, rank: Rank, name: string, k: nat)
    requires Layable(types, rank) && name in types && k < |types[name]|
    ensures var e, c := ExtentOf(types, rank, name, types[name][k]), ClusterExtent(types, rank, name);
            var o := OffsetOf(types, rank, name, k);
            && e.size > 0 && IsAlignment(e.alignment) && IsAligned(o, e.alignment)
            && EndOf(types, rank, name, k) <= o && EndOf(types, rank, name, k + 1) == o + e.size <= c.size
            && e.alignment <= c.alignment && IsAlignment(c.alignment)
  {
    ElementIsSound(types, rank, name, types[name][k]);
    ClusterIsSound(types, rank, name);
    EndsAscend(types, rank, name, k + 1, |types[name]|);
    AlignmentsAscend(types, rank, name, k + 1, |types[name]|);
  }

  lemma {:induction false} EndsAscend(types: map<string, MessageType>, rank: Rank, name: string, j: nat, k: nat)
    requires Layable(types, rank) && name in types && j <= k <= |types[name]|
    ensures EndOf(types, rank, name, j) <= EndOf(types, rank, name, k)
    decreases k
  {
    if j < k {
      ElementIsSound(types, rank, name, types[name][k - 1]);
      EndsAscend(types, rank, name, j, k - 1);
    }
  }

  lemma {:induction false} AlignmentsAscend(types: map<string, MessageType>, rank: Rank, name: string, j: nat, k: nat)
    requires Layable(types, rank) && name in types && j <= k <= |types[name]|
    ensures MaxAlignment(types, rank, name, j) <= MaxAlignment(types, rank, name, k)
    decreases k
  {
    if j < k { AlignmentsAscend(types, rank, name, j, k - 1); }
  }

  // ------------------------------------------------------------ in numbers

  /** Size and alignment of every element but singular clusters: pointers take eight bytes. */
  lemma ElementExtents(types: map<string, MessageType>, rank: Rank, name: string, f: Field)
    requires Layable(types, rank) && name in types && f in types[name]
    ensures f.repeated || f.kind.IsText() || (f.kind.MessageValue? && !EmbedsCluster(f)) ==>
              ExtentOf(types, rank, name, f) == Extent(8, 8)
    ensures !f.repeated && f.kind.BoolValue? ==> ExtentOf(types, rank, name, f) == Extent(1, 1)
    ensures !f.repeated && f.kind in {Int32Value, UInt32Value, EnumValue, FloatValue, SFixed32Value, SInt32Value, Fixed32Value} ==>
              ExtentOf(types, rank, name, f) == Extent(4, 4)
    ensures !f.repeated && f.kind in {Int64Value, UInt64Value, DoubleValue, SFixed64Value, SInt64Value, Fixed64Value} ==>
              ExtentOf(types, rank, name, f) == Extent(8, 8)
    ensures !f.repeated && EmbedsCluster(f) ==> ExtentOf(types, rank, name, f) == ClusterExtent(types, rank, f.embedded)
  {
  }

  /** A bool and a text: the pointer is at 8, and the cluster takes 16. */
  lemma BoolThenText(types: map<string, MessageType>, rank: Rank, name: string, f: Field, g: Field)
    requires Layable(types, rank) && name in types && types[name] == [f, g]
    requires f.kind.BoolValue? && !f.repeated && g.kind.IsText() && !g.repeated
    ensures OffsetOf(types, rank, name, 0) == 0 && OffsetOf(types, rank, name, 1) == 8
    ensures ClusterExtent(types, rank, name) == Extent(16, 8)
  {
    assert ExtentOf(types, rank, name, f) == Extent(1, 1) && ExtentOf(types, rank, name, g) == Extent(8, 8);
    assert EndOf(types, rank, name, 0) == 0 && OffsetOf(types, rank, name, 0) == Align(0, 1) == 0;
    assert EndOf(types, rank, name, 1) == 1;
    assert OffsetOf(types, rank, name, 1) == Align(1, 8) == 8;
    assert EndOf(types, rank, name, 2) == 16;
    assert MaxAlignment(types, rank, name, 0) == 0 && MaxAlignment(types, rank, name, 1) == 1;
    assert MaxAlignment(types, rank, name, 2) == 8;
  }

  /** Nothing is wasted: each element is at the first aligned place behind the one before, the
      cluster has the alignment of one of its elements and of none a larger one, and it ends at
      the first multiple of that behind the last element. */
  lemma LayoutIsTight(types: map<string, MessageType>, rank: Rank, name: string)
    requires Layable(types, rank) && name in types && types[name] != []
    ensures var c, n := ClusterExtent(types, rank, name), |types[name]|;
            && (forall k :: 0 <= k < n ==> IsTight(types, rank, name, k))
            && (exists k :: 0 <= k < n && ExtentOf(types, rank, name, types[name][k]).alignment == c.alignment)
            && EndOf(types, rank, name, n) <= c.size < EndOf(types, rank, name, n) + c.alignment
            && IsAligned(c.size, c.alignment)
  {
    hide OffsetOf, EndOf, ExtentOf, MaxAlignment, IsTight;
    ClusterIsSound(types, rank, name);
    forall k | 0 <= k < |types[name]| ensures IsTight(types, rank, name, k) { ElementIsTight(types, rank, name, k); }
    var k := LargestAlignment(types, rank, name, |types[name]|);
  }

  /** Element `k` begins less than its alignment behind the one before, and needs no more
      alignment than the cluster has. */
  ghost predicate IsTight(types: map<string, MessageType>, rank: Rank, name: string, k: nat)
    requires Layable(types, rank) && name in types && k < |types[name]|
  {
    var a, o := ExtentOf(types, rank, name, types[name][k]).alignment, OffsetOf(types, rank, name, k);
    && EndOf(types, rank, name, k) <= o < EndOf(types, rank, name, k) + a && IsAligned(o, a)
    && a <= ClusterExtent(types, rank, name).alignment
  }

  lemma ElementIsTight(types: map<string, MessageType>, rank: Rank, name: string, k: nat)
    requires Layable(types, rank) && name in types && k < |types[name]|
    ensures IsTight(types, rank, name, k)
  {
    hide EndOf, ExtentOf, ClusterExtent, MaxAlignment;
    ElementIsPlaced(types, rank, name, k);
  }

  lemma {:induction false} LargestAlignment(types: map<string, MessageType>, rank: Rank, name: string, n: nat) returns (k: nat)
    requires Layable(types, rank) && name in types && 0 < n <= |types[name]|
    ensures k < n && ExtentOf(types, rank, name, types[name][k]).alignment == MaxAlignment(types, rank, name, n)
    decreases n
  {
    hide OffsetOf, EndOf, ExtentOf, ClusterExtent;
    ElementIsSound(types, rank, name, types[name][n - 1]);
    if ExtentOf(types, rank, name, types[name][n - 1]).alignment == MaxAlignment(types, rank, name, n) {
      k := n - 1;
    } else {
      NoAlignment(types, rank, name);
      k := LargestAlignment(types, rank, name, n - 1);
    }
  }

  lemma NoAlignment(types: map<string, MessageType>, rank: Rank, name: string)
    requires Layable(types, rank) && name in types
    ensures MaxAlignment(types, rank, name, 0) == 0
  {
  }

  // --------------------------------------------------------- flattened leaves

  datatype Leaf = Leaf(offset: nat, size: nat, alignment: nat, field: Field)

  /** The leaf elements of a cluster placed at `base`, through singular embedded clusters. */
  ghost function Leaves(types: map<string, MessageType>, rank: Rank, name: string, base: nat, k: nat): seq<Leaf>
    requires Layable(types, rank) && name in types && k <= |types[name]|
    decreases rank(name), k
  {
    if k == 0 then []
    else
      var f, o := types[name][k - 1], base + OffsetOf(types, rank, name, k - 1);
      Leaves(types, rank, name, base, k - 1)
      + if EmbedsCluster(f) && !f.repeated
        then Leaves(types, rank, f.embedded, o, |types[f.embedded]|)
        else [Leaf(o, ElementSize(f.kind, f.repeated), ElementSize(f.kind, f.repeated), f)]
  }

  /** Ascending, disjoint, aligned at their absolute offsets, and within [lo, hi). */
  ghost predicate WellPlaced(ls: seq<Leaf>, lo: nat, hi: nat) {
    && (forall i :: 0 <= i < |ls| ==>
          lo <= ls[i].offset && ls[i].offset + ls[i].size <= hi
          && ls[i].size > 0 && IsAligned(ls[i].offset, ls[i].alignment))
    && (forall i, j :: 0 <= i < j < |ls| ==> ls[i].offset + ls[i].size <= ls[j].offset)
  }

  lemma WellPlacedAppend(a: seq<Leaf>, b: seq<Leaf>, lo: nat, mid: nat, mid': nat, hi: nat)
    requires WellPlaced(a, lo, mid) && WellPlaced(b, mid', hi) && lo <= mid <= mid' <= hi
    ensures WellPlaced(a + b, lo, hi)
  {
  }

  /** Deep layout soundness: every leaf of a cluster at an aligned base, at any nesting depth,
      is aligned, inside the cluster, and disjoint from every other leaf. */
  lemma {:induction false} LeavesAreWellPlaced(types: map<string, MessageType>, rank: Rank, name: string, base: nat, k: nat)
    requires Layable(types, rank) && name in types && k <= |types[name]|
    requires types[name] != [] && IsAligned(base, ClusterExtent(types, rank, name).alignment)
    ensures WellPlaced(Leaves(types, rank, name, base, k), base, base + EndOf(types, rank, name, k))
    decreases rank(name), k + 1
  {
    hide *;
    if k == 0 {
      NoLeaves(types, rank, name, base);
    } else {
      LeavesAreWellPlaced(types, rank, name, base, k - 1);
      LastElementIsAligned(types, rank, name, base, k - 1);
      LeavesOfElement(types, rank, name, base, k - 1);
      LeavesGrow(types, rank, name, base, k - 1);
      ElementIsPlaced(types, rank, name, k - 1);
      var o := base + OffsetOf(types, rank, name, k - 1);
      WellPlacedAppend(Leaves(types, rank, name, base, k - 1), LastLeaves(types, rank, name, base, k - 1), base,
        base + EndOf(types, rank, name, k - 1), o, base + EndOf(types, rank, name, k));
    }
  }

  lemma NoLeaves(types: map<string, MessageType>, rank: Rank, name: string, base: nat)
    requires Layable(types, rank) && name in types
    ensures WellPlaced(Leaves(types, rank, name, base, 0), base, base + EndOf(types, rank, name, 0))
  {
  }

  lemma LeavesGrow(types: map<string, MessageType>, rank: Rank, name: string, base: nat, k: nat)
    requires Layable(types, rank) && name in types && k < |types[name]|
    ensures Leaves(types, rank, name, base, k + 1)
            == Leaves(types, rank, name, base, k) + LastLeaves(types, rank, name, base, k)
  {
    hide OffsetOf, EndOf, ExtentOf, ClusterExtent, MaxAlignment;
  }

  lemma LastElementIsAligned(types: map<string, MessageType>, rank: Rank, name: string, base: nat, k: nat)
    requires Layable(types, rank) && name in types && k < |types[name]|
    requires IsAligned(base, ClusterExtent(types, rank, name).alignment)
    ensures IsAligned(base + OffsetOf(types, rank, name, k), ExtentOf(types, rank, name, types[name][k]).alignment)
  {
    hide OffsetOf, EndOf, ExtentOf, ClusterExtent, MaxAlignment;
    ElementIsPlaced(types, rank, name, k);
    var e, c := ExtentOf(types, rank, name, types[name][k]), ClusterExtent(types, rank, name);
    AlignmentsDivide(e.alignment, c.alignment, base);
    SumIsAligned(base, OffsetOf(types, rank, name, k), e.alignment);
  }

  /** The leaves that element `k` contributes. */
  ghost function LastLeaves(types: map<string, MessageType>, rank: Rank, name: string, base: nat, k: nat): seq<Leaf>
    requires Layable(types, rank) && name in types && k < |types[name]|
  {
    var f, o := types[name][k], base + OffsetOf(types, rank, name, k);
    if EmbedsCluster(f) && !f.repeated then Leaves(types, rank, f.embedded, o, |types[f.embedded]|)
    else [Leaf(o, ElementSize(f.kind, f.repeated), ElementSize(f.kind, f.repeated), f)]
  }

  lemma {:induction false} LeavesOfElement(types: map<string, MessageType>, rank: Rank, name: string, base: nat, k: nat)
    requires Layable(types, rank) && name in types && k < |types[name]|
    requires IsAligned(base + OffsetOf(types, rank, name, k), ExtentOf(types, rank, name, types[name][k]).alignment)
    ensures var o := base + OffsetOf(types, rank, name, k);
            WellPlaced(LastLeaves(types, rank, name, base, k), o, o + ExtentOf(types, rank, name, types[name][k]).size)
    decreases rank(name), 0
  {
    hide OffsetOf, EndOf, ClusterExtent, MaxAlignment, Leaves;
    var f, o := types[name][k], base + OffsetOf(types, rank, name, k);
    ElementIsSound(types, rank, name, f);
    if EmbedsCluster(f) && !f.repeated {
      hide WellPlaced;
      var n := |types[f.embedded]|;
      LeavesAreWellPlaced(types, rank, f.embedded, o, n);
      ClusterIsSound(types, rank, f.embedded);
      Widen(Leaves(types, rank, f.embedded, o, n), o, o + EndOf(types, rank, f.embedded, n),
        o + ClusterExtent(types, rank, f.embedded).size);
    }
  }

  lemma SumIsAligned(x: nat, y: nat, a: nat)
    requires IsAlignment(a) && IsAligned(x, a) && IsAligned(y, a)
    ensures IsAligned(x + y, a)
  {
    var p, q := x / a, y / a;
    assert x == p * a && y == q * a;
    assert x + y == (p + q) * a;
    hide IsAlignment;
    MultipleIsAligned(p + q, a);
  }

  lemma Widen(ls: seq<Leaf>, lo: nat, hi: nat, hi': nat)
    requires WellPlaced(ls, lo, hi) && hi <= hi'
    ensures WellPlaced(ls, lo, hi')
  {
  }

  // ------------------------------------------------- arrays of clusters

  /** LV1DArray::bytes: where element data starts in a block that begins with a 4-byte count. */
  function DataStart(alignment: nat): nat
    requires alignment > 0
  {
    Align(4, alignment)
  }

  /** The number of alignment-sized units that CopyMessageToCluster allocates. */
  function AlignedElementCount(byteSize: nat, alignment: nat): nat
    requires alignment > 0
  {
    byteSize / alignment + if byteSize % alignment != 0 then 1 else 0
  }

  /** Element `x` of an array of `n` clusters: aligned, inside the block, apart from the
      other elements. */
  ghost predicate ElementFits(e: Extent, n: nat, x: nat) {
    && e.alignment > 0
    && 4 <= DataStart(e.alignment) && IsAligned(ElementStart(e, x), e.alignment)
    && ElementStart(e, x) + e.size <= DataStart(e.alignment) + BlockSize(e, n)
    && forall y :: 0 <= y < n && y != x ==> Apart(ElementStart(e, x), ElementStart(e, y), e.size)
  }

  function ElementStart(e: Extent, x: nat): nat
    requires e.alignment > 0
  {
    DataStart(e.alignment) + x * e.size
  }

  /** The bytes that are allocated for `n` clusters. */
  function BlockSize(e: Extent, n: nat): nat
    requires e.alignment > 0
  {
    AlignedElementCount(n * e.size, e.alignment) * e.alignment
  }

  predicate Apart(a: nat, b: nat, size: nat) { a + size <= b || b + size <= a }

  /** In an array of clusters every element is aligned, no two overlap, and all lie within
      the block that was allocated. */
  lemma ArrayElementsAreWellPlaced(types: map<string, MessageType>, rank: Rank, name: string, n: nat, x: nat)
    requires Layable(types, rank) && name in types && types[name] != [] && x < n
    ensures ElementFits(ClusterExtent(types, rank, name), n, x)
  {
    ClusterIsSound(types, rank, name);
    ElementsFit(ClusterExtent(types, rank, name), n, x);
  }

  lemma ElementsFit(e: Extent, n: nat, x: nat)
    requires IsAlignment(e.alignment) && IsAligned(e.size, e.alignment) && x < n
    ensures ElementFits(e, n, x)
  {
    hide AlignedElementCount, IsAlignment;
    var start := DataStart(e.alignment);
    ScaledIsAligned(e.size, x, e.alignment);
    SumIsAligned(start, x * e.size, e.alignment);
    UnitsCover(n * e.size, e.alignment);
    MulMonotone(x + 1, n, e.size);
    ElementsAreApart(start, e.size, n, x);
  }

  lemma ElementsAreApart(start: nat, size: nat, n: nat, x: nat)
    ensures forall y :: 0 <= y < n && y != x ==> Apart(start + x * size, start + y * size, size)
  {
    forall y | 0 <= y < n && y != x ensures Apart(start + x * size, start + y * size, size) {
      if x < y { MulMonotone(x + 1, y, size); } else { MulMonotone(y + 1, x, size); }
    }
  }

  /** The block of an array of clusters has no slack. */
  lemma BlockIsFull(e: Extent, n: nat)
    requires IsAlignment(e.alignment) && IsAligned(e.size, e.alignment)
    ensures BlockSize(e, n) == n * e.size
  {
    ScaledIsAligned(e.size, n, e.alignment);
    assert n * e.size == (n * e.size / e.alignment) * e.alignment;
  }

  /** Before element `x` is copied, a null pointer is stored at its start. */
  predicate NullStoreFits(e: Extent, n: nat, x: nat)
    requires e.alignment > 0
  {
    x * e.size + POINTER_SIZE <= BlockSize(e, n)
  }

  /** The store stays inside the block exactly when the elements from `x` on have room for it. */
  lemma NullStoreReaches(types: map<string, MessageType>, rank: Rank, name: string, n: nat, x: nat)
    requires Layable(types, rank) && name in types && types[name] != [] && x < n
    ensures ClusterExtent(types, rank, name).alignment > 0
    ensures var e := ClusterExtent(types, rank, name); NullStoreFits(e, n, x) <==> (n - x) * e.size >= POINTER_SIZE
  {
    hide ClusterExtent, BlockSize;
    ClusterIsSound(types, rank, name);
    var e := ClusterExtent(types, rank, name);
    BlockIsFull(e, n);
    assert n * e.size == x * e.size + (n - x) * e.size;
  }

  /** All stores into an array of `n` clusters stay inside its block if and only if a cluster
      is at least as large as a pointer. */
  lemma NullStoresStayInside(types: map<string, MessageType>, rank: Rank, name: string, n: nat)
    requires Layable(types, rank) && name in types && types[name] != [] && n > 0
    ensures ClusterExtent(types, rank, name).alignment > 0
    ensures var e := ClusterExtent(types, rank, name);
            (forall x :: 0 <= x < n ==> NullStoreFits(e, n, x)) <==> e.size >= POINTER_SIZE
  {
    hide ClusterExtent, NullStoreFits;
    var e := ClusterExtent(types, rank, name);
    forall x | 0 <= x < n ensures e.alignment > 0 && (NullStoreFits(e, n, x) <==> (n - x) * e.size >= POINTER_SIZE) {
      NullStoreReaches(types, rank, name, n, x);
    }
    assert e.alignment > 0 by { NullStoreReaches(types, rank, name, n, 0); }
    if e.size >= POINTER_SIZE {
      forall x | 0 <= x < n ensures NullStoreFits(e, n, x) { MulMonotone(1, n - x, e.size); }
    } else {
      assert (n - (n - 1)) * e.size == e.size;
      assert !NullStoreFits(e, n, n - 1);
    }
  }

  /** A message of one bool makes clusters of one byte: in an array of them the last seven
      stores, or all if there are fewer, run past the block. */
  lemma BoolClustersOverrun(types: map<string, MessageType>, rank: Rank, name: string, f: Field, n: nat, x: nat)
    requires Layable(types, rank) && name in types && types[name] == [f] && f.kind.BoolValue? && !f.repeated
    requires x < n
    ensures ClusterExtent(types, rank, name) == Extent(1, 1)
    ensures !NullStoreFits(ClusterExtent(types, rank, name), n, x) <==> n - x < 8
  {
    OneBool(types, rank, name, f);
    hide ClusterExtent, NullStoreFits;
    NullStoreReaches(types, rank, name, n, x);
  }

  lemma OneBool(types: map<string, MessageType>, rank: Rank, name: string, f: Field)
    requires Layable(types, rank) && name in types && types[name] == [f] && f.kind.BoolValue? && !f.repeated
    ensures ClusterExtent(types, rank, name) == Extent(1, 1)
  {
    assert ExtentOf(types, rank, name, f) == Extent(1, 1);
    assert MaxAlignment(types, rank, name, 1) == 1;
    assert EndOf(types, rank, name, 0) == 0 && OffsetOf(types, rank, name, 0) == Align(0, 1);
    assert EndOf(types, rank, name, 1) == 1;
  }

  lemma MulMonotone(x: nat, y: nat, s: nat)
    requires 0 < x <= y
    ensures (x - 1) * s + s == x * s <= y * s
  {
  }

  lemma {:induction false} ScaledIsAligned(s: nat, x: nat, a: nat)
    requires IsAlignment(a) && IsAligned(s, a)
    ensures IsAligned(x * s, a)
    decreases x
  {
    if x > 0 {
      ScaledIsAligned(s, x - 1, a);
      assert x * s == (x - 1) * s + s;
      SumIsAligned((x - 1) * s, s, a);
    }
  }

  lemma UnitsCover(byteSize: nat, a: nat)
    requires a > 0
    ensures byteSize <= AlignedElementCount(byteSize, a) * a
  {
    assert byteSize == (byteSize / a) * a + byteSize % a;
    assert (byteSize / a + 1) * a == (byteSize / a) * a + a;
  }

  /** The ranks only witness that the recursion ends. */
  lemma {:induction false} RankIsImmaterial(types: map<string, MessageType>, r: Rank, s: Rank, name: string)
    requires Layable(types, r) && Layable(types, s) && name in types
    ensures ClusterExtent(types, r, name) == ClusterExtent(types, s, name)
    decreases r(name), 2
  {
    PrefixRankIsImmaterial(types, r, s, name, |types[name]|);
  }

  lemma {:induction false} PrefixRankIsImmaterial(types: map<string, MessageType>, r: Rank, s: Rank, name: string, k: nat)
    requires Layable(types, r) && Layable(types, s) && name in types && k <= |types[name]|
    ensures EndOf(types, r, name, k) == EndOf(types, s, name, k)
    ensures MaxAlignment(types, r, name, k) == MaxAlignment(types, s, name, k)
    ensures forall i :: 0 <= i < k ==> OffsetOf(types, r, name, i) == OffsetOf(types, s, name, i)
    decreases r(name), 1, k
  {
    if k > 0 {
      PrefixRankIsImmaterial(types, r, s, name, k - 1);
      var f := types[name][k - 1];
      if EmbedsCluster(f) && !f.repeated { RankIsImmaterial(types, r, s, f.embedded); }
      assert ExtentOf(types, r, name, f) == ExtentOf(types, s, name, f);
    }
  }
}
