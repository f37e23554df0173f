/** What a cluster's memory means: cells, handles, and the values LabVIEW sees in a cluster
    of a given type. */
module Clusters {
  import opened Wire
  import opened Schema
  import opened Numeric
  import opened Layout
  import Enums

  type int32 = n: int | -TWO_31 <= n < TWO_31

  /** One byte of memory: a plain byte, or one of the eight bytes of a pointer. */
  datatype Cell = Raw(raw: byte) | Part(handle: Handle, index: nat)

  /** What a handle leads to. A block starts at the aligned address of its first element. */
  datatype Handle =
    | Null
    | Str(text: bytes)
    | Array1D(count: nat, block: seq<Cell>)
    | Array2D(rows: int32, columns: int32, block: seq<Cell>)

  const ZERO := Raw(0)

  function Zeros(n: nat): (s: seq<Cell>)
    ensures |s| == n
  {
    seq(n, _ => ZERO)
  }

  /** `n` cells from `o` on. Whatever lies outside the block counts as zero. */
  function Cut(s: seq<Cell>, o: nat, n: nat): (t: seq<Cell>)
    ensures |t| == n
    ensures o + n <= |s| ==> t == s[o..o + n]
  {
    seq(n, i requires 0 <= i < n => if o + i < |s| then s[o + i] else ZERO)
  }

  /** The `i`-th element of width `w` in a block. */
  function Nth(s: seq<Cell>, i: nat, w: nat): (t: seq<Cell>)
    ensures |t| == w
  {
    Cut(s, i * w, w)
  }

  lemma CutOfCut(s: seq<Cell>, o: nat, n: nat, p: nat, q: nat)
    requires p + q <= n
    ensures Cut(Cut(s, o, n), p, q) == Cut(s, o + p, q)
  {
  }

  /** `cells` written over `s` at `at`. */
  function Patched(s: seq<Cell>, at: nat, cells: seq<Cell>): (t: seq<Cell>)
    requires at + |cells| <= |s|
    ensures |t| == |s|
  {
    s[..at] + cells + s[at + |cells|..]
  }

  /** `s` and `t` agree outside [at, at + n). */
  ghost predicate SameOutside(s: seq<Cell>, t: seq<Cell>, at: nat, n: nat) {
    |s| == |t| && forall i :: 0 <= i < |s| && !(at <= i < at + n) ==> s[i] == t[i]
  }

  lemma PatchedIsLocal(s: seq<Cell>, at: nat, cells: seq<Cell>)
    requires at + |cells| <= |s|
    ensures SameOutside(s, Patched(s, at, cells), at, |cells|)
    ensures Cut(Patched(s, at, cells), at, |cells|) == cells
  {
  }

  lemma CutOutside(s: seq<Cell>, t: seq<Cell>, at: nat, n: nat, o: nat, w: nat)
    requires SameOutside(s, t, at, n) && (o + w <= at || at + n <= o)
    ensures Cut(s, o, w) == Cut(t, o, w)
  {
  }

  lemma CutOfZeros(n: nat, o: nat, w: nat)
    ensures Cut(Zeros(n), o, w) == Zeros(w)
  {
  }

  // ------------------------------------------------------------------- pointers

  function PointerCells(h: Handle): (s: seq<Cell>)
    ensures |s| == POINTER_SIZE
  {
    if h.Null? then Zeros(POINTER_SIZE) else seq(POINTER_SIZE, i requires 0 <= i < POINTER_SIZE => Part(h, i))
  }

  function LoadHandle(s: seq<Cell>): Handle {
    if |s| == POINTER_SIZE && s[0].Part? && s == PointerCells(s[0].handle) then s[0].handle else Null
  }

  lemma LoadInvertsPointer(h: Handle)
    ensures LoadHandle(PointerCells(h)) == h
  {
    if h.Null? { assert PointerCells(h)[0] == ZERO; } else { assert PointerCells(h)[0] == Part(h, 0); }
  }

  function BlockOf(h: Handle): seq<Cell> { if h.Array1D? || h.Array2D? then h.block else [] }

  /** NumericArrayResize: what was in the block stays, and what it grows by is zero. */
  function Resized(h: Handle, size: nat): (s: seq<Cell>)
    ensures |s| == size
  {
    Cut(BlockOf(h), 0, size)
  }

  /** GetLVBytes: a null handle reads as the empty string. */
  function TextOf(h: Handle): bytes { if h.Str? then h.text else [] }

  // -------------------------------------------------------------------- numbers

  /** The type of the number in memory: an enum is held as its unsigned LabVIEW position. */
  function StoredKind(k: Kind): Kind { if k.EnumValue? then UInt32Value else k }

  function CellWidth(k: Kind): nat { ElementSize(k, false) }

  function Modulus(k: Kind): nat { Pow256(CellWidth(k)) }

  predicate IsSigned(k: Kind) { k in {Int32Value, Int64Value, SFixed64Value, SFixed32Value, SInt64Value, SInt32Value} }

  function StoreNumber(k: Kind, v: int): (s: seq<Cell>)
    requires InRange(StoredKind(k), v)
    ensures |s| == CellWidth(k)
  {
    var b := EncodeLE(Unsigned(v, Modulus(k)), CellWidth(k));
    seq(|b|, i requires 0 <= i < |b| => Raw(b[i]))
  }

  function BytesOf(s: seq<Cell>): (b: bytes)
    ensures |b| == |s|
  {
    seq(|s|, i requires 0 <= i < |s| => if s[i].Raw? then s[i].raw else 0)
  }

  function LoadNumber(k: Kind, s: seq<Cell>): (v: int)
    requires k.IsNumeric() && |s| == CellWidth(k)
    ensures InRange(StoredKind(k), v)
  {
    var n := DecodeLE(BytesOf(s));
    EncodeInvertsDecodeLE(BytesOf(s));
    Pow256Words();
    if k.BoolValue? then if n != 0 then 1 else 0
    else if IsSigned(k) then Signed(n, Modulus(k))
    else n
  }

  lemma LoadInvertsStore(k: Kind, v: int)
    requires InRange(StoredKind(k), v)
    ensures LoadNumber(k, StoreNumber(k, v)) == v
  {
    Pow256Words();
    var n := Unsigned(v, Modulus(k));
    DecodeInvertsEncodeLE(n, CellWidth(k));
    assert BytesOf(StoreNumber(k, v)) == EncodeLE(n, CellWidth(k));
  }

  /** The elements of a numeric array. */
  function LoadNumbers(k: Kind, block: seq<Cell>, count: nat): (ns: seq<int>)
    requires k.IsNumeric()
    ensures |ns| == count
  {
    seq(count, i requires 0 <= i < count => LoadNumber(k, Nth(block, i, CellWidth(k))))
  }

  function LoadTexts(block: seq<Cell>, count: nat): (ts: seq<bytes>)
    ensures |ts| == count
  {
    seq(count, i requires 0 <= i < count => TextOf(LoadHandle(Nth(block, i, POINTER_SIZE))))
  }

  // ------------------------------------------------------------------ the view

  /** The value of one element of a cluster. Booleans are 0 or 1, enums are positions. */
  datatype Slot =
    | Num(number: int)
    | Txt(text: bytes)
    | Nums(numbers: seq<int>)
    | Txts(texts: seq<bytes>)
    | Sub(view: Cluster)
    | Subs(views: seq<Cluster>)
    | NumGrid(rows: int32, columns: int32, gridNumbers: seq<int>)
    | TxtGrid(rows: int32, columns: int32, gridTexts: seq<bytes>)

  /** The values of a cluster's elements, in declared order. */
  datatype Cluster = Cluster(slots: seq<Slot>)

  /** The metadata after FinalizeMetadata. */
  datatype Descriptors = Descriptors(
    reg: Registry, enums: map<string, Enums.EnumMetadata>, layouts: map<string, ClusterLayout>)
  {
    function Type(name: string): MessageType {
      if name in reg.messages then reg.messages[name] else []
    }

    function Size(name: string): nat {
      if name in layouts then layouts[name].extent.size else 0
    }

    function Width(f: Field): nat {
      if EmbedsCluster(f) && !f.repeated then Size(f.embedded) else ElementSize(f.kind, f.repeated)
    }

    function Offset(name: string, k: nat): nat {
      if name in layouts && k < |layouts[name].offsets| then layouts[name].offsets[k] else 0
    }

    /** The cells of element `k`. */
    function Window(name: string, k: nat, cells: seq<Cell>): seq<Cell>
      requires k < |Type(name)|
    {
      Cut(cells, Offset(name, k), Width(Type(name)[k]))
    }
  }

  /** The product of two C++ ints, as 32-bit two's complement arithmetic leaves it. */
  function IntProduct(a: int, b: int): (p: int32) {
    Signed(a * b % TWO_32, TWO_32)
  }

  /** The product is the true one exactly when that fits in an int. */
  lemma ProductFits(a: int, b: int)
    ensures IntProduct(a, b) == a * b <==> -TWO_31 <= a * b < TWO_31
  {
    var p := a * b;
    assert p == TWO_32 * (p / TWO_32) + p % TWO_32;
  }

  /** The elements that the code takes a two-dimensional array to have. */
  function GridCount(rows: int, columns: int): nat {
    if IntProduct(rows, columns) > 0 then IntProduct(rows, columns) else 0
  }

  /** A block behind the dimensions of a two-dimensional array, as the code allocates it. */
  predicate HoldsGrid(h: Handle, rows: int, columns: int, width: nat) {
    h.Array2D? && h.rows == rows && h.columns == columns && |h.block| == GridCount(rows, columns) * width
  }

  /** For positive dimensions the block is as large as they say if and only if their product
      is an int. */
  lemma GridBlockAgrees(h: Handle, rows: int, columns: int, width: nat)
    requires HoldsGrid(h, rows, columns, width) && rows > 0 && columns > 0 && width > 0
    ensures |h.block| == rows * columns * width <==> rows * columns < TWO_31
  {
    ProductFits(rows, columns);
    ProductIsPositive(rows, columns);
    SameFactor(GridCount(rows, columns), rows * columns, width);
  }

  lemma ProductIsPositive(a: int, b: int)
    requires a > 0 && b > 0
    ensures a * b > 0
  {
  }

  lemma SameFactor(a: int, b: int, w: nat)
    requires w > 0
    ensures a * w == b * w <==> a == b
  {
    if a < b { ProductIsPositive(b - a, w); } else if b < a { ProductIsPositive(a - b, w); }
    assert (b - a) * w == b * w - a * w;
  }

  /** 65537 rows of 65537 columns: dimensions that say 2^32 + 131073 elements over a block of
      131073; and 65536 of 65536, which the code takes for an array without elements. */
  lemma DimensionsOverflow()
    ensures GridCount(65537, 65537) == 131073 < 65537 * 65537
    ensures GridCount(65536, 65536) == 0 < 65536 * 65536
  {
  }

  /** What LabVIEW sees in a cluster of type `name`: one value per element. */
  ghost function View(d: Descriptors, rank: Rank, name: string, cells: seq<Cell>): (v: Cluster)
    requires Layable(d.reg.messages, rank)
    ensures |v.slots| == |d.Type(name)|
    decreases rank(name), 2
  {
    Cluster(seq(|d.Type(name)|, k requires 0 <= k < |d.Type(name)| => ReadSlot(d, rank, name, k, d.Window(name, k, cells))))
  }

  ghost function ReadSlot(d: Descriptors, rank: Rank, name: string, k: nat, cells: seq<Cell>): Slot
    requires Layable(d.reg.messages, rank) && k < |d.Type(name)|
    decreases rank(name), 1
  {
    var f := d.Type(name)[k];
    if f.repeated then ReadArray(d, rank, name, k, LoadHandle(cells))
    else if f.kind.MessageValue? then
      match f.WellKnown()
      case NotWellKnown => Sub(View(d, rank, f.embedded, cells))
      case Double2DArray => ReadNumGrid(LoadHandle(cells))
      case String2DArray => ReadTxtGrid(LoadHandle(cells))
    else if f.kind.IsText() then Txt(TextOf(LoadHandle(cells)))
    else Num(LoadNumber(f.kind, Cut(cells, 0, CellWidth(f.kind))))
  }

  ghost function ReadArray(d: Descriptors, rank: Rank, name: string, k: nat, h: Handle): Slot
    requires Layable(d.reg.messages, rank) && k < |d.Type(name)| && d.Type(name)[k].repeated
    decreases rank(name), 0
  {
    var f, count, block := d.Type(name)[k], if h.Array1D? then h.count else 0, if h.Array1D? then h.block else [];
    var size := d.Size(f.embedded);
    if f.kind.MessageValue? then
      Subs(seq(count, i requires 0 <= i < count => View(d, rank, f.embedded, Nth(block, i, size))))
    else if f.kind.IsText() then Txts(LoadTexts(block, count))
    else Nums(LoadNumbers(f.kind, block, count))
  }

  function ReadNumGrid(h: Handle): Slot {
    if h.Array2D? then NumGrid(h.rows, h.columns, LoadNumbers(DoubleValue, h.block, GridCount(h.rows, h.columns)))
    else NumGrid(0, 0, [])
  }

  function ReadTxtGrid(h: Handle): Slot {
    if h.Array2D? then TxtGrid(h.rows, h.columns, LoadTexts(h.block, GridCount(h.rows, h.columns)))
    else TxtGrid(0, 0, [])
  }

  /** A value that an element described by `f` can have. */
  ghost predicate FitsSlot(d: Descriptors, f: Field, s: Slot)
    decreases s, 0
  {
    match s
    case Num(n) => !f.repeated && f.kind.IsNumeric() && InRange(StoredKind(f.kind), n)
    case Txt(_) => !f.repeated && f.kind.IsText()
    case Nums(ns) => f.repeated && f.kind.IsNumeric() && AllInRange(StoredKind(f.kind), ns)
    case Txts(_) => f.repeated && f.kind.IsText()
    case Sub(v) => !f.repeated && EmbedsCluster(f) && Fits(d, f.embedded, v)
    case Subs(vs) => f.repeated && f.kind.MessageValue? && forall v :: v in vs ==> Fits(d, f.embedded, v)
    case NumGrid(r, c, ns) =>
      IsGrid(f, Double2DArray) && |ns| == GridCount(r, c) && AllInRange(DoubleValue, ns)
    case TxtGrid(r, c, ts) => IsGrid(f, String2DArray) && |ts| == GridCount(r, c)
  }

  predicate IsGrid(f: Field, t: WellKnownType) {
    !f.repeated && f.kind.MessageValue? && f.WellKnown() == t
  }

  ghost predicate Fits(d: Descriptors, name: string, view: Cluster)
    decreases view, 1
  {
    && |view.slots| == |d.Type(name)|
    && forall k :: 0 <= k < |view.slots| ==> FitsSlot(d, d.Type(name)[k], view.slots[k])
  }

  /** Whatever the memory holds, its view has the shape of the type. */
  lemma {:induction false} ViewFits(d: Descriptors, rank: Rank, name: string, cells: seq<Cell>)
    requires Layable(d.reg.messages, rank)
    ensures Fits(d, name, View(d, rank, name, cells))
    decreases rank(name), 2
  {
    forall k | 0 <= k < |d.Type(name)|
      ensures FitsSlot(d, d.Type(name)[k], ReadSlot(d, rank, name, k, d.Window(name, k, cells)))
    {
      SlotFits(d, rank, name, k, d.Window(name, k, cells));
    }
  }

  lemma {:induction false} SlotFits(d: Descriptors, rank: Rank, name: string, k: nat, cells: seq<Cell>)
    requires Layable(d.reg.messages, rank) && k < |d.Type(name)|
    ensures FitsSlot(d, d.Type(name)[k], ReadSlot(d, rank, name, k, cells))
    decreases rank(name), 1
  {
    var f := d.Type(name)[k];
    if f.repeated {
      ArrayFits(d, rank, name, k, LoadHandle(cells));
    } else if f.kind.MessageValue? {
      if EmbedsCluster(f) { ViewFits(d, rank, f.embedded, cells); } else { GridFits(LoadHandle(cells)); }
    }
  }

  lemma {:induction false} ArrayFits(d: Descriptors, rank: Rank, name: string, k: nat, h: Handle)
    requires Layable(d.reg.messages, rank) && k < |d.Type(name)| && d.Type(name)[k].repeated
    ensures FitsSlot(d, d.Type(name)[k], ReadArray(d, rank, name, k, h))
    decreases rank(name), 0
  {
    var f, size := d.Type(name)[k], d.Size(d.Type(name)[k].embedded);
    if f.kind.MessageValue? && h.Array1D? {
      forall i | 0 <= i < h.count ensures Fits(d, f.embedded, View(d, rank, f.embedded, Nth(h.block, i, size))) {
        ViewFits(d, rank, f.embedded, Nth(h.block, i, size));
      }
    }
  }

  lemma GridFits(h: Handle)
    ensures var s := ReadNumGrid(h);
            s.NumGrid? && |s.gridNumbers| == GridCount(s.rows, s.columns) && AllInRange(DoubleValue, s.gridNumbers)
    ensures var s := ReadTxtGrid(h); s.TxtGrid? && |s.gridTexts| == GridCount(s.rows, s.columns)
  {
  }
}
