/** Cluster memory in literal cells: where a value lies and what its bytes are. */
module MemoryFormat {
  import opened Wire
  import opened Schema
  import opened Numeric
  import opened Layout
  import opened WireFormat
  import opened Clusters
  import opened Copying
  import opened ClusterCopier

  /** A number takes 1, 4 or 8 cells; an enum is held as an unsigned number. */
  lemma NumberWidths(k: Kind)
    requires k.IsNumeric()
    ensures CellWidth(k) == if k.BoolValue? then 1
                            else if k in {Int32Value, UInt32Value, EnumValue, FloatValue, SFixed32Value, SInt32Value, Fixed32Value}
                                 then 4 else 8
    ensures StoredKind(k) == if k.EnumValue? then UInt32Value else k
    ensures Modulus(k) == if CellWidth(k) == 1 then 0x100 else if CellWidth(k) == 4 then 0x1_0000_0000 else 0x1_0000_0000_0000_0000
  {
    Pow256Words();
    assert Pow256(1) == 256;
  }

  /** The low byte first, in two's complement. */
  lemma NumberCells(k: Kind, v: int, j: nat)
    requires k.IsNumeric() && InRange(StoredKind(k), v) && j < CellWidth(k)
    ensures StoreNumber(k, v)[j]
         == Clusters.Raw(ByteAt(v % (if k.BoolValue? then 0x100 else if CellWidth(k) == 4 then 0x1_0000_0000 else 0x1_0000_0000_0000_0000),
                                j))
  {
    NumberWidths(k);
    hide EncodeLE, ByteAt, Pow256, CellWidth, Modulus;
    LittleEndian(Unsigned(v, Modulus(k)), CellWidth(k), j);
    UnsignedIsRemainder(k, v);
  }

  lemma UnsignedIsRemainder(k: Kind, v: int)
    requires k.IsNumeric() && InRange(StoredKind(k), v)
    ensures Modulus(k) > 0 && Unsigned(v, Modulus(k)) == v % Modulus(k)
  {
    NumberWidths(k);
    hide Modulus, CellWidth;
  }

  /** Any byte but zero reads as true. */
  lemma BoolCell(b: byte)
    ensures LoadNumber(BoolValue, [Clusters.Raw(b)]) == if b == 0 then 0 else 1
  {
    assert BytesOf([Clusters.Raw(b)]) == [b] && [b][1..] == [];
    assert DecodeLE([]) == 0 && DecodeLE([b]) == b;
  }

  /** Element `i` of a block begins at `i` times the width. */
  lemma ElementIsSlice(s: seq<Cell>, i: nat, w: nat)
    requires (i + 1) * w <= |s|
    ensures i * w + w <= |s| && Nth(s, i, w) == s[i * w..i * w + w]
  {
    ElementRoom(i, i + 1, w);
  }

  /** The data of an array of clusters begins behind a count of four bytes. */
  lemma DataStarts()
    ensures DataStart(1) == 4 && DataStart(4) == 4 && DataStart(8) == 8
  {
  }

  /** What LabVIEW sees of element `k` lies between its offset and its offset plus its size. */
  lemma ElementIsSeen(d: Descriptors, rank: Rank, name: string, cells: seq<Cell>, k: nat)
    requires Described(d, rank) && Layable(d.reg.messages, rank) && k < |d.Type(name)| && |cells| == d.Size(name)
    ensures name in d.reg.messages && d.Offset(name, k) == OffsetOf(d.reg.messages, rank, name, k)
    ensures var o, w := d.Offset(name, k), d.Width(d.Type(name)[k]);
            o + w <= |cells| && View(d, rank, name, cells).slots[k] == ReadSlot(d, rank, name, k, cells[o..o + w])
  {
    ElementIsInside(d, rank, name, k);
    assert DescribedType(d, rank, name);
    hide Described, Layable, ReadSlot, OffsetOf, EndOf, ClusterExtent;
    var o, w := d.Offset(name, k), d.Width(d.Type(name)[k]);
    assert d.Window(name, k, cells) == cells[o..o + w];
  }

  /** The cells of an element as a number, a text, a cluster or an array. */
  lemma CellsAreSeen(d: Descriptors, rank: Rank, name: string, k: nat, cells: seq<Cell>)
    requires Layable(d.reg.messages, rank) && k < |d.Type(name)| && |cells| == d.Width(d.Type(name)[k])
    ensures var f, s := d.Type(name)[k], ReadSlot(d, rank, name, k, cells);
            && (!f.repeated && f.kind.IsNumeric() ==> |cells| == CellWidth(f.kind) && s == Num(LoadNumber(f.kind, cells)))
            && (!f.repeated && f.kind.IsText() ==> |cells| == 8 && s == Txt(TextOf(LoadHandle(cells))))
            && (!f.repeated && EmbedsCluster(f) ==> s == Sub(View(d, rank, f.embedded, cells)))
            && (f.repeated ==> |cells| == 8 && s == ReadArray(d, rank, name, k, LoadHandle(cells)))
  {
    hide View, ReadArray, LoadNumber, LoadHandle;
    var f := d.Type(name)[k];
    if !f.repeated && f.kind.IsNumeric() { assert Cut(cells, 0, CellWidth(f.kind)) == cells; }
  }

  /** An array shows its elements one behind the other. */
  lemma ArrayIsSeen(d: Descriptors, rank: Rank, name: string, k: nat, h: Handle)
    requires Layable(d.reg.messages, rank) && k < |d.Type(name)| && d.Type(name)[k].repeated
    ensures var f, s := d.Type(name)[k], ReadArray(d, rank, name, k, h); var n := if h.Array1D? then h.count else 0;
            && (f.kind.IsNumeric() ==>
                  s.Nums? && |s.numbers| == n
                  && forall i :: 0 <= i < n ==> s.numbers[i] == LoadNumber(f.kind, Nth(h.block, i, CellWidth(f.kind))))
            && (f.kind.IsText() ==>
                  s.Txts? && |s.texts| == n && forall i :: 0 <= i < n ==> s.texts[i] == TextOf(LoadHandle(Nth(h.block, i, 8))))
            && (f.kind.MessageValue? ==>
                  s.Subs? && |s.views| == n
                  && forall i :: 0 <= i < n ==> s.views[i] == View(d, rank, f.embedded, Nth(h.block, i, d.Size(f.embedded))))
  {
    hide View, LoadNumber;
  }

  /** A two-dimensional array shows its own dimensions, first rows and then columns, and as many
      elements as their int product; without a block there is nothing to show. */
  lemma GridIsSeen(r: int32, c: int32, block: seq<Cell>)
    ensures var s := ReadNumGrid(Array2D(r, c, block));
            && s.NumGrid? && s.rows == r && s.columns == c
            && |s.gridNumbers| == (if IntProduct(r, c) > 0 then IntProduct(r, c) else 0)
            && forall i :: 0 <= i < |s.gridNumbers| ==> s.gridNumbers[i] == LoadNumber(DoubleValue, Nth(block, i, 8))
    ensures var s := ReadTxtGrid(Array2D(r, c, block));
            && s.TxtGrid? && s.rows == r && s.columns == c
            && |s.gridTexts| == (if IntProduct(r, c) > 0 then IntProduct(r, c) else 0)
            && forall i :: 0 <= i < |s.gridTexts| ==> s.gridTexts[i] == TextOf(LoadHandle(Nth(block, i, 8)))
    ensures ReadNumGrid(Null) == NumGrid(0, 0, []) && ReadTxtGrid(Null) == TxtGrid(0, 0, [])
  {
    hide LoadNumber, LoadHandle;
  }

  /** A pointer takes eight cells, and the null pointer is eight zero bytes; a text is what its
      pointer leads to, and no text is empty. */
  lemma TextIsSeen(t: bytes, h: Handle)
    ensures |PointerCells(h)| == 8
    ensures forall i :: 0 <= i < 8 ==> PointerCells(h)[i] == if h.Null? then Clusters.Raw(0) else Part(h, i)
    ensures TextOf(LoadHandle(PointerCells(Str(t)))) == t && TextOf(LoadHandle(PointerCells(Null))) == []
  {
    LoadInvertsPointer(Str(t));
    LoadInvertsPointer(Null);
  }
}
