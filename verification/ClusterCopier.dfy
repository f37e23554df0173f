/** ClusterDataCopier: values written into, and read out of, the memory of a cluster. */
module ClusterCopier {
  import opened Wire
  import opened Schema
  import opened Numeric
  import opened Messages
  import opened Layout
  import opened Enums
  import opened Clusters
  import opened Copying

  // --------------------------------------------------------------- disjoint elements

  /** The cells of element `k` of a cluster that begins at `base`. */
  function WindowAt(d: Descriptors, name: string, k: nat, s: seq<Cell>, base: nat): seq<Cell>
    requires k < |d.Type(name)|
  {
    Cut(s, base + d.Offset(name, k), d.Width(d.Type(name)[k]))
  }

  lemma ElementIsInside(d: Descriptors, rank: Rank, name: string, k: nat)
    requires Described(d, rank) && k < |d.Type(name)|
    ensures Layable(d.reg.messages, rank) && name in d.reg.messages && |d.reg.messages[name]| == |d.Type(name)|
    ensures d.Offset(name, k) + d.Width(d.Type(name)[k]) <= d.Size(name)
    ensures EndOf(d.reg.messages, rank, name, k) <= d.Offset(name, k)
    ensures EndOf(d.reg.messages, rank, name, k + 1) == d.Offset(name, k) + d.Width(d.Type(name)[k])
  {
    var f := d.Type(name)[k];
    assert DescribedType(d, rank, name) && DescribedField(d, f);
    if EmbedsCluster(f) && !f.repeated { assert DescribedType(d, rank, f.embedded); }
    hide OffsetOf, EndOf, ClusterExtent, MaxAlignment;
    ElementIsPlaced(d.reg.messages, rank, name, k);
  }

  lemma ElementsAreDisjoint(d: Descriptors, rank: Rank, name: string, j: nat, k: nat)
    requires Described(d, rank) && j < k < |d.Type(name)|
    ensures d.Offset(name, j) + d.Width(d.Type(name)[j]) <= d.Offset(name, k)
  {
    hide *;
    ElementIsInside(d, rank, name, j);
    ElementIsInside(d, rank, name, k);
    EndsAscend(d.reg.messages, rank, name, j + 1, k);
  }

  /** The elements in `done` hold what copying `m` gives them; the others are untouched. */
  ghost predicate Progress(d: Descriptors, rank: Rank, name: string, m: Message, s0: seq<Cell>, s: seq<Cell>, base: nat,
                           done: set<nat>)
    requires Layable(d.reg.messages, rank)
  {
    && SameOutside(s0, s, base, d.Size(name))
    && forall k :: 0 <= k < |d.Type(name)| ==> ElementProgress(d, rank, name, m, s0, s, base, k, k in done)
  }

  ghost predicate ElementProgress(d: Descriptors, rank: Rank, name: string, m: Message, s0: seq<Cell>, s: seq<Cell>,
                                  base: nat, k: nat, done: bool)
    requires Layable(d.reg.messages, rank) && k < |d.Type(name)|
  {
    if done then
      ReadSlot(d, rank, name, k, WindowAt(d, name, k, s, base))
      == AbsorbAt(d, rank, name, k, WindowAt(d, name, k, s0, base), m)
    else WindowAt(d, name, k, s, base) == WindowAt(d, name, k, s0, base)
  }

  /** Writing one element disturbs no other. */
  lemma ProgressGrows(d: Descriptors, rank: Rank, name: string, m: Message, s0: seq<Cell>, s: seq<Cell>, t: seq<Cell>,
                      base: nat, done: set<nat>, k: nat)
    requires Described(d, rank) && Layable(d.reg.messages, rank) && k < |d.Type(name)| && k !in done
    requires Progress(d, rank, name, m, s0, s, base, done)
    requires SameOutside(s, t, base + d.Offset(name, k), d.Width(d.Type(name)[k]))
    requires ReadSlot(d, rank, name, k, WindowAt(d, name, k, t, base))
             == AbsorbAt(d, rank, name, k, WindowAt(d, name, k, s, base), m)
    ensures Progress(d, rank, name, m, s0, t, base, done + {k})
  {
    hide AbsorbAt, ReadSlot, Described, ElementProgress, SameOutside, Cut, Layable, WindowAt;
    ElementIsInside(d, rank, name, k);
    OutsideCompose(s0, s, t, base, d.Size(name), base + d.Offset(name, k), d.Width(d.Type(name)[k]));
    forall j | 0 <= j < |d.Type(name)| ensures ElementProgress(d, rank, name, m, s0, t, base, j, j in done + {k}) {
      assert ElementProgress(d, rank, name, m, s0, s, base, j, j in done);
      if j == k {
        ElementDone(d, rank, name, m, s0, s, t, base, k);
      } else {
        ElementKept(d, rank, name, m, s0, s, t, base, k, j, j in done);
      }
    }
  }

  lemma OutsideCompose(r: seq<Cell>, s: seq<Cell>, t: seq<Cell>, base: nat, size: nat, at: nat, n: nat)
    requires SameOutside(r, s, base, size) && SameOutside(s, t, at, n) && base <= at && at + n <= base + size
    ensures SameOutside(r, t, base, size)
  {
  }

  lemma ElementDone(d: Descriptors, rank: Rank, name: string, m: Message, s0: seq<Cell>, s: seq<Cell>, t: seq<Cell>,
                    base: nat, k: nat)
    requires Layable(d.reg.messages, rank) && k < |d.Type(name)|
    requires ElementProgress(d, rank, name, m, s0, s, base, k, false)
    requires ReadSlot(d, rank, name, k, WindowAt(d, name, k, t, base))
             == AbsorbAt(d, rank, name, k, WindowAt(d, name, k, s, base), m)
    ensures ElementProgress(d, rank, name, m, s0, t, base, k, true)
  {
  }

  lemma ElementKept(d: Descriptors, rank: Rank, name: string, m: Message, s0: seq<Cell>, s: seq<Cell>, t: seq<Cell>,
                    base: nat, k: nat, j: nat, done: bool)
    requires Described(d, rank) && Layable(d.reg.messages, rank)
    requires k < |d.Type(name)| && j < |d.Type(name)| && j != k
    requires SameOutside(s, t, base + d.Offset(name, k), d.Width(d.Type(name)[k]))
    requires ElementProgress(d, rank, name, m, s0, s, base, j, done)
    ensures ElementProgress(d, rank, name, m, s0, t, base, j, done)
  {
    hide AbsorbAt, ReadSlot, Described;
    if j < k { ElementsAreDisjoint(d, rank, name, j, k); } else { ElementsAreDisjoint(d, rank, name, k, j); }
    CutOutside(s, t, base + d.Offset(name, k), d.Width(d.Type(name)[k]), base + d.Offset(name, j), d.Width(d.Type(name)[j]));
  }

  lemma NoProgress(d: Descriptors, rank: Rank, name: string, m: Message, s: seq<Cell>, base: nat)
    requires Layable(d.reg.messages, rank)
    ensures Progress(d, rank, name, m, s, s, base, {})
  {
  }

  /** Element `k` is one that copying `m` writes. */
  predicate IsWritten(d: Descriptors, name: string, m: Message, k: nat)
    requires k < |d.Type(name)|
  {
    var f := d.Type(name)[k];
    if f.IsSelector() then f.container in m.oneof else f.number in m.values
  }

  lemma ProgressEnds(d: Descriptors, rank: Rank, name: string, m: Message, s0: seq<Cell>, s: seq<Cell>, base: nat,
                     done: set<nat>)
    requires Described(d, rank) && Layable(d.reg.messages, rank)
    requires Progress(d, rank, name, m, s0, s, base, done)
    requires forall k :: 0 <= k < |d.Type(name)| && IsWritten(d, name, m, k) ==> k in done
    ensures SameOutside(s0, s, base, d.Size(name))
    ensures View(d, rank, name, Cut(s, base, d.Size(name))) == Absorb(d, rank, name, Cut(s0, base, d.Size(name)), m)
  {
    hide ReadSlot, AbsorbValue, Described;
    forall k | 0 <= k < |d.Type(name)|
      ensures ReadSlot(d, rank, name, k, d.Window(name, k, Cut(s, base, d.Size(name))))
              == AbsorbAt(d, rank, name, k, d.Window(name, k, Cut(s0, base, d.Size(name))), m)
    {
      ElementIsInside(d, rank, name, k);
      CutOfCut(s, base, d.Size(name), d.Offset(name, k), d.Width(d.Type(name)[k]));
      CutOfCut(s0, base, d.Size(name), d.Offset(name, k), d.Width(d.Type(name)[k]));
      assert ElementProgress(d, rank, name, m, s0, s, base, k, k in done);
    }
  }

  // --------------------------------------------------------------------- storing

  method StoreCells(mem: array<Cell>, at: nat, cells: seq<Cell>)
    requires at + |cells| <= mem.Length
    modifies mem
    ensures mem[..] == Patched(old(mem[..]), at, cells)
  {
    for i := 0 to |cells|
      invariant forall p :: 0 <= p < mem.Length ==> mem[p] == if at <= p < at + i then cells[p - at] else old(mem[p])
    {
      mem[at + i] := cells[i];
    }
  }

  /** Stores a pointer to `h` in an element. */
  method StoreHandle(mem: array<Cell>, at: nat, h: Handle)
    requires at + POINTER_SIZE <= mem.Length
    modifies mem
    ensures SameOutside(old(mem[..]), mem[..], at, POINTER_SIZE)
    ensures LoadHandle(Cut(mem[..], at, POINTER_SIZE)) == h
  {
    StoreCells(mem, at, PointerCells(h));
    PatchedIsLocal(old(mem[..]), at, PointerCells(h));
    LoadInvertsPointer(h);
  }

  lemma ElementRoom(i: nat, count: nat, width: nat)
    requires i < count
    ensures i * width + width == (i + 1) * width <= count * width
  {
  }

  lemma RoomFor(i: nat, count: nat, width: nat)
    requires i < count
    ensures i * width + width <= count * width
  {
    ElementRoom(i, count, width);
  }

  /** Writing element `n` leaves the others alone. */
  lemma NthOutside(s: seq<Cell>, t: seq<Cell>, n: nat, w: nat, i: nat)
    requires SameOutside(s, t, n * w, w) && i != n
    ensures Nth(s, i, w) == Nth(t, i, w)
  {
    if i < n { RoomFor(i, n, w); } else { RoomFor(n, i, w); }
    CutOutside(s, t, n * w, w, i * w, w);
  }

  lemma NthPatched(s: seq<Cell>, n: nat, cells: seq<Cell>)
    requires n * |cells| + |cells| <= |s|
    ensures SameOutside(s, Patched(s, n * |cells|, cells), n * |cells|, |cells|)
    ensures Nth(Patched(s, n * |cells|, cells), n, |cells|) == cells
  {
    PatchedIsLocal(s, n * |cells|, cells);
  }

  lemma NthOfResized(h: Handle, w: nat, count: nat, i: nat)
    requires i < count
    ensures Nth(Resized(h, count * w), i, w) == Nth(BlockOf(h), i, w)
  {
    hide Cut, BlockOf;
    RoomFor(i, count, w);
    CutOfCut(BlockOf(h), 0, count * w, i * w, w);
  }

  /** The first `i` elements are stored; the rest of the block is as it was. */
  ghost predicate Filled(s: seq<Cell>, before: seq<Cell>, elements: seq<seq<Cell>>, width: nat, i: nat)
    requires i <= |elements|
  {
    && (forall j :: 0 <= j < i ==> Nth(s, j, width) == elements[j])
    && (forall j: nat :: i <= j ==> Nth(s, j, width) == Nth(before, j, width))
  }

  lemma FilledGrows(s: seq<Cell>, before: seq<Cell>, elements: seq<seq<Cell>>, width: nat, i: nat)
    requires i < |elements| && |elements[i]| == width && i * width + width <= |s|
    requires Filled(s, before, elements, width, i)
    ensures Filled(Patched(s, i * width, elements[i]), before, elements, width, i + 1)
  {
    var t := Patched(s, i * width, elements[i]);
    NthPatched(s, i, elements[i]);
    hide Patched, Nth;
    forall j: nat | j != i ensures Nth(t, j, width) == Nth(s, j, width) { NthOutside(s, t, i, width, j); }
  }

  lemma NothingFilled(s: seq<Cell>, elements: seq<seq<Cell>>, width: nat)
    ensures Filled(s, s, elements, width, 0)
  {
  }

  lemma FilledReads(s: seq<Cell>, h: Handle, elements: seq<seq<Cell>>, width: nat, n: nat, count: nat)
    requires n == (if count <= |elements| then count else |elements|)
    requires Filled(s, Resized(h, count * width), elements, width, n)
    ensures forall i :: 0 <= i < count ==>
              Nth(s, i, width) == if i < |elements| then elements[i] else Nth(BlockOf(h), i, width)
  {
    hide Nth, Resized, BlockOf;
    forall i | n <= i < count ensures Nth(s, i, width) == Nth(BlockOf(h), i, width) {
      NthOfResized(h, width, count, i);
    }
  }

  /** A block resized to `count` elements, into which as many as fit are copied. */
  method StoreElements(elements: seq<seq<Cell>>, width: nat, count: nat, h: Handle) returns (block: seq<Cell>)
    requires forall e :: e in elements ==> |e| == width
    ensures |block| == count * width
    ensures forall i :: 0 <= i < count ==>
              Nth(block, i, width) == if i < |elements| then elements[i] else Nth(BlockOf(h), i, width)
  {
    hide *;
    var memory := NumericArrayResize(h, count * width);
    var copied := if count <= |elements| then count else |elements|;
    ghost var before := memory[..];
    NothingFilled(memory[..], elements, width);
    for i := 0 to copied
      invariant Filled(memory[..], before, elements, width, i)
    {
      RoomFor(i, count, width);
      FilledGrows(memory[..], before, elements, width, i);
      StoreCells(memory, i * width, elements[i]);
    }
    block := memory[..];
    FilledReads(block, h, elements, width, copied, count);
  }

  method NumericArrayResize(h: Handle, size: nat) returns (memory: array<Cell>)
    ensures fresh(memory) && memory[..] == Resized(h, size)
  {
    var contents := Resized(h, size);
    memory := new Cell[size](i requires 0 <= i < size => contents[i]);
  }

  method StoreNumbers(k: Kind, xs: seq<int>, count: nat, h: Handle) returns (block: seq<Cell>)
    requires k.IsNumeric() && AllInRange(StoredKind(k), xs)
    ensures |block| == count * CellWidth(k)
    ensures LoadNumbers(k, block, count) == Overlaid(xs, LoadNumbers(k, BlockOf(h), count))
  {
    var elements := seq(|xs|, i requires 0 <= i < |xs| => StoreNumber(k, xs[i]));
    block := StoreElements(elements, CellWidth(k), count, h);
    forall i | 0 <= i < count && i < |xs|
      ensures LoadNumber(k, Nth(block, i, CellWidth(k))) == xs[i]
    {
      LoadInvertsStore(k, xs[i]);
    }
  }

  method StoreTexts(ts: seq<bytes>, count: nat, h: Handle) returns (block: seq<Cell>)
    ensures |block| == count * POINTER_SIZE
    ensures LoadTexts(block, count) == Overlaid(ts, LoadTexts(BlockOf(h), count))
  {
    var elements := seq(|ts|, i requires 0 <= i < |ts| => PointerCells(Str(ts[i])));
    block := StoreElements(elements, POINTER_SIZE, count, h);
    forall i | 0 <= i < count && i < |ts|
      ensures TextOf(LoadHandle(Nth(block, i, POINTER_SIZE))) == ts[i]
    {
      LoadInvertsPointer(Str(ts[i]));
    }
  }

  // ------------------------------------------------------------ message to cluster

  /** The value has the class that the element's type calls for. */
  ghost predicate Copyable(d: Descriptors, rank: Rank, name: string, k: nat, v: Value) {
    && Described(d, rank) && Layable(d.reg.messages, rank) && k < |d.Type(name)|
    && DescribedField(d, d.Type(name)[k])
    && WellTypedValue(d.reg, d.Type(name)[k], v) && OneofsFitIn(v)
  }

  /** Element `k`, at `at`, went from `before` to `after` as copying `v` demands. */
  ghost predicate Copied(d: Descriptors, rank: Rank, name: string, k: nat, v: Value, before: seq<Cell>, after: seq<Cell>,
                         at: nat)
    requires Layable(d.reg.messages, rank) && k < |d.Type(name)|
  {
    var w := d.Width(d.Type(name)[k]);
    ReadSlot(d, rank, name, k, Cut(after, at, w)) == AbsorbValue(d, rank, name, k, Cut(before, at, w), v)
  }

  /** CopyInt32ToCluster and its sixteen siblings, for a singular element. */
  method CopyScalarToCluster(d: Descriptors, ghost rank: Rank, name: string, k: nat, v: Value, mem: array<Cell>, at: nat)
    returns (ok: bool)
    requires Copyable(d, rank, name, k, v) && v.Scalar? && at + d.Width(d.Type(name)[k]) <= mem.Length
    modifies mem
    ensures SameOutside(old(mem[..]), mem[..], at, d.Width(d.Type(name)[k]))
    ensures ok <==> KnownNumber(d, d.Type(name)[k], v.number)
    ensures ok ==> Copied(d, rank, name, k, v, old(mem[..]), mem[..], at)
  {
    hide Described, Layable;
    var f, x := d.Type(name)[k], v.number;
    ok := true;
    if f.kind.EnumValue? {
      var position := d.enums[f.embedded].GetLVEnumValueFromProtoValue(v.number);
      if position.None? { return false; }
      PositionFits(d, f, v.number);
      x := position.value;
    }
    StoreCells(mem, at, StoreNumber(f.kind, x));
    PatchedIsLocal(old(mem[..]), at, StoreNumber(f.kind, x));
    LoadInvertsStore(f.kind, x);
    CutOfCut(mem[..], at, CellWidth(f.kind), 0, CellWidth(f.kind));
  }

  lemma PositionFits(d: Descriptors, f: Field, number: int)
    requires DescribedField(d, f) && f.kind.EnumValue? && KnownNumber(d, f, number)
    ensures InRange(StoredKind(f.kind), LvOf(d, f, number))
  {
    var e := d.enums[f.embedded];
    var numbers :| IsEnumTable(e, numbers);
    EnumLookups(e, numbers, number, 0);
    FirstPosition(e, numbers, number);
  }

  /** The loop of CopyEnumToCluster that maps the numbers before they are stored. */
  method MapNumbers(d: Descriptors, f: Field, xs: seq<int>) returns (ok: bool, ys: seq<int>)
    requires DescribedField(d, f) && f.kind.IsNumeric() && AllInRange(f.kind, xs)
    ensures ok <==> forall x :: x in xs ==> KnownNumber(d, f, x)
    ensures ok ==> |ys| == |xs| && AllInRange(StoredKind(f.kind), ys)
                   && forall i :: 0 <= i < |xs| ==> ys[i] == Inward(d, f, xs[i])
  {
    if !f.kind.EnumValue? { return true, xs; }
    ys := [];
    for i := 0 to |xs|
      invariant |ys| == i && AllInRange(StoredKind(f.kind), ys)
      invariant forall j :: 0 <= j < i ==> KnownNumber(d, f, xs[j]) && ys[j] == Inward(d, f, xs[j])
    {
      var position := d.enums[f.embedded].GetLVEnumValueFromProtoValue(xs[i]);
      if position.None? {
        assert !KnownNumber(d, f, xs[i]);
        return false, [];
      }
      PositionFits(d, f, xs[i]);
      ys := ys + [position.value];
    }
    ok := true;
  }

  /** The same for a repeated element: an empty list leaves the array as it is. */
  method CopyNumbersToCluster(d: Descriptors, ghost rank: Rank, name: string, k: nat, v: Value, mem: array<Cell>, at: nat)
    returns (ok: bool)
    requires Copyable(d, rank, name, k, v) && v.Packed? && at + d.Width(d.Type(name)[k]) <= mem.Length
    modifies mem
    ensures SameOutside(old(mem[..]), mem[..], at, d.Width(d.Type(name)[k]))
    ensures ok <==> forall x :: x in v.numbers ==> KnownNumber(d, d.Type(name)[k], x)
    ensures ok ==> Copied(d, rank, name, k, v, old(mem[..]), mem[..], at)
  {
    hide Described, Layable;
    var f, ys := d.Type(name)[k], [];
    ok, ys := MapNumbers(d, f, v.numbers);
    if ok && v.numbers != [] {
      var h := LoadHandle(mem[at..at + POINTER_SIZE]);
      var block := StoreNumbers(f.kind, ys, |ys|, h);
      StoreHandle(mem, at, Array1D(|ys|, block));
      assert Overlaid(ys, LoadNumbers(f.kind, BlockOf(h), |ys|)) == ys;
      assert ReadSlot(d, rank, name, k, Cut(mem[..], at, POINTER_SIZE)) == Nums(ys);
    }
  }

  method CopyTextsToCluster(d: Descriptors, ghost rank: Rank, name: string, k: nat, v: Value, mem: array<Cell>, at: nat)
    requires Copyable(d, rank, name, k, v) && (v.Text? || v.Texts?) && at + d.Width(d.Type(name)[k]) <= mem.Length
    modifies mem
    ensures SameOutside(old(mem[..]), mem[..], at, d.Width(d.Type(name)[k]))
    ensures Copied(d, rank, name, k, v, old(mem[..]), mem[..], at)
  {
    hide Described, Layable;
    if v.Text? {
      StoreHandle(mem, at, Str(v.text));
    } else if v.texts != [] {
      var h := LoadHandle(mem[at..at + POINTER_SIZE]);
      var block := StoreTexts(v.texts, |v.texts|, h);
      StoreHandle(mem, at, Array1D(|v.texts|, block));
      assert Overlaid(v.texts, LoadTexts(BlockOf(h), |v.texts|)) == v.texts;
      assert ReadSlot(d, rank, name, k, Cut(mem[..], at, POINTER_SIZE)) == Txts(v.texts);
    }
  }

  /** CopyFromMessageToCluster of the two-dimensional arrays. */
  method CopyGridToCluster(d: Descriptors, ghost rank: Rank, name: string, k: nat, v: Value, mem: array<Cell>, at: nat)
    requires Copyable(d, rank, name, k, v) && v.Nested? && !EmbedsCluster(d.Type(name)[k])
    requires at + d.Width(d.Type(name)[k]) <= mem.Length
    modifies mem
    ensures SameOutside(old(mem[..]), mem[..], at, d.Width(d.Type(name)[k]))
    ensures Copied(d, rank, name, k, v, old(mem[..]), mem[..], at)
    ensures var m := v.message; var rows, columns := GridDimension(m, ROWS_INDEX), GridDimension(m, COLUMNS_INDEX);
            if IntProduct(rows, columns) > 0 && DATA_INDEX in m.values
            then HoldsGrid(LoadHandle(Cut(mem[..], at, POINTER_SIZE)), rows, columns, GridWidth(d.Type(name)[k]))
            else mem[..] == old(mem[..])
  {
    hide Described, Layable;
    var f, m := d.Type(name)[k], v.message;
    var rows: int, columns: int := GridDimension(m, ROWS_INDEX), GridDimension(m, COLUMNS_INDEX);
    var elementCount: int := IntProduct(rows, columns);
    if elementCount > 0 && DATA_INDEX in m.values {
      var h := LoadHandle(mem[at..at + POINTER_SIZE]);
      if f.WellKnown().Double2DArray? {
        GridNumbersFit(d, f, m);
        var block := StoreNumbers(DoubleValue, GridNumbers(m), elementCount, h);
        StoreHandle(mem, at, Array2D(rows, columns, block));
      } else {
        var block := StoreTexts(GridTexts(m), elementCount, h);
        StoreHandle(mem, at, Array2D(rows, columns, block));
      }
    }
  }

  function GridWidth(f: Field): nat {
    if f.WellKnown().Double2DArray? then CellWidth(DoubleValue) else POINTER_SIZE
  }

  lemma GridNumbersFit(d: Descriptors, f: Field, m: Message)
    requires DescribedField(d, f) && IsGrid(f, Double2DArray) && WellTypedValue(d.reg, f, Nested(m))
    ensures AllInRange(DoubleValue, GridNumbers(m))
  {
    GridIsMapped(DoubleValue);
    assert WellTyped(d.reg, Some(GridType(DoubleValue)), m);
  }

  // ----------------------------------------------------------------- whole messages

  /** CopyToCluster: what the receiver sees is the message, over what the cluster held. Fields
      are visited in any order; not `ok` stands for InvalidEnumValueException. `inside` says
      that every null pointer was stored within the block of its array; where it is false, the
      C++ has written past a block, and what it wrote there is not part of this model. */
  method CopyToCluster(d: Descriptors, ghost rank: Rank, name: string, m: Message, mem: array<Cell>, base: nat)
    returns (ok: bool, inside: bool)
    requires Described(d, rank) && Layable(d.reg.messages, rank)
    requires name in d.reg.messages && WellTyped(d.reg, Some(d.Type(name)), m) && OneofsFit(m)
    requires base + d.Size(name) <= mem.Length
    modifies mem
    ensures SameOutside(old(mem[..]), mem[..], base, d.Size(name))
    ensures ok <==> Receivable(d, name, m)
    ensures ok ==> (inside <==> StaysInside(d, name, m))
    ensures ok ==> View(d, rank, name, Cut(mem[..], base, d.Size(name)))
                   == Absorb(d, rank, name, Cut(old(mem[..]), base, d.Size(name)), m)
    decreases m, 3
  {
    hide Described, Layable, WellTypedValue, ReadSlot, AbsorbAt, AbsorbValue, Progress, SameOutside, View, Absorb, StaysInside,
      OneofsFit, DescribedType, Receivable;
    TypeIsDescribed(d, rank, name);
    NoProgress(d, rank, name, m, mem[..], base);
    ghost var done;
    ok, inside, done := CopyFields(d, rank, name, m, mem, base, old(mem[..]));
    if !ok { return; }
    ghost var allDone := CopyOneofIndicesToCluster(d, rank, name, m, mem, base, old(mem[..]), done);
    EverythingIsDone(d, rank, name, m, done, allDone);
    ProgressEnds(d, rank, name, m, old(mem[..]), mem[..], base, allDone);
  }

  /** The loop over the values of the message. */
  method CopyFields(d: Descriptors, ghost rank: Rank, name: string, m: Message, mem: array<Cell>, base: nat, ghost s0: seq<Cell>)
    returns (ok: bool, inside: bool, ghost done: set<nat>)
    requires Described(d, rank) && Layable(d.reg.messages, rank)
    requires name in d.reg.messages && DescribedType(d, rank, name)
    requires WellTyped(d.reg, Some(d.Type(name)), m) && OneofsFit(m)
    requires base + d.Size(name) <= mem.Length && Progress(d, rank, name, m, s0, mem[..], base, {})
    modifies mem
    ensures SameOutside(s0, mem[..], base, d.Size(name))
    ensures ok <==> Receivable(d, name, m)
    ensures ok ==> (inside <==> StaysInside(d, name, m))
    ensures ok ==> Progress(d, rank, name, m, s0, mem[..], base, done)
    ensures forall k :: k in done ==> k < |d.Type(name)| && !d.Type(name)[k].IsSelector()
    ensures ok ==> forall n :: n in m.values ==> IndexOf(d.Type(name), n) in done
    decreases m, 2
  {
    hide Described, Layable, WellTypedValue, ReadSlot, AbsorbAt, AbsorbValue, Progress, SameOutside, View, Absorb, ValueStaysInside,
      OneofsFit, DescribedType, ReceivableValue;
    var ty, remaining := d.Type(name), m.values.Keys;
    ProgressIsLocal(d, rank, name, m, s0, mem[..], base, {});
    done := {};
    ok, inside := true, true;
    while remaining != {}
      invariant remaining <= m.values.Keys
      invariant inside <==> forall n :: n in m.values.Keys - remaining ==> ValueStaysInside(d, Mapped(ty)[n], m.values[n])
      invariant Progress(d, rank, name, m, s0, mem[..], base, done) && SameOutside(s0, mem[..], base, d.Size(name))
      invariant forall k :: k in done ==> k < |ty| && ty[k].number in m.values.Keys - remaining
      invariant forall n :: n in m.values.Keys - remaining ==>
                  IndexOf(ty, n) in done && ReceivableValue(d, Mapped(ty)[n], m.values[n])
      decreases |remaining|
    {
      var n := AnyOf(remaining);
      remaining := remaining - {n};
      var within;
      ok, within := CopyNumberedField(d, rank, name, m, n, mem, base, s0, done);
      if !ok {
        assert forall k :: k in done ==> !ty[k].IsSelector();
        return;
      }
      inside := inside && within;
      done := done + {IndexOf(ty, n)};
    }
    assert forall k :: k in done ==> !ty[k].IsSelector();
    ok := true;
  }

  lemma EverythingIsDone(d: Descriptors, rank: Rank, name: string, m: Message, done: set<nat>, allDone: set<nat>)
    requires Layable(d.reg.messages, rank) && name in d.reg.messages && DescribedType(d, rank, name)
    requires WellTyped(d.reg, Some(d.Type(name)), m)
    requires forall n :: n in m.values ==> IndexOf(d.Type(name), n) in done
    requires done <= allDone
    requires forall k :: 0 <= k < |d.Type(name)| && d.Type(name)[k].IsSelector() && IsWritten(d, name, m, k) ==> k in allDone
    ensures forall k :: 0 <= k < |d.Type(name)| && IsWritten(d, name, m, k) ==> k in allDone
  {
    forall k | 0 <= k < |d.Type(name)| && IsWritten(d, name, m, k) ensures k in allDone {
      if !d.Type(name)[k].IsSelector() { IndexOfElement(d.Type(name), k); }
    }
  }

  /** One turn of the loop: the value numbered `n`, at the offset its element has. */
  method CopyNumberedField(d: Descriptors, ghost rank: Rank, name: string, m: Message, n: int, mem: array<Cell>, base: nat,
                           ghost s0: seq<Cell>, ghost done: set<nat>)
    returns (ok: bool, inside: bool)
    requires Described(d, rank) && Layable(d.reg.messages, rank)
    requires name in d.reg.messages && DescribedType(d, rank, name)
    requires WellTyped(d.reg, Some(d.Type(name)), m) && OneofsFit(m) && n in m.values && n in Mapped(d.Type(name))
    requires base + d.Size(name) <= mem.Length
    requires Progress(d, rank, name, m, s0, mem[..], base, done) && IndexOf(d.Type(name), n) !in done
    modifies mem
    ensures SameOutside(s0, mem[..], base, d.Size(name))
    ensures ok <==> ReceivableValue(d, Mapped(d.Type(name))[n], m.values[n])
    ensures ok ==> Progress(d, rank, name, m, s0, mem[..], base, done + {IndexOf(d.Type(name), n)})
    ensures ok ==> (inside <==> ValueStaysInside(d, Mapped(d.Type(name))[n], m.values[n]))
    decreases m, 1
  {
    hide Described, Layable, WellTypedValue, ReadSlot, AbsorbAt, AbsorbValue, Progress, SameOutside, IndexOf, Mapped, ValueStaysInside,
      WellTyped, OneofsFit, DescribedType, Copyable;
    NumberedFits(d, rank, name, m, n);
    var k := IndexOf(d.Type(name), n);
    ghost var before := mem[..];
    ok, inside := CopyFieldToCluster(d, rank, name, k, m.values[n], mem, base + d.Offset(name, k));
    ProgressIsLocal(d, rank, name, m, s0, before, base, done);
    OutsideCompose(s0, before, mem[..], base, d.Size(name), base + d.Offset(name, k), d.Width(d.Type(name)[k]));
    if ok {
      FieldIsAbsorbed(d, rank, name, m, before, mem[..], base, k);
      ProgressGrows(d, rank, name, m, s0, before, mem[..], base, done, k);
    }
  }

  lemma NumberedFits(d: Descriptors, rank: Rank, name: string, m: Message, n: int)
    requires Described(d, rank) && Layable(d.reg.messages, rank)
    requires name in d.reg.messages && DescribedType(d, rank, name)
    requires WellTyped(d.reg, Some(d.Type(name)), m) && OneofsFit(m) && n in m.values && n in Mapped(d.Type(name))
    ensures var k := IndexOf(d.Type(name), n);
            && k < |d.Type(name)| && d.Type(name)[k] == Mapped(d.Type(name))[n] && d.Type(name)[k].number == n
            && !d.Type(name)[k].IsSelector() && Copyable(d, rank, name, k, m.values[n])
            && d.Offset(name, k) + d.Width(d.Type(name)[k]) <= d.Size(name)
  {
    hide Described, Layable, WellTypedValue;
    ElementIsInside(d, rank, name, IndexOf(d.Type(name), n));
  }

  lemma ProgressIsLocal(d: Descriptors, rank: Rank, name: string, m: Message, s0: seq<Cell>, s: seq<Cell>, base: nat,
                        done: set<nat>)
    requires Layable(d.reg.messages, rank) && Progress(d, rank, name, m, s0, s, base, done)
    ensures SameOutside(s0, s, base, d.Size(name))
  {
  }

  lemma TypeIsDescribed(d: Descriptors, rank: Rank, name: string)
    requires Described(d, rank) && Layable(d.reg.messages, rank) && name in d.reg.messages
    ensures DescribedType(d, rank, name)
  {
  }

  lemma FieldIsAbsorbed(d: Descriptors, rank: Rank, name: string, m: Message, before: seq<Cell>, after: seq<Cell>,
                        base: nat, k: nat)
    requires Layable(d.reg.messages, rank) && k < |d.Type(name)|
    requires !d.Type(name)[k].IsSelector() && d.Type(name)[k].number in m.values
    requires Copied(d, rank, name, k, m.values[d.Type(name)[k].number], before, after, base + d.Offset(name, k))
    ensures ReadSlot(d, rank, name, k, WindowAt(d, name, k, after, base))
            == AbsorbAt(d, rank, name, k, WindowAt(d, name, k, before, base), m)
  {
    hide ReadSlot, AbsorbValue;
  }

  /** The second pass: the selectors of the oneofs that have a selected member. */
  method CopyOneofIndicesToCluster(d: Descriptors, ghost rank: Rank, name: string, m: Message, mem: array<Cell>, base: nat,
                                   ghost s0: seq<Cell>, ghost done: set<nat>)
    returns (ghost allDone: set<nat>)
    requires Described(d, rank) && Layable(d.reg.messages, rank) && OneofsFit(m)
    requires name in d.reg.messages && DescribedType(d, rank, name) && base + d.Size(name) <= mem.Length
    requires Progress(d, rank, name, m, s0, mem[..], base, done)
    requires forall k :: k in done ==> k < |d.Type(name)| && !d.Type(name)[k].IsSelector()
    modifies mem
    ensures Progress(d, rank, name, m, s0, mem[..], base, allDone) && done <= allDone
    ensures forall k :: 0 <= k < |d.Type(name)| && d.Type(name)[k].IsSelector() && IsWritten(d, name, m, k) ==> k in allDone
  {
    hide Described, Layable, ReadSlot, AbsorbAt, Progress, SameOutside, StoreNumber;
    var ty := d.Type(name);
    allDone := done;
    for i := 0 to |ty|
      invariant Progress(d, rank, name, m, s0, mem[..], base, allDone) && done <= allDone
      invariant forall k :: k in allDone ==> k in done || k < i
      invariant forall k :: 0 <= k < i && ty[k].IsSelector() && IsWritten(d, name, m, k) ==> k in allDone
    {
      if ty[i].IsSelector() && ty[i].container in m.oneof {
        ElementIsInside(d, rank, name, i);
        ghost var before := mem[..];
        assert WellFormedField(ty[i]);
        StoreCells(mem, base + d.Offset(name, i), StoreNumber(Int32Value, m.oneof[ty[i].container]));
        SelectorIsAbsorbed(d, rank, name, m, before, base, i);
        ProgressGrows(d, rank, name, m, s0, before, mem[..], base, allDone, i);
        allDone := allDone + {i};
      }
    }
  }

  lemma SelectorIsAbsorbed(d: Descriptors, rank: Rank, name: string, m: Message, before: seq<Cell>, base: nat, k: nat)
    requires Layable(d.reg.messages, rank) && k < |d.Type(name)| && WellFormedField(d.Type(name)[k])
    requires d.Type(name)[k].IsSelector() && d.Type(name)[k].container in m.oneof
    requires InRange(Int32Value, m.oneof[d.Type(name)[k].container])
    requires base + d.Offset(name, k) + d.Width(d.Type(name)[k]) <= |before|
    ensures var cells := StoreNumber(Int32Value, m.oneof[d.Type(name)[k].container]);
            var after := Patched(before, base + d.Offset(name, k), cells);
            && SameOutside(before, after, base + d.Offset(name, k), d.Width(d.Type(name)[k]))
            && ReadSlot(d, rank, name, k, WindowAt(d, name, k, after, base))
               == AbsorbAt(d, rank, name, k, WindowAt(d, name, k, before, base), m)
  {
    var x := m.oneof[d.Type(name)[k].container];
    PatchedIsLocal(before, base + d.Offset(name, k), StoreNumber(Int32Value, x));
    LoadInvertsStore(Int32Value, x);
    assert Cut(StoreNumber(Int32Value, x), 0, 4) == StoreNumber(Int32Value, x);
  }

  /** CopyMessageToCluster for a singular element: the nested cluster lies inside this one. */
  method CopyMessageToCluster(d: Descriptors, ghost rank: Rank, name: string, k: nat, v: Value, mem: array<Cell>, at: nat)
    returns (ok: bool, inside: bool)
    requires Copyable(d, rank, name, k, v) && at + d.Width(d.Type(name)[k]) <= mem.Length
    requires v.Nested? && EmbedsCluster(d.Type(name)[k])
    modifies mem
    ensures SameOutside(old(mem[..]), mem[..], at, d.Width(d.Type(name)[k]))
    ensures ok <==> ReceivableValue(d, d.Type(name)[k], v)
    ensures ok ==> (inside <==> ValueStaysInside(d, d.Type(name)[k], v))
    ensures ok ==> Copied(d, rank, name, k, v, old(mem[..]), mem[..], at)
    decreases v, 0
  {
    hide Described, Layable, View, Absorb, SameOutside;
    ok, inside := CopyToCluster(d, rank, d.Type(name)[k].embedded, v.message, mem, at);
  }

  lemma NestedExtent(d: Descriptors, rank: Rank, name: string)
    requires Described(d, rank) && Layable(d.reg.messages, rank)
    requires name in d.reg.messages && d.reg.messages[name] != []
    ensures name in d.layouts && d.layouts[name].extent == ClusterExtent(d.reg.messages, rank, name)
    ensures IsAlignment(d.layouts[name].extent.alignment) && d.Size(name) > 0
    ensures IsAligned(d.Size(name), d.layouts[name].extent.alignment)
  {
    assert DescribedType(d, rank, name);
    ClusterIsSound(d.reg.messages, rank, name);
  }

  /** The null pointer stored at the start of an element, and whether it fits in the block;
      what would lie outside is not written here. */
  method StoreNull(block: array<Cell>, at: nat) returns (inside: bool)
    modifies block
    ensures inside <==> at + POINTER_SIZE <= block.Length
    ensures IsNulled(old(block[..]), block[..], at)
  {
    var i := 0;
    while i < POINTER_SIZE && at + i < block.Length
      invariant 0 <= i <= POINTER_SIZE && (i > 0 ==> at + i <= block.Length)
      invariant forall p :: 0 <= p < block.Length ==> block[p] == if at <= p < at + i then ZERO else old(block[p])
    {
      block[at + i] := ZERO;
      i := i + 1;
    }
    inside := i == POINTER_SIZE;
  }

  ghost predicate IsNulled(s: seq<Cell>, t: seq<Cell>, at: nat) {
    |s| == |t| && forall p :: 0 <= p < |s| ==> t[p] == if at <= p < at + POINTER_SIZE then ZERO else s[p]
  }

  /** The first `x` clusters of the block are filled; the others hold what they held, but
      perhaps for their first eight bytes. */
  ghost predicate Elements(d: Descriptors, rank: Rank, name: string, h: Handle, s: seq<Cell>, ms: seq<Message>, x: nat)
    requires Layable(d.reg.messages, rank) && x <= |ms|
  {
    && |ms| * d.Size(name) <= |s|
    && (forall i :: 0 <= i < x ==> IsFilled(d, rank, name, h, s, ms, i))
    && (forall i :: x <= i < |ms| ==> Cleared(ElementCells(d, name, s, i)) == ElementBefore(d, name, h, i))
  }

  function ElementCells(d: Descriptors, name: string, s: seq<Cell>, i: nat): seq<Cell> {
    Nth(s, i, d.Size(name))
  }

  ghost predicate IsFilled(d: Descriptors, rank: Rank, name: string, h: Handle, s: seq<Cell>, ms: seq<Message>, i: nat)
    requires Layable(d.reg.messages, rank) && i < |ms|
  {
    View(d, rank, name, ElementCells(d, name, s, i)) == Absorb(d, rank, name, ElementBefore(d, name, h, i), ms[i])
  }

  lemma NoElements(d: Descriptors, rank: Rank, name: string, h: Handle, size: nat, ms: seq<Message>)
    requires Layable(d.reg.messages, rank) && |ms| * d.Size(name) <= size
    ensures Elements(d, rank, name, h, Resized(h, size), ms, 0)
  {
    forall i | 0 <= i < |ms| ensures Cleared(ElementCells(d, name, Resized(h, size), i)) == ElementBefore(d, name, h, i) {
      RoomFor(i, |ms|, d.Size(name));
      CutOfCut(BlockOf(h), 0, size, i * d.Size(name), d.Size(name));
    }
  }

  /** A null pointer at the start of element `x` clears it; what is before it stays, and what
      it reaches of a later element would be cleared with that one. */
  lemma NullBefore(s: seq<Cell>, t: seq<Cell>, x: nat, w: nat, i: nat)
    requires IsNulled(s, t, x * w) && i < x
    ensures Nth(t, i, w) == Nth(s, i, w)
  {
    RoomFor(i, x, w);
  }

  lemma NullAfter(s: seq<Cell>, t: seq<Cell>, x: nat, w: nat, i: nat)
    requires IsNulled(s, t, x * w) && x <= i
    ensures Cleared(Nth(t, i, w)) == Cleared(Nth(s, i, w))
  {
    if x < i { RoomFor(x, i, w); }
  }

  lemma NullHere(s: seq<Cell>, t: seq<Cell>, x: nat, w: nat)
    requires IsNulled(s, t, x * w)
    ensures Nth(t, x, w) == Cleared(Nth(s, x, w))
  {
  }

  lemma NullPrepares(d: Descriptors, rank: Rank, name: string, h: Handle, s: seq<Cell>, t: seq<Cell>, ms: seq<Message>,
                     x: nat)
    requires Layable(d.reg.messages, rank) && x < |ms| && Elements(d, rank, name, h, s, ms, x)
    requires IsNulled(s, t, x * d.Size(name))
    ensures Elements(d, rank, name, h, t, ms, x)
    ensures ElementCells(d, name, t, x) == ElementBefore(d, name, h, x)
  {
    hide View, Absorb, Layable, ElementBefore, Nth, Cleared;
    forall i | 0 <= i < x ensures IsFilled(d, rank, name, h, t, ms, i) {
      assert IsFilled(d, rank, name, h, s, ms, i);
      NullBefore(s, t, x, d.Size(name), i);
    }
    forall i | x <= i < |ms| ensures Cleared(ElementCells(d, name, t, i)) == ElementBefore(d, name, h, i) {
      NullAfter(s, t, x, d.Size(name), i);
    }
    NullHere(s, t, x, d.Size(name));
  }

  lemma ElementsGrow(d: Descriptors, rank: Rank, name: string, h: Handle, s: seq<Cell>, t: seq<Cell>, ms: seq<Message>,
                     x: nat)
    requires Layable(d.reg.messages, rank) && x < |ms| && Elements(d, rank, name, h, s, ms, x)
    requires SameOutside(s, t, x * d.Size(name), d.Size(name)) && IsFilled(d, rank, name, h, t, ms, x)
    ensures Elements(d, rank, name, h, t, ms, x + 1)
  {
    hide View, Absorb, Layable, ElementBefore, Nth, Cleared;
    forall i | 0 <= i < |ms| && i != x ensures ElementCells(d, name, t, i) == ElementCells(d, name, s, i) {
      NthOutside(s, t, x, d.Size(name), i);
    }
    forall i | 0 <= i < x ensures IsFilled(d, rank, name, h, t, ms, i) {
      assert IsFilled(d, rank, name, h, s, ms, i);
    }
  }

  /** For a repeated element: a block of clusters, filled one after the other. */
  method CopyMessagesToCluster(d: Descriptors, ghost rank: Rank, name: string, k: nat, v: Value, mem: array<Cell>, at: nat)
    returns (ok: bool, inside: bool)
    requires Copyable(d, rank, name, k, v) && at + d.Width(d.Type(name)[k]) <= mem.Length
    requires v.NestedList?
    modifies mem
    ensures SameOutside(old(mem[..]), mem[..], at, d.Width(d.Type(name)[k]))
    ensures ok <==> ReceivableValue(d, d.Type(name)[k], v)
    ensures ok ==> (inside <==> ValueStaysInside(d, d.Type(name)[k], v))
    ensures ok ==> Copied(d, rank, name, k, v, old(mem[..]), mem[..], at)
    decreases v, 0
  {
    hide Described, Layable, View, Absorb, StaysInside;
    ok, inside := true, true;
    if v.messages != [] {
      var block;
      var h := LoadHandle(mem[at..at + POINTER_SIZE]);
      ok, inside, block := FillBlock(d, rank, d.Type(name)[k].embedded, v.messages, h);
      if ok {
        StoreHandle(mem, at, Array1D(|v.messages|, block));
        ElementsRead(d, rank, name, k, Cut(old(mem[..]), at, POINTER_SIZE), block, v.messages);
      }
    }
  }

  lemma ElementsRead(d: Descriptors, rank: Rank, name: string, k: nat, before: seq<Cell>, block: seq<Cell>, ms: seq<Message>)
    requires Layable(d.reg.messages, rank) && k < |d.Type(name)| && ms != []
    requires d.Type(name)[k].repeated && d.Type(name)[k].kind.MessageValue?
    requires Elements(d, rank, d.Type(name)[k].embedded, LoadHandle(before), block, ms, |ms|)
    ensures ReadArray(d, rank, name, k, Array1D(|ms|, block)) == AbsorbValue(d, rank, name, k, before, NestedList(ms))
  {
    hide View, Absorb, Layable, ElementBefore;
    var nested, h := d.Type(name)[k].embedded, LoadHandle(before);
    forall i | 0 <= i < |ms|
      ensures View(d, rank, nested, Nth(block, i, d.Size(nested)))
              == Absorb(d, rank, nested, ElementBefore(d, nested, h, i), ms[i])
    {
      assert IsFilled(d, rank, nested, h, block, ms, i);
    }
  }

  method FillBlock(d: Descriptors, ghost rank: Rank, nested: string, ms: seq<Message>, h: Handle)
    returns (ok: bool, inside: bool, contents: seq<Cell>)
    requires Described(d, rank) && Layable(d.reg.messages, rank)
    requires nested in d.reg.messages && d.reg.messages[nested] != []
    requires forall m :: m in ms ==> WellTyped(d.reg, Some(d.Type(nested)), m) && OneofsFit(m)
    ensures ok <==> forall m :: m in ms ==> Receivable(d, nested, m)
    ensures ok ==> Elements(d, rank, nested, h, contents, ms, |ms|)
    ensures ok ==> (inside <==> ListStaysInside(d, nested, ms))
    decreases ms, 3
  {
    hide Described, Layable, View, Absorb, Elements, WellTyped, OneofsFit, Receivable, IsNulled, StaysInside, ListStaysInside,
      StoresFit;
    NestedExtent(d, rank, nested);
    var size, alignment := d.Size(nested), d.layouts[nested].extent.alignment;
    var byteSize := |ms| * size;
    UnitsCover(byteSize, alignment);
    var block := NumericArrayResize(h, AlignedElementCount(byteSize, alignment) * alignment);
    NoElements(d, rank, nested, h, block.Length, ms);
    BlockIsFull(d.layouts[nested].extent, |ms|);
    inside := true;
    NoStores(d, nested, ms);
    for x := 0 to |ms|
      invariant inside <==> StoresFit(d, nested, ms, x)
      invariant Elements(d, rank, nested, h, block[..], ms, x)
      invariant forall i :: 0 <= i < x ==> Receivable(d, nested, ms[i])
    {
      var within;
      ok, within := FillElement(d, rank, nested, ms, x, block, h);
      if !ok { return false, false, []; }
      StoresGrow(d, nested, ms, x);
      inside := inside && within;
    }
    StoresEnd(d, nested, ms);
    ok, contents := true, block[..];
  }

  method FillElement(d: Descriptors, ghost rank: Rank, nested: string, ms: seq<Message>, x: nat, block: array<Cell>,
                     ghost h: Handle)
    returns (ok: bool, inside: bool)
    requires Described(d, rank) && Layable(d.reg.messages, rank) && nested in d.reg.messages && x < |ms|
    requires WellTyped(d.reg, Some(d.Type(nested)), ms[x]) && OneofsFit(ms[x])
    requires |ms| * d.Size(nested) <= block.Length && Elements(d, rank, nested, h, block[..], ms, x)
    modifies block
    ensures ok <==> Receivable(d, nested, ms[x])
    ensures ok ==> Elements(d, rank, nested, h, block[..], ms, x + 1)
    ensures ok ==> (inside <==> x * d.Size(nested) + POINTER_SIZE <= block.Length && StaysInside(d, nested, ms[x]))
    decreases ms, 2
  {
    hide Described, Layable, View, Absorb, Elements, WellTyped, OneofsFit, Receivable, SameOutside, IsNulled, ElementBefore;
    ghost var before := block[..];
    RoomFor(x, |ms|, d.Size(nested));
    var fits := StoreNull(block, x * d.Size(nested));
    ghost var ready := block[..];
    NullPrepares(d, rank, nested, h, before, ready, ms, x);
    ok, inside := CopyToCluster(d, rank, nested, ms[x], block, x * d.Size(nested));
    inside := inside && fits;
    if ok { ElementsGrow(d, rank, nested, h, ready, block[..], ms, x); }
  }

  /** The first `x` elements are within their bounds, null pointers and all. */
  ghost predicate StoresFit(d: Descriptors, name: string, ms: seq<Message>, x: nat)
    requires x <= |ms|
  {
    forall i :: 0 <= i < x ==> StoreFits(d, name, |ms|, i) && StaysInside(d, name, ms[i])
  }

  predicate StoreFits(d: Descriptors, name: string, n: nat, x: nat) {
    x * d.Size(name) + POINTER_SIZE <= n * d.Size(name)
  }

  ghost predicate ListStaysInside(d: Descriptors, name: string, ms: seq<Message>) {
    (ms != [] ==> d.Size(name) >= POINTER_SIZE) && forall m :: m in ms ==> StaysInside(d, name, m)
  }

  lemma NoStores(d: Descriptors, name: string, ms: seq<Message>)
    ensures StoresFit(d, name, ms, 0)
  {
  }

  lemma StoresGrow(d: Descriptors, name: string, ms: seq<Message>, x: nat)
    requires x < |ms|
    ensures StoresFit(d, name, ms, x + 1)
            <==> StoresFit(d, name, ms, x) && x * d.Size(name) + POINTER_SIZE <= |ms| * d.Size(name)
                 && StaysInside(d, name, ms[x])
  {
    hide StaysInside;
    assert StoreFits(d, name, |ms|, x) <==> x * d.Size(name) + POINTER_SIZE <= |ms| * d.Size(name);
    hide StoreFits;
  }

  /** The last element decides for all. */
  lemma StoresEnd(d: Descriptors, name: string, ms: seq<Message>)
    ensures StoresFit(d, name, ms, |ms|) <==> ListStaysInside(d, name, ms)
  {
    hide StaysInside;
    var size := d.Size(name);
    if ms != [] {
      ElementRoom(|ms| - 1, |ms|, size);
      assert StoreFits(d, name, |ms|, |ms| - 1) <==> size >= POINTER_SIZE;
    }
    forall i | 0 <= i < |ms| && size >= POINTER_SIZE ensures StoreFits(d, name, |ms|, i) { RoomFor(i, |ms|, size); }
  }

  method CopyFieldToCluster(d: Descriptors, ghost rank: Rank, name: string, k: nat, v: Value, mem: array<Cell>, at: nat)
    returns (ok: bool, inside: bool)
    requires Copyable(d, rank, name, k, v) && at + d.Width(d.Type(name)[k]) <= mem.Length
    modifies mem
    ensures SameOutside(old(mem[..]), mem[..], at, d.Width(d.Type(name)[k]))
    ensures ok <==> ReceivableValue(d, d.Type(name)[k], v)
    ensures ok ==> Copied(d, rank, name, k, v, old(mem[..]), mem[..], at)
    ensures ok ==> (inside <==> ValueStaysInside(d, d.Type(name)[k], v))
    decreases v, 1
  {
    hide Described, Layable, ReadSlot, AbsorbValue, SameOutside;
    ok, inside := true, true;
    match v
    case Scalar(_, _) => ok := CopyScalarToCluster(d, rank, name, k, v, mem, at);
    case Packed(_, _) => ok := CopyNumbersToCluster(d, rank, name, k, v, mem, at);
    case Text(_, _) => CopyTextsToCluster(d, rank, name, k, v, mem, at);
    case Texts(_, _) => CopyTextsToCluster(d, rank, name, k, v, mem, at);
    case Nested(_) =>
      if EmbedsCluster(d.Type(name)[k]) {
        ok, inside := CopyMessageToCluster(d, rank, name, k, v, mem, at);
      } else {
        CopyGridToCluster(d, rank, name, k, v, mem, at);
      }
    case NestedList(_) => ok, inside := CopyMessagesToCluster(d, rank, name, k, v, mem, at);
  }

  // -------------------------------------------------- where the null pointers fit

  /** Every type that comes in arrays has clusters with room for a pointer. */
  ghost predicate HasRoom(d: Descriptors) {
    forall name, f :: name in d.reg.messages && f in d.reg.messages[name] && f.repeated && EmbedsCluster(f) ==>
      d.Size(f.embedded) >= POINTER_SIZE
  }

  lemma {:induction false} RoomStaysInside(d: Descriptors, rank: Rank, name: string, m: Message)
    requires Described(d, rank) && HasRoom(d) && name in d.reg.messages && WellTyped(d.reg, Some(d.Type(name)), m)
    ensures StaysInside(d, name, m)
    decreases m, 1
  {
    hide HasRoom;
    var ty := d.Type(name);
    forall n | n in m.values && n in Mapped(ty) ensures ValueStaysInside(d, Mapped(ty)[n], m.values[n]) {
      MappedIsAnElement(ty, n);
      ValueHasRoom(d, rank, name, Mapped(ty)[n], m.values[n]);
    }
  }

  lemma {:induction false} ValueHasRoom(d: Descriptors, rank: Rank, name: string, f: Field, v: Value)
    requires Described(d, rank) && HasRoom(d) && name in d.reg.messages && f in d.reg.messages[name]
    requires WellTypedValue(d.reg, f, v)
    ensures ValueStaysInside(d, f, v)
    decreases v, 0
  {
    match v
    case Nested(m) => if EmbedsCluster(f) { RoomStaysInside(d, rank, f.embedded, m); }
    case NestedList(ms) =>
      assert EmbedsCluster(f);
      forall m | m in ms ensures StaysInside(d, f.embedded, m) { RoomStaysInside(d, rank, f.embedded, m); }
    case _ =>
  }

  /** A list of one empty message is enough to overrun a type without room. */
  lemma NoRoomOverruns(d: Descriptors, rank: Rank, name: string, f: Field)
    requires Described(d, rank) && name in d.reg.messages && f in d.reg.messages[name] && f.repeated && EmbedsCluster(f)
    requires d.Size(f.embedded) < POINTER_SIZE
    ensures var m := Message(map[f.number := NestedList([EMPTY_MESSAGE])], map[], []);
            WellTyped(d.reg, Some(d.Type(name)), m) && OneofsFit(m) && !StaysInside(d, name, m)
  {
    RepeatedIsMapped(d, rank, name, f);
    hide Described, Mapped;
    OneEmptyMessage(d.reg, d.Type(name), f);
    assert !ValueStaysInside(d, f, NestedList([EMPTY_MESSAGE]));
  }

  lemma RepeatedIsMapped(d: Descriptors, rank: Rank, name: string, f: Field)
    requires Described(d, rank) && name in d.reg.messages && f in d.reg.messages[name] && f.repeated && EmbedsCluster(f)
    ensures WellFormedType(d.Type(name)) && IsFieldNumber(f.number)
    ensures f.number in Mapped(d.Type(name)) && Mapped(d.Type(name))[f.number] == f
    ensures d.reg.Find(f.embedded).Some? && WellFormedType(d.reg.Find(f.embedded).value)
  {
    hide Mapped;
    assert DescribedType(d, rank, name) && DescribedField(d, f) && DescribedType(d, rank, f.embedded);
    var k :| 0 <= k < |d.Type(name)| && d.Type(name)[k] == f;
    assert WellFormedField(f);
    ElementIsMapped(d.Type(name), k);
  }

  lemma OneEmptyMessage(reg: Registry, ty: MessageType, f: Field)
    requires WellFormedType(ty) && f.number in Mapped(ty) && Mapped(ty)[f.number] == f && IsFieldNumber(f.number)
    requires f.repeated && f.kind.MessageValue? && reg.Find(f.embedded).Some? && WellFormedType(reg.Find(f.embedded).value)
    ensures var m := Message(map[f.number := NestedList([EMPTY_MESSAGE])], map[], []);
            WellTyped(reg, Some(ty), m) && OneofsFit(m)
  {
    hide Mapped, WellFormedType;
    assert WellTyped(reg, reg.Find(f.embedded), EMPTY_MESSAGE) && OneofsFit(EMPTY_MESSAGE);
    assert WellTypedValue(reg, f, NestedList([EMPTY_MESSAGE]));
  }

  /** No message whatever makes the copy write past a block if and only if every type that
      comes in arrays has room for a pointer. */
  lemma NullStoresFit(d: Descriptors, rank: Rank)
    requires Described(d, rank)
    ensures (forall name, m :: name in d.reg.messages && WellTyped(d.reg, Some(d.Type(name)), m) ==> StaysInside(d, name, m))
            <==> HasRoom(d)
  {
    hide Described, StaysInside, WellTyped;
    if HasRoom(d) {
      forall name, m | name in d.reg.messages && WellTyped(d.reg, Some(d.Type(name)), m) ensures StaysInside(d, name, m) {
        RoomStaysInside(d, rank, name, m);
      }
    } else {
      var name, f :| name in d.reg.messages && f in d.reg.messages[name] && f.repeated && EmbedsCluster(f)
                     && d.Size(f.embedded) < POINTER_SIZE;
      NoRoomOverruns(d, rank, name, f);
    }
  }
}
