/** LVMessageEfficient: the parser that writes each field straight into the cluster. */
module LVMessagesEfficient {
  import opened Wire
  import opened Schema
  import opened Numeric
  import opened Messages
  import opened Parse
  import opened Groups
  import opened WireItems
  import opened Tokens
  import opened SliceStream
  import opened CodedStream
  import opened LVMessages
  import opened Layout
  import opened Clusters
  import opened Copying
  import opened ClusterCopier
  import opened Direct
  import opened Clashes

  // ------------------------------------------------------------- writing one field

  /** Element `k`, at `at`, went from `s` to `t` as one occurrence of its field demands. */
  ghost predicate Wrote(d: Descriptors, rank: Rank, name: string, k: nat, s: seq<Cell>, t: seq<Cell>, at: nat, it: Item)
    requires Layable(d.reg.messages, rank) && k < |d.Type(name)|
  {
    var f := d.Type(name)[k];
    && SameOutside(s, t, at, d.Width(f))
    && ReadSlot(d, rank, name, k, Clusters.Cut(t, at, d.Width(f)))
       == DirectSlot(d, f, ReadSlot(d, rank, name, k, Clusters.Cut(s, at, d.Width(f))), it)
  }

  lemma ItemIsShown(d: Descriptors, rank: Rank, name: string, s: seq<Cell>, t: seq<Cell>, base: nat, n: int, it: Item)
    requires Described(d, rank) && Layable(d.reg.messages, rank)
    requires n in Mapped(d.Type(name)) && ItemNumber(it) == n
    requires var k := IndexOf(d.Type(name), n); Wrote(d, rank, name, k, s, t, base + d.Offset(name, k), it)
    ensures SameOutside(s, t, base, d.Size(name))
    ensures View(d, rank, name, Clusters.Cut(t, base, d.Size(name)))
            == DirectItem(d, name, View(d, rank, name, Clusters.Cut(s, base, d.Size(name))), it)
  {
    hide ReadSlot, DirectSlot, Described, Wrote;
    var ty, k := d.Type(name), IndexOf(d.Type(name), n);
    WroteInside(d, rank, name, k, s, t, base, it);
    var v, w := View(d, rank, name, Clusters.Cut(s, base, d.Size(name))), View(d, rank, name, Clusters.Cut(t, base, d.Size(name)));
    forall j | 0 <= j < |ty|
      ensures w.slots[j] == if j == k then DirectSlot(d, ty[k], v.slots[k], it) else v.slots[j]
    {
      SlotIsShown(d, rank, name, k, s, t, base, it, j);
    }
    assert w.slots == v.slots[k := DirectSlot(d, ty[k], v.slots[k], it)];
  }

  lemma WroteInside(d: Descriptors, rank: Rank, name: string, k: nat, s: seq<Cell>, t: seq<Cell>, base: nat, it: Item)
    requires Described(d, rank) && Layable(d.reg.messages, rank) && k < |d.Type(name)|
    requires Wrote(d, rank, name, k, s, t, base + d.Offset(name, k), it)
    ensures SameOutside(s, t, base, d.Size(name))
  {
    hide ReadSlot, DirectSlot, Described;
    ElementIsInside(d, rank, name, k);
  }

  lemma SlotIsShown(d: Descriptors, rank: Rank, name: string, k: nat, s: seq<Cell>, t: seq<Cell>, base: nat, it: Item, j: nat)
    requires Described(d, rank) && Layable(d.reg.messages, rank) && k < |d.Type(name)| && j < |d.Type(name)|
    requires Wrote(d, rank, name, k, s, t, base + d.Offset(name, k), it)
    ensures View(d, rank, name, Clusters.Cut(t, base, d.Size(name))).slots[j]
            == var shown := View(d, rank, name, Clusters.Cut(s, base, d.Size(name))).slots[j];
               if j == k then DirectSlot(d, d.Type(name)[k], shown, it) else shown
  {
    hide ReadSlot, DirectSlot, Described;
    WindowOfWhole(d, rank, name, s, base, j);
    WindowOfWhole(d, rank, name, t, base, j);
    if j != k { ElementKeeps(d, rank, name, s, t, base, k, j); }
  }

  lemma WindowOfWhole(d: Descriptors, rank: Rank, name: string, s: seq<Cell>, base: nat, j: nat)
    requires Described(d, rank) && j < |d.Type(name)|
    ensures d.Window(name, j, Clusters.Cut(s, base, d.Size(name))) == WindowAt(d, name, j, s, base)
  {
    hide Described;
    ElementIsInside(d, rank, name, j);
    CutOfCut(s, base, d.Size(name), d.Offset(name, j), d.Width(d.Type(name)[j]));
  }

  lemma ElementKeeps(d: Descriptors, rank: Rank, name: string, s: seq<Cell>, t: seq<Cell>, base: nat, k: nat, j: nat)
    requires Described(d, rank) && k < |d.Type(name)| && j < |d.Type(name)| && j != k
    requires SameOutside(s, t, base + d.Offset(name, k), d.Width(d.Type(name)[k]))
    ensures WindowAt(d, name, j, s, base) == WindowAt(d, name, j, t, base)
  {
    hide Described;
    if j < k { ElementsAreDisjoint(d, rank, name, j, k); } else { ElementsAreDisjoint(d, rank, name, k, j); }
    CutOutside(s, t, base + d.Offset(name, k), d.Width(d.Type(name)[k]), base + d.Offset(name, j), d.Width(d.Type(name)[j]));
  }

  /** What a writer of element `k` relies on. */
  ghost predicate Writes(d: Descriptors, rank: Rank, name: string, k: nat) {
    && Described(d, rank) && Layable(d.reg.messages, rank) && k < |d.Type(name)|
    && DescribedField(d, d.Type(name)[k]) && IsDirect(d.Type(name)[k])
  }

  /** A single number, or an enum's position. */
  method WriteNumber(d: Descriptors, ghost rank: Rank, name: string, k: nat, v: int, mem: array<Cell>, at: nat, ghost it: Item)
    requires Writes(d, rank, name, k) && at + d.Width(d.Type(name)[k]) <= mem.Length
    requires var f := d.Type(name)[k];
             && !f.repeated && f.kind.IsNumeric() && InRange(StoredKind(f.kind), v)
             && it.One? && Inward(d, f, it.value) == v
    modifies mem
    ensures Wrote(d, rank, name, k, old(mem[..]), mem[..], at, it)
  {
    hide Described, Layable, DescribedField;
    var kind := d.Type(name)[k].kind;
    StoreCells(mem, at, StoreNumber(kind, v));
    PatchedIsLocal(old(mem[..]), at, StoreNumber(kind, v));
    LoadInvertsStore(kind, v);
    CutOfCut(mem[..], at, CellWidth(kind), 0, CellWidth(kind));
  }

  method WriteText(d: Descriptors, ghost rank: Rank, name: string, k: nat, t: bytes, mem: array<Cell>, at: nat, ghost it: Item)
    requires Writes(d, rank, name, k) && at + d.Width(d.Type(name)[k]) <= mem.Length
    requires var f := d.Type(name)[k]; !f.repeated && f.kind.IsText() && it.Blob? && it.content == t
    modifies mem
    ensures Wrote(d, rank, name, k, old(mem[..]), mem[..], at, it)
  {
    hide Described, Layable, DescribedField;
    StoreHandle(mem, at, Str(t));
  }

  /** The first `n` of `xs` are stored in the block. */
  ghost predicate Holds(kind: Kind, s: seq<Cell>, xs: seq<int>, n: nat)
    requires kind.IsNumeric() && n <= |xs|
  {
    forall i :: 0 <= i < n ==> LoadNumber(kind, Nth(s, i, CellWidth(kind))) == xs[i]
  }

  lemma HoldsOneMore(kind: Kind, s: seq<Cell>, xs: seq<int>, n: nat)
    requires kind.IsNumeric() && n < |xs| && Holds(kind, s, xs, n) && InRange(StoredKind(kind), xs[n])
    requires n * CellWidth(kind) + CellWidth(kind) <= |s|
    ensures Holds(kind, Patched(s, n * CellWidth(kind), StoreNumber(kind, xs[n])), xs, n + 1)
  {
    var w := CellWidth(kind);
    hide Patched, StoreNumber, LoadNumber, CellWidth, Nth, InRange, StoredKind;
    var t := Patched(s, n * w, StoreNumber(kind, xs[n]));
    LoadInvertsStore(kind, xs[n]);
    NthPatched(s, n, StoreNumber(kind, xs[n]));
    forall i | 0 <= i < n ensures Nth(t, i, w) == Nth(s, i, w) { NthOutside(s, t, n, w, i); }
  }

  lemma HoldsOld(kind: Kind, h: Handle, count: nat, xs: seq<int>)
    requires kind.IsNumeric() && count <= |xs|
    requires xs[..count] == LoadNumbers(kind, BlockOf(h), count)
    ensures Holds(kind, Resized(h, |xs| * CellWidth(kind)), xs, count)
  {
    hide Nth, Resized, BlockOf, CellWidth;
    var w := CellWidth(kind);
    forall i | 0 <= i < count ensures LoadNumber(kind, Nth(Resized(h, |xs| * w), i, w)) == xs[i] {
      NthOfResized(h, w, |xs|, i);
      assert xs[..count][i] == xs[i];
    }
  }

  /** AppendToLVArray and AppendVectorToLVArray: the array is resized and the new numbers are
      stored behind those it had. */
  method AppendToLVArray(d: Descriptors, ghost rank: Rank, name: string, k: nat, vals: seq<int>, mem: array<Cell>, at: nat,
                         ghost it: Item)
    requires Writes(d, rank, name, k) && at + d.Width(d.Type(name)[k]) <= mem.Length
    requires var f := d.Type(name)[k];
             && f.repeated && AllInRange(f.kind, vals)
             && ((it.One? && vals == [it.value]) || (it.Chunk? && vals == it.values))
    modifies mem
    ensures Wrote(d, rank, name, k, old(mem[..]), mem[..], at, it)
  {
    hide Described, Layable, DescribedField;
    var kind, h := d.Type(name)[k].kind, LoadHandle(mem[at..at + POINTER_SIZE]);
    var existing := if h.Array1D? then h.count else 0;
    ghost var xs := LoadNumbers(kind, BlockOf(h), existing) + vals;
    ListOf(d, rank, name, k, mem[at..at + POINTER_SIZE]);
    if vals == [] {
      assert xs == LoadNumbers(kind, BlockOf(h), existing);
    } else {
      var block := GrowBlock(kind, h, existing, vals);
      StoreHandle(mem, at, Array1D(existing + |vals|, block));
      ListOf(d, rank, name, k, mem[at..at + POINTER_SIZE]);
    }
  }

  lemma ListOf(d: Descriptors, rank: Rank, name: string, k: nat, cells: seq<Cell>)
    requires Layable(d.reg.messages, rank) && k < |d.Type(name)|
    requires d.Type(name)[k].repeated && d.Type(name)[k].kind.IsNumeric()
    ensures var h := LoadHandle(cells);
            ReadSlot(d, rank, name, k, cells)
            == Nums(LoadNumbers(d.Type(name)[k].kind, BlockOf(h), if h.Array1D? then h.count else 0))
  {
    var h := LoadHandle(cells);
    assert ReadSlot(d, rank, name, k, cells) == ReadArray(d, rank, name, k, h);
    if !h.Array1D? {
      assert LoadNumbers(d.Type(name)[k].kind, BlockOf(h), 0) == LoadNumbers(d.Type(name)[k].kind, [], 0);
    }
  }

  method StoreNumberAt(kind: Kind, memory: array<Cell>, total: nat, n: nat, val: int, ghost xs: seq<int>)
    requires kind.IsNumeric() && memory.Length == total * CellWidth(kind) && n < total == |xs|
    requires xs[n] == val && InRange(StoredKind(kind), val) && Holds(kind, memory[..], xs, n)
    modifies memory
    ensures Holds(kind, memory[..], xs, n + 1)
  {
    hide *;
    RoomFor(n, total, CellWidth(kind));
    HoldsOneMore(kind, memory[..], xs, n);
    StoreCells(memory, n * CellWidth(kind), StoreNumber(kind, val));
  }

  method GrowBlock(kind: Kind, h: Handle, existing: nat, vals: seq<int>) returns (block: seq<Cell>)
    requires kind.IsNumeric() && AllInRange(StoredKind(kind), vals)
    ensures LoadNumbers(kind, block, existing + |vals|) == LoadNumbers(kind, BlockOf(h), existing) + vals
  {
    ghost var xs := LoadNumbers(kind, BlockOf(h), existing) + vals;
    var w, total := CellWidth(kind), existing + |vals|;
    var memory := NumericArrayResize(h, total * w);
    HoldsOld(kind, h, existing, xs);
    hide *;
    for j := 0 to |vals|
      invariant Holds(kind, memory[..], xs, existing + j)
    {
      StoreNumberAt(kind, memory, total, existing + j, vals[j], xs);
    }
    block := memory[..];
    HoldsAll(kind, block, xs);
  }

  lemma HoldsAll(kind: Kind, s: seq<Cell>, xs: seq<int>)
    requires kind.IsNumeric() && Holds(kind, s, xs, |xs|)
    ensures LoadNumbers(kind, s, |xs|) == xs
  {
  }

  lemma FieldKinds(f: Field)
    ensures f.kind == MessageValue || f.kind.IsText() || f.kind.IsNumeric()
  {
  }

  lemma Unwritten(s: seq<Cell>, at: nat, n: nat)
    ensures SameOutside(s, s, at, n)
  {
  }

  lemma WroteIsLocal(d: Descriptors, rank: Rank, name: string, k: nat, s: seq<Cell>, t: seq<Cell>, at: nat, it: Item)
    requires Layable(d.reg.messages, rank) && k < |d.Type(name)| && Wrote(d, rank, name, k, s, t, at, it)
    ensures SameOutside(s, t, at, d.Width(d.Type(name)[k]))
  {
  }

  lemma CanWrite(d: Descriptors, rank: Rank, name: string, n: int)
    requires Directable(d, rank, name) && n in Mapped(d.Type(name))
    ensures Writes(d, rank, name, IndexOf(d.Type(name), n))
  {
    assert DescribedType(d, rank, name);
  }

  lemma FieldNumberFits(d: Descriptors, rank: Rank, name: string, n: nat)
    requires Described(d, rank) && Layable(d.reg.messages, rank) && name in d.reg.messages && n in Mapped(d.Type(name))
    ensures InRange(Int32Value, Mapped(d.Type(name))[n].number)
  {
    MappedIsAnElement(d.Type(name), n);
    assert DescribedType(d, rank, name);
  }

  lemma OutsideWidens(s: seq<Cell>, t: seq<Cell>, base: nat, size: nat, at: nat, n: nat)
    requires SameOutside(s, t, at, n) && base <= at && at + n <= base + size
    ensures SameOutside(s, t, base, size)
  {
  }

  lemma UnknownIsNoField(d: Descriptors, name: string, view: Cluster, tag: nat, us: seq<Unknown>)
    requires TagFieldNumber(tag) !in Mapped(d.Type(name))
    ensures var it := Other(Group(TagFieldNumber(tag), Tokens.Leaves(us)));
            ItemNumber(it) == TagFieldNumber(tag) && DirectItem(d, name, view, it) == view && KnownItem(d, name, it)
  {
    TagParts(TagFieldNumber(tag), WIRETYPE_START_GROUP);
  }

  lemma MappedItemIs(d: Descriptors, name: string, it: Item, selected: map<string, int>)
    requires ItemNumber(it) in Mapped(d.Type(name))
    ensures var f := Mapped(d.Type(name))[ItemNumber(it)];
            && (KnownItem(d, name, it) <==> KnownFor(d, f, it))
            && SelectedByItem(d.Type(name), selected, it) == if f.inOneof then selected[f.container := f.number] else selected
  {
  }

  lemma NestedWrote(d: Descriptors, rank: Rank, name: string, k: nat, s: seq<Cell>, t: seq<Cell>, at: nat, n: nat,
                    items: seq<Item>)
    requires Layable(d.reg.messages, rank) && k < |d.Type(name)|
    requires EmbedsCluster(d.Type(name)[k]) && !d.Type(name)[k].repeated
    requires var nested := d.Type(name)[k].embedded; var size := d.Size(nested);
             && SameOutside(s, t, at, size)
             && View(d, rank, nested, Clusters.Cut(t, at, size))
                == DirectParse(d, nested, View(d, rank, nested, Clusters.Cut(s, at, size)), map[], items).0
    ensures Wrote(d, rank, name, k, s, t, at, Item.Sub(n, items))
  {
  }

  // --------------------------------------------------------- the parser's items so far

  /** `whole` is what has been `seen`, all of it known, and then `rest`. */
  ghost predicate Continues(d: Descriptors, name: string, whole: Tokens.Cut, seen: seq<Item>, rest: Tokens.Cut) {
    && whole.status == rest.status && KnownItems(d, name, seen)
    && (rest.status == Accepted ==>
          whole.items == seen + rest.items && whole.rest == rest.rest && whole.atEnd == rest.atEnd)
  }

  lemma StartOfItems(d: Descriptors, name: string, c: Tokens.Cut, view: Cluster, selected: map<string, int>)
    ensures Continues(d, name, c, [], c)
    ensures DirectItems(d, name, view, []) == view && SelectedAfter(d.Type(name), selected, []) == selected
  {
    assert [] + c.items == c.items;
  }

  lemma CutUnfolds(d: Descriptors, name: string, whole: Tokens.Cut, seen: seq<Item>, i: Input)
    requires i.Valid() && Wire.ReadTag(i).tag != 0
    requires Continues(d, name, whole, seen, CutFields(d.reg, Some(d.Type(name)), i))
    ensures var t := Wire.ReadTag(i); var one := CutTagged(d.reg, Some(d.Type(name)), t.tag, t.rest);
            && (one.status != Accepted ==> whole.status != Accepted)
            && (one.status == Accepted && |one.items| == 1 ==>
                  if KnownItem(d, name, one.items[0])
                  then Continues(d, name, whole, seen + one.items, CutFields(d.reg, Some(d.Type(name)), one.rest))
                  else !(whole.status == Accepted && KnownItems(d, name, whole.items)))
  {
    hide CutTagged, Wire.ReadTag, KnownItem;
    var t := Wire.ReadTag(i); var one := CutTagged(d.reg, Some(d.Type(name)), t.tag, t.rest);
    if one.status == Accepted && |one.items| == 1 {
      var more := CutFields(d.reg, Some(d.Type(name)), one.rest);
      assert one.items == [one.items[0]];
      assert seen + (one.items + more.items) == (seen + one.items) + more.items;
      KnownGrows(d, name, seen, one.items[0]);
      if whole.status == Accepted {
        assert whole.items[|seen|] == one.items[0];
      }
    }
  }

  lemma CutEnds(d: Descriptors, name: string, whole: Tokens.Cut, seen: seq<Item>, i: Input)
    requires i.Valid() && Wire.ReadTag(i).tag == 0
    requires Continues(d, name, whole, seen, CutFields(d.reg, Some(d.Type(name)), i))
    ensures var t := Wire.ReadTag(i); whole == Tokens.Cut(Accepted, seen, t.rest, t.atEnd) && KnownItems(d, name, whole.items)
  {
    hide CutTagged, Wire.ReadTag, KnownItem;
    assert seen + [] == seen;
  }

  lemma OnlySelectorsAreWritten(d: Descriptors, name: string, m: Message)
    requires m.values == map[]
    ensures forall k :: 0 <= k < |d.Type(name)| && IsWritten(d, name, m, k) ==> d.Type(name)[k].IsSelector()
  {
  }

  /** What a direct parse of bytes means in terms of the plain parser. */
  lemma DirectMeansPlain(d: Descriptors, rank: Rank, name: string, i: Input)
    requires Directable(d, rank, name) && Layable(d.reg.messages, rank) && i.Valid()
    ensures var c, o := CutFields(d.reg, Some(d.Type(name)), i), ParseFields(d.reg, Some(d.Type(name)), i, EMPTY_MESSAGE);
            && c.status == o.status && c.atEnd == o.atEnd
            && (c.status == Accepted ==>
                  && (Receivable(d, name, o.message) <==> KeptAreKnown(d, rank, name, c.items))
                  && (KnownItems(d, name, c.items) ==> KeptAreKnown(d, rank, name, c.items))
                  && (Directly(d, rank, name, c.items) == Absorb(d, rank, name, Zeros(d.Size(name)), o.message)
                      <==> Settled(d, rank, name, c.items, c.items))
                  && (AtMostOnce(d, name, c.items) ==>
                        Settled(d, rank, name, c.items, c.items)
                        && (KnownItems(d, name, c.items) <==> KeptAreKnown(d, rank, name, c.items))))
  {
    hide View, Absorb, Directly, KnownItems, Receivable, ParseFields, AtMostOnce, CutFields, Settled, KeptAreKnown, Directable,
      Layable;
    ParseIsCutThenApply(d.reg, Some(d.Type(name)), i, EMPTY_MESSAGE);
    var c := CutFields(d.reg, Some(d.Type(name)), i);
    if c.status == Accepted {
      RegistryIsWellFormed(d, rank, name);
      CutIsTyped(d.reg, Some(d.Type(name)), i);
      DirectRefinesExactly(d, rank, name, c.items);
      ReceivableIfKept(d, rank, name, c.items);
      if KnownItems(d, name, c.items) { KnownAreKept(d, rank, name, c.items); }
      if AtMostOnce(d, name, c.items) { OnceIsSettled(d, rank, name, c.items); }
    }
  }

  predicate SelectedFit(selected: map<string, int>) {
    forall c :: c in selected ==> InRange(Int32Value, selected[c])
  }

  lemma OnlySelectors(d: Descriptors, rank: Rank, name: string, cells: seq<Cell>, selected: map<string, int>)
    requires Layable(d.reg.messages, rank)
    ensures Absorb(d, rank, name, cells, Message(map[], selected, []))
            == WithSelectors(d.Type(name), View(d, rank, name, cells), selected)
  {
    hide ReadSlot;
  }

  // ------------------------------------------------------------------- the parser

  class LVMessageEfficient {
    const d: Descriptors
    const name: string
    const cluster: array<Cell>
    const base: nat
    /** The inherited part: the map of selected indices and the unknown fields. */
    const message: LVMessage

    constructor (d: Descriptors, name: string, cluster: array<Cell>, base: nat)
      ensures this.d == d && this.name == name && this.cluster == cluster && this.base == base
      ensures fresh(message) && message.Contents() == EMPTY_MESSAGE
    {
      this.d, this.name, this.cluster, this.base := d, name, cluster, base;
      message := new LVMessage(d.reg, d.reg.Find(name));
    }

    ghost predicate Ready(rank: Rank) {
      && Described(d, rank) && Layable(d.reg.messages, rank) && name in d.reg.messages && DirectTypes(d, rank, name)
      && base + d.Size(name) <= cluster.Length
    }

    /** What LabVIEW sees in the cluster. */
    ghost function Shown(rank: Rank): Cluster
      requires Layable(d.reg.messages, rank)
      reads cluster
    {
      View(d, rank, name, Clusters.Cut(cluster[..], base, d.Size(name)))
    }

    /** A message in any slices, into a fresh cluster. It is accepted when the plain parser
        accepts it and every enum number on the wire has a position; the copy of the parsed
        message asks that only of the numbers that were kept. When it is accepted, the
        cluster is the one that parsing into a message and copying it gives exactly when the
        wire is settled; without clashes it is, and either both succeed or both fail. */
    method ParseFromByteBuffer(ghost rank: Rank, slices: seq<bytes>) returns (status: Status, ok: bool)
      requires Ready(rank) && |SliceStream.Flatten(slices)| < INT_MAX
      requires Clusters.Cut(cluster[..], base, d.Size(name)) == Zeros(d.Size(name))
      modifies message, cluster
      ensures SameOutside(old(cluster[..]), cluster[..], base, d.Size(name))
      ensures var w := SliceStream.Flatten(slices); var ty := Some(d.Type(name)); var items := CutFields(d.reg, ty, Whole(w)).items;
              && (ok <==> Accepts(d.reg, ty, w) && KnownItems(d, name, items))
              && (Accepts(d.reg, ty, w) ==>
                    && (Receivable(d, name, Parsed(d.reg, ty, w)) <==> KeptAreKnown(d, rank, name, items))
                    && (AtMostOnce(d, name, items) ==>
                          Settled(d, rank, name, items, items)
                          && (KnownItems(d, name, items) <==> KeptAreKnown(d, rank, name, items))))
              && (ok ==>
                    && Receivable(d, name, Parsed(d.reg, ty, w))
                    && (Shown(rank) == Absorb(d, rank, name, Zeros(d.Size(name)), Parsed(d.reg, ty, w))
                        <==> Settled(d, rank, name, items, items)))
    {
      hide At, Described, DirectTypes, Layable, View, Absorb, SameOutside, CutFields, AtMostOnce, DirectParse, KnownItems, Receivable,
        ParseFields, KeptAreKnown, Settled;
      message.Clear();
      var source := new MultiSliceInputStream(slices);
      var input := new CodedInputStream(source);
      ghost var i := input.In();
      status := ParseFromCodedStream(rank, input);
      ok := status == Accepted && input.legitimateEnd;
      DirectMeansPlain(d, rank, name, i);
    }

    /** Accepts what the plain parser accepts, unless an enum number has no position. The
        cluster and the selected indices are then those of the direct parse of the same
        items, and nothing outside the cluster has changed. */
    method ParseFromCodedStream(ghost rank: Rank, input: CodedInputStream) returns (status: Status)
      requires Ready(rank) && SelectedFit(message.oneofContainerToSelectedIndexMap)
      requires input.Valid() && !input.legitimateEnd
      modifies message, cluster, input, input.source
      ensures SelectedFit(message.oneofContainerToSelectedIndexMap)
      ensures input.Valid() && input.limit <= old(input.limit)
      ensures SameOutside(old(cluster[..]), cluster[..], base, d.Size(name))
      ensures var c := CutFields(d.reg, Some(d.Type(name)), old(input.In()));
              && (status == Accepted <==> c.status == Accepted && KnownItems(d, name, c.items))
              && (status == Accepted ==>
                    input.legitimateEnd == c.atEnd && input.In() == c.rest && input.limit == old(input.limit)
                    && (Shown(rank), message.oneofContainerToSelectedIndexMap)
                       == DirectParse(d, name, old(Shown(rank)), old(message.oneofContainerToSelectedIndexMap), c.items))
      decreases |input.In().data|, 2
    {
      hide At, Described, DirectTypes, Layable, View, SameOutside, Wire.ReadTag, CutTagged, DirectItem, SelectedByItem,
        KnownItem, DirectItems, SelectedAfter, KnownItems, CutFields;
      ghost var first, before, selected := input.In(), Shown(rank), message.oneofContainerToSelectedIndexMap;
      ghost var i, seen: seq<Item> := first, [];
      Unwritten(cluster[..], base, d.Size(name));
      StartOfItems(d, name, CutFields(d.reg, Some(d.Type(name)), first), before, selected);
      var tag := input.ReadTag();
      while tag != 0
        invariant input.Valid() && i.Valid() && |i.data| <= |first.data|
        invariant SelectedFit(message.oneofContainerToSelectedIndexMap)
        invariant input.limit == old(input.limit) && SameOutside(old(cluster[..]), cluster[..], base, d.Size(name))
        invariant Continues(d, name, CutFields(d.reg, Some(d.Type(name)), first), seen, CutFields(d.reg, Some(d.Type(name)), i))
        invariant Shown(rank) == DirectItems(d, name, before, seen)
        invariant message.oneofContainerToSelectedIndexMap == SelectedAfter(d.Type(name), selected, seen)
        invariant var t := Wire.ReadTag(i);
                  tag == t.tag && input.In() == t.rest && input.legitimateEnd == t.atEnd && |t.rest.data| <= |i.data|
                  && (tag != 0 ==> |t.rest.data| < |i.data| && !t.atEnd)
        decreases |i.data|
      {
        ghost var mid := cluster[..];
        status := ParseTagged(rank, input, tag);
        OutsideCompose(old(cluster[..]), mid, cluster[..], base, d.Size(name), base, d.Size(name));
        CutUnfolds(d, name, CutFields(d.reg, Some(d.Type(name)), first), seen, i);
        if status != Accepted { return; }
        ghost var it := CutTagged(d.reg, Some(d.Type(name)), tag, Wire.ReadTag(i).rest).items[0];
        assert CutTagged(d.reg, Some(d.Type(name)), tag, Wire.ReadTag(i).rest).items == [it];
        DirectItemsSnoc(d, name, before, seen, it);
        SelectedSnoc(d.Type(name), selected, seen, it);
        seen := seen + [it];
        i := input.In();
        tag := input.ReadTag();
      }
      CutEnds(d, name, CutFields(d.reg, Some(d.Type(name)), first), seen, i);
      ghost var parsed := cluster[..];
      CopyOneofIndices(rank);
      OutsideCompose(old(cluster[..]), parsed, cluster[..], base, d.Size(name), base, d.Size(name));
      status := Accepted;
    }

    /** PostInteralParseAction: the selected indices go into the cluster. */
    method CopyOneofIndices(ghost rank: Rank)
      requires Ready(rank) && SelectedFit(message.oneofContainerToSelectedIndexMap)
      modifies cluster
      ensures SameOutside(old(cluster[..]), cluster[..], base, d.Size(name))
      ensures Shown(rank) == WithSelectors(d.Type(name), old(Shown(rank)), message.oneofContainerToSelectedIndexMap)
    {
      hide Described, DirectTypes, Layable, View, Absorb, Progress, SameOutside, IsWritten, WithSelectors;
      TypeIsDescribed(d, rank, name);
      var m := Message(map[], message.oneofContainerToSelectedIndexMap, []);
      assert OneofsFit(m);
      NoProgress(d, rank, name, m, cluster[..], base);
      ghost var done := CopyOneofIndicesToCluster(d, rank, name, m, cluster, base, cluster[..], {});
      assert forall k :: 0 <= k < |d.Type(name)| && IsWritten(d, name, m, k) ==> k in done by { OnlySelectorsAreWritten(d, name, m); }
      ProgressEnds(d, rank, name, m, old(cluster[..]), cluster[..], base, done);
      OnlySelectors(d, rank, name, Clusters.Cut(old(cluster[..]), base, d.Size(name)), m.oneof);
    }

    /** One field. */
    method ParseTagged(ghost rank: Rank, input: CodedInputStream, tag: nat) returns (status: Status)
      requires Ready(rank) && SelectedFit(message.oneofContainerToSelectedIndexMap)
      requires input.Valid() && !input.legitimateEnd
      modifies message, cluster, input, input.source
      ensures SelectedFit(message.oneofContainerToSelectedIndexMap)
      ensures input.Valid() && input.limit <= old(input.limit)
      ensures SameOutside(old(cluster[..]), cluster[..], base, d.Size(name))
      ensures var c := CutTagged(d.reg, Some(d.Type(name)), tag, old(input.In()));
              && (c.status == Accepted ==> |c.items| == 1)
              && (status == Accepted <==> c.status == Accepted && KnownItem(d, name, c.items[0]))
              && (status == Accepted ==>
                    !input.legitimateEnd && input.In() == c.rest && input.limit == old(input.limit)
                    && Shown(rank) == DirectItem(d, name, old(Shown(rank)), c.items[0])
                    && message.oneofContainerToSelectedIndexMap
                       == SelectedByItem(d.Type(name), old(message.oneofContainerToSelectedIndexMap), c.items[0]))
      decreases |input.In().data|, 4
    {
      hide At, ReadUnknown, CutField, Described, DirectTypes, Layable, View, SameOutside, DirectItem, KnownFor;
      var ty, fieldNumber := d.Type(name), TagFieldNumber(tag);
      if fieldNumber in Mapped(ty) {
        status := ParseMapped(rank, input, fieldNumber, TagWireType(tag));
      } else {
        var ok := message.HandleUnknownField(input, tag);
        status := if ok then Accepted else Rejected;
        UnknownIsNoField(d, name, old(Shown(rank)), tag, ReadUnknown(tag, old(input.In())).fields);
        Unwritten(cluster[..], base, d.Size(name));
      }
    }

    /** A described field: its oneof is noted, and its value goes to its element. */
    method ParseMapped(ghost rank: Rank, input: CodedInputStream, fieldNumber: nat, wireType: nat) returns (status: Status)
      requires Ready(rank) && SelectedFit(message.oneofContainerToSelectedIndexMap)
      requires input.Valid() && !input.legitimateEnd && fieldNumber in Mapped(d.Type(name))
      modifies message, cluster, input, input.source
      ensures SelectedFit(message.oneofContainerToSelectedIndexMap)
      ensures input.Valid() && input.limit <= old(input.limit)
      ensures SameOutside(old(cluster[..]), cluster[..], base, d.Size(name))
      ensures var c := CutField(d.reg, Mapped(d.Type(name))[fieldNumber], fieldNumber, wireType, old(input.In()));
              && (c.status == Accepted ==> |c.items| == 1)
              && (status == Accepted <==> c.status == Accepted && KnownItem(d, name, c.items[0]))
              && (status == Accepted ==>
                    !input.legitimateEnd && input.In() == c.rest && input.limit == old(input.limit)
                    && Shown(rank) == DirectItem(d, name, old(Shown(rank)), c.items[0])
                    && message.oneofContainerToSelectedIndexMap
                       == SelectedByItem(d.Type(name), old(message.oneofContainerToSelectedIndexMap), c.items[0]))
      decreases |input.In().data|, 3
    {
      hide At, CutField, Described, DirectTypes, Layable, View, SameOutside, DirectItem, KnownFor, Wrote, Writes, IndexOf, Mapped,
        KnownItem, SelectedByItem, ItemNumber;
      var ty := d.Type(name);
      var fieldInfo, k := Mapped(ty)[fieldNumber], IndexOf(ty, fieldNumber);
      FieldNumberFits(d, rank, name, fieldNumber);
      if fieldInfo.inOneof {
        message.oneofContainerToSelectedIndexMap :=
          message.oneofContainerToSelectedIndexMap[fieldInfo.container := fieldInfo.number];
      }
      ElementIsInside(d, rank, name, k);
      CanWrite(d, rank, name, fieldNumber);
      ghost var i := input.In();
      status := ParseField(rank, input, k, fieldNumber, wireType);
      OutsideWidens(old(cluster[..]), cluster[..], base, d.Size(name), base + d.Offset(name, k), d.Width(ty[k]));
      if status == Accepted {
        ghost var it := CutField(d.reg, fieldInfo, fieldNumber, wireType, i).items[0];
        ItemIsShown(d, rank, name, old(cluster[..]), cluster[..], base, fieldNumber, it);
      }
      if CutField(d.reg, fieldInfo, fieldNumber, wireType, i).status == Accepted {
        MappedItemIs(d, name, CutField(d.reg, fieldInfo, fieldNumber, wireType, i).items[0],
          old(message.oneofContainerToSelectedIndexMap));
      }
    }

    /** ParseFieldFromCodedStream. */
    method ParseField(ghost rank: Rank, input: CodedInputStream, k: nat, fieldNumber: nat, wireType: nat)
      returns (status: Status)
      requires Ready(rank) && Writes(d, rank, name, k) && input.Valid() && !input.legitimateEnd
      requires base + d.Offset(name, k) + d.Width(d.Type(name)[k]) <= cluster.Length
      modifies cluster, input, input.source
      ensures input.Valid() && input.limit <= old(input.limit)
      ensures SameOutside(old(cluster[..]), cluster[..], base + d.Offset(name, k), d.Width(d.Type(name)[k]))
      ensures var f := d.Type(name)[k]; var c := CutField(d.reg, f, fieldNumber, wireType, old(input.In()));
              && (c.status == Accepted ==> |c.items| == 1 && ItemNumber(c.items[0]) == fieldNumber)
              && (status == Accepted <==> c.status == Accepted && KnownFor(d, f, c.items[0]))
              && (status == Accepted ==>
                    !input.legitimateEnd && input.In() == c.rest && input.limit == old(input.limit)
                    && Wrote(d, rank, name, k, old(cluster[..]), cluster[..], base + d.Offset(name, k), c.items[0]))
      decreases |input.In().data|, 2
    {
      hide At, Described, Layable, DirectTypes, DescribedField, Wrote, SameOutside, CutField, KnownFor;
      var kind := d.Type(name)[k].kind;
      FieldKinds(d.Type(name)[k]);
      if kind == MessageValue {
        status := ParseMessageField(rank, input, k, fieldNumber, wireType);
      } else if kind.IsText() {
        status := ParseTextField(rank, input, k, fieldNumber, wireType);
      } else if kind == EnumValue {
        status := ParseEnumField(rank, input, k, fieldNumber, wireType);
      } else {
        status := ParseNumericField(rank, input, k, fieldNumber, wireType);
      }
    }

    method ParseNumericField(ghost rank: Rank, input: CodedInputStream, k: nat, fieldNumber: nat, wireType: nat)
      returns (status: Status)
      requires Ready(rank) && Writes(d, rank, name, k) && input.Valid() && !input.legitimateEnd
      requires base + d.Offset(name, k) + d.Width(d.Type(name)[k]) <= cluster.Length
      requires d.Type(name)[k].kind.IsNumeric() && !d.Type(name)[k].kind.EnumValue?
      modifies cluster, input, input.source
      ensures input.Valid() && input.limit <= old(input.limit)
      ensures SameOutside(old(cluster[..]), cluster[..], base + d.Offset(name, k), d.Width(d.Type(name)[k]))
      ensures var f := d.Type(name)[k]; var c := CutField(d.reg, f, fieldNumber, wireType, old(input.In()));
              && (c.status == Accepted ==> |c.items| == 1 && ItemNumber(c.items[0]) == fieldNumber && KnownFor(d, f, c.items[0]))
              && (status == Accepted <==> c.status == Accepted)
              && (status == Accepted ==>
                    !input.legitimateEnd && input.In() == c.rest && input.limit == old(input.limit)
                    && Wrote(d, rank, name, k, old(cluster[..]), cluster[..], base + d.Offset(name, k), c.items[0]))
    {
      hide At, Wire.ReadVarint32, Numeric.ReadNumber, Numeric.ReadPacked, Described, Layable, DescribedField, DirectTypes,
        Wrote, SameOutside;
      var f, at := d.Type(name)[k], base + d.Offset(name, k);
      Unwritten(cluster[..], at, d.Width(f));
      if f.repeated && wireType == WIRETYPE_LENGTH_DELIMITED {
        var ok, vals := ReadChunk(input, f.kind);
        if !ok { return Rejected; }
        AppendToLVArray(d, rank, name, k, vals, cluster, at, Chunk(fieldNumber, f.kind, vals));
        WroteIsLocal(d, rank, name, k, old(cluster[..]), cluster[..], at, Chunk(fieldNumber, f.kind, vals));
        return Accepted;
      }
      var ok, v := input.ReadNumber(f.kind);
      if !ok { return Rejected; }
      if f.repeated {
        AppendToLVArray(d, rank, name, k, [v], cluster, at, One(fieldNumber, f.kind, v));
      } else {
        WriteNumber(d, rank, name, k, v, cluster, at, One(fieldNumber, f.kind, v));
      }
      WroteIsLocal(d, rank, name, k, old(cluster[..]), cluster[..], at, One(fieldNumber, f.kind, v));
      return Accepted;
    }

    /** A packed chunk: its length, the numbers below that limit, and the limit restored. */
    method ReadChunk(input: CodedInputStream, kind: Kind) returns (ok: bool, vals: seq<int>)
      requires input.Valid() && !input.legitimateEnd && kind.IsNumeric()
      modifies input, input.source
      ensures input.Valid() && input.limit <= old(input.limit)
      ensures var length := Wire.ReadVarint32(old(input.In()));
              if !length.ok then !ok
              else
                var pushed := length.rest.Push(length.value);
                var r := Numeric.ReadPacked(kind, pushed);
                && ok == r.ok
                && (ok ==> !input.legitimateEnd && vals == r.value && input.In() == length.rest.Pop(pushed, r.rest)
                           && input.limit == old(input.limit))
    {
      hide At, Wire.ReadVarint32, Numeric.ReadPacked;
      vals := [];
      var length;
      ok, length := input.ReadVarint32();
      if !ok { return; }
      ghost var p := input.position;
      var outer := input.PushLimit(length);
      ghost var inner := input.limit;
      ok, vals := ReadPackedNumbers(input, kind);
      if !ok { return; }
      ghost var q := input.position;
      input.PopLimit(outer);
      message.PopRestores(input.all, p, outer, inner, q);
    }

    /** The loop of a packed field, into a vector. */
    method ReadPackedNumbers(input: CodedInputStream, kind: Kind) returns (ok: bool, vals: seq<int>)
      requires input.Valid() && !input.legitimateEnd && kind.IsNumeric()
      modifies input`buffer, input`bufferPos, input`position, input.source
      ensures input.Valid()
      ensures var r := Numeric.ReadPacked(kind, old(input.In()));
              ok == r.ok && (ok ==> vals == r.value && input.In() == r.rest)
    {
      hide At, Numeric.ReadNumber, Numeric.ReadPacked, CodedInputStream.Valid, PackedSoFar;
      vals := [];
      ghost var whole := Numeric.ReadPacked(kind, input.In());
      PackedStarts(kind, input.In());
      var more := input.HasBytesUntilLimit();
      while more
        invariant input.Valid() && |input.In().data| <= |old(input.In()).data|
        invariant more == input.In().BytesUntilLimit()
        invariant PackedSoFar(kind, whole, vals, input.In())
        decreases |input.In().data|
      {
        ghost var here := input.In();
        var x;
        ok, x := input.ReadNumber(kind);
        PackedGoesOn(kind, whole, vals, here);
        if !ok { return; }
        vals := vals + [x];
        more := input.HasBytesUntilLimit();
      }
      PackedStops(kind, whole, vals, input.In());
      ok := true;
    }

    /** A scalar enum: the number is mapped to its position, or the lookup throws. */
    method ParseEnumField(ghost rank: Rank, input: CodedInputStream, k: nat, fieldNumber: nat, wireType: nat)
      returns (status: Status)
      requires Ready(rank) && Writes(d, rank, name, k) && input.Valid() && !input.legitimateEnd
      requires base + d.Offset(name, k) + d.Width(d.Type(name)[k]) <= cluster.Length
      requires d.Type(name)[k].kind.EnumValue?
      modifies cluster, input, input.source
      ensures input.Valid() && input.limit <= old(input.limit)
      ensures SameOutside(old(cluster[..]), cluster[..], base + d.Offset(name, k), d.Width(d.Type(name)[k]))
      ensures var f := d.Type(name)[k]; var c := CutField(d.reg, f, fieldNumber, wireType, old(input.In()));
              && (c.status == Accepted ==> |c.items| == 1 && ItemNumber(c.items[0]) == fieldNumber)
              && (status == Accepted <==> c.status == Accepted && KnownFor(d, f, c.items[0]))
              && (status == Accepted ==>
                    !input.legitimateEnd && input.In() == c.rest && input.limit == old(input.limit)
                    && Wrote(d, rank, name, k, old(cluster[..]), cluster[..], base + d.Offset(name, k), c.items[0]))
    {
      hide At, Numeric.ReadNumber, Described, Layable, DirectTypes, Wrote, SameOutside;
      var f, at := d.Type(name)[k], base + d.Offset(name, k);
      Unwritten(cluster[..], at, d.Width(f));
      var ok, raw := input.ReadNumber(EnumValue);
      if !ok { return Rejected; }
      var position := d.enums[f.embedded].GetLVEnumValueFromProtoValue(raw);
      if position.None? { return Threw; }
      PositionFits(d, f, raw);
      WriteNumber(d, rank, name, k, position.value, cluster, at, One(fieldNumber, EnumValue, raw));
      WroteIsLocal(d, rank, name, k, old(cluster[..]), cluster[..], at, One(fieldNumber, EnumValue, raw));
      return Accepted;
    }

    /** ParseStringField and ParseBytesField, for a singular field. */
    method ParseTextField(ghost rank: Rank, input: CodedInputStream, k: nat, fieldNumber: nat, wireType: nat)
      returns (status: Status)
      requires Ready(rank) && Writes(d, rank, name, k) && input.Valid() && !input.legitimateEnd
      requires base + d.Offset(name, k) + d.Width(d.Type(name)[k]) <= cluster.Length
      requires d.Type(name)[k].kind.IsText()
      modifies cluster, input, input.source
      ensures input.Valid() && input.limit <= old(input.limit)
      ensures SameOutside(old(cluster[..]), cluster[..], base + d.Offset(name, k), d.Width(d.Type(name)[k]))
      ensures var f := d.Type(name)[k]; var c := CutField(d.reg, f, fieldNumber, wireType, old(input.In()));
              && (c.status == Accepted ==> |c.items| == 1 && ItemNumber(c.items[0]) == fieldNumber && KnownFor(d, f, c.items[0]))
              && (status == Accepted <==> c.status == Accepted)
              && (status == Accepted ==>
                    !input.legitimateEnd && input.In() == c.rest && input.limit == old(input.limit)
                    && Wrote(d, rank, name, k, old(cluster[..]), cluster[..], base + d.Offset(name, k), c.items[0]))
    {
      hide At, Wire.ReadLengthDelimited, Described, Layable, DescribedField, DirectTypes, Wrote, SameOutside;
      var f, at := d.Type(name)[k], base + d.Offset(name, k);
      Unwritten(cluster[..], at, d.Width(f));
      var ok, value := input.ReadLengthDelimited();
      if !ok { return Rejected; }
      if f.kind == StringValue && !d.reg.validUtf8(value) { return Threw; }
      WriteText(d, rank, name, k, value, cluster, at, Blob(fieldNumber, f.kind, value));
      WroteIsLocal(d, rank, name, k, old(cluster[..]), cluster[..], at, Blob(fieldNumber, f.kind, value));
      return Accepted;
    }

    /** A singular message: its own object parses into this cluster, at the element's offset. */
    method ParseMessageField(ghost rank: Rank, input: CodedInputStream, k: nat, fieldNumber: nat, wireType: nat)
      returns (status: Status)
      requires Ready(rank) && Writes(d, rank, name, k) && input.Valid() && !input.legitimateEnd
      requires base + d.Offset(name, k) + d.Width(d.Type(name)[k]) <= cluster.Length
      requires d.Type(name)[k].kind.MessageValue?
      modifies cluster, input, input.source
      ensures input.Valid() && input.limit <= old(input.limit)
      ensures SameOutside(old(cluster[..]), cluster[..], base + d.Offset(name, k), d.Width(d.Type(name)[k]))
      ensures var f := d.Type(name)[k]; var c := CutField(d.reg, f, fieldNumber, wireType, old(input.In()));
              && (c.status == Accepted ==> |c.items| == 1 && ItemNumber(c.items[0]) == fieldNumber)
              && (status == Accepted <==> c.status == Accepted && KnownFor(d, f, c.items[0]))
              && (status == Accepted ==>
                    !input.legitimateEnd && input.In() == c.rest && input.limit == old(input.limit)
                    && Wrote(d, rank, name, k, old(cluster[..]), cluster[..], base + d.Offset(name, k), c.items[0]))
      decreases |input.In().data|, 1
    {
      hide At, Wire.ReadVarint32, Described, Layable, DirectTypes, Wrote, SameOutside, CutFields, View, KnownItems, DirectParse,
        DescribedField;
      var f, at := d.Type(name)[k], base + d.Offset(name, k);
      Unwritten(cluster[..], at, d.Width(f));
      var ok, length := input.ReadVarint32();
      if !ok { return Rejected; }
      ghost var p := input.position;
      var outer := input.PushLimit(length);
      ghost var inner := input.limit;
      ghost var pushed := input.In();
      NestedFacts(d, rank, name, k);
      status := ParseNested(rank, input, k);
      if status != Accepted { return; }
      ghost var q := input.position;
      input.PopLimit(outer);
      message.PopRestores(input.all, p, outer, inner, q);
      NestedWrote(d, rank, name, k, old(cluster[..]), cluster[..], at, fieldNumber,
        CutFields(d.reg, Some(d.Type(f.embedded)), pushed).items);
    }

    /** The nested object, on the input below the pushed limit. */
    method ParseNested(ghost rank: Rank, input: CodedInputStream, k: nat) returns (status: Status)
      requires Ready(rank) && Writes(d, rank, name, k) && input.Valid() && !input.legitimateEnd
      requires base + d.Offset(name, k) + d.Width(d.Type(name)[k]) <= cluster.Length
      requires d.Type(name)[k].kind.MessageValue?
      modifies cluster, input, input.source
      ensures input.Valid() && input.limit <= old(input.limit)
      ensures SameOutside(old(cluster[..]), cluster[..], base + d.Offset(name, k), d.Size(d.Type(name)[k].embedded))
      ensures var nested, at := d.Type(name)[k].embedded, base + d.Offset(name, k);
              var c := CutFields(d.reg, Some(d.Type(nested)), old(input.In()));
              && (status == Accepted <==> c.status == Accepted && KnownItems(d, nested, c.items))
              && (status == Accepted ==>
                    && input.In() == c.rest && input.limit == old(input.limit)
                    && View(d, rank, nested, Clusters.Cut(cluster[..], at, d.Size(nested)))
                       == DirectParse(d, nested, View(d, rank, nested, Clusters.Cut(old(cluster[..]), at, d.Size(nested))), map[],
                                      c.items).0)
      decreases |input.In().data|, 3
    {
      hide At, Described, Layable, DirectTypes, SameOutside, CutFields, View, KnownItems, DirectParse, DescribedField;
      NestedFacts(d, rank, name, k);
      var nestedMessage := new LVMessageEfficient(d, d.Type(name)[k].embedded, cluster, base + d.Offset(name, k));
      status := nestedMessage.ParseFromCodedStream(rank, input);
    }
  }
}
