/** Parsing straight into a cluster, as the values LabVIEW sees, against parsing into a message
    and copying that. */
module Direct {
  import opened Wire
  import opened Schema
  import opened WireItems
  import opened Meaning
  import opened Layout
  import opened Clusters
  import opened Copying

  /** Fields that LVMessageEfficient writes as they arrive, without buffering. */
  predicate IsDirect(f: Field) {
    if f.repeated then f.kind.IsNumeric() && !f.kind.EnumValue?
    else f.kind.MessageValue? ==> EmbedsCluster(f)
  }

  /** The type and those it embeds, at every depth, have only such fields; what else the
      registry holds does not matter. */
  ghost predicate DirectTypes(d: Descriptors, rank: Rank, name: string)
    requires Layable(d.reg.messages, rank) && name in d.reg.messages
    decreases rank(name)
  {
    forall f :: f in d.reg.messages[name] ==> IsDirect(f) && (EmbedsCluster(f) ==> DirectTypes(d, rank, f.embedded))
  }

  // ------------------------------------------------- what the direct parser does

  /** The element after one occurrence of its field: a list grows, a single value is
      overwritten, a nested message is parsed over what is there. */
  function DirectSlot(d: Descriptors, f: Field, s: Slot, it: Item): Slot
    decreases it, 0
  {
    match it
    case One(_, _, v) => if f.repeated then Nums(ListShown(s) + [Inward(d, f, v)]) else Num(Inward(d, f, v))
    case Chunk(_, _, vs) => Nums(ListShown(s) + vs)
    case Blob(_, _, t) => Txt(t)
    case Sub(_, items) => Slot.Sub(DirectParse(d, f.embedded, if s.Sub? then s.view else Cluster([]), map[], items).0)
    case Other(_) => s
  }

  function ListShown(s: Slot): seq<int> { if s.Nums? then s.numbers else [] }

  function DirectItem(d: Descriptors, name: string, view: Cluster, it: Item): Cluster
    decreases it, 1
  {
    var ty, n := d.Type(name), ItemNumber(it);
    if n in Mapped(ty) && IndexOf(ty, n) < |view.slots| then
      Cluster(view.slots[IndexOf(ty, n) := DirectSlot(d, Mapped(ty)[n], view.slots[IndexOf(ty, n)], it)])
    else view
  }

  function DirectItems(d: Descriptors, name: string, view: Cluster, items: seq<Item>): Cluster
    decreases items, 2
  {
    if items == [] then view else DirectItems(d, name, DirectItem(d, name, view, items[0]), items[1..])
  }

  /** The map of selected indices, kept as in the plain parser. */
  function SelectedAfter(ty: MessageType, selected: map<string, int>, items: seq<Item>): map<string, int>
    decreases items
  {
    if items == [] then selected
    else
      var n := ItemNumber(items[0]);
      SelectedAfter(ty,
        if n in Mapped(ty) && Mapped(ty)[n].inOneof then selected[Mapped(ty)[n].container := Mapped(ty)[n].number] else selected,
        items[1..])
  }

  /** CopyOneofIndicesToCluster. */
  function WithSelectors(ty: MessageType, view: Cluster, selected: map<string, int>): (v: Cluster)
    requires |view.slots| == |ty|
    ensures |v.slots| == |ty|
  {
    Cluster(seq(|ty|, k requires 0 <= k < |ty| =>
                  if ty[k].IsSelector() && ty[k].container in selected then Num(selected[ty[k].container])
                  else view.slots[k]))
  }

  /** The whole parse: the cluster, and the selected indices. */
  function DirectParse(d: Descriptors, name: string, view: Cluster, selected: map<string, int>, items: seq<Item>)
    : (Cluster, map<string, int>)
    decreases items, 3
  {
    var after, sel := DirectItems(d, name, view, items), SelectedAfter(d.Type(name), selected, items);
    (if |after.slots| == |d.Type(name)| then WithSelectors(d.Type(name), after, sel) else after, sel)
  }

  /** No enum number is met that has no position. */
  predicate KnownFor(d: Descriptors, f: Field, it: Item)
    decreases it, 0
  {
    match it
    case One(_, _, v) => KnownNumber(d, f, v)
    case Sub(_, items) => KnownItems(d, f.embedded, items)
    case _ => true
  }

  predicate KnownItem(d: Descriptors, name: string, it: Item)
    decreases it, 1
  {
    ItemNumber(it) in Mapped(d.Type(name)) ==> KnownFor(d, Mapped(d.Type(name))[ItemNumber(it)], it)
  }

  predicate KnownItems(d: Descriptors, name: string, items: seq<Item>)
    decreases items, 2
  {
    forall it :: it in items ==> KnownItem(d, name, it)
  }

  /** Parsing straight into a fresh cluster. */
  ghost function Directly(d: Descriptors, rank: Rank, name: string, items: seq<Item>): Cluster
    requires Layable(d.reg.messages, rank)
  {
    DirectParse(d, name, View(d, rank, name, Zeros(d.Size(name))), map[], items).0
  }

  // ------------------------------------------------------------ one item after another

  lemma {:induction false} DirectItemsSnoc(d: Descriptors, name: string, view: Cluster, items: seq<Item>, x: Item)
    ensures DirectItems(d, name, view, items + [x]) == DirectItem(d, name, DirectItems(d, name, view, items), x)
    decreases |items|
  {
    if items == [] {
      assert [x][1..] == [];
    } else {
      assert (items + [x])[1..] == items[1..] + [x];
      DirectItemsSnoc(d, name, DirectItem(d, name, view, items[0]), items[1..], x);
    }
  }

  function SelectedByItem(ty: MessageType, selected: map<string, int>, x: Item): map<string, int> {
    var n := ItemNumber(x);
    if n in Mapped(ty) && Mapped(ty)[n].inOneof then selected[Mapped(ty)[n].container := Mapped(ty)[n].number] else selected
  }

  lemma {:induction false} SelectedSnoc(ty: MessageType, selected: map<string, int>, items: seq<Item>, x: Item)
    ensures SelectedAfter(ty, selected, items + [x]) == SelectedByItem(ty, SelectedAfter(ty, selected, items), x)
    decreases |items|
  {
    if items == [] {
      assert [x][1..] == [];
    } else {
      assert (items + [x])[1..] == items[1..] + [x];
      SelectedSnoc(ty, SelectedByItem(ty, selected, items[0]), items[1..], x);
    }
  }

  lemma KnownGrows(d: Descriptors, name: string, items: seq<Item>, x: Item)
    ensures KnownItems(d, name, items + [x]) <==> KnownItems(d, name, items) && KnownItem(d, name, x)
  {
    assert forall it :: it in items + [x] <==> it in items || it == x;
  }

  lemma {:induction false} DirectItemsAppend(d: Descriptors, name: string, view: Cluster, a: seq<Item>, b: seq<Item>)
    ensures DirectItems(d, name, view, a + b) == DirectItems(d, name, DirectItems(d, name, view, a), b)
    decreases |b|
  {
    if b == [] {
      assert a + b == a;
    } else {
      var pre, x := b[..|b| - 1], b[|b| - 1];
      assert b == pre + [x] && a + b == (a + pre) + [x];
      DirectItemsAppend(d, name, view, a, pre);
      DirectItemsSnoc(d, name, view, a + pre, x);
      DirectItemsSnoc(d, name, DirectItems(d, name, view, a), pre, x);
    }
  }

  lemma {:induction false} SlotsStay(d: Descriptors, name: string, view: Cluster, items: seq<Item>)
    ensures |DirectItems(d, name, view, items).slots| == |view.slots|
    decreases |items|
  {
    if items != [] { SlotsStay(d, name, DirectItem(d, name, view, items[0]), items[1..]); }
  }

  /** Numbers on the wire are not negative, so no item reads or writes a selector. */
  lemma ItemPassesSelectors(d: Descriptors, name: string, view: Cluster, selected: map<string, int>, x: Item)
    requires |view.slots| == |d.Type(name)|
    ensures DirectItem(d, name, WithSelectors(d.Type(name), view, selected), x)
            == WithSelectors(d.Type(name), DirectItem(d, name, view, x), selected)
  {
    hide DirectSlot;
    var ty, n := d.Type(name), ItemNumber(x);
    var one, two := DirectItem(d, name, WithSelectors(ty, view, selected), x), WithSelectors(ty, DirectItem(d, name, view, x), selected);
    assert one.slots == two.slots;
  }

  lemma {:induction false} ItemsPassSelectors(d: Descriptors, name: string, view: Cluster, selected: map<string, int>,
                                              items: seq<Item>)
    requires |view.slots| == |d.Type(name)|
    ensures |DirectItems(d, name, view, items).slots| == |d.Type(name)|
    ensures DirectItems(d, name, WithSelectors(d.Type(name), view, selected), items)
            == WithSelectors(d.Type(name), DirectItems(d, name, view, items), selected)
    decreases |items|
  {
    SlotsStay(d, name, view, items);
    if items != [] {
      hide WithSelectors, DirectItem;
      SlotsStay(d, name, view, items[..1]);
      assert items[..1] == [items[0]];
      assert DirectItems(d, name, view, [items[0]]) == DirectItem(d, name, view, items[0]);
      ItemPassesSelectors(d, name, view, selected, items[0]);
      ItemsPassSelectors(d, name, DirectItem(d, name, view, items[0]), selected, items[1..]);
    }
  }

  lemma SelectorsTwice(ty: MessageType, view: Cluster, a: map<string, int>, b: map<string, int>)
    requires |view.slots| == |ty|
    ensures WithSelectors(ty, WithSelectors(ty, view, a), b) == WithSelectors(ty, view, a + b)
  {
    var one, two := WithSelectors(ty, WithSelectors(ty, view, a), b), WithSelectors(ty, view, a + b);
    forall k | 0 <= k < |ty| ensures one.slots[k] == two.slots[k] {
      if ty[k].container in b { assert (a + b)[ty[k].container] == b[ty[k].container]; }
    }
    assert one.slots == two.slots;
  }

  /** A nested message that arrives in parts is one message with all their items. */
  lemma PartsAreOne(d: Descriptors, name: string, view: Cluster, a: seq<Item>, b: seq<Item>)
    requires |view.slots| == |d.Type(name)|
    ensures DirectParse(d, name, DirectParse(d, name, view, map[], a).0, map[], b).0
            == DirectParse(d, name, view, map[], a + b).0
  {
    hide DirectItems, SelectedAfter, WithSelectors;
    var ty := d.Type(name);
    var mid, first, second := DirectItems(d, name, view, a), SelectedAfter(ty, map[], a), SelectedAfter(ty, map[], b);
    SlotsStay(d, name, view, a);
    SlotsStay(d, name, view, a + b);
    DirectItemsAppend(d, name, view, a, b);
    ItemsPassSelectors(d, name, mid, first, b);
    SelectorsTwice(ty, DirectItems(d, name, mid, b), first, second);
    SelectedParts(ty, a, b);
    var one := DirectParse(d, name, view, map[], a).0;
    assert one == WithSelectors(ty, mid, first);
    assert DirectParse(d, name, one, map[], b).0 == WithSelectors(ty, DirectItems(d, name, one, b), second);
  }

  lemma {:induction false} SelectedParts(ty: MessageType, a: seq<Item>, b: seq<Item>)
    ensures SelectedAfter(ty, map[], a + b) == SelectedAfter(ty, map[], a) + SelectedAfter(ty, map[], b)
    decreases |b|
  {
    if b == [] {
      assert a + b == a;
    } else {
      var pre, x := b[..|b| - 1], b[|b| - 1];
      assert b == pre + [x] && a + b == (a + pre) + [x];
      SelectedParts(ty, a, pre);
      SelectedSnoc(ty, map[], a + pre, x);
      SelectedSnoc(ty, map[], pre, x);
    }
  }

  // ------------------------------------------------------- what a fresh cluster shows

  lemma {:induction false} ZeroBytes(n: nat)
    ensures DecodeLE(BytesOf(Zeros(n))) == 0
  {
    if n > 0 {
      ZeroBytes(n - 1);
      assert BytesOf(Zeros(n))[1..] == BytesOf(Zeros(n - 1));
    }
  }

  lemma ZeroScalar(d: Descriptors, rank: Rank, name: string, k: nat)
    requires Layable(d.reg.messages, rank) && k < |d.Type(name)|
    requires !d.Type(name)[k].repeated && d.Type(name)[k].kind.IsNumeric()
    ensures ZeroSlot(d, rank, name, k) == Num(0)
  {
    var w := CellWidth(d.Type(name)[k].kind);
    ZeroBytes(w);
    Pow256Words();
    assert Clusters.Cut(Zeros(w), 0, w) == Zeros(w);
  }

  lemma ZeroList(d: Descriptors, rank: Rank, name: string, k: nat)
    requires Layable(d.reg.messages, rank) && k < |d.Type(name)|
    requires d.Type(name)[k].repeated && d.Type(name)[k].kind.IsNumeric()
    ensures ZeroSlot(d, rank, name, k) == Nums([])
  {
    assert LoadHandle(Zeros(POINTER_SIZE)) == Null;
    var z := ZeroSlot(d, rank, name, k);
    assert z == ReadArray(d, rank, name, k, Null);
    assert z.Nums? && |z.numbers| == 0;
  }

  lemma ZeroText(d: Descriptors, rank: Rank, name: string, k: nat)
    requires Layable(d.reg.messages, rank) && k < |d.Type(name)|
    requires !d.Type(name)[k].repeated && d.Type(name)[k].kind.IsText()
    ensures ZeroSlot(d, rank, name, k) == Txt([])
  {
    assert LoadHandle(Zeros(POINTER_SIZE)) == Null;
  }

  lemma ZeroView(d: Descriptors, rank: Rank, name: string, k: nat)
    requires Layable(d.reg.messages, rank) && k < |d.Type(name)|
    ensures View(d, rank, name, Zeros(d.Size(name))).slots[k] == ZeroSlot(d, rank, name, k)
  {
    CutOfZeros(d.Size(name), d.Offset(name, k), d.Width(d.Type(name)[k]));
  }

  // ------------------------------------------------ what the direct parser leaves behind

  /** Metadata in order, for types that the direct parser handles. */
  ghost predicate Directable(d: Descriptors, rank: Rank, name: string) {
    Described(d, rank) && Layable(d.reg.messages, rank) && name in d.reg.messages && DirectTypes(d, rank, name)
  }

  lemma ElementFacts(d: Descriptors, rank: Rank, name: string, k: nat)
    requires Directable(d, rank, name) && k < |d.Type(name)|
    ensures var ty, f := d.Type(name), d.Type(name)[k];
            && WellFormedType(ty) && WellFormedField(f) && IsDirect(f) && DescribedField(d, f) && f in ty
            && (f.IsSelector() ==> f.number < 0 && f.kind.Int32Value? && !f.repeated)
            && (!f.IsSelector() ==> IsFieldNumber(f.number) && f.number in Mapped(ty) && Mapped(ty)[f.number] == f
                                    && IndexOf(ty, f.number) == k)
  {
    hide Mapped, IndexOf;
    assert DescribedType(d, rank, name);
    var ty, f := d.Type(name), d.Type(name)[k];
    assert f in ty;
    if !f.IsSelector() {
      ElementIsMapped(ty, k);
      IndexOfElement(ty, k);
    }
  }

  lemma NestedFacts(d: Descriptors, rank: Rank, name: string, k: nat)
    requires Directable(d, rank, name) && k < |d.Type(name)| && d.Type(name)[k].kind.MessageValue?
    ensures var f := d.Type(name)[k];
            && !f.repeated && EmbedsCluster(f) && Directable(d, rank, f.embedded) && rank(f.embedded) < rank(name)
            && d.reg.Find(f.embedded) == Some(d.Type(f.embedded))
  {
    ElementFacts(d, rank, name, k);
  }

  /** The items of all nested messages in `occ`, in order. */
  function SubItems(occ: seq<Item>): seq<Item> {
    if occ == [] then []
    else SubItems(occ[..|occ| - 1]) + if Last(occ).Sub? then Last(occ).items else []
  }

  /** Members of a oneof that are on the wire: the number of the last one, or zero. */
  function SelectedOn(ty: MessageType, items: seq<Item>, container: string): int {
    var mem := Members(ty, items, container);
    if mem == [] then 0 else ItemNumber(Last(mem))
  }

  /** One number or text, or what a fresh cluster shows instead. */
  function ShownBy(d: Descriptors, f: Field, x: Option<Item>): Slot {
    match x
    case Some(One(_, _, v)) => Num(Inward(d, f, v))
    case Some(Blob(_, _, t)) => Txt(t)
    case _ => if f.kind.IsText() then Txt([]) else Num(0)
  }

  function LastOf(occ: seq<Item>): Option<Item> { if occ == [] then None else Some(Last(occ)) }

  /** Element `k` in terms of the wire: all numbers of a list, the last occurrence of a
      singular field, and for a nested message all items that arrived for it. */
  ghost function LeftBehind(d: Descriptors, rank: Rank, name: string, k: nat, items: seq<Item>): Slot
    requires Layable(d.reg.messages, rank) && k < |d.Type(name)|
  {
    var ty, f := d.Type(name), d.Type(name)[k];
    if f.IsSelector() then Num(SelectedOn(ty, items, f.container))
    else FieldLeft(d, rank, f, Occurrences(items, f.number))
  }

  ghost function FieldLeft(d: Descriptors, rank: Rank, f: Field, occ: seq<Item>): Slot
    requires Layable(d.reg.messages, rank)
  {
    if f.repeated then Nums(NumbersIn(occ))
    else if f.kind.MessageValue? then Slot.Sub(Directly(d, rank, f.embedded, SubItems(occ)))
    else ShownBy(d, f, LastOf(occ))
  }

  lemma NothingLeft(d: Descriptors, rank: Rank, name: string, k: nat)
    requires Directable(d, rank, name) && k < |d.Type(name)| && !d.Type(name)[k].IsSelector()
    ensures FieldLeft(d, rank, d.Type(name)[k], []) == ZeroSlot(d, rank, name, k)
  {
    hide View, ReadSlot, ZeroSlot;
    ElementFacts(d, rank, name, k);
    var f := d.Type(name)[k];
    if f.repeated {
      ZeroList(d, rank, name, k);
    } else if f.kind.MessageValue? {
      NestedFacts(d, rank, name, k);
      ZeroNested(d, rank, name, k);
      NothingParsed(d, rank, f.embedded);
    } else if f.kind.IsText() {
      ZeroText(d, rank, name, k);
    } else {
      ZeroScalar(d, rank, name, k);
    }
  }

  lemma ZeroNested(d: Descriptors, rank: Rank, name: string, k: nat)
    requires Layable(d.reg.messages, rank) && k < |d.Type(name)|
    requires EmbedsCluster(d.Type(name)[k]) && !d.Type(name)[k].repeated
    ensures var nested := d.Type(name)[k].embedded;
            ZeroSlot(d, rank, name, k) == Slot.Sub(View(d, rank, nested, Zeros(d.Size(nested))))
  {
    hide View;
  }

  lemma NothingParsed(d: Descriptors, rank: Rank, name: string)
    requires Layable(d.reg.messages, rank)
    ensures Directly(d, rank, name, []) == View(d, rank, name, Zeros(d.Size(name)))
  {
    var view := View(d, rank, name, Zeros(d.Size(name)));
    assert WithSelectors(d.Type(name), view, map[]).slots == view.slots;
  }

  /** One more occurrence. */
  lemma FieldGrows(d: Descriptors, rank: Rank, name: string, k: nat, occ: seq<Item>, x: Item)
    requires Directable(d, rank, name) && k < |d.Type(name)| && !d.Type(name)[k].IsSelector()
    requires TypedField(d.reg, d.Type(name)[k], x) && !x.Other?
    ensures FieldLeft(d, rank, d.Type(name)[k], occ + [x])
            == DirectSlot(d, d.Type(name)[k], FieldLeft(d, rank, d.Type(name)[k], occ), x)
  {
    hide FieldLeft, DirectSlot, Directable, TypedField;
    ElementFacts(d, rank, name, k);
    DirectableIsLayable(d, rank, name);
    var f := d.Type(name)[k];
    if f.repeated {
      ListGrows(d, rank, f, occ, x);
    } else if f.kind.MessageValue? {
      NestedFacts(d, rank, name, k);
      PartGrows(d, rank, f, occ, x);
    } else {
      LastShows(d, rank, f, occ, x);
    }
  }

  lemma ListGrows(d: Descriptors, rank: Rank, f: Field, occ: seq<Item>, x: Item)
    requires Layable(d.reg.messages, rank) && f.repeated && IsDirect(f) && TypedField(d.reg, f, x) && !x.Other?
    ensures FieldLeft(d, rank, f, occ + [x]) == DirectSlot(d, f, FieldLeft(d, rank, f, occ), x)
  {
    hide Layable, Directly, SubItems;
    assert (occ + [x])[..|occ|] == occ && Last(occ + [x]) == x;
  }

  lemma PartGrows(d: Descriptors, rank: Rank, f: Field, occ: seq<Item>, x: Item)
    requires Layable(d.reg.messages, rank) && !f.repeated && f.kind.MessageValue? && TypedField(d.reg, f, x) && !x.Other?
    ensures FieldLeft(d, rank, f, occ + [x]) == DirectSlot(d, f, FieldLeft(d, rank, f, occ), x)
  {
    hide Layable, Directly, DirectParse, NumbersIn, TypedAll;
    assert (occ + [x])[..|occ|] == occ && Last(occ + [x]) == x;
    NestedGrows(d, rank, f.embedded, SubItems(occ), x.items);
  }

  lemma LastShows(d: Descriptors, rank: Rank, f: Field, occ: seq<Item>, x: Item)
    requires Layable(d.reg.messages, rank) && !f.repeated && !f.kind.MessageValue? && TypedField(d.reg, f, x) && !x.Other?
    ensures FieldLeft(d, rank, f, occ + [x]) == DirectSlot(d, f, FieldLeft(d, rank, f, occ), x)
  {
    hide Layable, Directly, DirectParse, NumbersIn, SubItems, Inward;
  }

  lemma NestedGrows(d: Descriptors, rank: Rank, name: string, a: seq<Item>, b: seq<Item>)
    requires Layable(d.reg.messages, rank)
    ensures DirectParse(d, name, Directly(d, rank, name, a), map[], b).0 == Directly(d, rank, name, a + b)
  {
    hide View, DirectParse;
    PartsAreOne(d, name, View(d, rank, name, Zeros(d.Size(name))), a, b);
  }

  /** The elements before the selectors are written. */
  lemma {:induction false} ElementLeft(d: Descriptors, rank: Rank, name: string, k: nat, items: seq<Item>)
    requires Directable(d, rank, name) && k < |d.Type(name)| && TypedAll(d.reg, Some(d.Type(name)), items)
    ensures var after, f := DirectItems(d, name, View(d, rank, name, Zeros(d.Size(name))), items), d.Type(name)[k];
            && |after.slots| == |d.Type(name)|
            && after.slots[k] == if f.IsSelector() then ZeroSlot(d, rank, name, k)
                                 else FieldLeft(d, rank, f, Occurrences(items, f.number))
    decreases |items|
  {
    var ty, view := d.Type(name), View(d, rank, name, Zeros(d.Size(name)));
    if items == [] {
      ZeroView(d, rank, name, k);
      if !ty[k].IsSelector() { NothingLeft(d, rank, name, k); }
    } else {
      hide Directable, View, FieldLeft, DirectItems, TypedAll, ZeroSlot;
      var pre, x := items[..|items| - 1], items[|items| - 1];
      assert items == pre + [x];
      assert TypedAll(d.reg, Some(ty), pre) && Typed(d.reg, Some(ty), x) by { PrefixTyped(d.reg, ty, items); }
      ElementLeft(d, rank, name, k, pre);
      DirectItemsSnoc(d, name, view, pre, x);
      ItemLeft(d, rank, name, k, DirectItems(d, name, view, pre), pre, x);
    }
  }

  lemma PrefixTyped(reg: Registry, ty: MessageType, items: seq<Item>)
    requires items != [] && TypedAll(reg, Some(ty), items)
    ensures TypedAll(reg, Some(ty), items[..|items| - 1]) && Typed(reg, Some(ty), items[|items| - 1])
  {
  }

  lemma MappedItem(reg: Registry, ty: MessageType, x: Item)
    requires Typed(reg, Some(ty), x) && ItemNumber(x) in Mapped(ty)
    ensures TypedField(reg, Mapped(ty)[ItemNumber(x)], x) && !x.Other? && IsFieldNumber(ItemNumber(x))
  {
  }

  /** An item leaves every element alone but the one with its number. */
  lemma OtherElements(d: Descriptors, name: string, k: nat, view: Cluster, x: Item)
    requires k < |d.Type(name)| == |view.slots| && d.Type(name)[k].number != ItemNumber(x)
    ensures DirectItem(d, name, view, x).slots[k] == view.slots[k]
  {
    hide DirectSlot, ItemNumber, Mapped;
    var ty, n := d.Type(name), ItemNumber(x);
    assert n in Mapped(ty) ==> ty[IndexOf(ty, n)].number == n;
    hide IndexOf;
  }

  lemma OwnElement(d: Descriptors, name: string, k: nat, view: Cluster, x: Item)
    requires k < |d.Type(name)| == |view.slots| && ItemNumber(x) in Mapped(d.Type(name))
    requires IndexOf(d.Type(name), ItemNumber(x)) == k
    ensures DirectItem(d, name, view, x).slots[k] == DirectSlot(d, Mapped(d.Type(name))[ItemNumber(x)], view.slots[k], x)
  {
    hide DirectSlot, ItemNumber, Mapped, IndexOf;
  }

  lemma OccurrencesSnoc(items: seq<Item>, x: Item, n: int)
    ensures Occurrences(items + [x], n) == if ItemNumber(x) == n then Occurrences(items, n) + [x] else Occurrences(items, n)
  {
    hide ItemNumber;
    assert (items + [x])[..|items|] == items;
  }

  lemma ItemLeft(d: Descriptors, rank: Rank, name: string, k: nat, view: Cluster, pre: seq<Item>, x: Item)
    requires Directable(d, rank, name) && k < |d.Type(name)| == |view.slots| && Typed(d.reg, Some(d.Type(name)), x)
    requires var f := d.Type(name)[k];
             view.slots[k] == if f.IsSelector() then ZeroSlot(d, rank, name, k)
                              else FieldLeft(d, rank, f, Occurrences(pre, f.number))
    ensures var f := d.Type(name)[k];
            DirectItem(d, name, view, x).slots[k]
            == if f.IsSelector() then ZeroSlot(d, rank, name, k)
               else FieldLeft(d, rank, f, Occurrences(pre + [x], f.number))
  {
    hide Directable, FieldLeft, ZeroSlot, DirectSlot, TypedField, Typed, Mapped, IndexOf, Occurrences, DirectItem, ItemNumber;
    ElementFacts(d, rank, name, k);
    var f := d.Type(name)[k];
    OccurrencesSnoc(pre, x, f.number);
    if ItemNumber(x) == f.number {
      MappedItem(d.reg, d.Type(name), x);
      OwnElement(d, name, k, view, x);
      FieldGrows(d, rank, name, k, Occurrences(pre, f.number), x);
    } else {
      OtherElements(d, name, k, view, x);
    }
  }

  lemma {:induction false} SelectedIsLast(ty: MessageType, items: seq<Item>, container: string)
    ensures var sel, mem := SelectedAfter(ty, map[], items), Members(ty, items, container);
            && (container in sel <==> mem != [])
            && (container in sel ==> sel[container] == ItemNumber(Last(mem)))
    decreases |items|
  {
    if items != [] {
      var pre, x := items[..|items| - 1], items[|items| - 1];
      assert items == pre + [x];
      SelectedIsLast(ty, pre, container);
      SelectedSnoc(ty, map[], pre, x);
      if ItemNumber(x) in Mapped(ty) { MappedIsAnElement(ty, ItemNumber(x)); }
    }
  }

  /** What the direct parser leaves in a fresh cluster, element by element. */
  lemma DirectLeaves(d: Descriptors, rank: Rank, name: string, items: seq<Item>, k: nat)
    requires Directable(d, rank, name) && TypedAll(d.reg, Some(d.Type(name)), items) && k < |d.Type(name)|
    ensures |Directly(d, rank, name, items).slots| == |d.Type(name)|
    ensures Directly(d, rank, name, items).slots[k] == LeftBehind(d, rank, name, k, items)
  {
    hide Directable, View, FieldLeft, DirectItems, SelectedAfter, TypedAll, Members;
    ElementLeft(d, rank, name, k, items);
    ElementFacts(d, rank, name, k);
    var f := d.Type(name)[k];
    if f.IsSelector() {
      SelectedIsLast(d.Type(name), items, f.container);
      assert Layable(d.reg.messages, rank) by { DirectableIsLayable(d, rank, name); }
      ZeroScalar(d, rank, name, k);
    }
  }

  lemma DirectableIsLayable(d: Descriptors, rank: Rank, name: string)
    requires Directable(d, rank, name)
    ensures Layable(d.reg.messages, rank)
  {
  }
}
