/** Cluster to message to wire to message to cluster: the same cluster, in normal form. */
module EndToEnd {
  import opened Wire
  import opened Schema
  import opened Numeric
  import opened Messages
  import opened Parse
  import opened WireItems
  import opened Tokens
  import opened RoundTrip
  import opened Laws
  import opened Layout
  import opened Enums
  import opened Clusters
  import opened Copying

  // --------------------------------------------- the message is one the codec accepts

  lemma DescribedAt(d: Descriptors, rank: Rank, name: string)
    requires Described(d, rank) && name in d.reg.messages
    ensures DescribedType(d, rank, name) && d.Type(name) == d.reg.messages[name]
  {
  }

  lemma OutwardIsKnown(d: Descriptors, f: Field, x: int)
    requires DescribedField(d, f) && KnownPosition(d, f, x) && f.kind.IsNumeric() && InRange(StoredKind(f.kind), x)
    ensures InRange(f.kind, Outward(d, f, x)) && KnownNumber(d, f, Outward(d, f, x))
  {
    if f.kind.EnumValue? {
      var e := d.enums[f.embedded];
      var numbers :| IsEnumTable(e, numbers);
      EnumLookups(e, numbers, numbers[x], x);
      assert numbers[x] in numbers;
    }
  }

  lemma GridIsWellTyped(reg: Registry, r: int32, c: int32, kind: Kind, data: Value)
    requires kind == DoubleValue || kind == StringValue
    requires if kind == DoubleValue then data.Packed? && data.kind == kind && AllInRange(kind, data.numbers)
             else data.Texts? && data.kind == kind && forall t :: t in data.texts ==> reg.validUtf8(t)
    ensures WellTyped(reg, Some(GridType(kind)), GridMessage(r, c, data))
  {
    GridIsMapped(kind);
  }

  lemma {:induction false} MessageIsWellTyped(d: Descriptors, rank: Rank, name: string, view: Cluster)
    requires Described(d, rank) && name in d.reg.messages && Fits(d, name, view) && Sendable(d, name, view)
    ensures WellTyped(d.reg, Some(d.Type(name)), MessageOf(d, name, view))
    decreases view, 1
  {
    DescribedAt(d, rank, name);
    var ty, m := d.Type(name), MessageOf(d, name, view);
    forall n | n in m.values
      ensures n in Mapped(ty) && IsFieldNumber(n) && WellTypedValue(d.reg, Mapped(ty)[n], m.values[n])
    {
      MappedIsAnElement(ty, n);
      ValueIsWellTyped(d, rank, Mapped(ty)[n], view.slots[IndexOf(ty, n)]);
    }
  }

  lemma {:induction false} ValueIsWellTyped(d: Descriptors, rank: Rank, f: Field, s: Slot)
    requires Described(d, rank) && DescribedField(d, f) && FitsSlot(d, f, s) && SendableSlot(d, f, s)
    ensures WellTypedValue(d.reg, f, ValueOf(d, f, s))
    decreases s, 0
  {
    match s
    case Num(x) => OutwardIsKnown(d, f, x);
    case Nums(xs) =>
      forall i | 0 <= i < |xs| ensures InRange(f.kind, Outward(d, f, xs[i])) { OutwardIsKnown(d, f, xs[i]); }
    case Sub(v) => MessageIsWellTyped(d, rank, f.embedded, v);
    case Subs(vs) =>
      forall i | 0 <= i < |vs| ensures WellTyped(d.reg, d.reg.Find(f.embedded), MessageOf(d, f.embedded, vs[i])) {
        MessageIsWellTyped(d, rank, f.embedded, vs[i]);
      }
    case NumGrid(r, c, xs) => GridIsWellTyped(d.reg, r, c, DoubleValue, Packed(DoubleValue, xs));
    case TxtGrid(r, c, ts) => GridIsWellTyped(d.reg, r, c, StringValue, Texts(StringValue, ts));
    case _ =>
  }

  // ----------------------------------------------------- what comes back from a slot

  lemma ZeroReads(d: Descriptors, rank: Rank, name: string, k: nat)
    requires Layable(d.reg.messages, rank) && k < |d.Type(name)|
    ensures var f, z := d.Type(name)[k], ZeroSlot(d, rank, name, k);
            && (IsGrid(f, Double2DArray) ==> z == NumGrid(0, 0, []))
            && (IsGrid(f, String2DArray) ==> z == TxtGrid(0, 0, []))
            && (f.repeated && f.kind.IsNumeric() ==> z == Nums([]))
            && (f.repeated && f.kind.IsText() ==> z == Txts([]))
            && (f.repeated && f.kind.MessageValue? ==> z == Subs([]))
  {
    assert LoadHandle(Zeros(POINTER_SIZE)) == Null;
    var f, z := d.Type(name)[k], ZeroSlot(d, rank, name, k);
    if f.repeated {
      assert z == ReadArray(d, rank, name, k, Null);
      assert z.Nums? ==> |z.numbers| == 0;
      assert z.Txts? ==> |z.texts| == 0;
      assert z.Subs? ==> |z.views| == 0;
    }
  }

  lemma AbsentIsZero(d: Descriptors, rank: Rank, name: string, k: nat, s: Slot)
    requires Layable(d.reg.messages, rank) && k < |d.Type(name)|
    requires FitsSlot(d, d.Type(name)[k], s) && IsAbsent(s)
    ensures NormalSlot(d, rank, d.Type(name)[k], s) == ZeroSlot(d, rank, name, k)
  {
    ZeroReads(d, rank, name, k);
  }

  lemma GridComesBack(reg: Registry, f: Field, before: Slot, h: Handle, r: int32, c: int32, kind: Kind, data: Value)
    requires IsGrid(f, if kind == DoubleValue then Double2DArray else String2DArray)
    requires WellTyped(reg, Some(GridType(kind)), GridMessage(r, c, data))
    requires if kind == DoubleValue then data.Packed? && |data.numbers| == GridCount(r, c)
             else data.Texts? && |data.texts| == GridCount(r, c)
    ensures AbsorbGrid(f, before, h, Canon(reg, Some(GridType(kind)), GridMessage(r, c, data)))
            == if GridCount(r, c) == 0 then before
               else if kind == DoubleValue then NumGrid(r, c, data.numbers) else TxtGrid(r, c, data.texts)
  {
    hide WellTyped, Canon;
    var m := Canon(reg, Some(GridType(kind)), GridMessage(r, c, data));
    CanonOfGrid(reg, r, c, kind, data);
    if GridCount(r, c) > 0 {
      if data.Packed? { assert Overlaid(data.numbers, LoadNumbers(DoubleValue, BlockOf(h), GridCount(r, c))) == data.numbers; }
      else { assert Overlaid(data.texts, LoadTexts(BlockOf(h), GridCount(r, c))) == data.texts; }
    }
  }

  /** A message that the codec accepts and whose dimensions overflow: 65537 times 65537 shows
      an array of those dimensions over 131073 elements, and 65536 times 65536 changes nothing. */
  lemma OverflowingGrid(reg: Registry, f: Field, before: Slot, h: Handle, xs: seq<int>)
    requires IsGrid(f, Double2DArray) && AllInRange(DoubleValue, xs)
    ensures var m := GridMessage(65537, 65537, Packed(DoubleValue, xs));
            && WellTyped(reg, Some(GridType(DoubleValue)), m)
            && var s := AbsorbGrid(f, before, h, m);
               s.NumGrid? && s.rows == s.columns == 65537 && |s.gridNumbers| == 131073 < 65537 * 65537
               && forall i :: 0 <= i < 131073 && i < |xs| ==> s.gridNumbers[i] == xs[i]
    ensures var m := GridMessage(65536, 65536, Packed(DoubleValue, xs));
            WellTyped(reg, Some(GridType(DoubleValue)), m) && AbsorbGrid(f, before, h, m) == before
  {
    hide WellTyped;
    DimensionsOverflow();
    GridIsWellTyped(reg, 65537, 65537, DoubleValue, Packed(DoubleValue, xs));
    GridIsWellTyped(reg, 65536, 65536, DoubleValue, Packed(DoubleValue, xs));
  }

  lemma CanonOfGrid(reg: Registry, r: int32, c: int32, kind: Kind, data: Value)
    requires WellTyped(reg, Some(GridType(kind)), GridMessage(r, c, data)) && (data.Packed? || data.Texts?)
    ensures var v := Canon(reg, Some(GridType(kind)), GridMessage(r, c, data)).values;
            && ROWS_INDEX in v && v[ROWS_INDEX] == Scalar(Int32Value, r)
            && COLUMNS_INDEX in v && v[COLUMNS_INDEX] == Scalar(Int32Value, c)
            && (DATA_INDEX in v <==> !IsEmptyList(data)) && (DATA_INDEX in v ==> v[DATA_INDEX] == data)
  {
  }

  lemma {:induction false} CanonListAt(reg: Registry, ty: Option<MessageType>, ms: seq<Message>, i: nat)
    requires (forall m :: m in ms ==> WellTyped(reg, ty, m)) && i < |ms|
    ensures CanonList(reg, ty, ms)[i] == Canon(reg, ty, ms[i])
  {
    if i > 0 { CanonListAt(reg, ty, ms[1..], i - 1); }
  }

  /** The value an element held, sent and received, is its normal form. */
  lemma {:induction false} SlotComesBack(d: Descriptors, rank: Rank, name: string, k: nat, s: Slot)
    requires Described(d, rank) && name in d.reg.messages && k < |d.Type(name)|
    requires var f := d.Type(name)[k]; FitsSlot(d, f, s) && SendableSlot(d, f, s) && !IsAbsent(s)
    ensures var f := d.Type(name)[k];
            && WellTypedValue(d.reg, f, ValueOf(d, f, s))
            && AbsorbValue(d, rank, name, k, Zeros(d.Width(f)), CanonValue(d.reg, f, ValueOf(d, f, s)))
               == NormalSlot(d, rank, f, s)
    decreases s, 0
  {
    var f := d.Type(name)[k];
    DescribedAt(d, rank, name);
    ValueIsWellTyped(d, rank, f, s);
    ZeroReads(d, rank, name, k);
    match s
    case Num(x) =>
    case Txt(_) =>
    case Nums(xs) =>
    case Txts(_) =>
    case Sub(v) => ClusterComesBack(d, rank, f.embedded, v);
    case Subs(vs) => ClustersComeBack(d, rank, name, k, vs);
    case NumGrid(r, c, xs) =>
      GridComesBack(d.reg, f, NumGrid(0, 0, []), LoadHandle(Zeros(d.Width(f))), r, c, DoubleValue, Packed(DoubleValue, xs));
    case TxtGrid(r, c, ts) =>
      GridComesBack(d.reg, f, TxtGrid(0, 0, []), LoadHandle(Zeros(d.Width(f))), r, c, StringValue, Texts(StringValue, ts));
  }

  lemma {:induction false} ClustersComeBack(d: Descriptors, rank: Rank, name: string, k: nat, vs: seq<Cluster>)
    requires Described(d, rank) && name in d.reg.messages && k < |d.Type(name)| && vs != []
    requires var f := d.Type(name)[k]; FitsSlot(d, f, Subs(vs)) && SendableSlot(d, f, Subs(vs))
    ensures var f := d.Type(name)[k];
            && WellTypedValue(d.reg, f, ValueOf(d, f, Subs(vs)))
            && AbsorbValue(d, rank, name, k, Zeros(d.Width(f)), CanonValue(d.reg, f, ValueOf(d, f, Subs(vs))))
               == NormalSlot(d, rank, f, Subs(vs))
    decreases vs, 2
  {
    var f := d.Type(name)[k];
    DescribedAt(d, rank, name);
    ValueIsWellTyped(d, rank, f, Subs(vs));
    hide Described, View, Canon, MessageOf, Absorb, Normal, AbsorbValue, ElementBefore;
    var ms, cells := ValueOf(d, f, Subs(vs)).messages, Zeros(d.Width(f));
    var canon := CanonList(d.reg, d.reg.Find(f.embedded), ms);
    var views := seq(|vs|, i requires 0 <= i < |vs| => Normal(d, rank, f.embedded, vs[i]));
    forall i | 0 <= i < |vs|
      ensures Absorb(d, rank, f.embedded, ElementBefore(d, f.embedded, LoadHandle(cells), i), canon[i]) == views[i]
    {
      CanonListAt(d.reg, d.reg.Find(f.embedded), ms, i);
      ClusterComesBack(d, rank, f.embedded, vs[i]);
      FreshElement(d, f.embedded, d.Width(f), i);
    }
    AbsorbedList(d, rank, name, k, cells, canon, views);
  }

  lemma FreshElement(d: Descriptors, name: string, width: nat, i: nat)
    requires width == POINTER_SIZE
    ensures ElementBefore(d, name, LoadHandle(Zeros(width)), i) == Zeros(d.Size(name))
  {
    assert LoadHandle(Zeros(width)) == Null;
  }

  lemma AbsorbedList(d: Descriptors, rank: Rank, name: string, k: nat, cells: seq<Cell>, ms: seq<Message>, views: seq<Cluster>)
    requires Layable(d.reg.messages, rank) && k < |d.Type(name)| && ms != [] && |views| == |ms|
    requires var nested := d.Type(name)[k].embedded;
             forall i :: 0 <= i < |ms| ==>
               Absorb(d, rank, nested, ElementBefore(d, nested, LoadHandle(cells), i), ms[i]) == views[i]
    ensures AbsorbValue(d, rank, name, k, cells, NestedList(ms)) == Subs(views)
  {
    hide Absorb, ElementBefore;
  }

  // -------------------------------------------------------------------- selectors

  lemma {:induction false} SelectorIsRecorded(ty: MessageType, slots: seq<Slot>, k: nat, n: nat)
    requires k < n <= |ty| == |slots| && OneofsAreDescribed(ty) && ty[k].IsSelector() && slots[k].Num?
    ensures ty[k].container in Selections(ty, slots, n)
            && Selections(ty, slots, n)[ty[k].container] == slots[k].number
  {
    if n == k + 1 {
      NotYetRecorded(ty, slots, k, k);
    } else {
      SelectorIsRecorded(ty, slots, k, n - 1);
    }
  }

  /** A selector comes back unless nothing that it selects was sent. */
  lemma SelectorComesBack(d: Descriptors, rank: Rank, name: string, view: Cluster, k: nat)
    requires Described(d, rank) && name in d.reg.messages && Fits(d, name, view) && Sendable(d, name, view)
    requires k < |view.slots| && d.Type(name)[k].IsSelector()
    requires WellTyped(d.reg, Some(d.Type(name)), MessageOf(d, name, view))
    ensures var m := Canon(d.reg, Some(d.Type(name)), MessageOf(d, name, view));
            AbsorbAt(d, rank, name, k, Zeros(d.Width(d.Type(name)[k])), m)
            == if IsKept(d, name, view, k) then NormalSlot(d, rank, d.Type(name)[k], view.slots[k])
               else ZeroSlot(d, rank, name, k)
  {
    DescribedAt(d, rank, name);
    var ty, f, numbers := d.Type(name), d.Type(name)[k], MessageOf(d, name, view).values.Keys;
    assert WellFormedField(f);
    assert FitsSlot(d, f, view.slots[k]) && view.slots[k].Num?;
    SelectorIsRecorded(ty, view.slots, k, |ty|);
    KeptIsSelected(d, name, view, k);
    if f.container in SelectedOf(ty, numbers) {
      var n :| n in numbers && n in Mapped(ty) && Mapped(ty)[n].inOneof && Mapped(ty)[n].container == f.container;
      assert Carries(ty, view.slots, n);
    }
  }

  /** A selector is kept exactly when a member of its oneof was sent. */
  lemma KeptIsSelected(d: Descriptors, name: string, view: Cluster, k: nat)
    requires Fits(d, name, view) && k < |view.slots| && d.Type(name)[k].IsSelector()
    requires AtMostOneMember(d.Type(name), MessageOf(d, name, view).values.Keys)
    ensures IsKept(d, name, view, k)
            <==> d.Type(name)[k].container in SelectedOf(d.Type(name), MessageOf(d, name, view).values.Keys)
  {
    var ty, c, numbers := d.Type(name), d.Type(name)[k].container, MessageOf(d, name, view).values.Keys;
    assert forall n :: n in numbers <==> n in Mapped(ty) && Carries(ty, view.slots, n);
    hide Carries, MessageOf;
    assert c in SelectedOf(ty, numbers)
           <==> exists n :: n in numbers && n in Mapped(ty) && Mapped(ty)[n].inOneof && Mapped(ty)[n].container == c;
  }

  /** Every other element comes back if it was sent, and is zero if not. */
  lemma {:induction false} ElementComesBack(d: Descriptors, rank: Rank, name: string, view: Cluster, k: nat)
    requires Described(d, rank) && name in d.reg.messages && Fits(d, name, view) && Sendable(d, name, view)
    requires k < |view.slots| && !d.Type(name)[k].IsSelector()
    requires WellTyped(d.reg, Some(d.Type(name)), MessageOf(d, name, view))
    ensures var m := Canon(d.reg, Some(d.Type(name)), MessageOf(d, name, view));
            AbsorbAt(d, rank, name, k, Zeros(d.Width(d.Type(name)[k])), m)
            == if IsKept(d, name, view, k) then NormalSlot(d, rank, d.Type(name)[k], view.slots[k])
               else ZeroSlot(d, rank, name, k)
    decreases view, 0
  {
    DescribedAt(d, rank, name);
    var ty, f, s := d.Type(name), d.Type(name)[k], view.slots[k];
    assert WellFormedField(f);
    IndexOfElement(ty, k);
    var m := MessageOf(d, name, view);
    if Carries(ty, view.slots, f.number) {
      SlotComesBack(d, rank, name, k, s);
      assert m.values[f.number] == ValueOf(d, f, s);
      assert !IsEmptyList(m.values[f.number]);
    } else if IsAbsent(s) {
      AbsentIsZero(d, rank, name, k, s);
    }
  }

  lemma {:induction false} ClusterComesBack(d: Descriptors, rank: Rank, name: string, view: Cluster)
    requires Described(d, rank) && name in d.reg.messages && Fits(d, name, view) && Sendable(d, name, view)
    ensures WellTyped(d.reg, Some(d.Type(name)), MessageOf(d, name, view))
    ensures Absorb(d, rank, name, Zeros(d.Size(name)), Canon(d.reg, Some(d.Type(name)), MessageOf(d, name, view)))
            == Normal(d, rank, name, view)
    decreases view, 1
  {
    MessageIsWellTyped(d, rank, name, view);
    var ty, m := d.Type(name), Canon(d.reg, Some(d.Type(name)), MessageOf(d, name, view));
    forall k | 0 <= k < |ty|
      ensures AbsorbAt(d, rank, name, k, d.Window(name, k, Zeros(d.Size(name))), m)
              == if IsKept(d, name, view, k) then NormalSlot(d, rank, ty[k], view.slots[k]) else ZeroSlot(d, rank, name, k)
    {
      CutOfZeros(d.Size(name), d.Offset(name, k), d.Width(ty[k]));
      if ty[k].IsSelector() { SelectorComesBack(d, rank, name, view, k); } else { ElementComesBack(d, rank, name, view, k); }
    }
  }

  lemma {:induction false} CanonIsReceivable(d: Descriptors, rank: Rank, name: string, view: Cluster)
    requires Described(d, rank) && name in d.reg.messages && Fits(d, name, view) && Sendable(d, name, view)
    requires WellTyped(d.reg, Some(d.Type(name)), MessageOf(d, name, view))
    ensures Receivable(d, name, Canon(d.reg, Some(d.Type(name)), MessageOf(d, name, view)))
    decreases view, 1
  {
    DescribedAt(d, rank, name);
    var ty, m := d.Type(name), MessageOf(d, name, view);
    forall n | n in m.values && !IsEmptyList(m.values[n])
      ensures ReceivableValue(d, Mapped(ty)[n], CanonValue(d.reg, Mapped(ty)[n], m.values[n]))
    {
      MappedIsAnElement(ty, n);
      ValueIsReceivable(d, rank, Mapped(ty)[n], view.slots[IndexOf(ty, n)]);
    }
  }

  lemma {:induction false} ValueIsReceivable(d: Descriptors, rank: Rank, f: Field, s: Slot)
    requires Described(d, rank) && DescribedField(d, f) && FitsSlot(d, f, s) && SendableSlot(d, f, s)
    requires WellTypedValue(d.reg, f, ValueOf(d, f, s))
    ensures ReceivableValue(d, f, CanonValue(d.reg, f, ValueOf(d, f, s)))
    decreases s, 0
  {
    match s
    case Num(x) => OutwardIsKnown(d, f, x);
    case Nums(xs) =>
      forall i | 0 <= i < |xs| ensures KnownNumber(d, f, Outward(d, f, xs[i])) { OutwardIsKnown(d, f, xs[i]); }
    case Sub(v) => CanonIsReceivable(d, rank, f.embedded, v);
    case Subs(vs) =>
      var ms := ValueOf(d, f, s).messages;
      forall i | 0 <= i < |vs|
        ensures Receivable(d, f.embedded, CanonList(d.reg, d.reg.Find(f.embedded), ms)[i])
      {
        CanonListAt(d.reg, d.reg.Find(f.embedded), ms, i);
        CanonIsReceivable(d, rank, f.embedded, vs[i]);
      }
    case _ =>
  }

  /** Sending a cluster and receiving it into a fresh one: the wire is accepted, the copy
      does not throw, and the receiver sees the sender's cluster in normal form. */
  lemma ClusterRoundTrips(d: Descriptors, rank: Rank, name: string, view: Cluster)
    requires Described(d, rank) && name in d.reg.messages && Fits(d, name, view) && Sendable(d, name, view)
    requires |EncodeMessage(MessageOf(d, name, view))| < INT_MAX
    ensures var w := EncodeMessage(MessageOf(d, name, view));
            && Accepts(d.reg, d.reg.Find(name), w)
            && Receivable(d, name, Parsed(d.reg, d.reg.Find(name), w))
            && Absorb(d, rank, name, Zeros(d.Size(name)), Parsed(d.reg, d.reg.Find(name), w)) == Normal(d, rank, name, view)
  {
    MessageIsWellTyped(d, rank, name, view);
    RoundTrips(d.reg, d.reg.Find(name), MessageOf(d, name, view));
    CanonIsReceivable(d, rank, name, view);
    ClusterComesBack(d, rank, name, view);
  }

  // ------------------------------------------------------------------- any wire

  lemma {:induction false} ItemFits(reg: Registry, ty: Option<MessageType>, m: Message, it: Item)
    requires Typed(reg, ty, it) && OneofsFit(m)
    ensures OneofsFit(Apply(reg, ty, m, it))
    decreases it, 0
  {
    if ty.Some? && ItemNumber(it) in Mapped(ty.value) {
      var n := ItemNumber(it);
      var f := Mapped(ty.value)[n];
      MappedIsAnElement(ty.value, n);
      assert OneofsFit(SelectMember(m, f));
      if it.Sub? {
        assert TypedField(reg, f, it);
        EmptyFits();
        ItemsFit(reg, reg.Find(f.embedded), EMPTY_MESSAGE, it.items);
      }
    }
  }

  lemma EmptyFits()
    ensures OneofsFit(EMPTY_MESSAGE)
  {
  }

  lemma {:induction false} ItemsFit(reg: Registry, ty: Option<MessageType>, m: Message, items: seq<Item>)
    requires TypedAll(reg, ty, items) && OneofsFit(m)
    ensures OneofsFit(ApplyAll(reg, ty, m, items))
    decreases items, 1
  {
    if items != [] {
      ItemFits(reg, ty, m, items[0]);
      ItemsFit(reg, ty, Apply(reg, ty, m, items[0]), items[1..]);
    }
  }

  /** Whatever wire is accepted, the message it gives can be handed to CopyToCluster. */
  lemma AcceptedCanBeCopied(d: Descriptors, rank: Rank, name: string, w: bytes)
    requires Described(d, rank) && name in d.reg.messages
    requires |w| < INT_MAX && Accepts(d.reg, d.reg.Find(name), w)
    ensures WellTyped(d.reg, Some(d.Type(name)), Parsed(d.reg, d.reg.Find(name), w))
    ensures OneofsFit(Parsed(d.reg, d.reg.Find(name), w))
  {
    var ty := d.reg.Find(name);
    forall n | n in d.reg.messages ensures WellFormedType(d.reg.messages[n]) { DescribedAt(d, rank, n); }
    ParsedIsWellTyped(d.reg, ty, w);
    ParseIsCutThenApply(d.reg, ty, Whole(w), EMPTY_MESSAGE);
    CutIsTyped(d.reg, ty, Whole(w));
    EmptyFits();
    ItemsFit(d.reg, ty, EMPTY_MESSAGE, CutFields(d.reg, ty, Whole(w)).items);
  }
}
