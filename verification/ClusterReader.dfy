/** ClusterDataCopier, the other way: a message filled from the memory of a cluster. */
module ClusterReader {
  import opened Wire
  import opened Schema
  import opened Numeric
  import opened Messages
  import opened Layout
  import opened Clusters
  import opened Copying
  import opened LVMessages
  import opened ClusterCopier

  /** The reader's precondition: metadata in order, and an element of a registered type. */
  ghost predicate Reads(d: Descriptors, rank: Rank, name: string, k: nat) {
    && Described(d, rank) && Layable(d.reg.messages, rank) && name in d.reg.messages && k < |d.Type(name)|
    && DescribedField(d, d.Type(name)[k])
  }

  /** The value of element `k`, and what LabVIEW sees there. */
  ghost predicate IsRead(d: Descriptors, rank: Rank, name: string, k: nat, cells: seq<Cell>, v: Option<Value>)
    requires Layable(d.reg.messages, rank) && k < |d.Type(name)|
  {
    var s := ReadSlot(d, rank, name, k, cells);
    FitsSlot(d, d.Type(name)[k], s)
    && v == if IsAbsent(s) then None else Some(ValueOf(d, d.Type(name)[k], s))
  }

  ghost predicate Converts(d: Descriptors, rank: Rank, name: string, k: nat, cells: seq<Cell>)
    requires Layable(d.reg.messages, rank) && k < |d.Type(name)|
  {
    var s := ReadSlot(d, rank, name, k, cells);
    FitsSlot(d, d.Type(name)[k], s) && (IsAbsent(s) || SendableSlot(d, d.Type(name)[k], s))
  }

  lemma EmptyArrayIsAbsent(d: Descriptors, rank: Rank, name: string, k: nat, cells: seq<Cell>)
    requires Layable(d.reg.messages, rank) && k < |d.Type(name)| && d.Type(name)[k].repeated
    requires !LoadHandle(cells).Array1D? || LoadHandle(cells).count == 0
    ensures IsAbsent(ReadSlot(d, rank, name, k, cells))
  {
    var s := ReadSlot(d, rank, name, k, cells);
    assert s == ReadArray(d, rank, name, k, LoadHandle(cells));
    assert s.Nums? ==> |s.numbers| == 0;
    assert s.Txts? ==> |s.texts| == 0;
    assert s.Subs? ==> |s.views| == 0;
  }

  method ReadNumbers(k: Kind, block: seq<Cell>, count: nat) returns (xs: seq<int>)
    requires k.IsNumeric()
    ensures xs == LoadNumbers(k, block, count)
  {
    xs := [];
    for i := 0 to count
      invariant xs == LoadNumbers(k, block, i)
    {
      xs := xs + [LoadNumber(k, Nth(block, i, CellWidth(k)))];
    }
  }

  /** GetProtoValueFromLVEnumValue on each element; other numbers are copied as they are. */
  method MapPositions(d: Descriptors, f: Field, xs: seq<int>) returns (ok: bool, ys: seq<int>)
    requires DescribedField(d, f) && f.kind.IsNumeric() && AllInRange(StoredKind(f.kind), xs)
    ensures ok <==> forall x :: x in xs ==> KnownPosition(d, f, x)
    ensures ok ==> ys == seq(|xs|, i requires 0 <= i < |xs| => Outward(d, f, xs[i]))
  {
    if !f.kind.EnumValue? {
      assert xs == seq(|xs|, i requires 0 <= i < |xs| => Outward(d, f, xs[i]));
      return true, xs;
    }
    ys := [];
    for i := 0 to |xs|
      invariant |ys| == i
      invariant forall j :: 0 <= j < i ==> KnownPosition(d, f, xs[j]) && ys[j] == Outward(d, f, xs[j])
    {
      assert InRange(UInt32Value, xs[i]);
      var number := d.enums[f.embedded].GetProtoValueFromLVEnumValue(xs[i]);
      if number.None? {
        assert !KnownPosition(d, f, xs[i]);
        return false, [];
      }
      ys := ys + [number.value];
    }
    ok := true;
  }

  method CopyNumbersFromCluster(d: Descriptors, ghost rank: Rank, name: string, k: nat, cells: seq<Cell>)
    returns (ok: bool, v: Option<Value>)
    requires Reads(d, rank, name, k) && |cells| == d.Width(d.Type(name)[k]) && d.Type(name)[k].kind.IsNumeric()
    ensures ok <==> Converts(d, rank, name, k, cells)
    ensures ok ==> IsRead(d, rank, name, k, cells, v)
  {
    hide Described, Layable;
    SlotFits(d, rank, name, k, cells);
    var f := d.Type(name)[k];
    if f.repeated {
      var h := LoadHandle(cells);
      if !h.Array1D? || h.count == 0 {
        EmptyArrayIsAbsent(d, rank, name, k, cells);
        return true, None;
      }
      var xs := ReadNumbers(f.kind, h.block, h.count);
      assert ReadSlot(d, rank, name, k, cells) == Nums(xs);
      var ys;
      ok, ys := MapPositions(d, f, xs);
      v := Some(Packed(f.kind, ys));
    } else {
      var x := LoadNumber(f.kind, Cut(cells, 0, CellWidth(f.kind)));
      assert ReadSlot(d, rank, name, k, cells) == Num(x);
      var ys;
      ok, ys := MapPositions(d, f, [x]);
      v := if ok then Some(Scalar(f.kind, ys[0])) else None;
      assert ok <==> KnownPosition(d, f, [x][0]);
    }
  }

  /** GetLVString throws on text that does not convert; GetLVBytes takes anything. */
  method CopyTextsFromCluster(d: Descriptors, ghost rank: Rank, name: string, k: nat, cells: seq<Cell>)
    returns (ok: bool, v: Option<Value>)
    requires Reads(d, rank, name, k) && |cells| == d.Width(d.Type(name)[k]) && d.Type(name)[k].kind.IsText()
    ensures ok <==> Converts(d, rank, name, k, cells)
    ensures ok ==> IsRead(d, rank, name, k, cells, v)
  {
    hide Described, Layable;
    SlotFits(d, rank, name, k, cells);
    var f := d.Type(name)[k];
    if f.repeated {
      var h := LoadHandle(cells);
      if !h.Array1D? || h.count == 0 {
        EmptyArrayIsAbsent(d, rank, name, k, cells);
        return true, None;
      }
      var ts;
      ok, ts := ReadTexts(d.reg, f.kind, h.block, h.count);
      assert ReadSlot(d, rank, name, k, cells) == Txts(LoadTexts(h.block, h.count));
      v := Some(Texts(f.kind, ts));
    } else {
      var t := TextOf(LoadHandle(cells));
      assert ReadSlot(d, rank, name, k, cells) == Txt(t);
      ok := ValidText(d.reg, f.kind, t);
      v := Some(Text(f.kind, t));
    }
  }

  method ReadTexts(reg: Registry, kind: Kind, block: seq<Cell>, count: nat) returns (ok: bool, ts: seq<bytes>)
    ensures ok <==> forall t :: t in LoadTexts(block, count) ==> ValidText(reg, kind, t)
    ensures ok ==> ts == LoadTexts(block, count)
  {
    ts := [];
    for i := 0 to count
      invariant ts == LoadTexts(block, i)
      invariant forall j :: 0 <= j < i ==> ValidText(reg, kind, LoadTexts(block, count)[j])
    {
      var t := TextOf(LoadHandle(Nth(block, i, POINTER_SIZE)));
      if !ValidText(reg, kind, t) {
        assert LoadTexts(block, count)[i] == t;
        return false, [];
      }
      ts := ts + [t];
    }
    ok := true;
  }

  /** CopyFromClusterToMessage of the two-dimensional arrays. */
  method CopyGridFromCluster(d: Descriptors, ghost rank: Rank, name: string, k: nat, cells: seq<Cell>)
    returns (ok: bool, v: Option<Value>)
    requires Reads(d, rank, name, k) && |cells| == d.Width(d.Type(name)[k])
    requires !d.Type(name)[k].repeated && d.Type(name)[k].kind.MessageValue? && !EmbedsCluster(d.Type(name)[k])
    ensures ok <==> Converts(d, rank, name, k, cells)
    ensures ok ==> IsRead(d, rank, name, k, cells, v)
  {
    hide Described, Layable;
    SlotFits(d, rank, name, k, cells);
    var f, h := d.Type(name)[k], LoadHandle(cells);
    if !h.Array2D? || h.rows == 0 || h.columns == 0 { return true, None; }
    var count := GridCount(h.rows, h.columns);
    if f.WellKnown().Double2DArray? {
      var xs := ReadNumbers(DoubleValue, h.block, count);
      assert ReadSlot(d, rank, name, k, cells) == NumGrid(h.rows, h.columns, xs);
      ok, v := true, Some(Nested(GridMessage(h.rows, h.columns, Packed(DoubleValue, xs))));
    } else {
      var ts;
      ok, ts := ReadTexts(d.reg, StringValue, h.block, count);
      assert ReadSlot(d, rank, name, k, cells) == TxtGrid(h.rows, h.columns, LoadTexts(h.block, count));
      v := Some(Nested(GridMessage(h.rows, h.columns, Texts(StringValue, ts))));
    }
  }

  // ----------------------------------------------------------------- whole messages

  /** The cells of a cluster of type `name`, and the message they make. */
  ghost predicate Becomes(d: Descriptors, rank: Rank, name: string, cells: seq<Cell>, m: Message)
    requires Layable(d.reg.messages, rank)
  {
    Fits(d, name, View(d, rank, name, cells)) && m == MessageOf(d, name, View(d, rank, name, cells))
  }

  ghost predicate Sends(d: Descriptors, rank: Rank, name: string, cells: seq<Cell>)
    requires Layable(d.reg.messages, rank)
  {
    Fits(d, name, View(d, rank, name, cells)) && Sendable(d, name, View(d, rank, name, cells))
  }

  /** CopyFromCluster: the message becomes exactly what LabVIEW sees in the cluster, or a
      conversion throws. The mapped elements are visited in any order. */
  method CopyFromCluster(d: Descriptors, ghost rank: Rank, name: string, message: LVMessage, cluster: seq<Cell>)
    returns (ok: bool)
    requires Described(d, rank) && Layable(d.reg.messages, rank) && name in d.reg.messages
    modifies message
    ensures ok <==> Sends(d, rank, name, cluster)
    ensures ok ==> Becomes(d, rank, name, cluster, message.Contents())
    decreases rank(name), 3
  {
    hide Described, DescribedType, Layable, View, Fits, Selections, Holds, Sendable, MessageOf, Carries, IsSent, Mapped;
    TypeIsDescribed(d, rank, name);
    ViewFits(d, rank, name, cluster);
    ghost var view := View(d, rank, name, cluster);
    var ty := d.Type(name);
    message.Clear();
    CopySelections(d, rank, name, message, cluster);
    var remaining := Mapped(ty).Keys;
    NothingCopied(d, name, view);
    assert Mapped(ty).Keys - remaining == {};
    while remaining != {}
      invariant remaining <= Mapped(ty).Keys
      invariant message.unknownFields == []
      invariant message.oneofContainerToSelectedIndexMap == Selections(ty, view.slots, |ty|)
      invariant Holds(d, name, view, message.values, Mapped(ty).Keys - remaining)
      decreases |remaining|
    {
      var n := AnyOf(remaining);
      ghost var done, before := Mapped(ty).Keys - remaining, message.values;
      remaining := remaining - {n};
      assert Mapped(ty).Keys - remaining == done + {n};
      ok := CopyMappedField(d, rank, name, n, message, cluster);
      if !ok {
        NotSendable(d, name, view, n);
        return;
      }
      CopiedGrows(d, name, view, before, message.values, done, n);
    }
    EverythingCopied(d, name, view, message.values, Mapped(ty).Keys - remaining);
    ok := true;
  }

  /** The values of the fields in `done`, and no others. */
  ghost predicate Holds(d: Descriptors, name: string, view: Cluster, values: map<int, Value>, done: set<int>)
    requires Fits(d, name, view)
  {
    var ty := d.Type(name);
    && (forall n :: n in values <==> n in done && n in Mapped(ty) && Carries(ty, view.slots, n))
    && (forall n :: n in values ==> IsSent(d, name, view, n) && values[n] == Sent(d, name, view, n))
  }

  ghost predicate IsSent(d: Descriptors, name: string, view: Cluster, n: int)
    requires Fits(d, name, view) && n in Mapped(d.Type(name))
  {
    SendableSlot(d, Mapped(d.Type(name))[n], view.slots[IndexOf(d.Type(name), n)])
  }

  ghost function Sent(d: Descriptors, name: string, view: Cluster, n: int): Value
    requires Fits(d, name, view) && n in Mapped(d.Type(name))
  {
    ValueOf(d, Mapped(d.Type(name))[n], view.slots[IndexOf(d.Type(name), n)])
  }

  lemma NothingCopied(d: Descriptors, name: string, view: Cluster)
    requires Fits(d, name, view)
    ensures Holds(d, name, view, map[], {})
  {
  }

  lemma NotSendable(d: Descriptors, name: string, view: Cluster, n: int)
    requires Fits(d, name, view) && n in Mapped(d.Type(name))
    requires Carries(d.Type(name), view.slots, n) && !IsSent(d, name, view, n)
    ensures !Sendable(d, name, view)
  {
  }

  lemma CopiedGrows(d: Descriptors, name: string, view: Cluster, before: map<int, Value>, after: map<int, Value>,
                    done: set<int>, n: int)
    requires Fits(d, name, view) && n in Mapped(d.Type(name)) && n !in done && Holds(d, name, view, before, done)
    requires if Carries(d.Type(name), view.slots, n)
             then IsSent(d, name, view, n) && after == before[n := Sent(d, name, view, n)] else after == before
    ensures Holds(d, name, view, after, done + {n})
  {
    hide Carries, IsSent, Sent;
  }

  lemma EverythingCopied(d: Descriptors, name: string, view: Cluster, values: map<int, Value>, done: set<int>)
    requires Fits(d, name, view) && Holds(d, name, view, values, done) && done == Mapped(d.Type(name)).Keys
    ensures Sendable(d, name, view)
    ensures MessageOf(d, name, view) == Message(values, Selections(d.Type(name), view.slots, |d.Type(name)|), [])
  {
    hide Carries, ValueOf, SendableSlot, FitsSlot;
    var sent := MessageOf(d, name, view).values;
    forall n ensures (n in sent <==> n in values) && (n in sent ==> sent[n] == values[n]) {
      if n in values { assert values[n] == Sent(d, name, view, n); }
    }
    assert sent == values;
  }

  lemma FitsAt(d: Descriptors, name: string, view: Cluster, k: nat)
    requires Fits(d, name, view) && k < |view.slots|
    ensures k < |d.Type(name)| && FitsSlot(d, d.Type(name)[k], view.slots[k])
  {
  }

  lemma SlotOfView(d: Descriptors, rank: Rank, name: string, k: nat, cluster: seq<Cell>)
    requires Layable(d.reg.messages, rank) && k < |d.Type(name)|
    ensures View(d, rank, name, cluster).slots[k] == ReadSlot(d, rank, name, k, d.Window(name, k, cluster))
  {
  }

  /** One turn of the loop: selectors and unselected members of oneofs are passed over. */
  method CopyMappedField(d: Descriptors, ghost rank: Rank, name: string, n: int, message: LVMessage, cluster: seq<Cell>)
    returns (ok: bool)
    requires Described(d, rank) && Layable(d.reg.messages, rank)
    requires name in d.reg.messages && DescribedType(d, rank, name) && n in Mapped(d.Type(name))
    requires var view := View(d, rank, name, cluster);
             Fits(d, name, view)
             && message.oneofContainerToSelectedIndexMap == Selections(d.Type(name), view.slots, |d.Type(name)|)
    modifies message`values
    ensures var view := View(d, rank, name, cluster);
            && (ok <==> Carries(d.Type(name), view.slots, n) ==> IsSent(d, name, view, n))
            && (ok && Carries(d.Type(name), view.slots, n) ==>
                  message.values == old(message.values)[n := Sent(d, name, view, n)])
            && (!Carries(d.Type(name), view.slots, n) ==> message.values == old(message.values))
    decreases rank(name), 2
  {
    hide Described, Layable, View, Fits, ReadSlot, FitsSlot, SendableSlot, ValueOf, Selections;
    var ty := d.Type(name);
    var f, k := Mapped(ty)[n], IndexOf(ty, n);
    if f.IsSelector() { return true; }
    if f.inOneof
       && (f.container !in message.oneofContainerToSelectedIndexMap
           || message.oneofContainerToSelectedIndexMap[f.container] != n) {
      return true;
    }
    SlotOfView(d, rank, name, k, cluster);
    FitsAt(d, name, View(d, rank, name, cluster), k);
    var v;
    ok, v := CopyFieldFromCluster(d, rank, name, k, d.Window(name, k, cluster));
    if ok && v.Some? { message.values := message.values[n := v.value]; }
  }

  /** The first pass: the selectors, into the map of selected indices. */
  method CopySelections(d: Descriptors, ghost rank: Rank, name: string, message: LVMessage, cluster: seq<Cell>)
    requires Described(d, rank) && Layable(d.reg.messages, rank)
    requires name in d.reg.messages && DescribedType(d, rank, name)
    requires message.oneofContainerToSelectedIndexMap == map[]
    modifies message`oneofContainerToSelectedIndexMap
    ensures message.oneofContainerToSelectedIndexMap
            == Selections(d.Type(name), View(d, rank, name, cluster).slots, |d.Type(name)|)
  {
    hide Described, Layable, View, ReadSlot, LoadNumber, DescribedType, Selections, Cut, CellWidth;
    var ty := d.Type(name);
    NoSelections(ty, View(d, rank, name, cluster).slots);
    assert OneofsAreDescribed(ty) by { TypeHasSelectors(d, rank, name); }
    ghost var slots := View(d, rank, name, cluster).slots;
    for k := 0 to |ty|
      invariant message.oneofContainerToSelectedIndexMap == Selections(ty, slots, k)
    {
      SelectionsGrow(ty, slots, k);
      if ty[k].IsSelector() {
        NotYetRecorded(ty, slots, k, k);
        SelectorSlot(d, rank, name, k, cluster);
        var selected := LoadNumber(Int32Value, Cut(d.Window(name, k, cluster), 0, CellWidth(Int32Value)));
        message.oneofContainerToSelectedIndexMap := message.oneofContainerToSelectedIndexMap[ty[k].container := selected];
      }
    }
  }

  lemma TypeHasSelectors(d: Descriptors, rank: Rank, name: string)
    requires Layable(d.reg.messages, rank) && name in d.reg.messages && DescribedType(d, rank, name)
    ensures OneofsAreDescribed(d.Type(name))
  {
  }

  lemma NoSelections(ty: MessageType, slots: seq<Slot>)
    requires |ty| == |slots|
    ensures Selections(ty, slots, 0) == map[]
  {
  }

  lemma SelectionsGrow(ty: MessageType, slots: seq<Slot>, k: nat)
    requires k < |ty| == |slots|
    ensures var before := Selections(ty, slots, k);
            Selections(ty, slots, k + 1)
            == if ty[k].IsSelector() && slots[k].Num? && ty[k].container !in before
               then before[ty[k].container := slots[k].number] else before
  {
  }

  lemma SelectorSlot(d: Descriptors, rank: Rank, name: string, k: nat, cluster: seq<Cell>)
    requires Layable(d.reg.messages, rank) && name in d.reg.messages && DescribedType(d, rank, name)
    requires k < |d.Type(name)| && d.Type(name)[k].IsSelector()
    ensures View(d, rank, name, cluster).slots[k]
            == Num(LoadNumber(Int32Value, Cut(d.Window(name, k, cluster), 0, CellWidth(Int32Value))))
  {
    assert WellFormedField(d.Type(name)[k]);
    SlotOfView(d, rank, name, k, cluster);
  }

  method CopyFieldFromCluster(d: Descriptors, ghost rank: Rank, name: string, k: nat, cells: seq<Cell>)
    returns (ok: bool, v: Option<Value>)
    requires Reads(d, rank, name, k) && |cells| == d.Width(d.Type(name)[k])
    ensures ok <==> Converts(d, rank, name, k, cells)
    ensures ok ==> IsRead(d, rank, name, k, cells, v)
    decreases rank(name), 1
  {
    hide Described, Layable, ReadSlot, FitsSlot, SendableSlot, ValueOf;
    var f := d.Type(name)[k];
    if f.kind.IsNumeric() { ok, v := CopyNumbersFromCluster(d, rank, name, k, cells); }
    else if f.kind.IsText() { ok, v := CopyTextsFromCluster(d, rank, name, k, cells); }
    else if !EmbedsCluster(f) { ok, v := CopyGridFromCluster(d, rank, name, k, cells); }
    else if f.repeated { ok, v := CopyMessagesFromCluster(d, rank, name, k, cells); }
    else { ok, v := CopyMessageFromCluster(d, rank, name, k, cells); }
  }

  lemma NestedIsLower(d: Descriptors, rank: Rank, name: string, k: nat)
    requires Reads(d, rank, name, k) && EmbedsCluster(d.Type(name)[k])
    ensures d.Type(name)[k].embedded in d.reg.messages && rank(d.Type(name)[k].embedded) < rank(name)
  {
  }

  /** A singular message is read from inside this cluster, and is always present. */
  method CopyMessageFromCluster(d: Descriptors, ghost rank: Rank, name: string, k: nat, cells: seq<Cell>)
    returns (ok: bool, v: Option<Value>)
    requires Reads(d, rank, name, k) && EmbedsCluster(d.Type(name)[k]) && !d.Type(name)[k].repeated
    ensures ok <==> Converts(d, rank, name, k, cells)
    ensures ok ==> IsRead(d, rank, name, k, cells, v)
    decreases rank(name), 0
  {
    NestedIsLower(d, rank, name, k);
    hide Described, Layable, View, Fits, Sendable, MessageOf;
    var embedded := d.Type(name)[k].embedded;
    var nested := new LVMessage(d.reg, d.reg.Find(embedded));
    ok := CopyFromCluster(d, rank, embedded, nested, cells);
    ViewFits(d, rank, embedded, cells);
    v := Some(Nested(Message(nested.values, nested.oneofContainerToSelectedIndexMap, nested.unknownFields)));
  }

  /** A repeated message: one element of the block after the other. */
  method CopyMessagesFromCluster(d: Descriptors, ghost rank: Rank, name: string, k: nat, cells: seq<Cell>)
    returns (ok: bool, v: Option<Value>)
    requires Reads(d, rank, name, k) && EmbedsCluster(d.Type(name)[k]) && d.Type(name)[k].repeated
    ensures ok <==> Converts(d, rank, name, k, cells)
    ensures ok ==> IsRead(d, rank, name, k, cells, v)
    decreases rank(name), 0
  {
    NestedIsLower(d, rank, name, k);
    hide Described, Layable, DescribedField, View, Converts, IsRead, ElementSends, ElementBecomes;
    var embedded, h := d.Type(name)[k].embedded, LoadHandle(cells);
    if !h.Array1D? || h.count == 0 {
      NothingIsRead(d, rank, name, k, cells);
      return true, None;
    }
    var ms;
    ghost var x;
    ok, ms, x := CopyBlockFromCluster(d, rank, embedded, h);
    if ok {
      AllAreRead(d, rank, name, k, cells, ms);
      v := Some(NestedList(ms));
    } else {
      OneFails(d, rank, name, k, cells, x);
      v := None;
    }
  }

  method CopyBlockFromCluster(d: Descriptors, ghost rank: Rank, name: string, h: Handle)
    returns (ok: bool, ms: seq<Message>, ghost x: nat)
    requires Described(d, rank) && Layable(d.reg.messages, rank) && name in d.reg.messages && h.Array1D?
    ensures ok ==> |ms| == h.count && forall i :: 0 <= i < h.count ==>
                     ElementSends(d, rank, name, h, i) && ElementBecomes(d, rank, name, h, i, ms[i])
    ensures !ok ==> x < h.count && !ElementSends(d, rank, name, h, x)
    decreases rank(name), 5
  {
    hide *;
    ms, x := [], 0;
    while |ms| < h.count
      invariant |ms| <= h.count
      invariant forall i :: 0 <= i < |ms| ==> ElementSends(d, rank, name, h, i) && ElementBecomes(d, rank, name, h, i, ms[i])
    {
      var m;
      x := |ms|;
      ok, m := CopyElementFromCluster(d, rank, name, h, |ms|);
      if !ok { return; }
      ms := ms + [m];
    }
    ok := true;
  }

  method CopyElementFromCluster(d: Descriptors, ghost rank: Rank, name: string, h: Handle, x: nat)
    returns (ok: bool, m: Message)
    requires Described(d, rank) && Layable(d.reg.messages, rank) && name in d.reg.messages
    requires h.Array1D? && x < h.count
    ensures ok <==> ElementSends(d, rank, name, h, x)
    ensures ok ==> ElementBecomes(d, rank, name, h, x, m)
    decreases rank(name), 4
  {
    hide Described, Layable, Sends, Becomes;
    var nested := new LVMessage(d.reg, d.reg.Find(name));
    ok := CopyFromCluster(d, rank, name, nested, Nth(h.block, x, d.Size(name)));
    m := Message(nested.values, nested.oneofContainerToSelectedIndexMap, nested.unknownFields);
  }

  lemma NothingIsRead(d: Descriptors, rank: Rank, name: string, k: nat, cells: seq<Cell>)
    requires Reads(d, rank, name, k) && d.Type(name)[k].repeated
    requires !LoadHandle(cells).Array1D? || LoadHandle(cells).count == 0
    ensures Converts(d, rank, name, k, cells) && IsRead(d, rank, name, k, cells, None)
  {
    SlotFits(d, rank, name, k, cells);
    EmptyArrayIsAbsent(d, rank, name, k, cells);
  }

  ghost predicate ElementSends(d: Descriptors, rank: Rank, name: string, h: Handle, x: nat)
    requires Layable(d.reg.messages, rank) && h.Array1D?
  {
    Sends(d, rank, name, Nth(h.block, x, d.Size(name)))
  }

  ghost predicate ElementBecomes(d: Descriptors, rank: Rank, name: string, h: Handle, x: nat, m: Message)
    requires Layable(d.reg.messages, rank) && h.Array1D?
  {
    Becomes(d, rank, name, Nth(h.block, x, d.Size(name)), m)
  }

  /** `s` shows the clusters of a block. */
  ghost predicate ShowsBlock(d: Descriptors, rank: Rank, name: string, h: Handle, s: Slot)
    requires Layable(d.reg.messages, rank) && h.Array1D?
  {
    s.Subs? && |s.views| == h.count && forall i :: 0 <= i < h.count ==> s.views[i] == ElementView(d, rank, name, h, i)
  }

  ghost function ElementView(d: Descriptors, rank: Rank, name: string, h: Handle, x: nat): Cluster
    requires Layable(d.reg.messages, rank) && h.Array1D?
  {
    View(d, rank, name, Nth(h.block, x, d.Size(name)))
  }

  lemma ViewsOfBlock(d: Descriptors, rank: Rank, name: string, k: nat, cells: seq<Cell>)
    requires Reads(d, rank, name, k) && EmbedsCluster(d.Type(name)[k]) && d.Type(name)[k].repeated
    requires LoadHandle(cells).Array1D?
    ensures FitsSlot(d, d.Type(name)[k], ReadSlot(d, rank, name, k, cells))
    ensures ShowsBlock(d, rank, d.Type(name)[k].embedded, LoadHandle(cells), ReadSlot(d, rank, name, k, cells))
  {
    SlotFits(d, rank, name, k, cells);
    assert ReadSlot(d, rank, name, k, cells) == ReadArray(d, rank, name, k, LoadHandle(cells));
  }

  lemma OneFails(d: Descriptors, rank: Rank, name: string, k: nat, cells: seq<Cell>, x: nat)
    requires Reads(d, rank, name, k) && EmbedsCluster(d.Type(name)[k]) && d.Type(name)[k].repeated
    requires var h := LoadHandle(cells);
             h.Array1D? && x < h.count && !ElementSends(d, rank, d.Type(name)[k].embedded, h, x)
    ensures !Converts(d, rank, name, k, cells)
  {
    hide Described, Layable, View, Sendable, ReadSlot;
    ViewsOfBlock(d, rank, name, k, cells);
    var views := ReadSlot(d, rank, name, k, cells).views;
    assert views[x] in views;
  }

  lemma AllAreRead(d: Descriptors, rank: Rank, name: string, k: nat, cells: seq<Cell>, ms: seq<Message>)
    requires Reads(d, rank, name, k) && EmbedsCluster(d.Type(name)[k]) && d.Type(name)[k].repeated
    requires var h, embedded := LoadHandle(cells), d.Type(name)[k].embedded;
             h.Array1D? && h.count == |ms| > 0
             && forall i :: 0 <= i < |ms| ==> ElementSends(d, rank, embedded, h, i) && ElementBecomes(d, rank, embedded, h, i, ms[i])
    ensures Converts(d, rank, name, k, cells)
    ensures IsRead(d, rank, name, k, cells, Some(NestedList(ms)))
  {
    hide Described, Layable, View, Sendable, MessageOf, ReadSlot;
    ViewsOfBlock(d, rank, name, k, cells);
    var s, h, embedded := ReadSlot(d, rank, name, k, cells), LoadHandle(cells), d.Type(name)[k].embedded;
    forall i | 0 <= i < |ms|
      ensures Sendable(d, embedded, s.views[i]) && ms[i] == MessageOf(d, embedded, s.views[i])
    {
      assert ElementSends(d, rank, embedded, h, i) && ElementBecomes(d, rank, embedded, h, i, ms[i]);
    }
    assert ValueOf(d, d.Type(name)[k], s).messages == ms;
  }
}
