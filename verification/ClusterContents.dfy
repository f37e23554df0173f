/** What is sent and what comes back, element by element: which fields a message read from a
    cluster holds, and what copying it leaves, without the definitions of the copiers. */
module ClusterContents {
  import opened Wire
  import opened Schema
  import opened Numeric
  import opened Messages
  import opened Layout
  import opened Enums
  import opened Clusters
  import opened Copying
  import opened EndToEnd

  // ------------------------------------------------------------------- what is sent

  /** Some selector of the cluster names field `n`. */
  ghost predicate IsNamed(ty: MessageType, slots: seq<Slot>, n: int)
    requires n in Mapped(ty) && |ty| == |slots|
  {
    exists j :: 0 <= j < |ty| && ty[j].IsSelector() && ty[j].container == Mapped(ty)[n].container && slots[j] == Num(n)
  }

  /** Field `n` is up for sending: it is in no oneof, or its oneof's selector names it. */
  ghost predicate IsOffered(ty: MessageType, slots: seq<Slot>, n: int)
    requires n in Mapped(ty) && |ty| == |slots|
  {
    !Mapped(ty)[n].IsSelector() && (Mapped(ty)[n].inOneof ==> IsNamed(ty, slots, n))
  }

  lemma {:induction false} RecordedIsSelector(ty: MessageType, slots: seq<Slot>, k: nat, c: string) returns (j: nat)
    requires k <= |ty| == |slots| && c in Selections(ty, slots, k)
    ensures j < k && ty[j].IsSelector() && ty[j].container == c && slots[j] == Num(Selections(ty, slots, k)[c])
    decreases k
  {
    if c in Selections(ty, slots, k - 1) {
      j := RecordedIsSelector(ty, slots, k - 1, c);
    } else {
      j := k - 1;
    }
  }

  lemma NamedIsSelected(d: Descriptors, rank: Rank, name: string, view: Cluster, n: int)
    requires Described(d, rank) && name in d.reg.messages && Fits(d, name, view) && n in Mapped(d.Type(name))
    ensures var ty, c := d.Type(name), Mapped(d.Type(name))[n].container;
            var selected := Selections(ty, view.slots, |ty|);
            IsNamed(ty, view.slots, n) <==> c in selected && selected[c] == n
  {
    DescribedAt(d, rank, name);
    hide Described, Fits, Mapped, Selections;
    var ty, c := d.Type(name), Mapped(d.Type(name))[n].container;
    if c in Selections(ty, view.slots, |ty|) && Selections(ty, view.slots, |ty|)[c] == n {
      var j := RecordedIsSelector(ty, view.slots, |ty|, c);
    }
    if IsNamed(ty, view.slots, n) {
      var j :| 0 <= j < |ty| && ty[j].IsSelector() && ty[j].container == c && view.slots[j] == Num(n);
      SelectorIsRecorded(ty, view.slots, j, |ty|);
    }
  }

  /** The element has something to send: every number, text and cluster, even when it is zero or
      empty; a list with elements; a two-dimensional array without a zero dimension. */
  predicate HasContent(s: Slot) {
    match s
    case Num(_) => true
    case Txt(_) => true
    case Sub(_) => true
    case Nums(xs) => |xs| > 0
    case Txts(ts) => |ts| > 0
    case Subs(vs) => |vs| > 0
    case NumGrid(r, c, _) => r != 0 && c != 0
    case TxtGrid(r, c, _) => r != 0 && c != 0
  }

  /** The value that stands for an element in the message. */
  ghost predicate StandsFor(d: Descriptors, f: Field, s: Slot, v: Value)
    requires FitsSlot(d, f, s)
  {
    match s
    case Num(x) => v.Scalar? && v.kind == f.kind && (!f.kind.EnumValue? ==> v.number == x)
    case Txt(t) => v == Text(f.kind, t)
    case Nums(xs) => v.Packed? && v.kind == f.kind && |v.numbers| == |xs| && (!f.kind.EnumValue? ==> v.numbers == xs)
    case Txts(ts) => v == Texts(f.kind, ts)
    case Sub(w) => v == Nested(MessageOf(d, f.embedded, w))
    case Subs(ws) =>
      v.NestedList? && |v.messages| == |ws| && forall i :: 0 <= i < |ws| ==> v.messages[i] == MessageOf(d, f.embedded, ws[i])
    case NumGrid(r, c, xs) =>
      v == Nested(Message(map[1 := Scalar(Int32Value, r), 2 := Scalar(Int32Value, c), 3 := Packed(DoubleValue, xs)], map[], []))
    case TxtGrid(r, c, ts) =>
      v == Nested(Message(map[1 := Scalar(Int32Value, r), 2 := Scalar(Int32Value, c), 3 := Texts(StringValue, ts)], map[], []))
  }

  /** The message that is read from a cluster holds exactly the fields that are offered and have
      content, each with the value of its element; each oneof is recorded with the number that
      its selector shows. */
  lemma MessageHolds(d: Descriptors, rank: Rank, name: string, view: Cluster)
    requires Described(d, rank) && name in d.reg.messages && Fits(d, name, view)
    ensures var ty, m := d.Type(name), MessageOf(d, name, view);
            && m.unknown == []
            && (forall n :: n in m.values ==> n in Mapped(ty))
            && (forall n :: n in Mapped(ty) ==>
                  HoldsField(d, name, view, m, n))
            && (forall j :: 0 <= j < |ty| && ty[j].IsSelector() ==>
                  ty[j].container in m.oneof && view.slots[j] == Num(m.oneof[ty[j].container]))
  {
    DescribedAt(d, rank, name);
    hide Described, IsOffered, IsNamed, Selections, ValueOf, StandsFor, IsAbsent, HasContent;
    var ty, m := d.Type(name), MessageOf(d, name, view);
    forall n | n in Mapped(ty) ensures HoldsField(d, name, view, m, n) {
      NamedIsSelected(d, rank, name, view, n);
      FieldHeld(d, name, view, n);
    }
    forall j | 0 <= j < |ty| && ty[j].IsSelector()
      ensures ty[j].container in m.oneof && view.slots[j] == Num(m.oneof[ty[j].container])
    {
      assert WellFormedField(ty[j]) && FitsSlot(d, ty[j], view.slots[j]);
      SelectorIsRecorded(ty, view.slots, j, |ty|);
    }
  }

  ghost predicate HoldsField(d: Descriptors, name: string, view: Cluster, m: Message, n: int)
    requires Fits(d, name, view) && n in Mapped(d.Type(name))
  {
    var ty, f, s := d.Type(name), Mapped(d.Type(name))[n], view.slots[IndexOf(d.Type(name), n)];
    && (n in m.values <==> IsOffered(ty, view.slots, n) && HasContent(s))
    && (n in m.values ==> StandsFor(d, f, s, m.values[n]))
  }

  lemma FieldHeld(d: Descriptors, name: string, view: Cluster, n: int)
    requires Fits(d, name, view) && n in Mapped(d.Type(name))
    requires var ty, c := d.Type(name), Mapped(d.Type(name))[n].container;
             IsNamed(ty, view.slots, n)
             <==> c in Selections(ty, view.slots, |ty|) && Selections(ty, view.slots, |ty|)[c] == n
    ensures HoldsField(d, name, view, MessageOf(d, name, view), n)
  {
    hide IsNamed, Selections, Mapped, StandsFor, ValueOf;
    var f, s := Mapped(d.Type(name))[n], view.slots[IndexOf(d.Type(name), n)];
    ValueStands(d, f, s);
    ContentIsPresence(s);
  }

  lemma ContentIsPresence(s: Slot)
    ensures HasContent(s) <==> !IsAbsent(s)
  {
  }

  lemma ValueStands(d: Descriptors, f: Field, s: Slot)
    requires FitsSlot(d, f, s)
    ensures StandsFor(d, f, s, ValueOf(d, f, s))
  {
    match s
    case Nums(xs) =>
      if !f.kind.EnumValue? { assert ValueOf(d, f, s).numbers == xs; }
    case _ =>
  }

  // --------------------------------------------------------------- what comes back

  /** An element that was sent, as the receiver shows it. */
  ghost predicate ComesBackAs(d: Descriptors, rank: Rank, f: Field, s: Slot, t: Slot)
    requires Layable(d.reg.messages, rank) && FitsSlot(d, f, s)
  {
    match s
    case Num(x) => t.Num? && (!f.kind.EnumValue? ==> t.number == x)
    case Txt(_) => t == s
    case Nums(xs) => t.Nums? && |t.numbers| == |xs| && (!f.kind.EnumValue? ==> t.numbers == xs)
    case Txts(_) => t == s
    case Sub(v) => t == Sub(Normal(d, rank, f.embedded, v))
    case Subs(vs) =>
      t.Subs? && |t.views| == |vs| && forall i :: 0 <= i < |vs| ==> t.views[i] == Normal(d, rank, f.embedded, vs[i])
    case NumGrid(r, c, xs) => t == if GridCount(r, c) > 0 then NumGrid(r, c, xs) else NumGrid(0, 0, [])
    case TxtGrid(r, c, ts) => t == if GridCount(r, c) > 0 then TxtGrid(r, c, ts) else TxtGrid(0, 0, [])
  }

  lemma NormalComesBack(d: Descriptors, rank: Rank, f: Field, s: Slot)
    requires Layable(d.reg.messages, rank) && FitsSlot(d, f, s)
    ensures ComesBackAs(d, rank, f, s, NormalSlot(d, rank, f, s))
  {
    match s
    case Nums(xs) =>
      if !f.kind.EnumValue? { assert NormalSlot(d, rank, f, s).numbers == xs; }
    case _ =>
  }

  /** Every element that is no selector comes back as it was when it is offered, and is zero when
      it is a member that no selector names. */
  lemma ElementInNormal(d: Descriptors, rank: Rank, name: string, view: Cluster, k: nat)
    requires Described(d, rank) && Layable(d.reg.messages, rank) && name in d.reg.messages && Fits(d, name, view)
    requires k < |view.slots| && !d.Type(name)[k].IsSelector()
    ensures var ty, f := d.Type(name), d.Type(name)[k]; var t := Normal(d, rank, name, view).slots[k];
            && f.number in Mapped(ty) && Mapped(ty)[f.number] == f && IndexOf(ty, f.number) == k
            && (IsOffered(ty, view.slots, f.number) && HasContent(view.slots[k]) ==>
                  ComesBackAs(d, rank, f, view.slots[k], t))
            && (!f.inOneof ==> ComesBackAs(d, rank, f, view.slots[k], t))
            && (!IsOffered(ty, view.slots, f.number) ==> t == ZeroSlot(d, rank, name, k))
  {
    DescribedAt(d, rank, name);
    var ty, f := d.Type(name), d.Type(name)[k];
    assert f in ty && WellFormedField(f);
    IndexOfElement(ty, k);
    NamedIsSelected(d, rank, name, view, f.number);
    hide Described, Mapped, IsNamed, Selections, NormalSlot, ZeroSlot, ComesBackAs, IsAbsent, HasContent;
    ContentIsPresence(view.slots[k]);
    NormalComesBack(d, rank, f, view.slots[k]);
  }

  /** What zero is, for each type of element. */
  lemma ZeroElements(d: Descriptors, rank: Rank, name: string, k: nat)
    requires Layable(d.reg.messages, rank) && k < |d.Type(name)|
    ensures var f, z := d.Type(name)[k], ZeroSlot(d, rank, name, k);
            && (!f.repeated && f.kind.IsNumeric() ==> z == Num(0))
            && (!f.repeated && f.kind.IsText() ==> z == Txt([]))
            && (f.repeated && f.kind.IsNumeric() ==> z == Nums([]))
            && (f.repeated && f.kind.IsText() ==> z == Txts([]))
            && (f.repeated && f.kind.MessageValue? ==> z == Subs([]))
            && (IsGrid(f, Double2DArray) ==> z == NumGrid(0, 0, []))
            && (IsGrid(f, String2DArray) ==> z == TxtGrid(0, 0, []))
  {
    hide LoadNumber;
    ZeroReads(d, rank, name, k);
    var f := d.Type(name)[k];
    if !f.repeated && f.kind.IsNumeric() { ZeroNumber(f.kind); }
    if !f.repeated && f.kind.IsText() { assert LoadHandle(Zeros(POINTER_SIZE)) == Null; }
  }

  lemma {:induction false} ZeroBytes(n: nat)
    ensures DecodeLE(BytesOf(Zeros(n))) == 0
  {
    if n > 0 {
      ZeroBytes(n - 1);
      assert BytesOf(Zeros(n))[1..] == BytesOf(Zeros(n - 1));
    }
  }

  lemma ZeroNumber(k: Kind)
    requires k.IsNumeric()
    ensures LoadNumber(k, Clusters.Cut(Zeros(CellWidth(k)), 0, CellWidth(k))) == 0
  {
    ZeroBytes(CellWidth(k));
    Pow256Words();
    assert Clusters.Cut(Zeros(CellWidth(k)), 0, CellWidth(k)) == Zeros(CellWidth(k));
  }

  /** A selector that names a field keeps its number if the field has content, so in particular
      for every number, text and embedded cluster; one that names nothing becomes zero. */
  lemma SelectorInNormal(d: Descriptors, rank: Rank, name: string, view: Cluster, k: nat, n: int)
    requires Described(d, rank) && Layable(d.reg.messages, rank) && name in d.reg.messages && Fits(d, name, view)
    requires k < |view.slots| && d.Type(name)[k].IsSelector() && view.slots[k] == Num(n)
    ensures var ty := d.Type(name);
            Normal(d, rank, name, view).slots[k]
            == if n in Mapped(ty) && Mapped(ty)[n].inOneof && Mapped(ty)[n].container == ty[k].container
                  && !Mapped(ty)[n].IsSelector() && HasContent(view.slots[IndexOf(ty, n)])
               then Num(n) else Num(0)
  {
    DescribedAt(d, rank, name);
    var ty, c := d.Type(name), d.Type(name)[k].container;
    assert WellFormedField(ty[k]) && ty[k] in ty;
    SelectorIsRecorded(ty, view.slots, k, |ty|);
    ZeroElements(d, rank, name, k);
    hide Described, Mapped, Selections, ZeroSlot, IsAbsent, HasContent, Layable, Fits;
    forall x | x in Mapped(ty) && Mapped(ty)[x].inOneof && Mapped(ty)[x].container == c && Carries(ty, view.slots, x)
      ensures x == n
    {
    }
    if n in Mapped(ty) { ContentIsPresence(view.slots[IndexOf(ty, n)]); }
  }

  /** An enum's position comes back as the first position with the same number. */
  lemma EnumInNormal(d: Descriptors, rank: Rank, f: Field, x: int, numbers: seq<int>)
    requires Layable(d.reg.messages, rank) && FitsSlot(d, f, Num(x)) && f.kind.EnumValue? && f.embedded in d.enums
    requires IsEnumTable(d.enums[f.embedded], numbers) && x < |numbers|
    ensures ValueOf(d, f, Num(x)) == Scalar(EnumValue, numbers[x])
    ensures NormalSlot(d, rank, f, Num(x)).Num? && IsLeastAlias(numbers, x, Some(NormalSlot(d, rank, f, Num(x)).number))
  {
    EnumLookups(d.enums[f.embedded], numbers, numbers[x], x);
  }

  // ------------------------------------------------------------ two-dimensional arrays

  /** Rows are field 1, columns field 2, data field 3; the two types are known by their names. */
  lemma GridNumbers(r: int, c: int, data: Value, kind: Kind)
    ensures GridMessage(r, c, data).values == map[1 := Scalar(Int32Value, r), 2 := Scalar(Int32Value, c), 3 := data]
    ensures |GridType(kind)| == 3
    ensures GridType(kind)[0] == Field(1, Int32Value, false, "", false, "")
    ensures GridType(kind)[1] == Field(2, Int32Value, false, "", false, "")
    ensures GridType(kind)[2] == Field(3, kind, true, "", false, "")
  {
  }

  lemma GridNames(f: Field)
    ensures IsGrid(f, Double2DArray)
            <==> !f.repeated && f.kind.MessageValue? && f.embedded == "ni_protobuf_types_Double2DArray"
    ensures IsGrid(f, String2DArray)
            <==> !f.repeated && f.kind.MessageValue? && f.embedded == "ni_protobuf_types_String2DArray"
    ensures EmbedsCluster(f) <==> f.kind.MessageValue? && !IsGrid(f, Double2DArray) && !IsGrid(f, String2DArray)
  {
    assert DOUBLE_2D_ARRAY != STRING_2D_ARRAY by { assert DOUBLE_2D_ARRAY[18] == 'D' && STRING_2D_ARRAY[18] == 'S'; }
  }

  /** A message with rows under 1, columns under 2 and numbers under 3 becomes an array of so many
      rows and columns that shows the numbers in order; where they run out, the old block shows. */
  lemma GridIsAbsorbed(f: Field, before: Slot, h: Handle, m: Message, r: int32, c: int32, xs: seq<int>)
    requires IsGrid(f, Double2DArray) && {1, 2, 3} <= m.values.Keys
    requires m.values[1] == Scalar(Int32Value, r) && m.values[2] == Scalar(Int32Value, c)
    requires m.values[3] == Packed(DoubleValue, xs)
    ensures var s := AbsorbGrid(f, before, h, m);
            if IntProduct(r, c) <= 0 then s == before
            else
              && s.NumGrid? && s.rows == r && s.columns == c && |s.gridNumbers| == IntProduct(r, c)
              && forall i :: 0 <= i < |s.gridNumbers| ==>
                   s.gridNumbers[i] == if i < |xs| then xs[i] else LoadNumber(DoubleValue, Nth(BlockOf(h), i, 8))
  {
  }

  lemma TextGridIsAbsorbed(f: Field, before: Slot, h: Handle, m: Message, r: int32, c: int32, ts: seq<bytes>)
    requires IsGrid(f, String2DArray) && {1, 2, 3} <= m.values.Keys
    requires m.values[1] == Scalar(Int32Value, r) && m.values[2] == Scalar(Int32Value, c)
    requires m.values[3] == Texts(StringValue, ts)
    ensures var s := AbsorbGrid(f, before, h, m);
            if IntProduct(r, c) <= 0 then s == before
            else
              && s.TxtGrid? && s.rows == r && s.columns == c && |s.gridTexts| == IntProduct(r, c)
              && forall i :: 0 <= i < |s.gridTexts| ==>
                   s.gridTexts[i] == if i < |ts| then ts[i] else TextOf(LoadHandle(Nth(BlockOf(h), i, 8)))
  {
  }

  /** Without data, or without a dimension, an array stays as it is. */
  lemma GridStays(f: Field, before: Slot, h: Handle, m: Message)
    requires 1 !in m.values || 2 !in m.values || 3 !in m.values
    ensures AbsorbGrid(f, before, h, m) == before
  {
    ProductWithZero(GridDimension(m, 1));
    ProductWithZero(GridDimension(m, 2));
  }

  lemma ProductWithZero(a: int)
    ensures IntProduct(a, 0) == 0 && IntProduct(0, a) == 0
  {
  }

  // ------------------------------------------------------------- message to cluster

  /** What a value leaves in an element that held `before`: an empty list leaves it alone,
      anything else replaces it. */
  ghost predicate IsLeftBy(d: Descriptors, rank: Rank, name: string, k: nat, before: seq<Cell>, v: Value, t: Slot)
    requires Layable(d.reg.messages, rank) && k < |d.Type(name)|
  {
    var f := d.Type(name)[k];
    match v
    case Scalar(_, x) => t.Num? && (!f.kind.EnumValue? ==> t.number == x)
    case Text(_, x) => t == Txt(x)
    case Packed(_, xs) =>
      if |xs| == 0 then t == ReadSlot(d, rank, name, k, before)
      else t.Nums? && |t.numbers| == |xs| && (!f.kind.EnumValue? ==> t.numbers == xs)
    case Texts(_, ts) => if |ts| == 0 then t == ReadSlot(d, rank, name, k, before) else t == Txts(ts)
    case Nested(m) => EmbedsCluster(f) ==> t == Sub(Absorb(d, rank, f.embedded, before, m))
    case NestedList(ms) =>
      if |ms| == 0 then t == ReadSlot(d, rank, name, k, before) else t.Subs? && |t.views| == |ms|
  }

  /** After a message was copied: a field it has replaces the element, a field it lacks leaves it
      as it was, and a selector shows the number of its oneof's member, if it has one. */
  lemma AbsorbedElement(d: Descriptors, rank: Rank, name: string, cells: seq<Cell>, m: Message, k: nat)
    requires Layable(d.reg.messages, rank) && k < |d.Type(name)|
    ensures var f, t := d.Type(name)[k], Absorb(d, rank, name, cells, m).slots[k];
            var before := d.Window(name, k, cells);
            && (f.IsSelector() && f.container in m.oneof ==> t == Num(m.oneof[f.container]))
            && (f.IsSelector() && f.container !in m.oneof ==> t == View(d, rank, name, cells).slots[k])
            && (!f.IsSelector() && f.number !in m.values ==> t == View(d, rank, name, cells).slots[k])
            && (!f.IsSelector() && f.number in m.values ==> IsLeftBy(d, rank, name, k, before, m.values[f.number], t))
  {
    hide ReadSlot;
    var f := d.Type(name)[k];
    if !f.IsSelector() && f.number in m.values { ValueIsLeft(d, rank, name, k, d.Window(name, k, cells), m.values[f.number]); }
  }

  lemma ValueIsLeft(d: Descriptors, rank: Rank, name: string, k: nat, before: seq<Cell>, v: Value)
    requires Layable(d.reg.messages, rank) && k < |d.Type(name)|
    ensures IsLeftBy(d, rank, name, k, before, v, AbsorbValue(d, rank, name, k, before, v))
  {
    hide ReadSlot, Absorb;
    match v
    case Packed(_, xs) =>
      if xs != [] && !d.Type(name)[k].kind.EnumValue? { assert AbsorbValue(d, rank, name, k, before, v).numbers == xs; }
    case _ =>
  }

  // ----------------------------------------------------------------- conversions

  /** Every enum position is in its table and every string is UTF-8, at every depth. */
  ghost predicate IsConvertible(d: Descriptors, name: string, view: Cluster)
    requires Fits(d, name, view)
    decreases view, 1
  {
    forall k :: 0 <= k < |view.slots| ==> IsConvertibleSlot(d, d.Type(name)[k], view.slots[k])
  }

  ghost predicate IsConvertibleSlot(d: Descriptors, f: Field, s: Slot)
    requires FitsSlot(d, f, s)
    decreases s, 0
  {
    match s
    case Num(x) => f.kind.EnumValue? ==> IsPosition(d, f, x)
    case Nums(xs) => f.kind.EnumValue? ==> forall x :: x in xs ==> IsPosition(d, f, x)
    case Txt(t) => f.kind.StringValue? ==> d.reg.validUtf8(t)
    case Txts(ts) => f.kind.StringValue? ==> forall t :: t in ts ==> d.reg.validUtf8(t)
    case Sub(v) => IsConvertible(d, f.embedded, v)
    case Subs(vs) => forall v :: v in vs ==> IsConvertible(d, f.embedded, v)
    case NumGrid(_, _, _) => true
    case TxtGrid(_, _, ts) => forall t :: t in ts ==> d.reg.validUtf8(t)
  }

  ghost predicate IsPosition(d: Descriptors, f: Field, x: int) {
    f.embedded in d.enums && exists numbers :: IsEnumTable(d.enums[f.embedded], numbers) && 0 <= x < |numbers|
  }

  /** Nothing throws when everything converts. */
  lemma {:induction false} ConvertibleIsSendable(d: Descriptors, name: string, view: Cluster)
    requires Fits(d, name, view) && IsConvertible(d, name, view)
    ensures Sendable(d, name, view)
    decreases view, 1
  {
    var ty := d.Type(name);
    forall n | n in Mapped(ty) && Carries(ty, view.slots, n)
      ensures SendableSlot(d, Mapped(ty)[n], view.slots[IndexOf(ty, n)])
    {
      ConvertibleSlotIsSendable(d, Mapped(ty)[n], view.slots[IndexOf(ty, n)]);
    }
  }

  lemma {:induction false} ConvertibleSlotIsSendable(d: Descriptors, f: Field, s: Slot)
    requires FitsSlot(d, f, s) && IsConvertibleSlot(d, f, s)
    ensures SendableSlot(d, f, s)
    decreases s, 0
  {
    match s
    case Num(x) => if f.kind.EnumValue? { PositionIsKnown(d, f, x); }
    case Nums(xs) =>
      if f.kind.EnumValue? { forall x | x in xs ensures KnownPosition(d, f, x) { PositionIsKnown(d, f, x); } }
    case Sub(v) => ConvertibleIsSendable(d, f.embedded, v);
    case Subs(vs) => forall v | v in vs ensures Sendable(d, f.embedded, v) { ConvertibleIsSendable(d, f.embedded, v); }
    case _ =>
  }

  lemma PositionIsKnown(d: Descriptors, f: Field, x: int)
    requires IsPosition(d, f, x)
    ensures KnownPosition(d, f, x)
  {
    var numbers :| IsEnumTable(d.enums[f.embedded], numbers) && 0 <= x < |numbers|;
    EnumLookups(d.enums[f.embedded], numbers, numbers[x], x);
  }

  /** An offered string that is not UTF-8, or an offered position outside its table, throws. */
  lemma UnconvertibleIsNotSendable(d: Descriptors, rank: Rank, name: string, view: Cluster, n: int)
    requires Described(d, rank) && name in d.reg.messages && Fits(d, name, view)
    requires n in Mapped(d.Type(name)) && IsOffered(d.Type(name), view.slots, n)
    requires var f, s := Mapped(d.Type(name))[n], view.slots[IndexOf(d.Type(name), n)];
             || (f.kind.StringValue? && s.Txt? && !d.reg.validUtf8(s.text))
             || (f.kind.EnumValue? && s.Num? && !IsPosition(d, f, s.number))
    ensures !Sendable(d, name, view)
  {
    DescribedAt(d, rank, name);
    NamedIsSelected(d, rank, name, view, n);
    hide Described, IsNamed, Selections;
    var f, s := Mapped(d.Type(name))[n], view.slots[IndexOf(d.Type(name), n)];
    if f.kind.EnumValue? {
      assert DescribedField(d, f);
      var numbers :| IsEnumTable(d.enums[f.embedded], numbers);
      EnumLookups(d.enums[f.embedded], numbers, 0, s.number);
    }
    assert Carries(d.Type(name), view.slots, n);
  }

  /** Every enum number is declared, at every depth. */
  ghost predicate IsDeclared(d: Descriptors, name: string, m: Message)
    decreases m, 1
  {
    forall n :: n in m.values && n in Mapped(d.Type(name)) ==> IsDeclaredValue(d, Mapped(d.Type(name))[n], m.values[n])
  }

  ghost predicate IsDeclaredValue(d: Descriptors, f: Field, v: Value)
    decreases v, 0
  {
    match v
    case Scalar(_, x) => f.kind.EnumValue? ==> IsNumberOf(d, f, x)
    case Packed(_, xs) => f.kind.EnumValue? ==> forall x :: x in xs ==> IsNumberOf(d, f, x)
    case Nested(m) => EmbedsCluster(f) ==> IsDeclared(d, f.embedded, m)
    case NestedList(ms) => forall m :: m in ms ==> IsDeclared(d, f.embedded, m)
    case _ => true
  }

  ghost predicate IsNumberOf(d: Descriptors, f: Field, x: int) {
    f.embedded in d.enums && exists numbers :: IsEnumTable(d.enums[f.embedded], numbers) && x in numbers
  }

  /** The copy throws exactly when some enum number is not declared. */
  lemma {:induction false} DeclaredIsReceivable(d: Descriptors, rank: Rank, name: string, m: Message)
    requires Described(d, rank) && name in d.reg.messages && WellTyped(d.reg, Some(d.Type(name)), m)
    ensures Receivable(d, name, m) <==> IsDeclared(d, name, m)
    decreases m, 1
  {
    DescribedAt(d, rank, name);
    var ty := d.Type(name);
    forall n | n in m.values && n in Mapped(ty)
      ensures ReceivableValue(d, Mapped(ty)[n], m.values[n]) <==> IsDeclaredValue(d, Mapped(ty)[n], m.values[n])
    {
      MappedIsAnElement(ty, n);
      DeclaredValueIsReceivable(d, rank, name, Mapped(ty)[n], m.values[n]);
    }
  }

  lemma {:induction false} DeclaredValueIsReceivable(d: Descriptors, rank: Rank, name: string, f: Field, v: Value)
    requires Described(d, rank) && name in d.reg.messages && f in d.reg.messages[name] && DescribedField(d, f)
    requires WellTypedValue(d.reg, f, v)
    ensures ReceivableValue(d, f, v) <==> IsDeclaredValue(d, f, v)
    decreases v, 0
  {
    hide IsNumberOf;
    match v
    case Scalar(_, x) => NumberIsKnown(d, f, x);
    case Packed(_, xs) =>
      forall x | x in xs ensures KnownNumber(d, f, x) <==> (f.kind.EnumValue? ==> IsNumberOf(d, f, x)) { NumberIsKnown(d, f, x); }
    case Nested(m) => if EmbedsCluster(f) { DeclaredIsReceivable(d, rank, f.embedded, m); }
    case NestedList(ms) =>
      assert EmbedsCluster(f);
      forall m | m in ms ensures Receivable(d, f.embedded, m) <==> IsDeclared(d, f.embedded, m) {
        DeclaredIsReceivable(d, rank, f.embedded, m);
      }
    case _ =>
  }

  lemma NumberIsKnown(d: Descriptors, f: Field, x: int)
    requires DescribedField(d, f)
    ensures KnownNumber(d, f, x) <==> (f.kind.EnumValue? ==> IsNumberOf(d, f, x))
  {
    if f.kind.EnumValue? {
      var numbers :| IsEnumTable(d.enums[f.embedded], numbers);
      EnumLookups(d.enums[f.embedded], numbers, x, 0);
      if IsNumberOf(d, f, x) {
        var others :| IsEnumTable(d.enums[f.embedded], others) && x in others;
        EnumLookups(d.enums[f.embedded], others, x, 0);
      }
    }
  }
}
