/** What copying between a message and a cluster means, in terms of the values LabVIEW sees. */
module Copying {
  import opened Wire
  import opened Schema
  import opened Numeric
  import opened Messages
  import opened Layout
  import opened Enums
  import opened Clusters

  const ROWS_INDEX := 1
  const COLUMNS_INDEX := 2
  const DATA_INDEX := 3

  /** The message type of a two-dimensional array. */
  function GridType(dataKind: Kind): MessageType {
    [Field(ROWS_INDEX, Int32Value, false, "", false, ""),
     Field(COLUMNS_INDEX, Int32Value, false, "", false, ""),
     Field(DATA_INDEX, dataKind, true, "", false, "")]
  }

  lemma GridIsMapped(kind: Kind)
    ensures var ty := GridType(kind); Mapped(ty) == map[ROWS_INDEX := ty[0], COLUMNS_INDEX := ty[1], DATA_INDEX := ty[2]]
  {
    var ty := GridType(kind);
    assert ty[1..] == [ty[1], ty[2]];
    assert ty[1..][1..] == [ty[2]];
    assert ty[1..][1..][1..] == [];
    assert Mapped([ty[2]]) == map[DATA_INDEX := ty[2]];
    assert Mapped([ty[1], ty[2]]) == Mapped([ty[2]])[COLUMNS_INDEX := ty[1]];
  }

  // ----------------------------------------------------------- the metadata relied on

  /** Each oneof has one selector, and each member's oneof has one. */
  predicate OneofsAreDescribed(ty: MessageType) {
    && (forall i, j :: 0 <= i < j < |ty| && ty[i].IsSelector() && ty[j].IsSelector() ==> ty[i].container != ty[j].container)
    && (forall f :: f in ty && f.inOneof ==> HasSelector(ty, f.container))
  }

  predicate HasSelector(ty: MessageType, container: string) {
    exists j :: 0 <= j < |ty| && ty[j].IsSelector() && ty[j].container == container
  }

  ghost predicate IsEnumTable(e: EnumMetadata, numbers: seq<int>) {
    Describes(e, numbers) && |numbers| <= TWO_32 && AllInRange(EnumValue, numbers)
  }

  /** The names a field refers to resolve. */
  ghost predicate DescribedField(d: Descriptors, f: Field) {
    && (f.kind.EnumValue? ==> f.embedded in d.enums && exists numbers :: IsEnumTable(d.enums[f.embedded], numbers))
    && (EmbedsCluster(f) ==> f.embedded in d.reg.messages && d.reg.messages[f.embedded] != [])
    && (IsGrid(f, Double2DArray) ==> d.reg.Find(f.embedded) == Some(GridType(DoubleValue)))
    && (IsGrid(f, String2DArray) ==> d.reg.Find(f.embedded) == Some(GridType(StringValue)))
  }

  ghost predicate DescribedType(d: Descriptors, rank: Rank, name: string)
    requires Layable(d.reg.messages, rank) && name in d.reg.messages
  {
    var ty := d.reg.messages[name];
    && WellFormedType(ty) && OneofsAreDescribed(ty)
    && (ty != [] ==> name in d.layouts && d.layouts[name] == LayoutOf(d.reg.messages, rank, name))
    && forall f :: f in ty ==> DescribedField(d, f)
  }

  /** A closed registry, laid out, with its enum tables: what the copier finds at run time. */
  ghost predicate Described(d: Descriptors, rank: Rank) {
    && Layable(d.reg.messages, rank)
    && forall name :: name in d.reg.messages ==> DescribedType(d, rank, name)
  }

  // --------------------------------------------------------------- mapped elements

  /** The element that _mappedElements holds for a number: the first one. */
  function IndexOf(ty: MessageType, n: int): (k: nat)
    requires n in Mapped(ty)
    ensures k < |ty| && ty[k] == Mapped(ty)[n] && ty[k].number == n
  {
    if ty[0].number == n then 0 else 1 + IndexOf(ty[1..], n)
  }

  lemma IndexOfElement(ty: MessageType, k: nat)
    requires k < |ty| && ty[k].number > 0 && DistinctNumbers(ty)
    ensures ty[k].number in Mapped(ty) && IndexOf(ty, ty[k].number) == k
  {
    ElementIsMapped(ty, k);
    var j := IndexOf(ty, ty[k].number);
    assert ty[j].number == ty[k].number;
  }

  // ------------------------------------------------------------ cluster to message

  /** The map that CopyFromCluster fills from the selectors. */
  function Selections(ty: MessageType, slots: seq<Slot>, k: nat): map<string, int>
    requires k <= |ty| == |slots|
  {
    if k == 0 then map[]
    else
      var before := Selections(ty, slots, k - 1);
      if ty[k - 1].IsSelector() && slots[k - 1].Num? && ty[k - 1].container !in before
      then before[ty[k - 1].container := slots[k - 1].number] else before
  }

  lemma {:induction false} NotYetRecorded(ty: MessageType, slots: seq<Slot>, k: nat, n: nat)
    requires n <= k < |ty| == |slots| && OneofsAreDescribed(ty) && ty[k].IsSelector()
    ensures ty[k].container !in Selections(ty, slots, n)
  {
    if n > 0 { NotYetRecorded(ty, slots, k, n - 1); }
  }

  /** The values that leave no trace in the message: empty arrays. */
  predicate IsAbsent(s: Slot) {
    match s
    case Nums(ns) => ns == []
    case Txts(ts) => ts == []
    case Subs(vs) => vs == []
    case NumGrid(r, c, _) => r == 0 || c == 0
    case TxtGrid(r, c, _) => r == 0 || c == 0
    case _ => false
  }

  /** Field `n` is copied: it is no selector, it is selected if it is in a oneof, and it is
      not an empty array. */
  predicate Carries(ty: MessageType, slots: seq<Slot>, n: int)
    requires n in Mapped(ty) && |ty| == |slots|
  {
    var f, selected := Mapped(ty)[n], Selections(ty, slots, |ty|);
    && !f.IsSelector()
    && (f.inOneof ==> f.container in selected && selected[f.container] == n)
    && !IsAbsent(slots[IndexOf(ty, n)])
  }

  function ProtoOf(d: Descriptors, f: Field, position: int): int {
    if f.embedded in d.enums && position >= 0 && d.enums[f.embedded].GetProtoValueFromLVEnumValue(position).Some?
    then d.enums[f.embedded].GetProtoValueFromLVEnumValue(position).value else 0
  }

  function LvOf(d: Descriptors, f: Field, number: int): int {
    if f.embedded in d.enums && d.enums[f.embedded].GetLVEnumValueFromProtoValue(number).Some?
    then d.enums[f.embedded].GetLVEnumValueFromProtoValue(number).value else 0
  }

  /** The number a message holds for a number in a cluster, and back. */
  function Outward(d: Descriptors, f: Field, x: int): int { if f.kind.EnumValue? then ProtoOf(d, f, x) else x }

  function Inward(d: Descriptors, f: Field, x: int): int { if f.kind.EnumValue? then LvOf(d, f, x) else x }

  function GridMessage(rows: int, columns: int, data: Value): Message {
    Message(map[ROWS_INDEX := Scalar(Int32Value, rows), COLUMNS_INDEX := Scalar(Int32Value, columns), DATA_INDEX := data],
      map[], [])
  }

  function ValueOf(d: Descriptors, f: Field, s: Slot): Value
    requires FitsSlot(d, f, s)
    decreases s, 0
  {
    match s
    case Num(x) => Scalar(f.kind, Outward(d, f, x))
    case Txt(t) => Text(f.kind, t)
    case Nums(xs) => Packed(f.kind, seq(|xs|, i requires 0 <= i < |xs| => Outward(d, f, xs[i])))
    case Txts(ts) => Texts(f.kind, ts)
    case Sub(v) => Nested(MessageOf(d, f.embedded, v))
    case Subs(vs) => NestedList(seq(|vs|, i requires 0 <= i < |vs| => MessageOf(d, f.embedded, vs[i])))
    case NumGrid(r, c, xs) => Nested(GridMessage(r, c, Packed(DoubleValue, xs)))
    case TxtGrid(r, c, ts) => Nested(GridMessage(r, c, Texts(StringValue, ts)))
  }

  /** The message that CopyFromCluster builds. */
  function MessageOf(d: Descriptors, name: string, view: Cluster): Message
    requires Fits(d, name, view)
    decreases view, 1
  {
    var ty := d.Type(name);
    Message(
      map n | n in Mapped(ty) && Carries(ty, view.slots, n) :: ValueOf(d, Mapped(ty)[n], view.slots[IndexOf(ty, n)]),
      Selections(ty, view.slots, |ty|),
      [])
  }

  /** The copy does not throw: positions are in the enum's table and strings convert. */
  ghost predicate Sendable(d: Descriptors, name: string, view: Cluster)
    requires Fits(d, name, view)
    decreases view, 1
  {
    var ty := d.Type(name);
    forall n :: n in Mapped(ty) && Carries(ty, view.slots, n) ==>
      SendableSlot(d, Mapped(ty)[n], view.slots[IndexOf(ty, n)])
  }

  predicate KnownPosition(d: Descriptors, f: Field, position: int) {
    f.kind.EnumValue? ==> f.embedded in d.enums && position in d.enums[f.embedded].lvToProto
  }

  ghost predicate SendableSlot(d: Descriptors, f: Field, s: Slot)
    requires FitsSlot(d, f, s)
    decreases s, 0
  {
    match s
    case Num(x) => KnownPosition(d, f, x)
    case Nums(xs) => forall x :: x in xs ==> KnownPosition(d, f, x)
    case Txt(t) => ValidText(d.reg, f.kind, t)
    case Txts(ts) => forall t :: t in ts ==> ValidText(d.reg, f.kind, t)
    case Sub(v) => Sendable(d, f.embedded, v)
    case Subs(vs) => forall v :: v in vs ==> Sendable(d, f.embedded, v)
    case NumGrid(_, _, _) => true
    case TxtGrid(_, _, ts) => forall t :: t in ts ==> d.reg.validUtf8(t)
  }

  // ------------------------------------------------------------ message to cluster

  function GridDimension(m: Message, n: int): (r: int32) {
    if n in m.values && m.values[n].Scalar? && InRange(Int32Value, m.values[n].number) then m.values[n].number else 0
  }

  /** The elements of `ys`, the first of them replaced by those of `xs`. */
  function Overlaid<T>(xs: seq<T>, ys: seq<T>): (zs: seq<T>)
    ensures |zs| == |ys|
  {
    seq(|ys|, i requires 0 <= i < |ys| => if i < |xs| then xs[i] else ys[i])
  }

  /** A two-dimensional array is replaced only when it has elements and data came along; where
      the data falls short, the resized block shows what it held. */
  function AbsorbGrid(f: Field, before: Slot, h: Handle, m: Message): Slot {
    var r, c := GridDimension(m, ROWS_INDEX), GridDimension(m, COLUMNS_INDEX);
    if IntProduct(r, c) <= 0 || DATA_INDEX !in m.values then before
    else if f.WellKnown().Double2DArray? then
      NumGrid(r, c, Overlaid(GridNumbers(m), LoadNumbers(DoubleValue, BlockOf(h), GridCount(r, c))))
    else
      TxtGrid(r, c, Overlaid(GridTexts(m), LoadTexts(BlockOf(h), GridCount(r, c))))
  }

  function GridNumbers(m: Message): seq<int> {
    if DATA_INDEX in m.values && m.values[DATA_INDEX].Packed? then m.values[DATA_INDEX].numbers else []
  }

  function GridTexts(m: Message): seq<bytes> {
    if DATA_INDEX in m.values && m.values[DATA_INDEX].Texts? then m.values[DATA_INDEX].texts else []
  }

  /** A cluster after a null pointer was stored at its start. */
  function Cleared(s: seq<Cell>): (t: seq<Cell>)
    ensures |t| == |s|
  {
    seq(|s|, i requires 0 <= i < |s| => if i < POINTER_SIZE then ZERO else s[i])
  }

  /** What element `k` holds after the value `v` was copied over `cells`. */
  ghost function AbsorbValue(d: Descriptors, rank: Rank, name: string, k: nat, cells: seq<Cell>, v: Value): Slot
    requires Layable(d.reg.messages, rank) && k < |d.Type(name)|
    decreases v, 0
  {
    var f := d.Type(name)[k];
    match v
    case Scalar(_, x) => Num(Inward(d, f, x))
    case Text(_, t) => Txt(t)
    case Packed(_, xs) =>
      if xs == [] then ReadSlot(d, rank, name, k, cells)
      else Nums(seq(|xs|, i requires 0 <= i < |xs| => Inward(d, f, xs[i])))
    case Texts(_, ts) => if ts == [] then ReadSlot(d, rank, name, k, cells) else Txts(ts)
    case Nested(m) =>
      if EmbedsCluster(f) then Sub(Absorb(d, rank, f.embedded, cells, m))
      else AbsorbGrid(f, ReadSlot(d, rank, name, k, cells), LoadHandle(cells), m)
    case NestedList(ms) =>
      if ms == [] then ReadSlot(d, rank, name, k, cells)
      else Subs(seq(|ms|, i requires 0 <= i < |ms| =>
                      Absorb(d, rank, f.embedded, ElementBefore(d, f.embedded, LoadHandle(cells), i), ms[i])))
  }

  /** The cells of array element `i` when a message is copied into it. */
  function ElementBefore(d: Descriptors, name: string, h: Handle, i: nat): seq<Cell> {
    Cleared(Nth(BlockOf(h), i, d.Size(name)))
  }

  /** Element `k` after message `m` was copied: a field that `m` lacks keeps what it had. */
  ghost function AbsorbAt(d: Descriptors, rank: Rank, name: string, k: nat, cells: seq<Cell>, m: Message): Slot
    requires Layable(d.reg.messages, rank) && k < |d.Type(name)|
    decreases m, 0
  {
    var f := d.Type(name)[k];
    if f.IsSelector() then
      if f.container in m.oneof then Num(m.oneof[f.container]) else ReadSlot(d, rank, name, k, cells)
    else if f.number in m.values then AbsorbValue(d, rank, name, k, cells, m.values[f.number])
    else ReadSlot(d, rank, name, k, cells)
  }

  /** The cluster after message `m` was copied over `cells`. */
  ghost function Absorb(d: Descriptors, rank: Rank, name: string, cells: seq<Cell>, m: Message): (v: Cluster)
    requires Layable(d.reg.messages, rank)
    ensures |v.slots| == |d.Type(name)|
    decreases m, 1
  {
    Cluster(seq(|d.Type(name)|, k requires 0 <= k < |d.Type(name)| =>
                  AbsorbAt(d, rank, name, k, d.Window(name, k, cells), m)))
  }

  predicate KnownNumber(d: Descriptors, f: Field, number: int) {
    f.kind.EnumValue? ==>
      f.embedded in d.enums && d.enums[f.embedded].GetLVEnumValueFromProtoValue(number).Some?
  }

  /** The copy does not throw: every enum number has a position. */
  ghost predicate Receivable(d: Descriptors, name: string, m: Message)
    decreases m, 1
  {
    forall n :: n in m.values && n in Mapped(d.Type(name)) ==> ReceivableValue(d, Mapped(d.Type(name))[n], m.values[n])
  }

  ghost predicate ReceivableValue(d: Descriptors, f: Field, v: Value)
    decreases v, 0
  {
    match v
    case Scalar(_, x) => KnownNumber(d, f, x)
    case Packed(_, xs) => forall x :: x in xs ==> KnownNumber(d, f, x)
    case Nested(m) => EmbedsCluster(f) ==> Receivable(d, f.embedded, m)
    case NestedList(ms) => forall m :: m in ms ==> Receivable(d, f.embedded, m)
    case _ => true
  }

  /** Copying `m` writes no null pointer past the block of an array: at every depth, lists
      that are not empty hold clusters with room for a pointer. */
  ghost predicate StaysInside(d: Descriptors, name: string, m: Message)
    decreases m, 1
  {
    forall n :: n in m.values && n in Mapped(d.Type(name)) ==> ValueStaysInside(d, Mapped(d.Type(name))[n], m.values[n])
  }

  ghost predicate ValueStaysInside(d: Descriptors, f: Field, v: Value)
    decreases v, 0
  {
    match v
    case Nested(m) => EmbedsCluster(f) ==> StaysInside(d, f.embedded, m)
    case NestedList(ms) =>
      && (ms != [] ==> d.Size(f.embedded) >= POINTER_SIZE)
      && forall m :: m in ms ==> StaysInside(d, f.embedded, m)
    case _ => true
  }

  /** The elements that a two-dimensional array sends are as many as its dimensions say if and
      only if their product is an int. */
  lemma SentGridAgrees(d: Descriptors, f: Field, s: Slot)
    requires FitsSlot(d, f, s) && (s.NumGrid? || s.TxtGrid?) && s.rows > 0 && s.columns > 0
    ensures var m := ValueOf(d, f, s).message;
            (if s.NumGrid? then |GridNumbers(m)| else |GridTexts(m)|) == s.rows * s.columns <==> s.rows * s.columns < TWO_31
  {
    ProductFits(s.rows, s.columns);
    ProductIsPositive(s.rows, s.columns);
  }

  /** Selected indices are C++ ints, at every depth. */
  ghost predicate OneofsFit(m: Message)
    decreases m, 1
  {
    && (forall c :: c in m.oneof ==> InRange(Int32Value, m.oneof[c]))
    && forall n :: n in m.values ==> OneofsFitIn(m.values[n])
  }

  ghost predicate OneofsFitIn(v: Value)
    decreases v, 0
  {
    match v
    case Nested(m) => OneofsFit(m)
    case NestedList(ms) => forall m :: m in ms ==> OneofsFit(m)
    case _ => true
  }

  // -------------------------------------------------------------------- normal form

  /** What a cluster becomes when it is sent and received: enum aliases become the first
      alias, arrays without elements become empty, members that are not selected become
      zero, and so does a selector that selects nothing that was sent. */
  ghost function Normal(d: Descriptors, rank: Rank, name: string, view: Cluster): (v: Cluster)
    requires Layable(d.reg.messages, rank) && Fits(d, name, view)
    ensures |v.slots| == |view.slots|
    decreases view, 1
  {
    Cluster(seq(|view.slots|, k requires 0 <= k < |view.slots| =>
                  if IsKept(d, name, view, k) then NormalSlot(d, rank, d.Type(name)[k], view.slots[k])
                  else ZeroSlot(d, rank, name, k)))
  }

  /** Not a oneof's element, the selected member of one, or the selector of a member sent. */
  ghost predicate IsKept(d: Descriptors, name: string, view: Cluster, k: nat)
    requires Fits(d, name, view) && k < |view.slots|
  {
    var ty, f := d.Type(name), d.Type(name)[k];
    if f.IsSelector() then
      exists n :: n in Mapped(ty) && Mapped(ty)[n].inOneof && Mapped(ty)[n].container == f.container && Carries(ty, view.slots, n)
    else
      f.inOneof ==> f.number in Mapped(ty) && Carries(ty, view.slots, f.number)
  }

  ghost function ZeroSlot(d: Descriptors, rank: Rank, name: string, k: nat): Slot
    requires Layable(d.reg.messages, rank) && k < |d.Type(name)|
  {
    ReadSlot(d, rank, name, k, Zeros(d.Width(d.Type(name)[k])))
  }

  ghost function NormalSlot(d: Descriptors, rank: Rank, f: Field, s: Slot): Slot
    requires Layable(d.reg.messages, rank) && FitsSlot(d, f, s)
    decreases s, 0
  {
    match s
    case Num(x) => Num(Inward(d, f, Outward(d, f, x)))
    case Nums(xs) => Nums(seq(|xs|, i requires 0 <= i < |xs| => Inward(d, f, Outward(d, f, xs[i]))))
    case Sub(v) => Sub(Normal(d, rank, f.embedded, v))
    case Subs(vs) => Subs(seq(|vs|, i requires 0 <= i < |vs| => Normal(d, rank, f.embedded, vs[i])))
    case NumGrid(r, c, _) => if GridCount(r, c) > 0 then s else NumGrid(0, 0, [])
    case TxtGrid(r, c, _) => if GridCount(r, c) > 0 then s else TxtGrid(0, 0, [])
    case Txt(_) => s
    case Txts(_) => s
  }
}
