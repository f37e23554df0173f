/** The parser split in two: cutting bytes into items, and applying the items. Status and
    position depend on the bytes alone, never on the message under construction. */
module Tokens {
  import opened Wire
  import opened Schema
  import opened Numeric
  import opened Messages
  import opened Parse
  import opened Groups
  import opened WireItems

  datatype Cut = Cut(status: Status, items: seq<Item>, rest: Input, atEnd: bool)

  function CutFields(reg: Registry, ty: Option<MessageType>, i: Input): (c: Cut)
    requires i.Valid()
    ensures c.rest.Valid() && |c.rest.data| <= |i.data|
    decreases |i.data|, 0
  {
    var t := ReadTag(i);
    if t.tag == 0 then Cut(Accepted, [], t.rest, t.atEnd)
    else
      var one := CutTagged(reg, ty, t.tag, t.rest);
      if one.status != Accepted then one
      else
        var more := CutFields(reg, ty, one.rest);
        Cut(more.status, one.items + more.items, more.rest, more.atEnd)
  }

  function CutTagged(reg: Registry, ty: Option<MessageType>, tag: nat, i: Input): (c: Cut)
    requires i.Valid()
    ensures c.rest.Valid() && |c.rest.data| <= |i.data|
    decreases |i.data|, 2
  {
    var n := TagFieldNumber(tag);
    if ty.Some? && n in Mapped(ty.value) then CutField(reg, Mapped(ty.value)[n], n, TagWireType(tag), i)
    else
      var u := ReadUnknown(tag, i);
      Cut(if u.ok then Accepted else Rejected, [Other(Group(n, Leaves(u.fields)))], u.rest, false)
  }

  function Leaves(us: seq<Unknown>): (ts: seq<Tree>) {
    if us == [] then [] else [Leaf(us[0])] + Leaves(us[1..])
  }

  function CutField(reg: Registry, f: Field, n: nat, wireType: nat, i: Input): (c: Cut)
    requires i.Valid()
    ensures c.rest.Valid() && |c.rest.data| <= |i.data|
    decreases |i.data|, 1
  {
    if f.kind == MessageValue then
      var length := ReadVarint32(i);
      if !length.ok then Cut(Rejected, [], length.rest, false)
      else
        var pushed := length.rest.Push(length.value);
        var c := CutFields(reg, reg.Find(f.embedded), pushed);
        Cut(c.status, [Sub(n, c.items)], length.rest.Pop(pushed, c.rest), false)
    else if f.kind.IsText() then
      var r := ReadLengthDelimited(i);
      Cut(if !r.ok then Rejected else if !ValidText(reg, f.kind, r.value) then Threw else Accepted,
          [Blob(n, f.kind, r.value)], r.rest, false)
    else if f.repeated && wireType == WIRETYPE_LENGTH_DELIMITED then
      var length := ReadVarint32(i);
      if !length.ok then Cut(Rejected, [], length.rest, false)
      else
        var pushed := length.rest.Push(length.value);
        var r := ReadPacked(f.kind, pushed);
        if !r.ok then Cut(Rejected, [], r.rest, false)
        else Cut(Accepted, [Chunk(n, f.kind, r.value)], length.rest.Pop(pushed, r.rest), false)
    else
      var r := ReadNumber(f.kind, i);
      Cut(if r.ok then Accepted else Rejected, [One(n, f.kind, r.value)], r.rest, false)
  }

  /** `o` is what cutting and then applying gives. */
  predicate Agrees(reg: Registry, ty: Option<MessageType>, m: Message, o: Outcome, c: Cut) {
    && o.status == c.status && o.rest == c.rest && o.atEnd == c.atEnd
    && (c.status == Accepted ==> o.message == ApplyAll(reg, ty, m, c.items))
  }

  /** Every parse, of any bytes into any message, is cutting followed by applying. */
  lemma {:induction false} ParseIsCutThenApply(reg: Registry, ty: Option<MessageType>, i: Input, m: Message)
    requires i.Valid()
    ensures Agrees(reg, ty, m, ParseFields(reg, ty, i, m), CutFields(reg, ty, i))
    decreases |i.data|, 0
  {
    var t := ReadTag(i);
    if t.tag != 0 {
      var one, cut := ParseTagged(reg, ty, t.tag, t.rest, m), CutTagged(reg, ty, t.tag, t.rest);
      TaggedIsCutThenApply(reg, ty, t.tag, t.rest, m);
      if cut.status == Accepted {
        ParseIsCutThenApply(reg, ty, cut.rest, one.message);
        ApplyAllAppend(reg, ty, m, cut.items, CutFields(reg, ty, cut.rest).items);
      }
    }
  }

  lemma {:induction false} TaggedIsCutThenApply(reg: Registry, ty: Option<MessageType>, tag: nat, i: Input, m: Message)
    requires i.Valid()
    ensures Agrees(reg, ty, m, ParseTagged(reg, ty, tag, i, m), CutTagged(reg, ty, tag, i))
    decreases |i.data|, 2
  {
    var n, c := TagFieldNumber(tag), CutTagged(reg, ty, tag, i);
    if ty.Some? && n in Mapped(ty.value) {
      var f := Mapped(ty.value)[n];
      FieldIsCutThenApply(reg, ty.value, n, TagWireType(tag), i, m);
    } else {
      var u := ReadUnknown(tag, i);
      LeavesFlatten(u.fields);
      ApplyOne(reg, ty, m, c.items[0]);
      TagParts(n, WIRETYPE_START_GROUP);
    }
  }

  lemma {:induction false} LeavesFlatten(us: seq<Unknown>)
    ensures FlattenAll(Leaves(us)) == us
  {
    if us != [] {
      LeavesFlatten(us[1..]);
      assert [us[0]] + us[1..] == us;
    }
  }

  lemma ApplyOne(reg: Registry, ty: Option<MessageType>, m: Message, it: Item)
    ensures ApplyAll(reg, ty, m, [it]) == Apply(reg, ty, m, it)
  {
  }

  lemma {:induction false} FieldIsCutThenApply(reg: Registry, t: MessageType, n: nat, wireType: nat, i: Input, m: Message)
    requires i.Valid() && n in Mapped(t)
    ensures var f := Mapped(t)[n];
            Agrees(reg, Some(t), m, ParseField(reg, f, n, wireType, i, SelectMember(m, f)), CutField(reg, f, n, wireType, i))
    decreases |i.data|, 1
  {
    hide Mapped, ReadVarint32, ReadPacked, ReadNumber, ReadLengthDelimited;
    var f := Mapped(t)[n];
    if f.kind == MessageValue {
      SubIsCutThenApply(reg, t, n, wireType, i, m);
    } else {
      var c := CutField(reg, f, n, wireType, i);
      if |c.items| == 1 { ApplyOne(reg, Some(t), m, c.items[0]); }
    }
  }

  lemma {:induction false} SubIsCutThenApply(reg: Registry, t: MessageType, n: nat, wireType: nat, i: Input, m: Message)
    requires i.Valid() && n in Mapped(t) && Mapped(t)[n].kind == MessageValue
    ensures var f := Mapped(t)[n];
            Agrees(reg, Some(t), m, ParseField(reg, f, n, wireType, i, SelectMember(m, f)), CutField(reg, f, n, wireType, i))
    decreases |i.data|, 0
  {
    var f := Mapped(t)[n];
    var length := ReadVarint32(i);
    if length.ok {
      var pushed, nested := length.rest.Push(length.value), reg.Find(f.embedded);
      ParseIsCutThenApply(reg, nested, pushed, EMPTY_MESSAGE);
      var c := CutFields(reg, nested, pushed);
      ApplyOne(reg, Some(t), m, Sub(n, c.items));
    }
  }

  /** What the parser accepts is typed. */
  lemma {:induction false} CutIsTyped(reg: Registry, ty: Option<MessageType>, i: Input)
    requires i.Valid() && (ty.Some? ==> WellFormedType(ty.value)) && WellFormedRegistry(reg)
    ensures CutFields(reg, ty, i).status == Accepted ==> TypedAll(reg, ty, CutFields(reg, ty, i).items)
    decreases |i.data|, 0
  {
    var t := ReadTag(i);
    if t.tag != 0 {
      var cut := CutTagged(reg, ty, t.tag, t.rest);
      if cut.status == Accepted {
        TaggedIsTyped(reg, ty, t.tag, t.rest);
        CutIsTyped(reg, ty, cut.rest);
      }
    }
  }

  predicate WellFormedRegistry(reg: Registry) {
    forall name :: name in reg.messages ==> WellFormedType(reg.messages[name])
  }

  lemma {:induction false} TaggedIsTyped(reg: Registry, ty: Option<MessageType>, tag: nat, i: Input)
    requires i.Valid() && (ty.Some? ==> WellFormedType(ty.value)) && WellFormedRegistry(reg)
    requires CutTagged(reg, ty, tag, i).status == Accepted
    ensures TypedAll(reg, ty, CutTagged(reg, ty, tag, i).items)
    decreases |i.data|, 2
  {
    var n := TagFieldNumber(tag);
    if ty.Some? && n in Mapped(ty.value) {
      hide CutField, TypedAll, Mapped, WellFormedType, WellFormedRegistry;
      FieldIsTyped(reg, ty.value, n, TagWireType(tag), i);
    } else {
      hide ReadUnknown, Mapped, WellFormedType, WellFormedRegistry, Leaves;
    }
  }

  lemma {:induction false} FieldIsTyped(reg: Registry, t: MessageType, n: nat, wireType: nat, i: Input)
    requires i.Valid() && WellFormedType(t) && WellFormedRegistry(reg) && n in Mapped(t)
    requires CutField(reg, Mapped(t)[n], n, wireType, i).status == Accepted
    ensures TypedAll(reg, Some(t), CutField(reg, Mapped(t)[n], n, wireType, i).items)
    decreases |i.data|, 1
  {
    MappedIsAnElement(t, n);
    assert WellFormedField(Mapped(t)[n]);
    if Mapped(t)[n].kind == MessageValue {
      NestedIsTyped(reg, t, n, wireType, i);
    } else {
      PlainIsTyped(reg, t, n, wireType, i);
    }
  }

  lemma {:induction false} NestedIsTyped(reg: Registry, t: MessageType, n: nat, wireType: nat, i: Input)
    requires i.Valid() && WellFormedRegistry(reg) && n in Mapped(t) && IsFieldNumber(n)
    requires Mapped(t)[n].kind == MessageValue && CutField(reg, Mapped(t)[n], n, wireType, i).status == Accepted
    ensures TypedAll(reg, Some(t), CutField(reg, Mapped(t)[n], n, wireType, i).items)
    decreases |i.data|, 0
  {
    var length := ReadVarint32(i);
    CutIsTyped(reg, reg.Find(Mapped(t)[n].embedded), length.rest.Push(length.value));
  }

  lemma PlainIsTyped(reg: Registry, t: MessageType, n: nat, wireType: nat, i: Input)
    requires i.Valid() && n in Mapped(t) && IsFieldNumber(n)
    requires Mapped(t)[n].kind != MessageValue && CutField(reg, Mapped(t)[n], n, wireType, i).status == Accepted
    ensures TypedAll(reg, Some(t), CutField(reg, Mapped(t)[n], n, wireType, i).items)
  {
    hide CutFields, Mapped, ReadVarint32, ReadNumber, ReadPacked, ReadLengthDelimited, TypedAll, Typed;
    var f, c := Mapped(t)[n], CutField(reg, Mapped(t)[n], n, wireType, i);
    assert |c.items| == 1 && ItemNumber(c.items[0]) == n && TypedField(reg, f, c.items[0]);
    hide CutField, TypedField;
    OneIsTyped(reg, t, c.items[0]);
    assert c.items == [c.items[0]];
  }

  lemma OneIsTyped(reg: Registry, t: MessageType, it: Item)
    requires ItemNumber(it) in Mapped(t) && IsFieldNumber(ItemNumber(it))
    requires TypedField(reg, Mapped(t)[ItemNumber(it)], it)
    ensures TypedAll(reg, Some(t), [it])
  {
    hide TypedField, Mapped;
  }
}
