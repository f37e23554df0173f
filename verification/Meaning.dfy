/** What a parsed message contains, said without the parser: each field as a function of
    its occurrences on the wire. */
module Meaning {
  import opened Wire
  import opened Schema
  import opened Messages
  import opened Parse
  import opened Groups
  import opened WireItems
  import opened Tokens

  // ------------------------------------------------------------ selecting items

  /** The items with number `n`, in order. */
  function Occurrences(items: seq<Item>, n: int): (occ: seq<Item>)
    ensures forall it :: it in occ ==> it in items && ItemNumber(it) == n
  {
    if items == [] then []
    else
      var k := |items| - 1;
      Occurrences(items[..k], n) + if ItemNumber(items[k]) == n then [items[k]] else []
  }

  predicate IsMember(t: MessageType, it: Item, container: string) {
    && ItemNumber(it) in Mapped(t)
    && Mapped(t)[ItemNumber(it)].inOneof && Mapped(t)[ItemNumber(it)].container == container
  }

  /** The items that belong to the oneof `container`, in order. */
  function Members(t: MessageType, items: seq<Item>, container: string): (mem: seq<Item>)
    ensures forall it :: it in mem ==> it in items && IsMember(t, it, container)
  {
    if items == [] then []
    else
      var k := |items| - 1;
      Members(t, items[..k], container) + if IsMember(t, items[k], container) then [items[k]] else []
  }

  function Last(its: seq<Item>): Item
    requires its != []
  {
    its[|its| - 1]
  }

  // ---------------------------------------------------------- their contents

  /** The value of one occurrence of a singular field. */
  function ItemValue(reg: Registry, f: Field, it: Item): Value
    requires !it.Other?
  {
    match it
    case One(_, k, v) => Scalar(k, v)
    case Chunk(_, k, vs) => Packed(k, vs)
    case Blob(_, k, s) => Text(k, s)
    case Sub(_, items) => Nested(ApplyAll(reg, reg.Find(f.embedded), EMPTY_MESSAGE, items))
  }

  function NumbersIn(its: seq<Item>): seq<int> {
    if its == [] then []
    else
      NumbersIn(its[..|its| - 1]) + match Last(its)
        case One(_, _, v) => [v]
        case Chunk(_, _, vs) => vs
        case _ => []
  }

  function TextsIn(its: seq<Item>): seq<bytes> {
    if its == [] then []
    else TextsIn(its[..|its| - 1]) + if Last(its).Blob? then [Last(its).content] else []
  }

  function MessagesIn(reg: Registry, ty: Option<MessageType>, its: seq<Item>): seq<Message> {
    if its == [] then []
    else
      MessagesIn(reg, ty, its[..|its| - 1])
      + if Last(its).Sub? then [ApplyAll(reg, ty, EMPTY_MESSAGE, Last(its).items)] else []
  }

  function UnknownIn(t: MessageType, its: seq<Item>): seq<Unknown> {
    if its == [] then []
    else
      UnknownIn(t, its[..|its| - 1])
      + if Last(its).Other? && ItemNumber(Last(its)) !in Mapped(t) then Flatten(Last(its).tree) else []
  }

  /** All occurrences of a repeated field, however they were cut into chunks. */
  function Gathered(reg: Registry, f: Field, occ: seq<Item>): Value {
    if f.kind == MessageValue then NestedList(MessagesIn(reg, reg.Find(f.embedded), occ))
    else if f.kind.IsText() then Texts(f.kind, TextsIn(occ))
    else Packed(f.kind, NumbersIn(occ))
  }

  // -------------------------------------------------------------- the meaning

  /** Repeated: all occurrences in order. Singular: the first one. Oneof member: present
      only when it is the last member of its oneof, with that last occurrence's value. */
  predicate FieldMeans(reg: Registry, t: MessageType, items: seq<Item>, m: Message, n: int)
    requires n in Mapped(t)
  {
    var f, occ := Mapped(t)[n], Occurrences(items, n);
    if f.inOneof then
      var mem := Members(t, items, f.container);
      && (n in m.values <==> mem != [] && ItemNumber(Last(mem)) == n)
      && (n in m.values ==> !Last(mem).Other? && m.values[n] == ItemValue(reg, f, Last(mem)))
    else
      && (n in m.values <==> occ != [])
      && (n in m.values ==>
            if f.repeated then m.values[n] == Gathered(reg, f, occ)
            else !occ[0].Other? && m.values[n] == ItemValue(reg, f, occ[0]))
  }

  /** The selected index of a oneof is the number of its last member on the wire. */
  predicate ContainerMeans(t: MessageType, items: seq<Item>, m: Message, container: string)
  {
    var mem := Members(t, items, container);
    && (container in m.oneof <==> mem != [])
    && (container in m.oneof ==> m.oneof[container] == ItemNumber(Last(mem)))
  }

  ghost predicate Means(reg: Registry, t: MessageType, items: seq<Item>, m: Message)
  {
    && (forall n :: n in Mapped(t) ==> FieldMeans(reg, t, items, m, n))
    && (forall n :: n in m.values ==> n in Mapped(t))
    && (forall c :: ContainerMeans(t, items, m, c))
    && m.unknown == UnknownIn(t, items)
  }

  lemma ApplyAllSnoc(reg: Registry, ty: Option<MessageType>, m: Message, items: seq<Item>)
    requires items != []
    ensures var k := |items| - 1;
            ApplyAll(reg, ty, m, items) == Apply(reg, ty, ApplyAll(reg, ty, m, items[..k]), items[k])
  {
    var k := |items| - 1;
    assert items == items[..k] + [items[k]];
    ApplyAllAppend(reg, ty, m, items[..k], [items[k]]);
    ApplyOne(reg, ty, ApplyAll(reg, ty, m, items[..k]), items[k]);
  }

  lemma {:induction false} ContainerMeaning(reg: Registry, t: MessageType, items: seq<Item>, c: string)
    requires WellFormedType(t) && TypedAll(reg, Some(t), items)
    ensures ContainerMeans(t, items, ApplyAll(reg, Some(t), EMPTY_MESSAGE, items), c)
    decreases |items|
  {
    if items != [] {
      var k := |items| - 1;
      var x, d := items[k], ApplyAll(reg, Some(t), EMPTY_MESSAGE, items[..k]);
      ApplyAllSnoc(reg, Some(t), EMPTY_MESSAGE, items);
      ContainerMeaning(reg, t, items[..k], c);
      ApplyOneof(reg, t, d, x);
    }
  }

  /** Only a oneof member changes the selection, and only that of its own oneof. */
  lemma ApplyOneof(reg: Registry, t: MessageType, d: Message, x: Item)
    requires WellFormedType(t) && Typed(reg, Some(t), x)
    ensures var m := Apply(reg, Some(t), d, x);
            m.oneof == if ItemNumber(x) in Mapped(t) && Mapped(t)[ItemNumber(x)].inOneof
                       then d.oneof[Mapped(t)[ItemNumber(x)].container := ItemNumber(x)] else d.oneof
  {
    if ItemNumber(x) in Mapped(t) { MappedIsAnElement(t, ItemNumber(x)); }
  }

  /** One item changes its own field and evicts at most one other. */
  lemma ApplyElsewhere(reg: Registry, t: MessageType, d: Message, x: Item, n: int)
    requires WellFormedType(t) && Typed(reg, Some(t), x) && n != ItemNumber(x)
    ensures var m := Apply(reg, Some(t), d, x);
            && (n in m.values <==> n in d.values && !Evicts(t, d, x, n))
            && (n in m.values ==> m.values[n] == d.values[n])
  {
  }

  lemma {:induction false} FieldMeaning(reg: Registry, t: MessageType, items: seq<Item>, n: int)
    requires WellFormedType(t) && TypedAll(reg, Some(t), items) && n in Mapped(t)
    ensures FieldMeans(reg, t, items, ApplyAll(reg, Some(t), EMPTY_MESSAGE, items), n)
    decreases |items|
  {
    if items != [] {
      var k := |items| - 1;
      var x, d := items[k], ApplyAll(reg, Some(t), EMPTY_MESSAGE, items[..k]);
      ApplyAllSnoc(reg, Some(t), EMPTY_MESSAGE, items);
      FieldMeaning(reg, t, items[..k], n);
      MappedIsAnElement(t, n);
      if n != ItemNumber(x) {
        OtherField(reg, t, items, d, x, n);
      } else if Mapped(t)[n].inOneof {
        ContainerMeaning(reg, t, items[..k], Mapped(t)[n].container);
        OwnMember(reg, t, items, d, x);
      } else {
        OwnField(reg, t, items, d, x);
      }
    }
  }

  lemma OtherField(reg: Registry, t: MessageType, items: seq<Item>, d: Message, x: Item, n: int)
    requires WellFormedType(t) && items != [] && x == Last(items) && TypedAll(reg, Some(t), items)
    requires n in Mapped(t) && n != ItemNumber(x)
    requires d == ApplyAll(reg, Some(t), EMPTY_MESSAGE, items[..|items| - 1])
    requires FieldMeans(reg, t, items[..|items| - 1], d, n)
    ensures FieldMeans(reg, t, items, Apply(reg, Some(t), d, x), n)
  {
    var init, m := items[..|items| - 1], Apply(reg, Some(t), d, x);
    ApplyElsewhere(reg, t, d, x, n);
    if ItemNumber(x) in Mapped(t) && Mapped(t)[ItemNumber(x)].inOneof {
      ContainerMeaning(reg, t, init, Mapped(t)[ItemNumber(x)].container);
    }
    if Mapped(t)[n].inOneof {
      OtherMember(reg, t, items, d, m, x, n);
    } else {
      OtherPlain(reg, t, items, d, m, x, n);
    }
  }

  ghost predicate Evicts(t: MessageType, d: Message, x: Item, n: int) {
    var p := ItemNumber(x);
    p in Mapped(t) && Mapped(t)[p].inOneof && Mapped(t)[p].container in d.oneof && d.oneof[Mapped(t)[p].container] == n
  }

  lemma OtherPlain(reg: Registry, t: MessageType, items: seq<Item>, d: Message, m: Message, x: Item, n: int)
    requires items != [] && x == Last(items) && n in Mapped(t) && n != ItemNumber(x) && !Mapped(t)[n].inOneof
    requires ItemNumber(x) in Mapped(t) && Mapped(t)[ItemNumber(x)].inOneof ==>
               ContainerMeans(t, items[..|items| - 1], d, Mapped(t)[ItemNumber(x)].container)
    requires FieldMeans(reg, t, items[..|items| - 1], d, n)
    requires n in m.values <==> n in d.values && !Evicts(t, d, x, n)
    requires n in m.values ==> m.values[n] == d.values[n]
    ensures FieldMeans(reg, t, items, m, n)
  {
    assert Occurrences(items, n) == Occurrences(items[..|items| - 1], n);
    if Evicts(t, d, x, n) { EvictedIsMember(t, items[..|items| - 1], d, x, n); }
  }

  /** What an item evicts belongs to the same oneof. */
  lemma EvictedIsMember(t: MessageType, init: seq<Item>, d: Message, x: Item, n: int)
    requires Evicts(t, d, x, n) && ContainerMeans(t, init, d, Mapped(t)[ItemNumber(x)].container)
    ensures n in Mapped(t) && Mapped(t)[n].inOneof && Mapped(t)[n].container == Mapped(t)[ItemNumber(x)].container
  {
    var c := Mapped(t)[ItemNumber(x)].container;
    assert IsMember(t, Last(Members(t, init, c)), c);
  }

  lemma OtherMember(reg: Registry, t: MessageType, items: seq<Item>, d: Message, m: Message, x: Item, n: int)
    requires items != [] && x == Last(items) && n in Mapped(t) && n != ItemNumber(x) && Mapped(t)[n].inOneof
    requires ItemNumber(x) in Mapped(t) && Mapped(t)[ItemNumber(x)].inOneof ==>
               ContainerMeans(t, items[..|items| - 1], d, Mapped(t)[ItemNumber(x)].container)
    requires FieldMeans(reg, t, items[..|items| - 1], d, n)
    requires n in m.values <==> n in d.values && !Evicts(t, d, x, n)
    requires n in m.values ==> m.values[n] == d.values[n]
    ensures FieldMeans(reg, t, items, m, n)
  {
    var c := Mapped(t)[n].container;
    var before := Members(t, items[..|items| - 1], c);
    if IsMember(t, x, c) {
      assert Members(t, items, c) == before + [x];
      assert Last(before + [x]) == x;
    } else {
      assert Members(t, items, c) == before;
      if Evicts(t, d, x, n) { EvictedIsMember(t, items[..|items| - 1], d, x, n); }
    }
  }

  lemma OwnMember(reg: Registry, t: MessageType, items: seq<Item>, d: Message, x: Item)
    requires WellFormedType(t) && items != [] && x == Last(items) && Typed(reg, Some(t), x)
    requires ItemNumber(x) in Mapped(t) && Mapped(t)[ItemNumber(x)].inOneof
    requires !Mapped(t)[ItemNumber(x)].repeated
    requires FieldMeans(reg, t, items[..|items| - 1], d, ItemNumber(x))
    requires ContainerMeans(t, items[..|items| - 1], d, Mapped(t)[ItemNumber(x)].container)
    ensures FieldMeans(reg, t, items, Apply(reg, Some(t), d, x), ItemNumber(x))
  {
    var f := Mapped(t)[ItemNumber(x)];
    var mem := Members(t, items, f.container);
    assert Last(mem) == x;
  }

  lemma OwnField(reg: Registry, t: MessageType, items: seq<Item>, d: Message, x: Item)
    requires WellFormedType(t) && items != [] && x == Last(items) && Typed(reg, Some(t), x)
    requires ItemNumber(x) in Mapped(t) && !Mapped(t)[ItemNumber(x)].inOneof
    requires FieldMeans(reg, t, items[..|items| - 1], d, ItemNumber(x))
    ensures FieldMeans(reg, t, items, Apply(reg, Some(t), d, x), ItemNumber(x))
  {
    var n := ItemNumber(x);
    var f, occ := Mapped(t)[n], Occurrences(items[..|items| - 1], n);
    assert Occurrences(items, n) == occ + [x];
    if f.repeated {
      GatherOne(reg, f, occ, d, x);
    } else if occ != [] {
      assert (occ + [x])[0] == occ[0];
    }
  }

  /** Appending one occurrence to what was gathered before. */
  lemma GatherOne(reg: Registry, f: Field, occ: seq<Item>, d: Message, x: Item)
    requires f.repeated && TypedField(reg, f, x)
    requires var n := ItemNumber(x);
             (n in d.values <==> occ != []) && (n in d.values ==> d.values[n] == Gathered(reg, f, occ))
    ensures var n := ItemNumber(x);
            Gathered(reg, f, occ + [x]) == match x
              case One(_, k, v) => AppendNumbers(d, n, k, [v]).values[n]
              case Chunk(_, k, vs) => AppendNumbers(d, n, k, vs).values[n]
              case Blob(_, k, s) => AppendText(d, n, k, s).values[n]
              case Sub(_, items) =>
                AppendMessage(d, n, ApplyAll(reg, reg.Find(f.embedded), EMPTY_MESSAGE, items)).values[n]
              case Other(_) => Gathered(reg, f, occ)
  {
    assert (occ + [x])[..|occ|] == occ && Last(occ + [x]) == x;
    if occ == [] {
      assert NumbersIn(occ) == [] && TextsIn(occ) == [] && MessagesIn(reg, reg.Find(f.embedded), occ) == [];
    }
  }

  lemma {:induction false} UnknownMeaning(reg: Registry, t: MessageType, items: seq<Item>)
    requires TypedAll(reg, Some(t), items)
    ensures var m := ApplyAll(reg, Some(t), EMPTY_MESSAGE, items);
            m.unknown == UnknownIn(t, items) && forall n :: n in m.values ==> n in Mapped(t)
    decreases |items|
  {
    if items != [] {
      UnknownMeaning(reg, t, items[..|items| - 1]);
      ApplyAllSnoc(reg, Some(t), EMPTY_MESSAGE, items);
      UnknownStep(reg, t, items, ApplyAll(reg, Some(t), EMPTY_MESSAGE, items[..|items| - 1]));
    }
  }

  lemma UnknownStep(reg: Registry, t: MessageType, items: seq<Item>, d: Message)
    requires items != [] && Typed(reg, Some(t), Last(items))
    requires d.unknown == UnknownIn(t, items[..|items| - 1]) && forall n :: n in d.values ==> n in Mapped(t)
    ensures var m := Apply(reg, Some(t), d, Last(items));
            m.unknown == UnknownIn(t, items) && forall n :: n in m.values ==> n in Mapped(t)
  {
    hide UnknownIn;
    UnknownUnfolds(t, items);
    ApplyUnknown(reg, t, d, Last(items));
  }

  lemma UnknownUnfolds(t: MessageType, items: seq<Item>)
    requires items != []
    ensures var x := Last(items);
            UnknownIn(t, items) == UnknownIn(t, items[..|items| - 1])
                                   + if x.Other? && ItemNumber(x) !in Mapped(t) then Flatten(x.tree) else []
  {
  }

  /** An item without a field goes to the unknown fields; no other item touches them. */
  lemma ApplyUnknown(reg: Registry, t: MessageType, d: Message, x: Item)
    requires Typed(reg, Some(t), x)
    ensures var m := Apply(reg, Some(t), d, x);
            && m.unknown == d.unknown + (if x.Other? && ItemNumber(x) !in Mapped(t) then Flatten(x.tree) else [])
            && forall n :: n in m.values ==> n in d.values || n in Mapped(t)
  {
    hide ApplyAll, Flatten, Mapped, Typed;
  }

  /** The meaning of any typed sequence of items. */
  lemma ItemsMean(reg: Registry, t: MessageType, items: seq<Item>)
    requires WellFormedType(t) && TypedAll(reg, Some(t), items)
    ensures Means(reg, t, items, ApplyAll(reg, Some(t), EMPTY_MESSAGE, items))
  {
    forall n | n in Mapped(t) ensures FieldMeans(reg, t, items, ApplyAll(reg, Some(t), EMPTY_MESSAGE, items), n) {
      FieldMeaning(reg, t, items, n);
    }
    forall c ensures ContainerMeans(t, items, ApplyAll(reg, Some(t), EMPTY_MESSAGE, items), c) {
      ContainerMeaning(reg, t, items, c);
    }
    UnknownMeaning(reg, t, items);
  }

  /** The meaning of every accepted string of bytes, well formed or not: the message is
      determined by the items that the bytes cut into. */
  lemma AcceptedWireMeans(reg: Registry, t: MessageType, w: bytes)
    requires |w| < INT_MAX && WellFormedType(t) && WellFormedRegistry(reg)
    requires Accepts(reg, Some(t), w)
    ensures var items := CutFields(reg, Some(t), Whole(w)).items;
            TypedAll(reg, Some(t), items) && Means(reg, t, items, Parsed(reg, Some(t), w))
  {
    var items := CutFields(reg, Some(t), Whole(w)).items;
    ParseIsCutThenApply(reg, Some(t), Whole(w), EMPTY_MESSAGE);
    CutIsTyped(reg, Some(t), Whole(w));
    ItemsMean(reg, t, items);
  }

  // ------------------------------------------------------- consequences

  /** Split independence: two wires on which a repeated field has the same numbers, in
      whatever chunks and among whatever other fields, give the same list. */
  lemma SplitIndependence(reg: Registry, t: MessageType, a: seq<Item>, b: seq<Item>, n: int)
    requires WellFormedType(t) && TypedAll(reg, Some(t), a) && TypedAll(reg, Some(t), b)
    requires SizedAll(a) && SizedAll(b) && |EncodeItems(a)| < INT_MAX && |EncodeItems(b)| < INT_MAX
    requires n in Mapped(t) && Mapped(t)[n].repeated && Mapped(t)[n].kind.IsNumeric()
    requires NumbersIn(Occurrences(a, n)) == NumbersIn(Occurrences(b, n)) != []
    ensures var ma, mb := Parsed(reg, Some(t), EncodeItems(a)), Parsed(reg, Some(t), EncodeItems(b));
            && n in ma.values && n in mb.values && ma.values[n] == mb.values[n]
            && ma.values[n] == Packed(Mapped(t)[n].kind, NumbersIn(Occurrences(a, n)))
  {
    WireMeaning(reg, Some(t), a);
    WireMeaning(reg, Some(t), b);
    FieldMeaning(reg, t, a, n);
    FieldMeaning(reg, t, b, n);
    MappedIsAnElement(t, n);
  }

  /** Oneof safety: after any accepted wire, and after every item on the way there, a oneof
      has at most one member among the values, exactly the one that the selected-index map
      names. */
  lemma OneofSafety(reg: Registry, t: MessageType, w: bytes, n: int)
    requires |w| < INT_MAX && WellFormedType(t) && WellFormedRegistry(reg)
    requires Accepts(reg, Some(t), w) && n in Mapped(t) && Mapped(t)[n].inOneof
    ensures var items := CutFields(reg, Some(t), Whole(w)).items;
            && Parsed(reg, Some(t), w) == ApplyAll(reg, Some(t), EMPTY_MESSAGE, items)
            && forall k :: 0 <= k <= |items| ==>
                 IsSelectedMember(t, ApplyAll(reg, Some(t), EMPTY_MESSAGE, items[..k]), n)
    ensures IsSelectedMember(t, Parsed(reg, Some(t), w), n)
  {
    AcceptedWireMeans(reg, t, w);
    ParseIsCutThenApply(reg, Some(t), Whole(w), EMPTY_MESSAGE);
    var items := CutFields(reg, Some(t), Whole(w)).items;
    hide CutFields, ApplyAll, Mapped, TypedAll, ParseFields, Accepts;
    forall k | 0 <= k <= |items| ensures IsSelectedMember(t, ApplyAll(reg, Some(t), EMPTY_MESSAGE, items[..k]), n) {
      PrefixOfTyped(reg, t, items, k);
      MemberIsSelected(reg, t, items[..k], n);
    }
    assert items[..|items|] == items;
  }

  /** Member `n` is among the values exactly when its oneof has it selected. */
  predicate IsSelectedMember(t: MessageType, m: Message, n: int)
    requires n in Mapped(t)
  {
    n in m.values <==> Mapped(t)[n].container in m.oneof && m.oneof[Mapped(t)[n].container] == n
  }

  lemma PrefixOfTyped(reg: Registry, t: MessageType, items: seq<Item>, k: nat)
    requires TypedAll(reg, Some(t), items) && k <= |items|
    ensures TypedAll(reg, Some(t), items[..k])
  {
  }

  lemma MemberIsSelected(reg: Registry, t: MessageType, items: seq<Item>, n: int)
    requires WellFormedType(t) && TypedAll(reg, Some(t), items) && n in Mapped(t) && Mapped(t)[n].inOneof
    ensures IsSelectedMember(t, ApplyAll(reg, Some(t), EMPTY_MESSAGE, items), n)
  {
    hide Mapped, ApplyAll, TypedAll, WellFormedType, Members;
    FieldMeaning(reg, t, items, n);
    ContainerMeaning(reg, t, items, Mapped(t)[n].container);
  }
}
