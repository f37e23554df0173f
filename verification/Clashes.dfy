/** Parsing straight into a cluster against parsing into a message and copying that: when the
    two leave the same cluster, for any wire. */
module Clashes {
  import opened Schema
  import opened Messages
  import opened WireItems
  import opened Tokens
  import opened Meaning
  import opened Laws
  import opened Layout
  import opened Clusters
  import opened Copying
  import opened Direct

  /** Parsing into a message and copying it into a fresh cluster. */
  ghost function Plainly(d: Descriptors, rank: Rank, name: string, items: seq<Item>): Cluster
    requires Layable(d.reg.messages, rank)
  {
    Absorb(d, rank, name, Zeros(d.Size(name)), ApplyAll(d.reg, Some(d.Type(name)), EMPTY_MESSAGE, items))
  }

  // -------------------------------------------------- what the plain parser leaves behind

  /** The occurrence that the plain parser keeps of a singular field: the first one, or for a
      member of a oneof the last member of the oneof, if it is this one. */
  function KeptOf(ty: MessageType, f: Field, items: seq<Item>): Option<Item> {
    if f.inOneof then
      var mem := Members(ty, items, f.container);
      if mem != [] && ItemNumber(Last(mem)) == f.number then Some(Last(mem)) else None
    else
      var occ := Occurrences(items, f.number);
      if occ == [] then None else Some(occ[0])
  }

  function ItemsWithin(x: Option<Item>): seq<Item> { if x.Some? && x.value.Sub? then x.value.items else [] }

  ghost function Kept(d: Descriptors, rank: Rank, name: string, k: nat, items: seq<Item>): Slot
    requires Layable(d.reg.messages, rank) && k < |d.Type(name)|
  {
    var ty, f := d.Type(name), d.Type(name)[k];
    if f.IsSelector() then Num(SelectedOn(ty, items, f.container))
    else if f.repeated then Nums(NumbersIn(Occurrences(items, f.number)))
    else if f.kind.MessageValue? then Slot.Sub(Plainly(d, rank, f.embedded, ItemsWithin(KeptOf(ty, f, items))))
    else ShownBy(d, f, KeptOf(ty, f, items))
  }

  lemma RegistryIsWellFormed(d: Descriptors, rank: Rank, name: string)
    requires Directable(d, rank, name)
    ensures WellFormedRegistry(d.reg) && WellFormedType(d.Type(name))
  {
    forall n | n in d.reg.messages ensures WellFormedType(d.reg.messages[n]) { assert DescribedType(d, rank, n); }
  }

  lemma KeptIsTyped(d: Descriptors, ty: MessageType, f: Field, items: seq<Item>)
    requires TypedAll(d.reg, Some(ty), items) && f.number in Mapped(ty) && Mapped(ty)[f.number] == f
    requires KeptOf(ty, f, items).Some?
    ensures var x := KeptOf(ty, f, items).value;
            x in items && ItemNumber(x) == f.number && TypedField(d.reg, f, x) && !x.Other?
  {
    hide TypedField;
    var x := KeptOf(ty, f, items).value;
    if f.inOneof {
      assert x in Members(ty, items, f.container);
    } else {
      assert x in Occurrences(items, f.number);
    }
    assert Typed(d.reg, Some(ty), x);
    MappedItem(d.reg, ty, x);
  }

  /** The value in the message, in terms of the wire. */
  lemma FieldKept(d: Descriptors, rank: Rank, name: string, k: nat, items: seq<Item>, m: Message)
    requires Directable(d, rank, name) && TypedAll(d.reg, Some(d.Type(name)), items)
    requires k < |d.Type(name)| && !d.Type(name)[k].IsSelector()
    requires m == ApplyAll(d.reg, Some(d.Type(name)), EMPTY_MESSAGE, items)
    ensures var ty, f := d.Type(name), d.Type(name)[k]; var n := f.number;
            if f.repeated then
              && (n in m.values <==> Occurrences(items, n) != [])
              && (n in m.values ==> m.values[n] == Gathered(d.reg, f, Occurrences(items, n)))
            else
              && (n in m.values <==> KeptOf(ty, f, items).Some?)
              && (n in m.values ==> !KeptOf(ty, f, items).value.Other?
                                    && m.values[n] == ItemValue(d.reg, f, KeptOf(ty, f, items).value))
  {
    ElementFacts(d, rank, name, k);
    RegistryIsWellFormed(d, rank, name);
    hide Directable, Mapped, Gathered, ItemValue, ApplyAll;
    FieldMeaning(d.reg, d.Type(name), items, d.Type(name)[k].number);
  }

  lemma ListKept(d: Descriptors, rank: Rank, name: string, k: nat, occ: seq<Item>)
    requires Directable(d, rank, name) && k < |d.Type(name)| && d.Type(name)[k].repeated
    ensures AbsorbValue(d, rank, name, k, Zeros(d.Width(d.Type(name)[k])), Gathered(d.reg, d.Type(name)[k], occ))
            == Nums(NumbersIn(occ))
    ensures ZeroSlot(d, rank, name, k) == Nums([])
  {
    ElementFacts(d, rank, name, k);
    ZeroList(d, rank, name, k);
    var xs := NumbersIn(occ);
    if xs != [] {
      assert xs == seq(|xs|, i requires 0 <= i < |xs| => Inward(d, d.Type(name)[k], xs[i]));
    }
  }

  lemma NestedKept(d: Descriptors, rank: Rank, name: string, k: nat, items: seq<Item>)
    requires Directable(d, rank, name) && k < |d.Type(name)| && d.Type(name)[k].kind.MessageValue?
    ensures var f := d.Type(name)[k];
            AbsorbValue(d, rank, name, k, Zeros(d.Width(f)), Nested(ApplyAll(d.reg, d.reg.Find(f.embedded), EMPTY_MESSAGE, items)))
            == Slot.Sub(Plainly(d, rank, f.embedded, items))
    ensures ZeroSlot(d, rank, name, k) == Slot.Sub(Plainly(d, rank, d.Type(name)[k].embedded, []))
  {
    NestedFacts(d, rank, name, k);
    hide Described, DirectTypes, View, Absorb;
    ZeroNested(d, rank, name, k);
    NothingKept(d, rank, d.Type(name)[k].embedded);
  }

  lemma NothingKept(d: Descriptors, rank: Rank, name: string)
    requires Layable(d.reg.messages, rank)
    ensures Plainly(d, rank, name, []) == View(d, rank, name, Zeros(d.Size(name)))
  {
    hide ReadSlot;
  }

  /** What the plain parser and the copy leave in a fresh cluster, element by element. */
  lemma PlainKeeps(d: Descriptors, rank: Rank, name: string, items: seq<Item>, k: nat)
    requires Directable(d, rank, name) && TypedAll(d.reg, Some(d.Type(name)), items) && k < |d.Type(name)|
    ensures Plainly(d, rank, name, items).slots[k] == Kept(d, rank, name, k, items)
  {
    ElementFacts(d, rank, name, k);
    DirectableIsLayable(d, rank, name);
    RegistryIsWellFormed(d, rank, name);
    hide Directable, View, ReadSlot, AbsorbValue, ApplyAll, Plainly, Mapped, Gathered, Kept;
    var ty, f := d.Type(name), d.Type(name)[k];
    var m := ApplyAll(d.reg, Some(ty), EMPTY_MESSAGE, items);
    PlainlyAt(d, rank, name, items, k);
    if f.IsSelector() {
      ContainerMeaning(d.reg, ty, items, f.container);
      SelectorKept(d, rank, name, items, k, m);
    } else {
      FieldKept(d, rank, name, k, items, m);
      ElementKept(d, rank, name, items, k, m);
    }
  }

  lemma PlainlyAt(d: Descriptors, rank: Rank, name: string, items: seq<Item>, k: nat)
    requires Layable(d.reg.messages, rank) && k < |d.Type(name)|
    ensures Plainly(d, rank, name, items).slots[k]
            == AbsorbAt(d, rank, name, k, Zeros(d.Width(d.Type(name)[k])), ApplyAll(d.reg, Some(d.Type(name)), EMPTY_MESSAGE, items))
  {
    hide AbsorbAt, ApplyAll;
    CutOfZeros(d.Size(name), d.Offset(name, k), d.Width(d.Type(name)[k]));
  }

  lemma SelectorKept(d: Descriptors, rank: Rank, name: string, items: seq<Item>, k: nat, m: Message)
    requires Directable(d, rank, name) && Layable(d.reg.messages, rank)
    requires k < |d.Type(name)| && d.Type(name)[k].IsSelector()
    requires ContainerMeans(d.Type(name), items, m, d.Type(name)[k].container)
    ensures AbsorbAt(d, rank, name, k, Zeros(d.Width(d.Type(name)[k])), m) == Kept(d, rank, name, k, items)
  {
    hide Directable, Members, Layable;
    ElementFacts(d, rank, name, k);
    ZeroScalar(d, rank, name, k);
  }

  lemma ElementKept(d: Descriptors, rank: Rank, name: string, items: seq<Item>, k: nat, m: Message)
    requires Directable(d, rank, name) && TypedAll(d.reg, Some(d.Type(name)), items) && Layable(d.reg.messages, rank)
    requires k < |d.Type(name)| && !d.Type(name)[k].IsSelector()
    requires m == ApplyAll(d.reg, Some(d.Type(name)), EMPTY_MESSAGE, items)
    ensures AbsorbAt(d, rank, name, k, Zeros(d.Width(d.Type(name)[k])), m) == Kept(d, rank, name, k, items)
  {
    var ty, f := d.Type(name), d.Type(name)[k];
    ElementFacts(d, rank, name, k);
    FieldKept(d, rank, name, k, items, m);
    hide Directable, Layable, Mapped, Gathered, ReadSlot, ApplyAll, Plainly, TypedAll, KeptOf, Occurrences, NumbersIn, ItemValue,
      AbsorbValue, ShownBy;
    if f.repeated {
      ListKept(d, rank, name, k, Occurrences(items, f.number));
      NoNumbers();
    } else {
      if KeptOf(ty, f, items).Some? { KeptIsTyped(d, ty, f, items); }
      SingleKept(d, rank, name, k, KeptOf(ty, f, items));
    }
  }

  lemma SingleKept(d: Descriptors, rank: Rank, name: string, k: nat, x: Option<Item>)
    requires Directable(d, rank, name) && Layable(d.reg.messages, rank)
    requires k < |d.Type(name)| && !d.Type(name)[k].IsSelector() && !d.Type(name)[k].repeated
    requires x.Some? ==> TypedField(d.reg, d.Type(name)[k], x.value) && !x.value.Other?
    ensures var f := d.Type(name)[k];
            (if x.None? then ZeroSlot(d, rank, name, k)
             else AbsorbValue(d, rank, name, k, Zeros(d.Width(f)), ItemValue(d.reg, f, x.value)))
            == if f.kind.MessageValue? then Slot.Sub(Plainly(d, rank, f.embedded, ItemsWithin(x))) else ShownBy(d, f, x)
  {
    hide Directable, Layable, ReadSlot, Plainly, AbsorbValue, ItemValue, TypedField, ZeroSlot, ShownBy, ItemsWithin;
    if d.Type(name)[k].kind.MessageValue? {
      NestedIsKept(d, rank, name, k, x);
    } else {
      ScalarIsKept(d, rank, name, k, x);
    }
  }

  lemma NestedIsKept(d: Descriptors, rank: Rank, name: string, k: nat, x: Option<Item>)
    requires Directable(d, rank, name) && Layable(d.reg.messages, rank)
    requires k < |d.Type(name)| && d.Type(name)[k].kind.MessageValue? && !d.Type(name)[k].repeated
    requires x.Some? ==> TypedField(d.reg, d.Type(name)[k], x.value) && !x.value.Other?
    ensures var f := d.Type(name)[k];
            (if x.None? then ZeroSlot(d, rank, name, k)
             else AbsorbValue(d, rank, name, k, Zeros(d.Width(f)), ItemValue(d.reg, f, x.value)))
            == Slot.Sub(Plainly(d, rank, f.embedded, ItemsWithin(x)))
  {
    hide Directable, Layable, ReadSlot, ApplyAll, Plainly, AbsorbValue, ZeroSlot, TypedAll;
    NestedKept(d, rank, name, k, ItemsWithin(x));
  }

  lemma ScalarIsKept(d: Descriptors, rank: Rank, name: string, k: nat, x: Option<Item>)
    requires Directable(d, rank, name) && Layable(d.reg.messages, rank)
    requires k < |d.Type(name)| && !d.Type(name)[k].kind.MessageValue? && !d.Type(name)[k].repeated
    requires x.Some? ==> TypedField(d.reg, d.Type(name)[k], x.value) && !x.value.Other?
    ensures var f := d.Type(name)[k];
            (if x.None? then ZeroSlot(d, rank, name, k)
             else AbsorbValue(d, rank, name, k, Zeros(d.Width(f)), ItemValue(d.reg, f, x.value)))
            == ShownBy(d, f, x)
  {
    hide Directable, Layable, ReadSlot, ApplyAll, Inward, ZeroSlot;
    if d.Type(name)[k].kind.IsText() { ZeroText(d, rank, name, k); } else { ZeroScalar(d, rank, name, k); }
  }

  lemma NoNumbers()
    ensures NumbersIn([]) == []
  {
  }

  // ------------------------------------------------------------- the exact condition

  /** Element `k` comes out the same when `a` is parsed directly and `b` is parsed into a
      message: the last occurrence in `a` shows what the kept occurrence in `b` shows, lists
      hold the same numbers, and nested messages are settled in turn. */
  ghost predicate SettledAt(d: Descriptors, rank: Rank, name: string, k: nat, a: seq<Item>, b: seq<Item>)
    requires Directable(d, rank, name) && k < |d.Type(name)|
    decreases rank(name), 0
  {
    var ty, f := d.Type(name), d.Type(name)[k];
    if f.IsSelector() then SelectedOn(ty, a, f.container) == SelectedOn(ty, b, f.container)
    else if f.repeated then NumbersIn(Occurrences(a, f.number)) == NumbersIn(Occurrences(b, f.number))
    else if f.kind.MessageValue? then
      NestedFacts(d, rank, name, k);
      Settled(d, rank, f.embedded, SubItems(Occurrences(a, f.number)), ItemsWithin(KeptOf(ty, f, b)))
    else ShownBy(d, f, LastOf(Occurrences(a, f.number))) == ShownBy(d, f, KeptOf(ty, f, b))
  }

  ghost predicate Settled(d: Descriptors, rank: Rank, name: string, a: seq<Item>, b: seq<Item>)
    requires Directable(d, rank, name)
    decreases rank(name), 1
  {
    forall k :: 0 <= k < |d.Type(name)| ==> SettledAt(d, rank, name, k, a, b)
  }

  lemma {:induction false} SubItemsTyped(d: Descriptors, f: Field, occ: seq<Item>)
    requires f.kind.MessageValue? && forall it :: it in occ ==> TypedField(d.reg, f, it)
    ensures TypedAll(d.reg, d.reg.Find(f.embedded), SubItems(occ))
    decreases |occ|
  {
    if occ != [] {
      var x := Last(occ);
      assert x in occ;
      assert x.Sub? ==> TypedAll(d.reg, d.reg.Find(f.embedded), x.items);
      SubItemsTyped(d, f, occ[..|occ| - 1]);
    }
  }

  lemma PartsTyped(d: Descriptors, rank: Rank, name: string, k: nat, a: seq<Item>, b: seq<Item>)
    requires Directable(d, rank, name) && k < |d.Type(name)| && d.Type(name)[k].kind.MessageValue?
    requires TypedAll(d.reg, Some(d.Type(name)), a) && TypedAll(d.reg, Some(d.Type(name)), b)
    ensures var ty, f := d.Type(name), d.Type(name)[k];
            && TypedAll(d.reg, Some(d.Type(f.embedded)), SubItems(Occurrences(a, f.number)))
            && TypedAll(d.reg, Some(d.Type(f.embedded)), ItemsWithin(KeptOf(ty, f, b)))
  {
    ElementFacts(d, rank, name, k);
    NestedFacts(d, rank, name, k);
    hide Directable, Mapped;
    var ty, f := d.Type(name), d.Type(name)[k];
    OccurrencesAreTyped(d.reg, ty, a, f.number);
    SubItemsTyped(d, f, Occurrences(a, f.number));
    if KeptOf(ty, f, b).Some? { KeptIsTyped(d, ty, f, b); }
  }

  /** For every element: the direct parse of `a` and the copy of `b` show the same exactly
      when the element is settled. */
  lemma {:induction false} ElementAgrees(d: Descriptors, rank: Rank, name: string, a: seq<Item>, b: seq<Item>, k: nat)
    requires Directable(d, rank, name) && Layable(d.reg.messages, rank) && k < |d.Type(name)|
    requires TypedAll(d.reg, Some(d.Type(name)), a) && TypedAll(d.reg, Some(d.Type(name)), b)
    ensures |Directly(d, rank, name, a).slots| == |d.Type(name)|
    ensures Directly(d, rank, name, a).slots[k] == Plainly(d, rank, name, b).slots[k] <==> SettledAt(d, rank, name, k, a, b)
    decreases rank(name), 0
  {
    DirectLeaves(d, rank, name, a, k);
    PlainKeeps(d, rank, name, b, k);
    var f := d.Type(name)[k];
    hide Directable, Layable, Directly, Plainly, TypedAll, Occurrences, KeptOf, Settled;
    if !f.IsSelector() && !f.repeated && f.kind.MessageValue? {
      NestedFacts(d, rank, name, k);
      PartsTyped(d, rank, name, k, a, b);
      ClustersAgree(d, rank, f.embedded, SubItems(Occurrences(a, f.number)), ItemsWithin(KeptOf(d.Type(name), f, b)));
    }
  }

  lemma {:induction false} ClustersAgree(d: Descriptors, rank: Rank, name: string, a: seq<Item>, b: seq<Item>)
    requires Directable(d, rank, name) && Layable(d.reg.messages, rank)
    requires TypedAll(d.reg, Some(d.Type(name)), a) && TypedAll(d.reg, Some(d.Type(name)), b)
    ensures Directly(d, rank, name, a) == Plainly(d, rank, name, b) <==> Settled(d, rank, name, a, b)
    decreases rank(name), 1
  {
    hide Directable, Layable, Directly, SettledAt, TypedAll;
    forall k | 0 <= k < |d.Type(name)|
      ensures |Directly(d, rank, name, a).slots| == |d.Type(name)|
      ensures Directly(d, rank, name, a).slots[k] == Plainly(d, rank, name, b).slots[k] <==> SettledAt(d, rank, name, k, a, b)
    {
      ElementAgrees(d, rank, name, a, b, k);
    }
    DirectlyHasSlots(d, rank, name, a);
    if Settled(d, rank, name, a, b) {
      assert Directly(d, rank, name, a).slots == Plainly(d, rank, name, b).slots;
    }
  }

  lemma DirectlyHasSlots(d: Descriptors, rank: Rank, name: string, items: seq<Item>)
    requires Layable(d.reg.messages, rank)
    ensures |Directly(d, rank, name, items).slots| == |d.Type(name)|
  {
    hide DirectItems, View;
    SlotsStay(d, name, View(d, rank, name, Zeros(d.Size(name))), items);
  }

  /** On any wire, parsing straight into a fresh cluster gives the cluster that parsing into a
      message and copying it gives, if and only if the wire is settled. */
  lemma DirectRefinesExactly(d: Descriptors, rank: Rank, name: string, items: seq<Item>)
    requires Directable(d, rank, name) && Layable(d.reg.messages, rank) && TypedAll(d.reg, Some(d.Type(name)), items)
    ensures Directly(d, rank, name, items) == Plainly(d, rank, name, items) <==> Settled(d, rank, name, items, items)
  {
    hide Directable, Layable, Directly, Plainly, TypedAll, Settled;
    ClustersAgree(d, rank, name, items, items);
  }

  // ----------------------------------------------------- what the condition comes to

  lemma {:induction false} LastMember(ty: MessageType, items: seq<Item>, n: int)
    requires n in Mapped(ty) && Mapped(ty)[n].inOneof
    ensures var occ, mem := Occurrences(items, n), Members(ty, items, Mapped(ty)[n].container);
            && (occ != [] ==> mem != [])
            && (mem != [] && ItemNumber(Last(mem)) == n ==> occ != [] && Last(mem) == Last(occ))
    decreases |items|
  {
    hide Mapped, Occurrences, Members, ItemNumber;
    LastSteps(ty, items, n, Mapped(ty)[n].container);
    if items != [] {
      LastMember(ty, items[..|items| - 1], n);
      assert IsMember(ty, Last(items), Mapped(ty)[n].container) <== ItemNumber(Last(items)) == n;
    }
  }

  /** Both selections with the last item taken off. */
  lemma LastSteps(ty: MessageType, items: seq<Item>, n: int, c: string)
    ensures if items == [] then Occurrences(items, n) == [] && Members(ty, items, c) == []
            else
              var pre, x := items[..|items| - 1], Last(items);
              && Occurrences(items, n) == (if ItemNumber(x) == n then Occurrences(pre, n) + [x] else Occurrences(pre, n))
              && Members(ty, items, c) == (if IsMember(ty, x, c) then Members(ty, pre, c) + [x] else Members(ty, pre, c))
  {
  }

  /** A single number or text. */
  ghost predicate IsScalarElement(d: Descriptors, rank: Rank, name: string, k: nat) {
    && Directable(d, rank, name) && k < |d.Type(name)|
    && !d.Type(name)[k].IsSelector() && !d.Type(name)[k].repeated && !d.Type(name)[k].kind.MessageValue?
  }

  /** Outside oneofs the plain parser keeps the first occurrence and the direct one the last:
      the element comes out the same exactly when these two show the same. */
  lemma RepeatedSingular(d: Descriptors, rank: Rank, name: string, items: seq<Item>, k: nat)
    requires IsScalarElement(d, rank, name, k) && Layable(d.reg.messages, rank) && !d.Type(name)[k].inOneof
    requires TypedAll(d.reg, Some(d.Type(name)), items)
    ensures |Directly(d, rank, name, items).slots| == |d.Type(name)|
    ensures var f := d.Type(name)[k]; var occ := Occurrences(items, f.number);
            Directly(d, rank, name, items).slots[k] == Plainly(d, rank, name, items).slots[k]
            <==> occ == [] || ShownBy(d, f, Some(occ[0])) == ShownBy(d, f, Some(Last(occ)))
  {
    hide Directable, Directly, Plainly, Layable, ShownBy;
    ElementAgrees(d, rank, name, items, items, k);
  }

  /** A member of a oneof: the plain parser evicts it when another member follows, the direct
      one leaves its last value in the cluster. The element comes out the same exactly when
      this member comes last or that value shows as zero. */
  lemma EvictedMember(d: Descriptors, rank: Rank, name: string, items: seq<Item>, k: nat)
    requires IsScalarElement(d, rank, name, k) && Layable(d.reg.messages, rank) && d.Type(name)[k].inOneof
    requires TypedAll(d.reg, Some(d.Type(name)), items)
    ensures |Directly(d, rank, name, items).slots| == |d.Type(name)|
    ensures var ty, f := d.Type(name), d.Type(name)[k];
            var occ, mem := Occurrences(items, f.number), Members(ty, items, f.container);
            Directly(d, rank, name, items).slots[k] == Plainly(d, rank, name, items).slots[k]
            <==> occ == [] || (mem != [] && ItemNumber(Last(mem)) == f.number)
                 || ShownBy(d, f, Some(Last(occ))) == ShownBy(d, f, None)
  {
    ElementFacts(d, rank, name, k);
    hide Directable, Directly, Plainly, Layable, ShownBy, Mapped, Occurrences, Members;
    ElementAgrees(d, rank, name, items, items, k);
    LastMember(d.Type(name), items, d.Type(name)[k].number);
  }

  lemma TwoItems(reg: Registry, ty: MessageType, x: Item, y: Item)
    requires ItemNumber(x) == ItemNumber(y) && ItemNumber(x) in Mapped(ty) && Typed(reg, Some(ty), x) && Typed(reg, Some(ty), y)
    ensures TypedAll(reg, Some(ty), [x, y]) && Occurrences([x, y], ItemNumber(x)) == [x, y]
  {
    hide Typed, Mapped, ItemNumber;
    assert [x, y][..1] == [x] && [x][..0] == [];
    var n := ItemNumber(x);
    LastSteps(ty, [x, y], n, "");
    LastSteps(ty, [x], n, "");
    LastSteps(ty, [], n, "");
  }

  /** The shortest wire on which the two part: one int32 field, first 1 and then 2. */
  lemma FirstAgainstLast(d: Descriptors, rank: Rank, name: string, k: nat)
    requires IsScalarElement(d, rank, name, k) && Layable(d.reg.messages, rank)
    requires d.Type(name)[k].kind.Int32Value? && !d.Type(name)[k].inOneof
    ensures var n := d.Type(name)[k].number;
            var items := [One(n, Int32Value, 1), One(n, Int32Value, 2)];
            TypedAll(d.reg, Some(d.Type(name)), items) && Directly(d, rank, name, items) != Plainly(d, rank, name, items)
  {
    ElementFacts(d, rank, name, k);
    hide Directable, Layable, Directly, Plainly, Mapped;
    var n := d.Type(name)[k].number;
    var x, y := One(n, Int32Value, 1), One(n, Int32Value, 2);
    TwoItems(d.reg, d.Type(name), x, y);
    RepeatedSingular(d, rank, name, [x, y], k);
  }

  // ---------------------------------------------------------- numbers without position

  /** The enum numbers that the plain parser keeps have positions. */
  ghost predicate KeptAreKnown(d: Descriptors, rank: Rank, name: string, items: seq<Item>)
    requires Directable(d, rank, name)
    decreases rank(name), 1
  {
    forall k :: 0 <= k < |d.Type(name)| ==> KeptIsKnown(d, rank, name, k, items)
  }

  ghost predicate KeptIsKnown(d: Descriptors, rank: Rank, name: string, k: nat, items: seq<Item>)
    requires Directable(d, rank, name) && k < |d.Type(name)|
    decreases rank(name), 0
  {
    var ty, f := d.Type(name), d.Type(name)[k];
    f.IsSelector() || f.repeated ||
    (var x := KeptOf(ty, f, items);
     if f.kind.MessageValue? then NestedFacts(d, rank, name, k); KeptAreKnown(d, rank, f.embedded, ItemsWithin(x))
     else x.Some? && x.value.One? ==> KnownNumber(d, f, x.value.value))
  }

  ghost predicate ReceivableAt(d: Descriptors, name: string, k: nat, m: Message)
    requires k < |d.Type(name)|
  {
    var f := d.Type(name)[k];
    !f.IsSelector() && f.number in m.values ==> ReceivableValue(d, f, m.values[f.number])
  }

  lemma ReceivableByElement(d: Descriptors, rank: Rank, name: string, m: Message)
    requires Directable(d, rank, name) && WellTyped(d.reg, Some(d.Type(name)), m)
    ensures Receivable(d, name, m) <==> forall k :: 0 <= k < |d.Type(name)| ==> ReceivableAt(d, name, k, m)
  {
    hide Directable, ReceivableValue, WellTypedValue, Mapped, IndexOf;
    var ty := d.Type(name);
    if forall k :: 0 <= k < |ty| ==> ReceivableAt(d, name, k, m) {
      forall n | n in m.values && n in Mapped(ty) ensures ReceivableValue(d, Mapped(ty)[n], m.values[n]) {
        assert ReceivableAt(d, name, IndexOf(ty, n), m);
      }
    }
    forall k | 0 <= k < |ty| && Receivable(d, name, m) ensures ReceivableAt(d, name, k, m) {
      ElementFacts(d, rank, name, k);
    }
  }

  lemma ItemsAreWellTyped(d: Descriptors, rank: Rank, name: string, items: seq<Item>)
    requires Directable(d, rank, name) && TypedAll(d.reg, Some(d.Type(name)), items)
    ensures WellTyped(d.reg, Some(d.Type(name)), ApplyAll(d.reg, Some(d.Type(name)), EMPTY_MESSAGE, items))
  {
    RegistryIsWellFormed(d, rank, name);
    ItemsBuildWellTyped(d.reg, Some(d.Type(name)), items);
  }

  /** The copy does not throw exactly when the numbers that were kept have positions. */
  lemma {:induction false} ReceivableIfKept(d: Descriptors, rank: Rank, name: string, items: seq<Item>)
    requires Directable(d, rank, name) && TypedAll(d.reg, Some(d.Type(name)), items)
    ensures Receivable(d, name, ApplyAll(d.reg, Some(d.Type(name)), EMPTY_MESSAGE, items))
            <==> KeptAreKnown(d, rank, name, items)
    decreases rank(name), 1
  {
    hide Directable, TypedAll, ApplyAll, ReceivableAt, KeptIsKnown, WellTyped, Receivable;
    var m := ApplyAll(d.reg, Some(d.Type(name)), EMPTY_MESSAGE, items);
    ItemsAreWellTyped(d, rank, name, items);
    ReceivableByElement(d, rank, name, m);
    forall k | 0 <= k < |d.Type(name)| ensures ReceivableAt(d, name, k, m) <==> KeptIsKnown(d, rank, name, k, items) {
      ReceivableIfKeptAt(d, rank, name, items, k);
    }
  }

  lemma {:induction false} ReceivableIfKeptAt(d: Descriptors, rank: Rank, name: string, items: seq<Item>, k: nat)
    requires Directable(d, rank, name) && TypedAll(d.reg, Some(d.Type(name)), items) && k < |d.Type(name)|
    ensures ReceivableAt(d, name, k, ApplyAll(d.reg, Some(d.Type(name)), EMPTY_MESSAGE, items))
            <==> KeptIsKnown(d, rank, name, k, items)
    decreases rank(name), 0
  {
    hide Directable, ApplyAll, Mapped, KeptAreKnown, ReceivableValue, KeptOf, Occurrences, TypedAll, TypedField, Gathered, ItemValue;
    var ty, f := d.Type(name), d.Type(name)[k];
    if !f.IsSelector() {
      ElementFacts(d, rank, name, k);
      FieldKept(d, rank, name, k, items, ApplyAll(d.reg, Some(ty), EMPTY_MESSAGE, items));
      if f.repeated {
        ListIsReceivable(d, f, Occurrences(items, f.number));
      } else {
        var x := KeptOf(ty, f, items);
        if x.Some? {
          KeptIsTyped(d, ty, f, items);
          OneIsReceivable(d, f, x.value);
        }
        if f.kind.MessageValue? {
          NestedFacts(d, rank, name, k);
          PartsTyped(d, rank, name, k, items, items);
          EmptyIsReceivable(d, f.embedded);
          ReceivableIfKept(d, rank, f.embedded, ItemsWithin(x));
        }
      }
    }
  }

  /** Lists of plain numbers need no look-up. */
  lemma ListIsReceivable(d: Descriptors, f: Field, occ: seq<Item>)
    requires f.repeated && IsDirect(f)
    ensures ReceivableValue(d, f, Gathered(d.reg, f, occ))
  {
  }

  lemma OneIsReceivable(d: Descriptors, f: Field, x: Item)
    requires TypedField(d.reg, f, x) && !x.Other? && IsDirect(f) && !f.repeated
    ensures ReceivableValue(d, f, ItemValue(d.reg, f, x))
            <==> if f.kind.MessageValue?
                 then Receivable(d, f.embedded, ApplyAll(d.reg, d.reg.Find(f.embedded), EMPTY_MESSAGE, ItemsWithin(Some(x))))
                 else x.One? ==> KnownNumber(d, f, x.value)
  {
    hide ApplyAll, Receivable, KnownNumber;
  }

  lemma EmptyIsReceivable(d: Descriptors, name: string)
    ensures Receivable(d, name, ApplyAll(d.reg, Some(d.Type(name)), EMPTY_MESSAGE, []))
  {
  }

  /** The direct parser looks up every number, so it throws wherever the copy would. */
  lemma {:induction false} KnownAreKept(d: Descriptors, rank: Rank, name: string, items: seq<Item>)
    requires Directable(d, rank, name) && TypedAll(d.reg, Some(d.Type(name)), items) && KnownItems(d, name, items)
    ensures KeptAreKnown(d, rank, name, items)
    decreases rank(name), 1
  {
    hide Directable, KeptIsKnown, KnownItems, TypedAll;
    forall k | 0 <= k < |d.Type(name)| ensures KeptIsKnown(d, rank, name, k, items) {
      KnownIsKept(d, rank, name, items, k);
    }
  }

  lemma {:induction false} KnownIsKept(d: Descriptors, rank: Rank, name: string, items: seq<Item>, k: nat)
    requires Directable(d, rank, name) && TypedAll(d.reg, Some(d.Type(name)), items) && KnownItems(d, name, items)
    requires k < |d.Type(name)|
    ensures KeptIsKnown(d, rank, name, k, items)
    decreases rank(name), 0
  {
    hide Directable, Mapped, KeptAreKnown, KeptOf, TypedAll, KnownItems, KnownNumber;
    var ty, f := d.Type(name), d.Type(name)[k];
    if !f.IsSelector() && !f.repeated {
      if KeptOf(ty, f, items).Some? { KeptItemIsKnown(d, rank, name, items, k); }
      if f.kind.MessageValue? {
        NestedFacts(d, rank, name, k);
        PartsTyped(d, rank, name, k, items, items);
        NothingKnown(d, f.embedded);
        KnownAreKept(d, rank, f.embedded, ItemsWithin(KeptOf(ty, f, items)));
      }
    }
  }

  lemma NothingKnown(d: Descriptors, name: string)
    ensures KnownItems(d, name, [])
  {
  }

  lemma KeptItemIsKnown(d: Descriptors, rank: Rank, name: string, items: seq<Item>, k: nat)
    requires Directable(d, rank, name) && TypedAll(d.reg, Some(d.Type(name)), items) && KnownItems(d, name, items)
    requires k < |d.Type(name)| && !d.Type(name)[k].IsSelector() && KeptOf(d.Type(name), d.Type(name)[k], items).Some?
    ensures KnownFor(d, d.Type(name)[k], KeptOf(d.Type(name), d.Type(name)[k], items).value)
  {
    ElementFacts(d, rank, name, k);
    hide Directable, Mapped, KeptOf, TypedAll, KnownFor;
    KeptIsTyped(d, d.Type(name), d.Type(name)[k], items);
    assert KnownItem(d, name, KeptOf(d.Type(name), d.Type(name)[k], items).value);
  }

  // -------------------------------------------------------------- wires without clashes

  /** Two occurrences that the plain parser resolves and the direct one does not: of one
      singular field, or of two members of one oneof. */
  predicate Clash(ty: MessageType, a: Item, b: Item) {
    var m, n := ItemNumber(a), ItemNumber(b);
    && m in Mapped(ty) && n in Mapped(ty)
    && ((m == n && !Mapped(ty)[m].repeated)
        || (Mapped(ty)[m].inOneof && Mapped(ty)[n].inOneof && Mapped(ty)[m].container == Mapped(ty)[n].container))
  }

  predicate AtMostOnce(d: Descriptors, name: string, items: seq<Item>)
    decreases items, 1
  {
    && (forall i, j :: 0 <= i < j < |items| ==> !Clash(d.Type(name), items[i], items[j]))
    && (forall it :: it in items ==> AtMostOnceWithin(d, name, it))
  }

  predicate AtMostOnceWithin(d: Descriptors, name: string, it: Item)
    decreases it, 0
  {
    it.Sub? && ItemNumber(it) in Mapped(d.Type(name)) ==>
      AtMostOnce(d, Mapped(d.Type(name))[ItemNumber(it)].embedded, it.items)
  }

  /** Without clashes a singular field occurs at most once, and is then kept. */
  lemma {:induction false} OneOccurrence(ty: MessageType, items: seq<Item>, n: int)
    requires forall i, j :: 0 <= i < j < |items| ==> !Clash(ty, items[i], items[j])
    requires n in Mapped(ty) && !Mapped(ty)[n].repeated
    ensures |Occurrences(items, n)| <= 1
    ensures Mapped(ty)[n].inOneof ==>
              var occ, mem := Occurrences(items, n), Members(ty, items, Mapped(ty)[n].container);
              |mem| <= 1 && (occ != [] ==> mem == occ)
    decreases |items|
  {
    if items != [] {
      var pre, x := items[..|items| - 1], items[|items| - 1];
      OneOccurrence(ty, pre, n);
      LastSteps(ty, items, n, Mapped(ty)[n].container);
      hide Mapped, Occurrences, Members, ItemNumber;
      forall it | it in pre ensures !Clash(ty, it, x) {
        var i :| 0 <= i < |pre| && pre[i] == it;
        assert !Clash(ty, items[i], items[|items| - 1]);
      }
      var occ, mem := Occurrences(pre, n), Members(ty, pre, Mapped(ty)[n].container);
      if occ != [] { assert occ[0] in occ; }
      if mem != [] { assert mem[0] in mem; }
    }
  }

  lemma OnlyIsKept(ty: MessageType, f: Field, items: seq<Item>)
    requires forall i, j :: 0 <= i < j < |items| ==> !Clash(ty, items[i], items[j])
    requires f.number in Mapped(ty) && Mapped(ty)[f.number] == f && !f.repeated
    ensures var occ := Occurrences(items, f.number);
            |occ| <= 1 && KeptOf(ty, f, items) == LastOf(occ) && SubItems(occ) == ItemsWithin(LastOf(occ))
  {
    hide Mapped, Clash;
    OneOccurrence(ty, items, f.number);
    var occ := Occurrences(items, f.number);
    if occ != [] {
      assert occ[..|occ| - 1] == [];
      assert ItemNumber(occ[0]) == f.number by { assert occ[0] in occ; }
    } else if f.inOneof {
      LastMember(ty, items, f.number);
    }
  }

  lemma {:induction false} OnceIsSettled(d: Descriptors, rank: Rank, name: string, items: seq<Item>)
    requires Directable(d, rank, name) && TypedAll(d.reg, Some(d.Type(name)), items) && AtMostOnce(d, name, items)
    ensures Settled(d, rank, name, items, items)
    ensures KeptAreKnown(d, rank, name, items) ==> KnownItems(d, name, items)
    decreases rank(name), 2
  {
    hide Directable, TypedAll, Mapped, SettledAt, KeptIsKnown, KnownItem, KnownItems;
    var ty := d.Type(name);
    forall k | 0 <= k < |ty| ensures SettledAt(d, rank, name, k, items, items) {
      OnceIsSettledAt(d, rank, name, items, k);
    }
    if KeptAreKnown(d, rank, name, items) {
      forall it | it in items ensures KnownItem(d, name, it) { OnceIsKnown(d, rank, name, items, it); }
      KnownOneByOne(d, name, items);
    }
  }

  lemma KnownOneByOne(d: Descriptors, name: string, items: seq<Item>)
    requires forall it :: it in items ==> KnownItem(d, name, it)
    ensures KnownItems(d, name, items)
  {
  }

  lemma {:induction false} OnceIsSettledAt(d: Descriptors, rank: Rank, name: string, items: seq<Item>, k: nat)
    requires Directable(d, rank, name) && TypedAll(d.reg, Some(d.Type(name)), items) && AtMostOnce(d, name, items)
    requires k < |d.Type(name)|
    ensures SettledAt(d, rank, name, k, items, items)
    decreases rank(name), 0
  {
    var ty, f := d.Type(name), d.Type(name)[k];
    if !f.IsSelector() && !f.repeated {
      ElementFacts(d, rank, name, k);
      OnlyIsKept(ty, f, items);
      hide Directable, TypedAll, Mapped, Settled, KeptOf, Occurrences, SubItems, Clash;
      if f.kind.MessageValue? {
        NestedFacts(d, rank, name, k);
        PartsTyped(d, rank, name, k, items, items);
        PartOnce(d, rank, name, items, k);
        OnceIsSettled(d, rank, f.embedded, ItemsWithin(KeptOf(ty, f, items)));
      }
    }
  }

  lemma PartOnce(d: Descriptors, rank: Rank, name: string, items: seq<Item>, k: nat)
    requires Directable(d, rank, name) && TypedAll(d.reg, Some(d.Type(name)), items) && AtMostOnce(d, name, items)
    requires k < |d.Type(name)| && d.Type(name)[k].kind.MessageValue?
    ensures AtMostOnce(d, d.Type(name)[k].embedded, ItemsWithin(KeptOf(d.Type(name), d.Type(name)[k], items)))
  {
    ElementFacts(d, rank, name, k);
    hide Directable, TypedAll, Mapped, KeptOf, Clash;
    var ty, f := d.Type(name), d.Type(name)[k];
    if KeptOf(ty, f, items).Some? {
      KeptIsTyped(d, ty, f, items);
      assert AtMostOnceWithin(d, name, KeptOf(ty, f, items).value);
    }
  }

  lemma {:induction false} OnceIsKnown(d: Descriptors, rank: Rank, name: string, items: seq<Item>, it: Item)
    requires Directable(d, rank, name) && TypedAll(d.reg, Some(d.Type(name)), items) && AtMostOnce(d, name, items)
    requires KeptAreKnown(d, rank, name, items) && it in items
    ensures KnownItem(d, name, it)
    decreases rank(name), 1
  {
    hide Directable, TypedAll, AtMostOnce, KeptIsKnown, KnownFor;
    var ty, n := d.Type(name), ItemNumber(it);
    if n in Mapped(ty) {
      var k := IndexOf(ty, n);
      ItemIsTyped(d.reg, ty, items, it);
      ElementFacts(d, rank, name, k);
      assert KeptIsKnown(d, rank, name, k, items);
      if ty[k].repeated {
        ListIsKnown(d, ty[k], it);
      } else {
        OnceIsKnownAt(d, rank, name, items, it, k);
      }
    }
  }

  lemma ItemIsTyped(reg: Registry, ty: MessageType, items: seq<Item>, it: Item)
    requires TypedAll(reg, Some(ty), items) && it in items && ItemNumber(it) in Mapped(ty)
    ensures TypedField(reg, Mapped(ty)[ItemNumber(it)], it) && !it.Other?
  {
    assert Typed(reg, Some(ty), it);
    MappedItem(reg, ty, it);
  }

  lemma ListIsKnown(d: Descriptors, f: Field, it: Item)
    requires TypedField(d.reg, f, it) && f.repeated && IsDirect(f)
    ensures KnownFor(d, f, it)
  {
  }

  lemma {:induction false} OnceIsKnownAt(d: Descriptors, rank: Rank, name: string, items: seq<Item>, it: Item, k: nat)
    requires Directable(d, rank, name) && TypedAll(d.reg, Some(d.Type(name)), items) && AtMostOnce(d, name, items)
    requires k < |d.Type(name)| && !d.Type(name)[k].IsSelector() && !d.Type(name)[k].repeated
    requires it in items && ItemNumber(it) == d.Type(name)[k].number && TypedField(d.reg, d.Type(name)[k], it)
    requires KeptIsKnown(d, rank, name, k, items)
    ensures KnownFor(d, d.Type(name)[k], it)
    decreases rank(name), 0
  {
    hide Directable, TypedAll, AtMostOnce, KeptOf, Mapped, KeptAreKnown, KnownItems;
    var f := d.Type(name)[k];
    ItIsKept(d, rank, name, items, it, k);
    if it.Sub? {
      NestedFacts(d, rank, name, k);
      PartsTyped(d, rank, name, k, items, items);
      PartOnce(d, rank, name, items, k);
      OnceIsSettled(d, rank, f.embedded, it.items);
    }
  }

  lemma ItIsKept(d: Descriptors, rank: Rank, name: string, items: seq<Item>, it: Item, k: nat)
    requires Directable(d, rank, name) && AtMostOnce(d, name, items)
    requires k < |d.Type(name)| && !d.Type(name)[k].IsSelector() && !d.Type(name)[k].repeated
    requires it in items && ItemNumber(it) == d.Type(name)[k].number
    ensures KeptOf(d.Type(name), d.Type(name)[k], items) == Some(it)
  {
    hide Directable, Mapped, KeptOf, Occurrences, SubItems, Clash, AtMostOnceWithin, ItemNumber, IndexOf, WellFormedType,
      WellFormedField, DescribedField, IsDirect;
    ElementFacts(d, rank, name, k);
    OnlyIsKept(d.Type(name), d.Type(name)[k], items);
    OccurrenceOf(items, it);
  }

  lemma {:induction false} OccurrenceOf(items: seq<Item>, it: Item)
    requires it in items
    ensures it in Occurrences(items, ItemNumber(it))
    decreases |items|
  {
    if it != Last(items) { OccurrenceOf(items[..|items| - 1], it); }
  }

  /** On wires where no occurrence clashes with another, parsing straight into a fresh cluster
      gives the cluster that parsing into a message and copying it gives, and the one throws
      on an enum number exactly when the other does. */
  lemma DirectRefinesParseThenCopy(d: Descriptors, rank: Rank, name: string, items: seq<Item>)
    requires Directable(d, rank, name) && Layable(d.reg.messages, rank)
    requires TypedAll(d.reg, Some(d.Type(name)), items) && AtMostOnce(d, name, items)
    ensures Directly(d, rank, name, items) == Plainly(d, rank, name, items)
    ensures KnownItems(d, name, items)
            <==> Receivable(d, name, ApplyAll(d.reg, Some(d.Type(name)), EMPTY_MESSAGE, items))
  {
    hide *;
    OnceIsSettled(d, rank, name, items);
    DirectRefinesExactly(d, rank, name, items);
    ReceivableIfKept(d, rank, name, items);
    if KnownItems(d, name, items) { KnownAreKept(d, rank, name, items); }
  }
}
