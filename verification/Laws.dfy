/** Laws of the codec that relate several parses. */
module Laws {
  import opened Wire
  import opened Schema
  import opened Messages
  import opened Parse
  import opened WireItems
  import opened Tokens
  import opened Meaning
  import opened RoundTrip

  // -------------------------------------------- what the parser builds is typed

  lemma {:induction false} ItemsBuildWellTyped(reg: Registry, ty: Option<MessageType>, items: seq<Item>)
    requires TypedAll(reg, ty, items) && WellFormedRegistry(reg) && (ty.Some? ==> WellFormedType(ty.value))
    ensures WellTyped(reg, ty, ApplyAll(reg, ty, EMPTY_MESSAGE, items))
    decreases items, 1
  {
    match ty
    case None => OnlyUnknown(reg, EMPTY_MESSAGE, items);
    case Some(t) =>
      var m := ApplyAll(reg, ty, EMPTY_MESSAGE, items);
      ItemsMean(reg, t, items);
      forall n | n in m.values ensures IsFieldNumber(n) && WellTypedValue(reg, Mapped(t)[n], m.values[n]) {
        assert FieldMeans(reg, t, items, m, n);
        FieldIsWellTyped(reg, t, items, m, n);
      }
      forall a, b | a in m.values && b in m.values && a != b && Mapped(t)[a].inOneof && Mapped(t)[b].inOneof
        ensures Mapped(t)[a].container != Mapped(t)[b].container
      {
        assert FieldMeans(reg, t, items, m, a) && FieldMeans(reg, t, items, m, b);
      }
  }

  lemma {:induction false} OnlyUnknown(reg: Registry, m: Message, items: seq<Item>)
    ensures ApplyAll(reg, None, m, items).values == m.values
    decreases items
  {
    if items != [] { OnlyUnknown(reg, Apply(reg, None, m, items[0]), items[1..]); }
  }

  lemma SubIsTyped(reg: Registry, t: MessageType, it: Item)
    requires Typed(reg, Some(t), it) && it.Sub? && ItemNumber(it) in Mapped(t)
    ensures Mapped(t)[ItemNumber(it)].kind == MessageValue
    ensures TypedAll(reg, reg.Find(Mapped(t)[ItemNumber(it)].embedded), it.items)
  {
    assert TypedField(reg, Mapped(t)[ItemNumber(it)], it);
  }

  lemma {:induction false} FieldIsWellTyped(reg: Registry, t: MessageType, items: seq<Item>, m: Message, n: int)
    requires WellFormedType(t) && TypedAll(reg, Some(t), items) && WellFormedRegistry(reg)
    requires n in Mapped(t) && n in m.values && FieldMeans(reg, t, items, m, n)
    ensures IsFieldNumber(n) && WellTypedValue(reg, Mapped(t)[n], m.values[n])
    decreases items, 0, |items| + 1
  {
    hide TypedField, WellTypedValue, ItemValue, Gathered;
    var it := Source(reg, t, items, m, n);
    MappedIsAnElement(t, n);
    assert WellFormedField(Mapped(t)[n]);
    if Mapped(t)[n].repeated {
      OccurrencesAreTyped(reg, t, items, n);
      GatheredIsWellTyped(reg, t, items, n, Occurrences(items, n));
    } else {
      ItemValueIsWellTyped(reg, t, items, it);
    }
  }

  lemma {:induction false} OccurrencesAreTyped(reg: Registry, t: MessageType, items: seq<Item>, n: int)
    requires TypedAll(reg, Some(t), items) && n in Mapped(t)
    ensures |Occurrences(items, n)| <= |items|
    ensures forall it :: it in Occurrences(items, n) ==>
              it in items && ItemNumber(it) == n && TypedField(reg, Mapped(t)[n], it) && !it.Other?
    decreases |items|
  {
    if items != [] {
      assert Typed(reg, Some(t), Last(items)) by { assert Last(items) in items; }
      OccurrencesAreTyped(reg, t, items[..|items| - 1], n);
    }
  }

  /** The occurrence that a present field takes its value from, or one of them. */
  lemma Source(reg: Registry, t: MessageType, items: seq<Item>, m: Message, n: int) returns (it: Item)
    requires WellFormedType(t) && TypedAll(reg, Some(t), items)
    requires n in Mapped(t) && n in m.values && FieldMeans(reg, t, items, m, n)
    ensures it in items && ItemNumber(it) == n && Typed(reg, Some(t), it) && IsFieldNumber(n) && !it.Other?
    ensures if Mapped(t)[n].repeated then m.values[n] == Gathered(reg, Mapped(t)[n], Occurrences(items, n))
            else m.values[n] == ItemValue(reg, Mapped(t)[n], it)
  {
    hide ItemValue, Gathered;
    MappedIsAnElement(t, n);
    assert WellFormedField(Mapped(t)[n]);
    var f, occ := Mapped(t)[n], Occurrences(items, n);
    if f.inOneof {
      var mem := Members(t, items, f.container);
      it := Last(mem);
      assert it in mem;
    } else {
      it := occ[0];
      assert it in occ;
    }
  }

  lemma {:induction false} ItemValueIsWellTyped(reg: Registry, t: MessageType, items: seq<Item>, it: Item)
    requires it in items && Typed(reg, Some(t), it) && WellFormedRegistry(reg) && !it.Other?
    requires ItemNumber(it) in Mapped(t) && !Mapped(t)[ItemNumber(it)].repeated
    ensures WellTypedValue(reg, Mapped(t)[ItemNumber(it)], ItemValue(reg, Mapped(t)[ItemNumber(it)], it))
    decreases items, 0, 0
  {
    if it.Sub? {
      SubIsTyped(reg, t, it);
      ItemsBuildWellTyped(reg, reg.Find(Mapped(t)[ItemNumber(it)].embedded), it.items);
    }
  }

  lemma {:induction false} GatheredIsWellTyped(reg: Registry, t: MessageType, items: seq<Item>, n: int, occ: seq<Item>)
    requires n in Mapped(t) && Mapped(t)[n].repeated && WellFormedRegistry(reg)
    requires forall it :: it in occ ==> it in items && TypedField(reg, Mapped(t)[n], it)
    ensures WellTypedValue(reg, Mapped(t)[n], Gathered(reg, Mapped(t)[n], occ))
    decreases items, 0, |occ|
  {
    if occ != [] {
      var f, x := Mapped(t)[n], Last(occ);
      assert x in occ;
      GatheredIsWellTyped(reg, t, items, n, occ[..|occ| - 1]);
      if x.Sub? {
        ItemsBuildWellTyped(reg, reg.Find(f.embedded), x.items);
      }
    } else {
      assert Gathered(reg, Mapped(t)[n], occ) in {Packed(Mapped(t)[n].kind, []), Texts(Mapped(t)[n].kind, []), NestedList([])};
    }
  }

  /** Whatever the parser accepts is a well-typed message. */
  lemma ParsedIsWellTyped(reg: Registry, ty: Option<MessageType>, w: bytes)
    requires |w| < INT_MAX && Accepts(reg, ty, w)
    requires WellFormedRegistry(reg) && (ty.Some? ==> WellFormedType(ty.value))
    ensures WellTyped(reg, ty, Parsed(reg, ty, w))
  {
    ParseIsCutThenApply(reg, ty, Whole(w), EMPTY_MESSAGE);
    CutIsTyped(reg, ty, Whole(w));
    ItemsBuildWellTyped(reg, ty, CutFields(reg, ty, Whole(w)).items);
  }

  // ------------------------------------------------------------ canonical form

  lemma {:induction false} CanonEncodes(reg: Registry, ty: Option<MessageType>, m: Message)
    requires WellTyped(reg, ty, m)
    ensures EncodeMessage(Canon(reg, ty, m)) == EncodeMessage(m)
    decreases m, 2, 0
  {
    CanonFieldsEncode(reg, ty, m, MAX_FIELD_NUMBER);
  }

  lemma {:induction false} CanonFieldsEncode(reg: Registry, ty: Option<MessageType>, m: Message, top: nat)
    requires WellTyped(reg, ty, m)
    ensures EncodeFields(Canon(reg, ty, m), top) == EncodeFields(m, top)
    decreases m, 1, top
  {
    if top > 0 {
      CanonFieldsEncode(reg, ty, m, top - 1);
      if top in m.values { CanonValueEncodes(reg, Mapped(ty.value)[top], top, m.values[top]); }
    }
  }

  lemma {:induction false} CanonValueEncodes(reg: Registry, f: Field, n: nat, v: Value)
    requires WellTypedValue(reg, f, v)
    ensures EncodeValue(n, CanonValue(reg, f, v)) == EncodeValue(n, v)
    ensures IsEmptyList(v) ==> EncodeValue(n, v) == []
    decreases v, 0, 0
  {
    match v
    case Nested(m) => CanonEncodes(reg, reg.Find(f.embedded), m);
    case NestedList(ms) => CanonListEncodes(reg, reg.Find(f.embedded), n, ms);
    case _ =>
  }

  lemma {:induction false} CanonListEncodes(reg: Registry, ty: Option<MessageType>, n: nat, ms: seq<Message>)
    requires forall m :: m in ms ==> WellTyped(reg, ty, m)
    ensures EncodeList(n, CanonList(reg, ty, ms)) == EncodeList(n, ms)
    decreases ms, 0, 0
  {
    if ms != [] {
      CanonEncodes(reg, ty, ms[0]);
      CanonListEncodes(reg, ty, n, ms[1..]);
      assert CanonList(reg, ty, ms)[1..] == CanonList(reg, ty, ms[1..]);
    }
  }

  /** Serializing what was parsed gives a canonical form of the wire: parsing and
      serializing that again changes nothing, whatever the accepted wire was. */
  lemma CanonicalForm(reg: Registry, ty: Option<MessageType>, w: bytes)
    requires |w| < INT_MAX && Accepts(reg, ty, w)
    requires WellFormedRegistry(reg) && (ty.Some? ==> WellFormedType(ty.value))
    requires |EncodeMessage(Parsed(reg, ty, w))| < INT_MAX
    ensures var s := EncodeMessage(Parsed(reg, ty, w));
            Accepts(reg, ty, s) && EncodeMessage(Parsed(reg, ty, s)) == s
  {
    var m := Parsed(reg, ty, w);
    ParsedIsWellTyped(reg, ty, w);
    RoundTrips(reg, ty, m);
    CanonEncodes(reg, ty, m);
  }

  // ----------------------------------------------------------------- merging

  lemma InitOfAppend(a: seq<Item>, b: seq<Item>)
    requires b != []
    ensures (a + b)[..|a + b| - 1] == a + b[..|b| - 1] && Last(a + b) == Last(b)
  {
  }

  lemma {:induction false} OccurrencesAppend(a: seq<Item>, b: seq<Item>, n: int)
    ensures Occurrences(a + b, n) == Occurrences(a, n) + Occurrences(b, n)
    decreases |b|
  {
    if b == [] {
      assert a + b == a;
    } else {
      InitOfAppend(a, b);
      OccurrencesAppend(a, b[..|b| - 1], n);
    }
  }

  lemma {:induction false} MembersAppend(t: MessageType, a: seq<Item>, b: seq<Item>, c: string)
    ensures Members(t, a + b, c) == Members(t, a, c) + Members(t, b, c)
    decreases |b|
  {
    if b == [] {
      assert a + b == a;
    } else {
      InitOfAppend(a, b);
      MembersAppend(t, a, b[..|b| - 1], c);
    }
  }

  lemma NumbersSplit(a: seq<Item>)
    requires a != []
    ensures NumbersIn(a) == NumbersIn(a[..|a| - 1]) + LastNumbers(a)
  {
  }

  function LastNumbers(a: seq<Item>): seq<int>
    requires a != []
  {
    match Last(a)
    case One(_, _, v) => [v]
    case Chunk(_, _, vs) => vs
    case _ => []
  }

  lemma {:induction false} NumbersAppend(a: seq<Item>, b: seq<Item>)
    ensures NumbersIn(a + b) == NumbersIn(a) + NumbersIn(b)
    decreases |b|
  {
    if b == [] {
      assert a + b == a;
    } else {
      InitOfAppend(a, b);
      NumbersAppend(a, b[..|b| - 1]);
      NumbersSplit(a + b);
      NumbersSplit(b);
    }
  }

  lemma {:induction false} TextsAppend(a: seq<Item>, b: seq<Item>)
    ensures TextsIn(a + b) == TextsIn(a) + TextsIn(b)
    decreases |b|
  {
    if b == [] {
      assert a + b == a;
    } else {
      InitOfAppend(a, b);
      TextsAppend(a, b[..|b| - 1]);
    }
  }

  lemma {:induction false} MessagesAppend(reg: Registry, ty: Option<MessageType>, a: seq<Item>, b: seq<Item>)
    ensures MessagesIn(reg, ty, a + b) == MessagesIn(reg, ty, a) + MessagesIn(reg, ty, b)
    decreases |b|
  {
    if b == [] {
      assert a + b == a;
    } else {
      InitOfAppend(a, b);
      MessagesAppend(reg, ty, a, b[..|b| - 1]);
    }
  }

  function Concatenated(x: Value, y: Value): Value {
    match x
    case Packed(k, xs) => if y.Packed? then Packed(k, xs + y.numbers) else x
    case Texts(k, ss) => if y.Texts? then Texts(k, ss + y.texts) else x
    case NestedList(ms) => if y.NestedList? then NestedList(ms + y.messages) else x
    case _ => x
  }

  /** `m` is `x` with `y` parsed on top of it: repeated lists and unknown fields are appended,
      other singular fields stay with `x`, and a oneof goes over to `y` when `y` sets it. */
  ghost predicate Merges(t: MessageType, x: Message, y: Message, m: Message)
  {
    && (forall n :: n in Mapped(t) ==> MergesField(t, x, y, m, n))
    && m.unknown == x.unknown + y.unknown
    && (forall c :: c in m.oneof <==> c in x.oneof || c in y.oneof)
    && (forall c :: c in m.oneof ==> m.oneof[c] == if c in y.oneof then y.oneof[c] else x.oneof[c])
  }

  ghost predicate MergesField(t: MessageType, x: Message, y: Message, m: Message, n: int)
    requires n in Mapped(t)
  {
    var f := Mapped(t)[n];
    if f.inOneof then
      var source := if f.container in y.oneof then y else x;
      && (n in m.values <==> n in source.values)
      && (n in m.values ==> m.values[n] == source.values[n])
    else
      && (n in m.values <==> n in x.values || n in y.values)
      && (n in m.values ==>
            m.values[n] == if n !in x.values then y.values[n]
                           else if n !in y.values || !f.repeated then x.values[n]
                           else Concatenated(x.values[n], y.values[n]))
  }

  lemma ItemsMergeField(reg: Registry, t: MessageType, a: seq<Item>, b: seq<Item>, x: Message, y: Message, m: Message, n: int)
    requires n in Mapped(t)
    requires FieldMeans(reg, t, a, x, n) && FieldMeans(reg, t, b, y, n) && FieldMeans(reg, t, a + b, m, n)
    requires ContainerMeans(t, b, y, Mapped(t)[n].container)
    ensures MergesField(t, x, y, m, n)
  {
    hide Mapped, Occurrences, Members, Gathered, ItemValue;
    if Mapped(t)[n].inOneof {
      var ma, mb := Members(t, a, Mapped(t)[n].container), Members(t, b, Mapped(t)[n].container);
      MembersAppend(t, a, b, Mapped(t)[n].container);
      if mb != [] { assert Last(ma + mb) == Last(mb); } else { assert ma + mb == ma; }
    } else {
      var oa, ob := Occurrences(a, n), Occurrences(b, n);
      OccurrencesAppend(a, b, n);
      GatheredAppend(reg, Mapped(t)[n], oa, ob);
      if oa == [] { assert oa + ob == ob; }
      if ob == [] { assert oa + ob == oa; }
    }
  }

  lemma GatheredAppend(reg: Registry, f: Field, oa: seq<Item>, ob: seq<Item>)
    ensures Gathered(reg, f, oa + ob) == Concatenated(Gathered(reg, f, oa), Gathered(reg, f, ob))
  {
    NumbersAppend(oa, ob);
    TextsAppend(oa, ob);
    MessagesAppend(reg, reg.Find(f.embedded), oa, ob);
  }

  /** Merge law for any two strings of typed items: parsing one after the other merges what
      each parses to alone. */
  lemma MergeLaw(reg: Registry, t: MessageType, a: seq<Item>, b: seq<Item>)
    requires WellFormedType(t) && TypedAll(reg, Some(t), a) && TypedAll(reg, Some(t), b) && SizedAll(a) && SizedAll(b)
    requires |EncodeItems(a)| + |EncodeItems(b)| < INT_MAX
    ensures Accepts(reg, Some(t), EncodeItems(a) + EncodeItems(b))
    ensures Merges(t, Parsed(reg, Some(t), EncodeItems(a)), Parsed(reg, Some(t), EncodeItems(b)),
                   Parsed(reg, Some(t), EncodeItems(a) + EncodeItems(b)))
  {
    EncodeItemsAppend(a, b);
    WireMeaning(reg, Some(t), a);
    WireMeaning(reg, Some(t), b);
    WireMeaning(reg, Some(t), a + b);
    ItemsMerge(reg, t, a, b);
  }

  lemma TypedAppend(reg: Registry, t: MessageType, a: seq<Item>, b: seq<Item>)
    requires TypedAll(reg, Some(t), a) && TypedAll(reg, Some(t), b)
    ensures TypedAll(reg, Some(t), a + b)
  {
  }

  lemma ItemsMerge(reg: Registry, t: MessageType, a: seq<Item>, b: seq<Item>)
    requires WellFormedType(t) && TypedAll(reg, Some(t), a) && TypedAll(reg, Some(t), b)
    ensures Merges(t, ApplyAll(reg, Some(t), EMPTY_MESSAGE, a), ApplyAll(reg, Some(t), EMPTY_MESSAGE, b),
                   ApplyAll(reg, Some(t), EMPTY_MESSAGE, a + b))
  {
    hide Mapped, ApplyAll, TypedAll, WellFormedType, FieldMeans, MergesField, Members;
    var x, y, m := ApplyAll(reg, Some(t), EMPTY_MESSAGE, a), ApplyAll(reg, Some(t), EMPTY_MESSAGE, b),
                   ApplyAll(reg, Some(t), EMPTY_MESSAGE, a + b);
    assert TypedAll(reg, Some(t), a + b) by { TypedAppend(reg, t, a, b); }
    forall n | n in Mapped(t) ensures MergesField(t, x, y, m, n) {
      FieldMeaning(reg, t, a, n);
      FieldMeaning(reg, t, b, n);
      FieldMeaning(reg, t, a + b, n);
      ContainerMeaning(reg, t, b, Mapped(t)[n].container);
      ItemsMergeField(reg, t, a, b, x, y, m, n);
    }
    forall c ensures (c in m.oneof <==> c in x.oneof || c in y.oneof)
      && (c in m.oneof ==> m.oneof[c] == if c in y.oneof then y.oneof[c] else x.oneof[c])
    {
      ContainerMeaning(reg, t, a, c);
      ContainerMeaning(reg, t, b, c);
      ContainerMeaning(reg, t, a + b, c);
      MembersAppend(t, a, b, c);
    }
    UnknownMeaning(reg, t, a);
    UnknownMeaning(reg, t, b);
    UnknownMeaning(reg, t, a + b);
    UnknownAppend(t, a, b);
  }

  lemma {:induction false} UnknownAppend(t: MessageType, a: seq<Item>, b: seq<Item>)
    ensures UnknownIn(t, a + b) == UnknownIn(t, a) + UnknownIn(t, b)
    decreases |b|
  {
    if b == [] {
      assert a + b == a;
    } else {
      InitOfAppend(a, b);
      UnknownAppend(t, a, b[..|b| - 1]);
      UnknownUnfolds(t, a + b);
      UnknownUnfolds(t, b);
    }
  }

  /** The merge law for two serialized messages. */
  lemma MessagesMerge(reg: Registry, t: MessageType, m1: Message, m2: Message)
    requires WellTyped(reg, Some(t), m1) && WellTyped(reg, Some(t), m2)
    requires |EncodeMessage(m1)| + |EncodeMessage(m2)| < INT_MAX
    ensures Accepts(reg, Some(t), EncodeMessage(m1) + EncodeMessage(m2))
    ensures Merges(t, Canon(reg, Some(t), m1), Canon(reg, Some(t), m2),
                   Parsed(reg, Some(t), EncodeMessage(m1) + EncodeMessage(m2)))
  {
    MessageItemsEncode(reg, Some(t), m1);
    MessageItemsEncode(reg, Some(t), m2);
    MessageItemsFit(reg, Some(t), m1);
    MessageItemsFit(reg, Some(t), m2);
    RoundTrips(reg, Some(t), m1);
    RoundTrips(reg, Some(t), m2);
    MergeLaw(reg, t, ItemsOf(m1), ItemsOf(m2));
  }
}
