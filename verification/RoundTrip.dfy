/** Serializing and parsing: round trip, merge law, canonical form. */
module RoundTrip {
  import opened Wire
  import opened Schema
  import opened Numeric
  import opened Messages
  import opened Parse
  import opened WireItems
  import opened Tokens

  // ----------------------------------------- a serialized message as wire items

  function ItemsOfValue(n: nat, v: Value): (its: seq<Item>)
    ensures forall it :: it in its ==> ItemNumber(it) == n && !it.Other?
    decreases v, 0, 0
  {
    match v
    case Scalar(k, x) => [One(n, k, x)]
    case Packed(k, xs) => if xs == [] then [] else [Chunk(n, k, xs)]
    case Text(k, s) => [Blob(n, k, s)]
    case Texts(k, ss) => Blobs(n, k, ss)
    case Nested(m) => [Sub(n, ItemsOf(m))]
    case NestedList(ms) => Subs(n, ms)
  }

  function Blobs(n: nat, k: Kind, ss: seq<bytes>): (its: seq<Item>)
    ensures forall it :: it in its ==> ItemNumber(it) == n && !it.Other?
  {
    if ss == [] then [] else [Blob(n, k, ss[0])] + Blobs(n, k, ss[1..])
  }

  function Subs(n: nat, ms: seq<Message>): (its: seq<Item>)
    ensures forall it :: it in its ==> ItemNumber(it) == n && !it.Other?
    decreases ms, 0, 0
  {
    if ms == [] then [] else [Sub(n, ItemsOf(ms[0]))] + Subs(n, ms[1..])
  }

  function ItemsUpTo(m: Message, top: nat): seq<Item>
    decreases m, 1, top
  {
    if top == 0 then []
    else ItemsUpTo(m, top - 1) + if top in m.values then ItemsOfValue(top, m.values[top]) else []
  }

  function ItemsOf(m: Message): seq<Item>
    decreases m, 2, 0
  {
    ItemsUpTo(m, MAX_FIELD_NUMBER)
  }

  lemma EncodeOne(it: Item)
    ensures EncodeItems([it]) == EncodeItem(it)
  {
    assert EncodeItem(it) + EncodeItems([]) == EncodeItem(it);
  }

  lemma {:induction false} ValueItemsEncode(reg: Registry, f: Field, n: nat, v: Value)
    requires WellTypedValue(reg, f, v)
    ensures EncodeItems(ItemsOfValue(n, v)) == EncodeValue(n, v)
    decreases v, 0, 0
  {
    match v
    case Scalar(k, x) => EncodeOne(One(n, k, x));
    case Packed(k, xs) => EncodeOne(Chunk(n, k, xs));
    case Text(k, s) => EncodeOne(Blob(n, k, s));
    case Texts(k, ss) => BlobsEncode(n, k, ss);
    case Nested(m) =>
      EncodeOne(Sub(n, ItemsOf(m)));
      MessageItemsEncode(reg, reg.Find(f.embedded), m);
    case NestedList(ms) => SubsEncode(reg, f, n, ms);
  }

  lemma {:induction false} BlobsEncode(n: nat, k: Kind, ss: seq<bytes>)
    ensures EncodeItems(Blobs(n, k, ss)) == EncodeTexts(n, ss)
  {
    if ss != [] {
      BlobsEncode(n, k, ss[1..]);
      EncodeOne(Blob(n, k, ss[0]));
      EncodeItemsAppend([Blob(n, k, ss[0])], Blobs(n, k, ss[1..]));
    }
  }

  lemma {:induction false} SubsEncode(reg: Registry, f: Field, n: nat, ms: seq<Message>)
    requires forall m :: m in ms ==> WellTyped(reg, reg.Find(f.embedded), m)
    ensures EncodeItems(Subs(n, ms)) == EncodeList(n, ms)
    decreases ms, 0, 0
  {
    if ms != [] {
      MessageItemsEncode(reg, reg.Find(f.embedded), ms[0]);
      SubsEncode(reg, f, n, ms[1..]);
      EncodeOne(Sub(n, ItemsOf(ms[0])));
      EncodeItemsAppend([Sub(n, ItemsOf(ms[0]))], Subs(n, ms[1..]));
    }
  }

  lemma {:induction false} FieldItemsEncode(reg: Registry, ty: Option<MessageType>, m: Message, top: nat)
    requires WellTyped(reg, ty, m)
    ensures EncodeItems(ItemsUpTo(m, top)) == EncodeFields(m, top)
    decreases m, 1, top
  {
    if top > 0 {
      FieldItemsEncode(reg, ty, m, top - 1);
      if top in m.values {
        ValueItemsEncode(reg, Mapped(ty.value)[top], top, m.values[top]);
        EncodeItemsAppend(ItemsUpTo(m, top - 1), ItemsOfValue(top, m.values[top]));
      } else {
        assert ItemsUpTo(m, top) == ItemsUpTo(m, top - 1);
      }
    }
  }

  /** What the serializer writes is the encoding of the message's items. */
  lemma {:induction false} MessageItemsEncode(reg: Registry, ty: Option<MessageType>, m: Message)
    requires WellTyped(reg, ty, m)
    ensures EncodeItems(ItemsOf(m)) == EncodeMessage(m)
    decreases m, 2, 0
  {
    FieldItemsEncode(reg, ty, m, MAX_FIELD_NUMBER);
  }

  // ---------------------------------------------------------- typed and sized

  lemma LenDelimIsLonger(n: nat, s: bytes)
    ensures |LenDelim(n, s)| > |s|
  {
  }

  lemma {:induction false} ValueItemsFit(reg: Registry, t: MessageType, n: nat, v: Value)
    requires n in Mapped(t) && IsFieldNumber(n) && WellTypedValue(reg, Mapped(t)[n], v)
    requires |EncodeValue(n, v)| <= INT_MAX
    ensures TypedAll(reg, Some(t), ItemsOfValue(n, v)) && SizedAll(ItemsOfValue(n, v))
    decreases v, 0, 0
  {
    var f := Mapped(t)[n];
    match v
    case Scalar(k, x) =>
    case Packed(k, xs) => LenDelimIsLonger(n, EncodeNumbers(k, xs));
    case Text(k, s) => LenDelimIsLonger(n, s);
    case Texts(k, ss) => BlobsFit(reg, t, n, ss);
    case Nested(m) =>
      var ty := reg.Find(f.embedded);
      LenDelimIsLonger(n, EncodeMessage(m));
      MessageItemsEncode(reg, ty, m);
      MessageItemsFit(reg, ty, m);
    case NestedList(ms) => SubsFit(reg, t, n, ms);
  }

  lemma {:induction false} BlobsFit(reg: Registry, t: MessageType, n: nat, ss: seq<bytes>)
    requires n in Mapped(t) && IsFieldNumber(n) && Mapped(t)[n].kind.IsText()
    requires forall s :: s in ss ==> ValidText(reg, Mapped(t)[n].kind, s)
    requires |EncodeTexts(n, ss)| <= INT_MAX
    ensures var its := Blobs(n, Mapped(t)[n].kind, ss); TypedAll(reg, Some(t), its) && SizedAll(its)
  {
    if ss != [] {
      LenDelimIsLonger(n, ss[0]);
      BlobsFit(reg, t, n, ss[1..]);
    }
  }

  lemma {:induction false} SubsFit(reg: Registry, t: MessageType, n: nat, ms: seq<Message>)
    requires n in Mapped(t) && IsFieldNumber(n) && Mapped(t)[n].kind == MessageValue
    requires forall m :: m in ms ==> WellTyped(reg, reg.Find(Mapped(t)[n].embedded), m)
    requires |EncodeList(n, ms)| <= INT_MAX
    ensures TypedAll(reg, Some(t), Subs(n, ms)) && SizedAll(Subs(n, ms))
    decreases ms, 0, 0
  {
    if ms != [] {
      var ty := reg.Find(Mapped(t)[n].embedded);
      LenDelimIsLonger(n, EncodeMessage(ms[0]));
      MessageItemsEncode(reg, ty, ms[0]);
      MessageItemsFit(reg, ty, ms[0]);
      SubsFit(reg, t, n, ms[1..]);
    }
  }

  lemma {:induction false} FieldItemsFit(reg: Registry, ty: Option<MessageType>, m: Message, top: nat)
    requires WellTyped(reg, ty, m) && |EncodeFields(m, top)| <= INT_MAX
    ensures TypedAll(reg, ty, ItemsUpTo(m, top)) && SizedAll(ItemsUpTo(m, top))
    decreases m, 1, top
  {
    if top > 0 {
      FieldItemsFit(reg, ty, m, top - 1);
      if top in m.values {
        ValueItemsFit(reg, ty.value, top, m.values[top]);
      }
    }
  }

  lemma {:induction false} MessageItemsFit(reg: Registry, ty: Option<MessageType>, m: Message)
    requires WellTyped(reg, ty, m) && |EncodeMessage(m)| <= INT_MAX
    ensures TypedAll(reg, ty, ItemsOf(m)) && SizedAll(ItemsOf(m))
    decreases m, 2, 0
  {
    FieldItemsFit(reg, ty, m, MAX_FIELD_NUMBER);
  }

  // --------------------------------------------------------- the normal form

  /** The selected member of each oneof, given which fields are present. */
  function SelectedOf(t: MessageType, numbers: set<int>): map<string, int>
    requires AtMostOneMember(t, numbers)
  {
    map n | n in numbers && n in Mapped(t) && Mapped(t)[n].inOneof :: Mapped(t)[n].container := n
  }

  predicate IsEmptyList(v: Value) {
    match v
    case Packed(_, xs) => xs == []
    case Texts(_, ss) => ss == []
    case NestedList(ms) => ms == []
    case _ => false
  }

  /** What survives a trip over the wire: values as they were, except that an empty repeated
      field is absent; the selection map says what is present; no unknown fields. */
  function Canon(reg: Registry, ty: Option<MessageType>, m: Message): Message
    requires WellTyped(reg, ty, m)
    decreases m, 1, 0
  {
    match ty
    case None => EMPTY_MESSAGE
    case Some(t) =>
      Message(
        map n | n in m.values && !IsEmptyList(m.values[n]) :: CanonValue(reg, Mapped(t)[n], m.values[n]),
        SelectedOf(t, m.values.Keys),
        [])
  }

  function CanonValue(reg: Registry, f: Field, v: Value): Value
    requires WellTypedValue(reg, f, v)
    decreases v, 0, 0
  {
    match v
    case Nested(m) => Nested(Canon(reg, reg.Find(f.embedded), m))
    case NestedList(ms) => NestedList(CanonList(reg, reg.Find(f.embedded), ms))
    case _ => v
  }

  function CanonList(reg: Registry, ty: Option<MessageType>, ms: seq<Message>): (r: seq<Message>)
    requires forall m :: m in ms ==> WellTyped(reg, ty, m)
    ensures |r| == |ms|
    decreases ms, 0, 0
  {
    if ms == [] then [] else [Canon(reg, ty, ms[0])] + CanonList(reg, ty, ms[1..])
  }

  /** The part of a message with numbers up to `top`. */
  function UpTo(m: Message, top: int): Message {
    m.(values := map n | n in m.values && n <= top :: m.values[n])
  }

  // ----------------------------------------------- items denote the normal form

  lemma {:induction false} BlobsApply(reg: Registry, t: MessageType, d: Message, n: nat, prior: seq<bytes>, ss: seq<bytes>)
    requires n in Mapped(t) && Mapped(t)[n].repeated && !Mapped(t)[n].inOneof
    requires prior + ss != []
    requires prior == [] ==> n !in d.values
    requires prior != [] ==> n in d.values && d.values[n] == Texts(Mapped(t)[n].kind, prior)
    ensures ApplyAll(reg, Some(t), d, Blobs(n, Mapped(t)[n].kind, ss))
         == d.(values := d.values[n := Texts(Mapped(t)[n].kind, prior + ss)])
    decreases |ss|
  {
    var k := Mapped(t)[n].kind;
    if ss == [] {
      assert prior + ss == prior;
      assert d.values[n := Texts(k, prior)] == d.values;
    } else {
      var d' := Apply(reg, Some(t), d, Blob(n, k, ss[0]));
      assert d' == d.(values := d.values[n := Texts(k, prior + [ss[0]])]);
      assert prior + ss == prior + [ss[0]] + ss[1..];
      BlobsApply(reg, t, d', n, prior + [ss[0]], ss[1..]);
    }
  }

  lemma {:induction false} SubsApply(reg: Registry, t: MessageType, d: Message, n: nat, prior: seq<Message>, ms: seq<Message>)
    requires n in Mapped(t) && Mapped(t)[n].repeated && !Mapped(t)[n].inOneof
    requires forall m :: m in ms ==> WellTyped(reg, reg.Find(Mapped(t)[n].embedded), m)
    requires prior + ms != []
    requires prior == [] ==> n !in d.values
    requires prior != [] ==> n in d.values && d.values[n] == NestedList(prior)
    ensures ApplyAll(reg, Some(t), d, Subs(n, ms))
         == d.(values := d.values[n := NestedList(prior + CanonList(reg, reg.Find(Mapped(t)[n].embedded), ms))])
    decreases ms, 0, 0
  {
    hide *;
    var ty := reg.Find(Mapped(t)[n].embedded);
    if ms == [] {
      NoSubsApply(reg, t, d, n, prior, ty);
    } else {
      var x, rest := Canon(reg, ty, ms[0]), CanonList(reg, ty, ms[1..]);
      ItemsDenoteCanon(reg, ty, ms[0]);
      SubApplies(reg, t, d, n, prior, ItemsOf(ms[0]), x);
      var d' := d.(values := d.values[n := NestedList(prior + [x])]);
      SubsApply(reg, t, d', n, prior + [x], ms[1..]);
      SubsUnfold(reg, t, d, n, ms);
      CanonListUnfolds(reg, ty, ms);
      assert prior + ([x] + rest) == prior + [x] + rest;
      assert d'.values[n := NestedList(prior + [x] + rest)] == d.values[n := NestedList(prior + [x] + rest)];
    }
  }

  lemma CanonListUnfolds(reg: Registry, ty: Option<MessageType>, ms: seq<Message>)
    requires ms != [] && forall m :: m in ms ==> WellTyped(reg, ty, m)
    ensures CanonList(reg, ty, ms) == [Canon(reg, ty, ms[0])] + CanonList(reg, ty, ms[1..])
  {
    hide WellTyped, Canon;
  }

  lemma NoSubsApply(reg: Registry, t: MessageType, d: Message, n: nat, prior: seq<Message>, ty: Option<MessageType>)
    requires prior != [] && n in d.values && d.values[n] == NestedList(prior)
    ensures ApplyAll(reg, Some(t), d, Subs(n, []))
         == d.(values := d.values[n := NestedList(prior + CanonList(reg, ty, []))])
  {
    assert prior + CanonList(reg, ty, []) == prior;
    assert d.values[n := NestedList(prior)] == d.values;
  }

  lemma SubApplies(reg: Registry, t: MessageType, d: Message, n: nat, prior: seq<Message>, items: seq<Item>, x: Message)
    requires n in Mapped(t) && Mapped(t)[n].repeated && !Mapped(t)[n].inOneof
    requires ApplyAll(reg, reg.Find(Mapped(t)[n].embedded), EMPTY_MESSAGE, items) == x
    requires prior == [] ==> n !in d.values
    requires prior != [] ==> n in d.values && d.values[n] == NestedList(prior)
    ensures Apply(reg, Some(t), d, Sub(n, items)) == d.(values := d.values[n := NestedList(prior + [x])])
  {
  }

  lemma SubsUnfold(reg: Registry, t: MessageType, d: Message, n: nat, ms: seq<Message>)
    requires ms != []
    ensures ApplyAll(reg, Some(t), d, Subs(n, ms))
         == ApplyAll(reg, Some(t), Apply(reg, Some(t), d, Sub(n, ItemsOf(ms[0]))), Subs(n, ms[1..]))
  {
    assert Subs(n, ms)[1..] == Subs(n, ms[1..]);
  }

  /** Applying one serialized value to a message that lacks its field, and whose oneofs do
      not select anything in its container. */
  lemma {:induction false} ValueApplies(reg: Registry, t: MessageType, d: Message, n: nat, v: Value)
    requires WellFormedType(t) && n in Mapped(t) && WellTypedValue(reg, Mapped(t)[n], v)
    requires n !in d.values && (Mapped(t)[n].inOneof ==> Mapped(t)[n].container !in d.oneof)
    ensures ApplyAll(reg, Some(t), d, ItemsOfValue(n, v))
         == if IsEmptyList(v) then d
            else d.(values := d.values[n := CanonValue(reg, Mapped(t)[n], v)],
                    oneof := if Mapped(t)[n].inOneof then d.oneof[Mapped(t)[n].container := n] else d.oneof)
    decreases v, 0, 0
  {
    var f := Mapped(t)[n];
    MappedIsAnElement(t, n);
    match v
    case Scalar(k, x) => ApplyOne(reg, Some(t), d, One(n, k, x));
    case Packed(k, xs) => if xs != [] { ApplyOne(reg, Some(t), d, Chunk(n, k, xs)); assert [] + xs == xs; }
    case Text(k, s) => ApplyOne(reg, Some(t), d, Blob(n, k, s));
    case Texts(k, ss) => if ss != [] { BlobsApply(reg, t, d, n, [], ss); assert [] + ss == ss; }
    case Nested(m) =>
      ItemsDenoteCanon(reg, reg.Find(f.embedded), m);
      ApplyOne(reg, Some(t), d, Sub(n, ItemsOf(m)));
    case NestedList(ms) =>
      if ms != [] {
        SubsApply(reg, t, d, n, [], ms);
        assert [] + CanonList(reg, reg.Find(f.embedded), ms) == CanonList(reg, reg.Find(f.embedded), ms);
      }
  }

  lemma UpToIsWellTyped(reg: Registry, t: MessageType, m: Message, top: int)
    requires WellTyped(reg, Some(t), m)
    ensures WellTyped(reg, Some(t), UpTo(m, top))
  {
  }

  /** Adding field `top` to the normal form of the fields below it. */
  lemma CanonGrows(reg: Registry, t: MessageType, m: Message, top: nat)
    requires WellTyped(reg, Some(t), m) && top > 0 && top in m.values
    requires WellTyped(reg, Some(t), UpTo(m, top)) && WellTyped(reg, Some(t), UpTo(m, top - 1))
    ensures var d, f, v := Canon(reg, Some(t), UpTo(m, top - 1)), Mapped(t)[top], m.values[top];
            && top !in d.values && (f.inOneof ==> f.container !in d.oneof)
            && Canon(reg, Some(t), UpTo(m, top))
            == if IsEmptyList(v) then d
               else d.(values := d.values[top := CanonValue(reg, f, v)],
                       oneof := if f.inOneof then d.oneof[f.container := top] else d.oneof)
  {
    hide CanonValue, IsEmptyList;
    CanonSelectionGrows(reg, t, m, top);
    CanonValuesGrow(reg, t, m, top);
  }

  lemma CanonSelectionGrows(reg: Registry, t: MessageType, m: Message, top: nat)
    requires WellTyped(reg, Some(t), m) && top > 0 && top in m.values
    requires WellTyped(reg, Some(t), UpTo(m, top)) && WellTyped(reg, Some(t), UpTo(m, top - 1))
    ensures var d, e, f := Canon(reg, Some(t), UpTo(m, top - 1)), Canon(reg, Some(t), UpTo(m, top)), Mapped(t)[top];
            && d.unknown == e.unknown == []
            && (f.inOneof ==> f.container !in d.oneof && !IsEmptyList(m.values[top]))
            && e.oneof == if f.inOneof then d.oneof[f.container := top] else d.oneof
  {
    hide CanonValue;
    MappedIsAnElement(t, top);
    assert WellFormedField(Mapped(t)[top]);
    assert UpTo(m, top).values.Keys == UpTo(m, top - 1).values.Keys + {top};
    SelectedGrows(t, UpTo(m, top - 1).values.Keys, top);
  }

  lemma CanonValuesGrow(reg: Registry, t: MessageType, m: Message, top: nat)
    requires WellTyped(reg, Some(t), m) && top > 0 && top in m.values
    requires WellTyped(reg, Some(t), UpTo(m, top)) && WellTyped(reg, Some(t), UpTo(m, top - 1))
    ensures var d, v := Canon(reg, Some(t), UpTo(m, top - 1)), m.values[top];
            && top !in d.values
            && Canon(reg, Some(t), UpTo(m, top)).values
            == if IsEmptyList(v) then d.values else d.values[top := CanonValue(reg, Mapped(t)[top], v)]
  {
    hide CanonValue, IsEmptyList, SelectedOf, WellTypedValue, WellFormedType, Mapped;
    var d, e := Canon(reg, Some(t), UpTo(m, top - 1)).values, Canon(reg, Some(t), UpTo(m, top)).values;
    forall n | n != top ensures n in e <==> n in d {}
    forall n | n in d ensures n in e && e[n] == d[n] {}
    if IsEmptyList(m.values[top]) {
      assert e == d;
    } else {
      assert e == d[top := CanonValue(reg, Mapped(t)[top], m.values[top])];
    }
  }

  lemma SelectedGrows(t: MessageType, numbers: set<int>, n: int)
    requires n !in numbers && AtMostOneMember(t, numbers + {n}) && AtMostOneMember(t, numbers)
    ensures SelectedOf(t, numbers + {n})
         == if n in Mapped(t) && Mapped(t)[n].inOneof
            then SelectedOf(t, numbers)[Mapped(t)[n].container := n] else SelectedOf(t, numbers)
    ensures n in Mapped(t) && Mapped(t)[n].inOneof ==> Mapped(t)[n].container !in SelectedOf(t, numbers)
  {
  }

  lemma {:induction false} ItemsUpToDenote(reg: Registry, t: MessageType, m: Message, top: nat)
    requires WellTyped(reg, Some(t), m)
    ensures WellTyped(reg, Some(t), UpTo(m, top))
    ensures ApplyAll(reg, Some(t), EMPTY_MESSAGE, ItemsUpTo(m, top)) == Canon(reg, Some(t), UpTo(m, top))
    decreases m, 1, top
  {
    hide *;
    UpToIsWellTyped(reg, t, m, top);
    if top == 0 {
      NothingDenotes(reg, t, m);
    } else {
      ItemsUpToDenote(reg, t, m, top - 1);
      if top in m.values {
        UpToIsWellTyped(reg, t, m, top - 1);
        CanonGrows(reg, t, m, top);
        ReadyToGrow(reg, t, m, top);
        ValueApplies(reg, t, Canon(reg, Some(t), UpTo(m, top - 1)), top, m.values[top]);
        GrowthDenotes(reg, t, m, top);
      } else {
        NothingGrows(m, top);
      }
    }
  }

  lemma ReadyToGrow(reg: Registry, t: MessageType, m: Message, top: nat)
    requires WellTyped(reg, Some(t), m) && top in m.values
    ensures WellFormedType(t) && top in Mapped(t) && WellTypedValue(reg, Mapped(t)[top], m.values[top])
  {
    hide WellTypedValue, WellFormedType, Mapped;
  }

  lemma NothingGrows(m: Message, top: nat)
    requires top > 0 && top !in m.values
    ensures UpTo(m, top) == UpTo(m, top - 1) && ItemsUpTo(m, top) == ItemsUpTo(m, top - 1)
  {
    assert UpTo(m, top).values == UpTo(m, top - 1).values;
  }

  lemma NothingDenotes(reg: Registry, t: MessageType, m: Message)
    requires WellTyped(reg, Some(t), m) && WellTyped(reg, Some(t), UpTo(m, 0))
    ensures ApplyAll(reg, Some(t), EMPTY_MESSAGE, ItemsUpTo(m, 0)) == Canon(reg, Some(t), UpTo(m, 0))
  {
    assert UpTo(m, 0).values == map[];
  }

  lemma GrowthDenotes(reg: Registry, t: MessageType, m: Message, top: nat)
    requires WellTyped(reg, Some(t), m) && top > 0 && top in m.values
    requires WellTyped(reg, Some(t), UpTo(m, top)) && WellTyped(reg, Some(t), UpTo(m, top - 1))
    requires ApplyAll(reg, Some(t), EMPTY_MESSAGE, ItemsUpTo(m, top - 1)) == Canon(reg, Some(t), UpTo(m, top - 1))
    requires var d, f, v := Canon(reg, Some(t), UpTo(m, top - 1)), Mapped(t)[top], m.values[top];
             ApplyAll(reg, Some(t), d, ItemsOfValue(top, v))
             == if IsEmptyList(v) then d
                else d.(values := d.values[top := CanonValue(reg, f, v)],
                        oneof := if f.inOneof then d.oneof[f.container := top] else d.oneof)
    ensures ApplyAll(reg, Some(t), EMPTY_MESSAGE, ItemsUpTo(m, top)) == Canon(reg, Some(t), UpTo(m, top))
  {
    CanonGrows(reg, t, m, top);
    ApplyAllAppend(reg, Some(t), EMPTY_MESSAGE, ItemsUpTo(m, top - 1), ItemsOfValue(top, m.values[top]));
  }

  /** The items of a message denote its normal form, at every depth. */
  lemma {:induction false} ItemsDenoteCanon(reg: Registry, ty: Option<MessageType>, m: Message)
    requires WellTyped(reg, ty, m)
    ensures ApplyAll(reg, ty, EMPTY_MESSAGE, ItemsOf(m)) == Canon(reg, ty, m)
    decreases m, 2, 0
  {
    match ty
    case None => NoItems(m, MAX_FIELD_NUMBER);
    case Some(t) =>
      ItemsUpToDenote(reg, t, m, MAX_FIELD_NUMBER);
      assert UpTo(m, MAX_FIELD_NUMBER) == m;
  }

  lemma {:induction false} NoItems(m: Message, top: nat)
    requires m.values == map[]
    ensures ItemsUpTo(m, top) == []
    decreases top
  {
    if top > 0 { NoItems(m, top - 1); }
  }

  // ------------------------------------------------------------- main results

  /** Round trip: parsing what was serialized is accepted and gives the message back in
      normal form, for every well-typed message tree of any depth. */
  lemma RoundTrips(reg: Registry, ty: Option<MessageType>, m: Message)
    requires WellTyped(reg, ty, m) && |EncodeMessage(m)| < INT_MAX
    ensures Accepts(reg, ty, EncodeMessage(m))
    ensures Parsed(reg, ty, EncodeMessage(m)) == Canon(reg, ty, m)
  {
    MessageItemsEncode(reg, ty, m);
    MessageItemsFit(reg, ty, m);
    WireMeaning(reg, ty, ItemsOf(m));
    ItemsDenoteCanon(reg, ty, m);
  }

  /** `m` is already in normal form, at every depth. */
  predicate IsCanonical(reg: Registry, ty: Option<MessageType>, m: Message)
    requires WellTyped(reg, ty, m)
    decreases m, 1, 0
  {
    && m.unknown == []
    && m.oneof == (match ty case None => map[] case Some(t) => SelectedOf(t, m.values.Keys))
    && forall n :: n in m.values ==> !IsEmptyList(m.values[n]) && IsCanonicalValue(reg, Mapped(ty.value)[n], m.values[n])
  }

  predicate IsCanonicalValue(reg: Registry, f: Field, v: Value)
    requires WellTypedValue(reg, f, v)
    decreases v, 0, 0
  {
    match v
    case Nested(m) => IsCanonical(reg, reg.Find(f.embedded), m)
    case NestedList(ms) => forall m :: m in ms ==> IsCanonical(reg, reg.Find(f.embedded), m)
    case _ => true
  }

  lemma {:induction false} CanonicalIsFixed(reg: Registry, ty: Option<MessageType>, m: Message)
    requires WellTyped(reg, ty, m) && IsCanonical(reg, ty, m)
    ensures Canon(reg, ty, m) == m
    decreases m, 1, 0
  {
    match ty
    case None =>
    case Some(t) =>
      var c := Canon(reg, Some(t), m);
      forall n | n in m.values ensures n in c.values && c.values[n] == m.values[n] {
        CanonicalValueIsFixed(reg, Mapped(t)[n], m.values[n]);
      }
      assert c.values.Keys == m.values.Keys;
      assert c.values == m.values;
  }

  lemma {:induction false} CanonicalValueIsFixed(reg: Registry, f: Field, v: Value)
    requires WellTypedValue(reg, f, v) && IsCanonicalValue(reg, f, v)
    ensures CanonValue(reg, f, v) == v
    decreases v, 0, 0
  {
    match v
    case Nested(m) => CanonicalIsFixed(reg, reg.Find(f.embedded), m);
    case NestedList(ms) => CanonicalListIsFixed(reg, reg.Find(f.embedded), ms);
    case _ =>
  }

  lemma {:induction false} CanonicalListIsFixed(reg: Registry, ty: Option<MessageType>, ms: seq<Message>)
    requires forall m :: m in ms ==> WellTyped(reg, ty, m) && IsCanonical(reg, ty, m)
    ensures CanonList(reg, ty, ms) == ms
    decreases ms, 0, 0
  {
    if ms != [] {
      CanonicalIsFixed(reg, ty, ms[0]);
      CanonicalListIsFixed(reg, ty, ms[1..]);
      assert [ms[0]] + ms[1..] == ms;
    }
  }

  /** Exact round trip for messages in normal form: every value, the oneof selection and
      the (empty) unknown fields come back unchanged. */
  lemma RoundTripsExactly(reg: Registry, ty: Option<MessageType>, m: Message)
    requires WellTyped(reg, ty, m) && IsCanonical(reg, ty, m) && |EncodeMessage(m)| < INT_MAX
    ensures Accepts(reg, ty, EncodeMessage(m)) && Parsed(reg, ty, EncodeMessage(m)) == m
  {
    RoundTrips(reg, ty, m);
    CanonicalIsFixed(reg, ty, m);
  }
}
