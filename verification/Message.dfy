/** Message contents as values, and what the serializer writes for them. */
module Messages {
  import opened Wire
  import opened Schema
  import opened Numeric

  /** What one LVMessageValue holds. */
  datatype Value =
    | Scalar(kind: Kind, number: int)
    | Packed(kind: Kind, numbers: seq<int>)
    | Text(kind: Kind, text: bytes)
    | Texts(kind: Kind, texts: seq<bytes>)
    | Nested(message: Message)
    | NestedList(messages: seq<Message>)

  /** A field that the message description does not know, kept for later inspection. */
  datatype Unknown =
    | UnknownVarint(number: nat, varint: nat)
    | UnknownFixed64(number: nat, fixed64: nat)
    | UnknownLengthDelimited(number: nat, content: bytes)
    | UnknownFixed32(number: nat, fixed32: nat)

  /** The data members of LVMessage: field values by number, the selected member of each
      oneof by container name, and unknown fields in order. */
  datatype Message = Message(values: map<int, Value>, oneof: map<string, int>, unknown: seq<Unknown>)

  const EMPTY_MESSAGE := Message(map[], map[], [])

  // -------------------------------------------------------------- well-typedness

  /** `v` is a value the code may store for field `f`. */
  predicate WellTypedValue(reg: Registry, f: Field, v: Value)
    decreases v, 0, 0
  {
    match v
    case Scalar(k, x) => !f.repeated && k == f.kind && k.IsNumeric() && InRange(k, x)
    case Packed(k, xs) => f.repeated && k == f.kind && k.IsNumeric() && AllInRange(k, xs)
    case Text(k, s) => !f.repeated && k == f.kind && k.IsText() && ValidText(reg, k, s)
    case Texts(k, ss) => f.repeated && k == f.kind && k.IsText() && forall s :: s in ss ==> ValidText(reg, k, s)
    case Nested(m) => !f.repeated && f.kind == MessageValue && WellTyped(reg, reg.Find(f.embedded), m)
    case NestedList(ms) =>
      f.repeated && f.kind == MessageValue && forall m :: m in ms ==> WellTyped(reg, reg.Find(f.embedded), m)
  }

  predicate ValidText(reg: Registry, k: Kind, s: bytes) {
    k == StringValue ==> reg.validUtf8(s)
  }

  /** Every value belongs to a described field and fits it, and no oneof has two members.
      A message without a description has no values. */
  predicate WellTyped(reg: Registry, ty: Option<MessageType>, m: Message)
    decreases m, 1, 0
  {
    match ty
    case None => m.values == map[]
    case Some(t) =>
      && WellFormedType(t)
      && (forall n :: n in m.values ==>
            n in Mapped(t) && IsFieldNumber(n) && WellTypedValue(reg, Mapped(t)[n], m.values[n]))
      && AtMostOneMember(t, m.values.Keys)
  }

  /** No two of `numbers` are members of the same oneof. */
  predicate AtMostOneMember(t: MessageType, numbers: set<int>)
  {
    forall a, b :: a in numbers && b in numbers && a in Mapped(t) && b in Mapped(t) && a != b
      && Mapped(t)[a].inOneof && Mapped(t)[b].inOneof
      ==> Mapped(t)[a].container != Mapped(t)[b].container
  }

  // ---------------------------------------------------------------- what is written

  /** LVMessageValue::Serialize, for each class of value. */
  function EncodeValue(n: nat, v: Value): (s: bytes)
    decreases v, 0, 0
  {
    match v
    case Scalar(k, x) =>
      if InRange(k, x) then EncodeTag(n, NaturalWireType(k)) + EncodeNumber(k, x) else []
    case Packed(k, xs) =>
      if xs != [] && AllInRange(k, xs) then LenDelim(n, EncodeNumbers(k, xs)) else []
    case Text(_, s) => LenDelim(n, s)
    case Texts(_, ss) => EncodeTexts(n, ss)
    case Nested(m) => LenDelim(n, EncodeMessage(m))
    case NestedList(ms) => EncodeList(n, ms)
  }

  function EncodeTexts(n: nat, ss: seq<bytes>): bytes {
    if ss == [] then [] else LenDelim(n, ss[0]) + EncodeTexts(n, ss[1..])
  }

  function EncodeList(n: nat, ms: seq<Message>): bytes
    decreases ms, 0, 0
  {
    if ms == [] then [] else LenDelim(n, EncodeMessage(ms[0])) + EncodeList(n, ms[1..])
  }

  /** The fields numbered 1 to `top`, in ascending order: std::map iterates that way. */
  function EncodeFields(m: Message, top: nat): (s: bytes)
    decreases m, 1, top
  {
    if top == 0 then []
    else EncodeFields(m, top - 1) + if top in m.values then EncodeValue(top, m.values[top]) else []
  }

  /** SerializeToCodedStream. Unknown fields are not written. */
  function EncodeMessage(m: Message): (s: bytes)
    decreases m, 2, 0
  {
    EncodeFields(m, MAX_FIELD_NUMBER)
  }

  // --------------------------------------------------------- the size computation

  /** LenDelimSize. */
  function LenDelimSize(n: nat, payload: nat): nat {
    VarintSize(MakeTag(n, WIRETYPE_LENGTH_DELIMITED)) + VarintSize(payload) + payload
  }

  /** LVMessageValue::ByteSizeLong, for each class of value. */
  function ValueSize(n: nat, v: Value): (s: nat)
    decreases v, 0, 0
  {
    match v
    case Scalar(k, x) =>
      if InRange(k, x) then VarintSize(MakeTag(n, NaturalWireType(k))) + NumberSize(k, x) else 0
    case Packed(k, xs) =>
      if xs != [] && AllInRange(k, xs) then LenDelimSize(n, NumbersSize(k, xs)) else 0
    case Text(_, s) => LenDelimSize(n, |s|)
    case Texts(_, ss) => TextsSize(n, ss)
    case Nested(m) => LenDelimSize(n, MessageSize(m))
    case NestedList(ms) => ListSize(n, ms)
  }

  function TextsSize(n: nat, ss: seq<bytes>): nat {
    if ss == [] then 0 else LenDelimSize(n, |ss[0]|) + TextsSize(n, ss[1..])
  }

  function ListSize(n: nat, ms: seq<Message>): nat
    decreases ms, 0, 0
  {
    if ms == [] then 0 else LenDelimSize(n, MessageSize(ms[0])) + ListSize(n, ms[1..])
  }

  function FieldsSize(m: Message, top: nat): nat
    decreases m, 1, top
  {
    if top == 0 then 0
    else FieldsSize(m, top - 1) + if top in m.values then ValueSize(top, m.values[top]) else 0
  }

  function MessageSize(m: Message): nat
    decreases m, 2, 0
  {
    FieldsSize(m, MAX_FIELD_NUMBER)
  }

  lemma LenDelimSizeIsLength(n: nat, payload: bytes)
    ensures LenDelimSize(n, |payload|) == |LenDelim(n, payload)|
  {
    VarintSizeIsLength(MakeTag(n, WIRETYPE_LENGTH_DELIMITED));
    VarintSizeIsLength(|payload|);
  }

  /** Framing: the size pass and the writing pass agree at every level of nesting, so every
      length prefix, which comes from the size pass, counts the bytes that follow it. */
  lemma {:induction false} ValueSizeIsLength(n: nat, v: Value)
    ensures ValueSize(n, v) == |EncodeValue(n, v)|
    decreases v, 0, 0
  {
    match v
    case Scalar(k, x) =>
      if InRange(k, x) {
        VarintSizeIsLength(MakeTag(n, NaturalWireType(k)));
        NumberSizeIsLength(k, x);
      }
    case Packed(k, xs) =>
      if xs != [] && AllInRange(k, xs) {
        NumbersSizeIsLength(k, xs);
        LenDelimSizeIsLength(n, EncodeNumbers(k, xs));
      }
    case Text(_, s) => LenDelimSizeIsLength(n, s);
    case Texts(_, ss) => TextsSizeIsLength(n, ss);
    case Nested(m) =>
      MessageSizeIsLength(m);
      LenDelimSizeIsLength(n, EncodeMessage(m));
    case NestedList(ms) => ListSizeIsLength(n, ms);
  }

  lemma {:induction false} TextsSizeIsLength(n: nat, ss: seq<bytes>)
    ensures TextsSize(n, ss) == |EncodeTexts(n, ss)|
  {
    if ss != [] {
      LenDelimSizeIsLength(n, ss[0]);
      TextsSizeIsLength(n, ss[1..]);
    }
  }

  lemma {:induction false} ListSizeIsLength(n: nat, ms: seq<Message>)
    ensures ListSize(n, ms) == |EncodeList(n, ms)|
    decreases ms, 0, 0
  {
    if ms != [] {
      MessageSizeIsLength(ms[0]);
      LenDelimSizeIsLength(n, EncodeMessage(ms[0]));
      ListSizeIsLength(n, ms[1..]);
    }
  }

  lemma {:induction false} FieldsSizeIsLength(m: Message, top: nat)
    ensures FieldsSize(m, top) == |EncodeFields(m, top)|
    decreases m, 1, top
  {
    if top > 0 {
      FieldsSizeIsLength(m, top - 1);
      if top in m.values { ValueSizeIsLength(top, m.values[top]); }
    }
  }

  lemma {:induction false} MessageSizeIsLength(m: Message)
    ensures MessageSize(m) == |EncodeMessage(m)|
    decreases m, 2, 0
  {
    FieldsSizeIsLength(m, MAX_FIELD_NUMBER);
  }
}
