/** Message descriptions: the metadata that drives the codec and the cluster layout. */
module Schema {
  import opened Wire

  /** LVMessageMetadataType. */
  datatype Kind =
    | Int32Value | FloatValue | DoubleValue | BoolValue | StringValue | MessageValue
    | Int64Value | UInt32Value | UInt64Value | EnumValue | BytesValue
    | Fixed64Value | Fixed32Value | SFixed64Value | SFixed32Value | SInt64Value | SInt32Value
  {
    predicate IsText() { StringValue? || BytesValue? }

    predicate IsNumeric() { !IsText() && !MessageValue? }
  }

  datatype WellKnownType = NotWellKnown | Double2DArray | String2DArray

  const DOUBLE_2D_ARRAY := "ni_protobuf_types_Double2DArray"
  const STRING_2D_ARRAY := "ni_protobuf_types_String2DArray"

  /** One element of a message: `number` is negative for the selected_index pseudo-field that
      a cluster carries for each oneof; `embedded` names the message or enum type. */
  datatype Field = Field(
    number: int, kind: Kind, repeated: bool, embedded: string, inOneof: bool, container: string)
  {
    predicate IsSelector() { inOneof && number < 0 }

    /** Only a singular field of one of the two array messages is treated natively. */
    function WellKnown(): WellKnownType {
      if repeated then NotWellKnown
      else if embedded == DOUBLE_2D_ARRAY then Double2DArray
      else if embedded == STRING_2D_ARRAY then String2DArray
      else NotWellKnown
    }
  }

  type MessageType = seq<Field>

  datatype Option<+T> = None | Some(value: T)

  /** The registered message types and the string check in force. */
  datatype Registry = Registry(messages: map<string, MessageType>, validUtf8: bytes -> bool) {
    function Find(name: string): Option<MessageType> {
      if name in messages then Some(messages[name]) else None
    }
  }

  /** The next key of a map that is walked in whatever order. */
  method AnyOf<T(==)>(s: set<T>) returns (x: T)
    requires s != {}
    ensures x in s
  {
    HasElement(s);
    x :| x in s;
  }

  /** The first key of a std::map. */
  method LeastOf(s: set<int>) returns (x: int)
    requires s != {}
    ensures x in s && forall y :: y in s ==> x <= y
  {
    x := AnyOf(s);
    var rest := s - {x};
    while rest != {}
      invariant rest <= s && x in s && forall y :: y in s && y !in rest ==> x <= y
      decreases |rest|
    {
      var y := AnyOf(rest);
      rest := rest - {y};
      if y < x { x := y; }
    }
  }

  lemma HasElement<T>(s: set<T>)
    requires s != {}
    ensures exists x :: x in s
  {
    assert |s| > 0;
  }

  /** _mappedElements: filled with emplace, so the first element with a number keeps it. */
  function Mapped(ty: MessageType): (m: map<int, Field>)
  {
    if ty == [] then map[] else Mapped(ty[1..])[ty[0].number := ty[0]]
  }

  lemma {:induction false} MappedIsAnElement(ty: MessageType, n: int)
    requires n in Mapped(ty)
    ensures Mapped(ty)[n] in ty && Mapped(ty)[n].number == n
  {
    if n != ty[0].number {
      MappedIsAnElement(ty[1..], n);
    }
  }

  /** Field numbers are unique, apart from the selectors' negative ones. */
  predicate DistinctNumbers(ty: MessageType) {
    forall i, j :: 0 <= i < j < |ty| && ty[i].number > 0 ==> ty[i].number != ty[j].number
  }

  lemma {:induction false} ElementIsMapped(ty: MessageType, i: nat)
    requires i < |ty| && ty[i].number > 0 && DistinctNumbers(ty)
    ensures ty[i].number in Mapped(ty) && Mapped(ty)[ty[i].number] == ty[i]
  {
    if i > 0 {
      assert ty[0].number > 0 ==> ty[0].number != ty[i].number;
      ElementIsMapped(ty[1..], i - 1);
    }
  }

  /** What the repository expects of a message description: real numbers for real fields,
      and oneof members that are singular (the language forbids repeated ones). */
  predicate WellFormedField(f: Field) {
    && (f.IsSelector() || IsFieldNumber(f.number))
    && (f.IsSelector() ==> f.kind == Int32Value)
    && (f.inOneof ==> !f.repeated)
  }

  predicate WellFormedType(ty: MessageType) {
    DistinctNumbers(ty) && forall f :: f in ty ==> WellFormedField(f)
  }
}
