/** What LVMessage::ParseFromCodedStream does to a message, as a function of the bytes. */
module Parse {
  import opened Wire
  import opened Schema
  import opened Numeric
  import opened Messages

  /** Rejected is a `return false`; Threw is the exception for text that is not UTF-8. */
  datatype Status = Accepted | Rejected | Threw

  // --------------------------------------------------------------- unknown fields

  datatype UnknownRead = UnknownRead(ok: bool, fields: seq<Unknown>, rest: Input)

  /** HandleUnknownField: one field, or a group whose leaf fields are stored flat. */
  function ReadUnknown(tag: nat, i: Input): (r: UnknownRead)
    requires i.Valid()
    ensures r.rest.Valid() && |r.rest.data| <= |i.data|
    decreases |i.data|, 1
  {
    var n := TagFieldNumber(tag);
    match TagWireType(tag)
    case 0 => var r := ReadVarint64(i); UnknownRead(r.ok, if r.ok then [UnknownVarint(n, r.value)] else [], r.rest)
    case 1 => var r := ReadLE(i, 8); UnknownRead(r.ok, if r.ok then [UnknownFixed64(n, r.value)] else [], r.rest)
    case 2 =>
      var r := ReadLengthDelimited(i);
      UnknownRead(r.ok, if r.ok then [UnknownLengthDelimited(n, r.value)] else [], r.rest)
    case 3 => ReadGroup(MakeTag(n, WIRETYPE_END_GROUP), i)
    case 5 => var r := ReadLE(i, 4); UnknownRead(r.ok, if r.ok then [UnknownFixed32(n, r.value)] else [], r.rest)
    case _ => UnknownRead(false, [], i)
  }

  /** The loop of a start-group: fields until the matching end tag. */
  function ReadGroup(endTag: nat, i: Input): (r: UnknownRead)
    requires i.Valid()
    ensures r.rest.Valid() && |r.rest.data| <= |i.data|
    decreases |i.data|, 0
  {
    var t := ReadTag(i);
    if t.tag == 0 then UnknownRead(false, [], t.rest)
    else if t.tag == endTag then UnknownRead(true, [], t.rest)
    else
      var one := ReadUnknown(t.tag, t.rest);
      if !one.ok then UnknownRead(false, one.fields, one.rest)
      else
        var more := ReadGroup(endTag, one.rest);
        UnknownRead(more.ok, one.fields + more.fields, more.rest)
  }

  // ------------------------------------------------------------- storing one value

  /** std::map::emplace: an existing value stays. */
  function Emplace(m: Message, n: int, v: Value): Message {
    if n in m.values then m else m.(values := m.values[n := v])
  }

  function AppendNumbers(m: Message, n: int, k: Kind, xs: seq<int>): Message {
    var prior := if n in m.values && m.values[n].Packed? then m.values[n].numbers else [];
    m.(values := m.values[n := Packed(k, prior + xs)])
  }

  function AppendText(m: Message, n: int, k: Kind, s: bytes): Message {
    var prior := if n in m.values && m.values[n].Texts? then m.values[n].texts else [];
    m.(values := m.values[n := Texts(k, prior + [s])])
  }

  function AppendMessage(m: Message, n: int, x: Message): Message {
    var prior := if n in m.values && m.values[n].NestedList? then m.values[n].messages else [];
    m.(values := m.values[n := NestedList(prior + [x])])
  }

  function AddUnknown(m: Message, us: seq<Unknown>): Message { m.(unknown := m.unknown + us) }

  /** A member of a oneof evicts the member seen before it and becomes the selected one. */
  function SelectMember(m: Message, f: Field): Message {
    if !f.inOneof then m
    else
      var kept := if f.container in m.oneof then m.values - {m.oneof[f.container]} else m.values;
      m.(values := kept, oneof := m.oneof[f.container := f.number])
  }

  // -------------------------------------------------------------------- the parser

  /** `atEnd` says that the last tag read found the end of the data. */
  datatype Outcome = Outcome(status: Status, message: Message, rest: Input, atEnd: bool)

  function ParseFields(reg: Registry, ty: Option<MessageType>, i: Input, m: Message): (o: Outcome)
    requires i.Valid()
    ensures o.rest.Valid() && |o.rest.data| <= |i.data|
    decreases |i.data|, 0
  {
    var t := ReadTag(i);
    if t.tag == 0 then Outcome(Accepted, m, t.rest, t.atEnd)
    else
      var one := ParseTagged(reg, ty, t.tag, t.rest, m);
      if one.status != Accepted then one else ParseFields(reg, ty, one.rest, one.message)
  }

  function ParseTagged(reg: Registry, ty: Option<MessageType>, tag: nat, i: Input, m: Message): (o: Outcome)
    requires i.Valid()
    ensures o.rest.Valid() && |o.rest.data| <= |i.data|
    decreases |i.data|, 2
  {
    var n := TagFieldNumber(tag);
    if ty.Some? && n in Mapped(ty.value) then
      var f := Mapped(ty.value)[n];
      ParseField(reg, f, n, TagWireType(tag), i, SelectMember(m, f))
    else
      var u := ReadUnknown(tag, i);
      Outcome(if u.ok then Accepted else Rejected, AddUnknown(m, u.fields), u.rest, false)
  }

  /** ParseFieldFromCodedStream. The wire type matters only to repeated numbers. */
  function ParseField(reg: Registry, f: Field, n: nat, wireType: nat, i: Input, m: Message): (o: Outcome)
    requires i.Valid()
    ensures o.rest.Valid() && |o.rest.data| <= |i.data|
    decreases |i.data|, 1
  {
    if f.kind == MessageValue then ParseMessageField(reg, f, n, i, m)
    else if f.kind.IsText() then ParseTextField(reg, f, n, i, m)
    else ParseNumericField(f, n, wireType, i, m)
  }

  function ParseNumericField(f: Field, n: nat, wireType: nat, i: Input, m: Message): (o: Outcome)
    requires i.Valid() && f.kind.IsNumeric()
    ensures o.rest.Valid() && |o.rest.data| <= |i.data|
  {
    if f.repeated && wireType == WIRETYPE_LENGTH_DELIMITED then
      var length := ReadVarint32(i);
      if !length.ok then Outcome(Rejected, m, length.rest, false)
      else
        var pushed := length.rest.Push(length.value);
        var r := ReadPacked(f.kind, pushed);
        if !r.ok then Outcome(Rejected, AppendNumbers(m, n, f.kind, r.value), r.rest, false)
        else Outcome(Accepted, AppendNumbers(m, n, f.kind, r.value), length.rest.Pop(pushed, r.rest), false)
    else
      var r := ReadNumber(f.kind, i);
      if !r.ok then Outcome(Rejected, m, r.rest, false)
      else if f.repeated then Outcome(Accepted, AppendNumbers(m, n, f.kind, [r.value]), r.rest, false)
      else Outcome(Accepted, Emplace(m, n, Scalar(f.kind, r.value)), r.rest, false)
  }

  /** ParseStringField and ParseBytesField; only strings are checked. */
  function ParseTextField(reg: Registry, f: Field, n: nat, i: Input, m: Message): (o: Outcome)
    requires i.Valid()
    ensures o.rest.Valid() && |o.rest.data| <= |i.data|
  {
    var r := ReadLengthDelimited(i);
    if !r.ok then Outcome(Rejected, m, r.rest, false)
    else if !ValidText(reg, f.kind, r.value) then Outcome(Threw, m, r.rest, false)
    else if f.repeated then Outcome(Accepted, AppendText(m, n, f.kind, r.value), r.rest, false)
    else Outcome(Accepted, Emplace(m, n, Text(f.kind, r.value)), r.rest, false)
  }

  /** The nested parse stops at the first zero tag, wherever that is, and the outer one
      goes on from there: nothing checks that the limit was reached. */
  function ParseMessageField(reg: Registry, f: Field, n: nat, i: Input, m: Message): (o: Outcome)
    requires i.Valid()
    ensures o.rest.Valid() && |o.rest.data| <= |i.data|
    decreases |i.data|, 0
  {
    var length := ReadVarint32(i);
    if !length.ok then Outcome(Rejected, m, length.rest, false)
    else
      var pushed := length.rest.Push(length.value);
      var o := ParseFields(reg, reg.Find(f.embedded), pushed, EMPTY_MESSAGE);
      var rest := length.rest.Pop(pushed, o.rest);
      if o.status != Accepted then Outcome(o.status, m, rest, false)
      else if f.repeated then Outcome(Accepted, AppendMessage(m, n, o.message), rest, false)
      else Outcome(Accepted, Emplace(m, n, Nested(o.message)), rest, false)
  }

  /** ParseFromString: the stream must end exactly where a tag was expected. */
  predicate Accepts(reg: Registry, ty: Option<MessageType>, w: bytes)
    requires |w| < INT_MAX
  {
    var o := ParseFields(reg, ty, Whole(w), EMPTY_MESSAGE);
    o.status == Accepted && o.atEnd
  }

  function Parsed(reg: Registry, ty: Option<MessageType>, w: bytes): Message
    requires |w| < INT_MAX
  {
    ParseFields(reg, ty, Whole(w), EMPTY_MESSAGE).message
  }
}
