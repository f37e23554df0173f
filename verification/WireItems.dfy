/** The wire as a sequence of items, and what parsing a sequence of items amounts to. */
module WireItems {
  import opened Wire
  import opened Schema
  import opened Numeric
  import opened Messages
  import opened Parse
  import opened Groups

  /** One tagged item: a number with its own tag, a packed chunk of numbers, a string or
      bytes value, a nested message, or something the description does not know. */
  datatype Item =
    | One(number: nat, kind: Kind, value: int)
    | Chunk(number: nat, kind: Kind, values: seq<int>)
    | Blob(number: nat, kind: Kind, content: bytes)
    | Sub(number: nat, items: seq<Item>)
    | Other(tree: Tree)

  function EncodeItem(it: Item): (s: bytes)
    decreases it, 0
  {
    match it
    case One(n, k, v) => if InRange(k, v) then EncodeTag(n, NaturalWireType(k)) + EncodeNumber(k, v) else []
    case Chunk(n, k, vs) => if AllInRange(k, vs) then LenDelim(n, EncodeNumbers(k, vs)) else []
    case Blob(n, _, s) => LenDelim(n, s)
    case Sub(n, items) => LenDelim(n, EncodeItems(items))
    case Other(t) => EncodeTree(t)
  }

  function EncodeItems(items: seq<Item>): (s: bytes)
    decreases items, 1
  {
    if items == [] then [] else EncodeItem(items[0]) + EncodeItems(items[1..])
  }

  /** The field number that the parser dispatches on. */
  function ItemNumber(it: Item): nat {
    match it
    case One(n, _, _) => n
    case Chunk(n, _, _) => n
    case Blob(n, _, _) => n
    case Sub(n, _) => n
    case Other(t) => TreeNumber(t)
  }

  /** The item suits the description `ty`: under a known number it carries what its field
      can hold, and only a number that is not known carries anything else. */
  predicate Typed(reg: Registry, ty: Option<MessageType>, it: Item)
    decreases it, 0, 1
  {
    if ty.Some? && ItemNumber(it) in Mapped(ty.value)
    then IsFieldNumber(ItemNumber(it)) && TypedField(reg, Mapped(ty.value)[ItemNumber(it)], it)
    else it.Other?
  }

  predicate TypedField(reg: Registry, f: Field, it: Item)
    decreases it, 0, 0
  {
    match it
    case One(_, k, v) => k == f.kind && InRange(k, v)
    case Chunk(_, k, vs) => k == f.kind && k.IsNumeric() && f.repeated && AllInRange(k, vs)
    case Blob(_, k, s) => k == f.kind && k.IsText() && ValidText(reg, k, s)
    case Sub(_, items) => f.kind == MessageValue && TypedAll(reg, reg.Find(f.embedded), items)
    case Other(_) => false
  }

  predicate TypedAll(reg: Registry, ty: Option<MessageType>, items: seq<Item>)
    decreases items, 1
  {
    forall it :: it in items ==> Typed(reg, ty, it)
  }

  /** Every length that the encoding mentions fits in an int, and unknown fields are within
      the ranges of the wire. */
  predicate Sized(it: Item)
    decreases it, 0
  {
    match it
    case One(_, _, _) => true
    case Chunk(_, k, vs) => AllInRange(k, vs) ==> |EncodeNumbers(k, vs)| <= INT_MAX
    case Blob(_, _, s) => |s| <= INT_MAX
    case Sub(_, items) => SizedAll(items) && |EncodeItems(items)| <= INT_MAX
    case Other(t) => WellFormedTree(t)
  }

  predicate SizedAll(items: seq<Item>)
    decreases items, 1
  {
    forall it :: it in items ==> Sized(it)
  }

  // --------------------------------------------------------------- denotation

  /** The effect of one item on a message under construction. */
  function Apply(reg: Registry, ty: Option<MessageType>, m: Message, it: Item): Message
    decreases it, 0
  {
    if ty.Some? && ItemNumber(it) in Mapped(ty.value) then
      var n := ItemNumber(it);
      var f := Mapped(ty.value)[n];
      var s := SelectMember(m, f);
      match it
      case One(_, k, v) => if f.repeated then AppendNumbers(s, n, k, [v]) else Emplace(s, n, Scalar(k, v))
      case Chunk(_, k, vs) => AppendNumbers(s, n, k, vs)
      case Blob(_, k, b) => if f.repeated then AppendText(s, n, k, b) else Emplace(s, n, Text(k, b))
      case Sub(_, items) =>
        var x := ApplyAll(reg, reg.Find(f.embedded), EMPTY_MESSAGE, items);
        if f.repeated then AppendMessage(s, n, x) else Emplace(s, n, Nested(x))
      case Other(_) => s
    else if it.Other? then AddUnknown(m, Flatten(it.tree))
    else m
  }

  function ApplyAll(reg: Registry, ty: Option<MessageType>, m: Message, items: seq<Item>): Message
    decreases items, 1
  {
    if items == [] then m else ApplyAll(reg, ty, Apply(reg, ty, m, items[0]), items[1..])
  }

  // ---------------------------------------------------- parsing is denotation

  /** PushLimit compares strictly, so a length needs room below the enclosing limit or an
      enclosing limit that was itself pushed. */
  predicate Roomy(i: Input) { i.Valid() && (i.bounded || i.lim > 0) }

  /** One turn of the parse loop, given what the tag and field reads return. */
  lemma ParseStep(reg: Registry, ty: Option<MessageType>, h: Input, m: Message, tag: nat, j: Input, k: Input, m': Message)
    requires h.Valid() && j.Valid() && k.Valid() && tag != 0
    requires ReadTag(h) == Tag(tag, false, j)
    requires ParseTagged(reg, ty, tag, j, m) == Outcome(Accepted, m', k, false)
    ensures ParseFields(reg, ty, h, m) == ParseFields(reg, ty, k, m')
  {
  }

  lemma NumberParses(f: Field, n: nat, v: int, i: Input, m: Message)
    requires i.Valid() && InRange(f.kind, v)
    ensures ParseNumericField(f, n, NaturalWireType(f.kind), Before(EncodeNumber(f.kind, v), i), m)
         == Outcome(Accepted, if f.repeated then AppendNumbers(m, n, f.kind, [v])
                              else Emplace(m, n, Scalar(f.kind, v)), i, false)
  {
    ReadNumberBefore(f.kind, v, i);
  }

  lemma ChunkParses(f: Field, n: nat, vs: seq<int>, i: Input, m: Message)
    requires Roomy(i) && f.kind.IsNumeric() && f.repeated && AllInRange(f.kind, vs)
    requires |EncodeNumbers(f.kind, vs)| <= INT_MAX
    ensures ParseNumericField(f, n, WIRETYPE_LENGTH_DELIMITED,
              Before(EncodeVarint(|EncodeNumbers(f.kind, vs)|) + EncodeNumbers(f.kind, vs), i), m)
         == Outcome(Accepted, AppendNumbers(m, n, f.kind, vs), i, false)
  {
    var s := EncodeNumbers(f.kind, vs);
    BeforeSplits(EncodeVarint(|s|), s, i);
    ReadLengthBefore(|s|, Before(s, i));
    PushBefore(s, i);
    ReadPackedInvertsEncode(f.kind, vs, Before(s, i).Push(|s|));
    SkipBefore(s, i);
  }

  lemma BlobParses(reg: Registry, f: Field, n: nat, s: bytes, i: Input, m: Message)
    requires i.Valid() && |s| <= INT_MAX && ValidText(reg, f.kind, s)
    ensures ParseTextField(reg, f, n, Before(EncodeVarint(|s|) + s, i), m)
         == Outcome(Accepted, if f.repeated then AppendText(m, n, f.kind, s)
                              else Emplace(m, n, Text(f.kind, s)), i, false)
  {
    ReadLengthDelimitedBefore(s, i);
  }

  lemma SubParses(reg: Registry, f: Field, n: nat, s: bytes, x: Message, i: Input, m: Message)
    requires Roomy(i) && |s| <= INT_MAX
    requires ParseFields(reg, reg.Find(f.embedded), Input(s, |s|, true), EMPTY_MESSAGE)
          == Outcome(Accepted, x, Input([], 0, true), true)
    ensures ParseMessageField(reg, f, n, Before(EncodeVarint(|s|) + s, i), m)
         == Outcome(Accepted, if f.repeated then AppendMessage(m, n, x) else Emplace(m, n, Nested(x)), i, false)
  {
    BeforeSplits(EncodeVarint(|s|), s, i);
    ReadLengthBefore(|s|, Before(s, i));
    PushBefore(s, i);
    SkipBefore(s, i);
  }

  /** The same for a known field, given what reading its payload does. */
  lemma KnownStep(reg: Registry, t: MessageType, n: nat, wireType: nat, h: Input, m: Message, j: Input, k: Input, m': Message)
    requires h.Valid() && j.Valid() && k.Valid() && n in Mapped(t) && IsFieldNumber(n) && wireType < 8
    requires ReadTag(h) == Tag(MakeTag(n, wireType), false, j)
    requires ParseField(reg, Mapped(t)[n], n, wireType, j, SelectMember(m, Mapped(t)[n])) == Outcome(Accepted, m', k, false)
    ensures ParseFields(reg, Some(t), h, m) == ParseFields(reg, Some(t), k, m')
  {
    TagParts(n, wireType);
    ParseStep(reg, Some(t), h, m, MakeTag(n, wireType), j, k, m');
  }

  lemma OneParses(reg: Registry, t: MessageType, n: nat, k: Kind, v: int, i: Input, m: Message)
    requires Roomy(i) && Typed(reg, Some(t), One(n, k, v))
    ensures ParseFields(reg, Some(t), Before(EncodeItem(One(n, k, v)), i), m)
         == ParseFields(reg, Some(t), i, Apply(reg, Some(t), m, One(n, k, v)))
  {
    var it, wireType, body := One(n, k, v), NaturalWireType(k), EncodeNumber(k, v);
    assert n in Mapped(t) by { assert ItemNumber(it) == n; }
    var f := Mapped(t)[n];
    BeforeSplits(EncodeTag(n, wireType), body, i);
    ReadTagBefore(n, wireType, Before(body, i));
    NumberParses(f, n, v, i, SelectMember(m, f));
    KnownStep(reg, t, n, wireType, Before(EncodeItem(it), i), m, Before(body, i), i, Apply(reg, Some(t), m, it));
  }

  /** A length-delimited field, given what reading its payload does. */
  lemma DelimitedParses(reg: Registry, t: MessageType, n: nat, s: bytes, i: Input, m: Message, m': Message)
    requires i.Valid() && n in Mapped(t) && IsFieldNumber(n)
    requires ParseField(reg, Mapped(t)[n], n, WIRETYPE_LENGTH_DELIMITED, Before(EncodeVarint(|s|) + s, i),
               SelectMember(m, Mapped(t)[n])) == Outcome(Accepted, m', i, false)
    ensures ParseFields(reg, Some(t), Before(LenDelim(n, s), i), m) == ParseFields(reg, Some(t), i, m')
  {
    LenDelimTag(n, s, i);
    KnownStep(reg, t, n, WIRETYPE_LENGTH_DELIMITED, Before(LenDelim(n, s), i), m, Before(EncodeVarint(|s|) + s, i), i, m');
  }

  lemma OtherTagged(reg: Registry, ty: Option<MessageType>, t: Tree, i: Input, m: Message)
    requires i.Valid() && Typed(reg, ty, Other(t))
    requires ReadUnknown(TreeTag(t), Before(EncodeBody(t), i)) == UnknownRead(true, Flatten(t), i)
    ensures ParseTagged(reg, ty, TreeTag(t), Before(EncodeBody(t), i), m)
         == Outcome(Accepted, Apply(reg, ty, m, Other(t)), i, false)
  {
    hide ReadUnknown, Flatten, EncodeBody, TreeTag, TagFieldNumber, Before, ParseField;
    TreeTagNumber(t);
  }

  lemma OtherIsTree(t: Tree, i: Input)
    requires i.Valid() && WellFormedTree(t)
    ensures EncodeItem(Other(t)) == EncodeTree(t) && TreeTag(t) != 0
    ensures Before(EncodeTree(t), i).Valid() && Before(EncodeBody(t), i).Valid()
  {
    hide EncodeTree, EncodeBody, WellFormedTree, TreeTag;
    EncodedTreeDerives(t);
  }

  lemma OtherParses(reg: Registry, ty: Option<MessageType>, t: Tree, i: Input, m: Message)
    requires i.Valid() && WellFormedTree(t) && Typed(reg, ty, Other(t))
    ensures ParseFields(reg, ty, Before(EncodeItem(Other(t)), i), m)
         == ParseFields(reg, ty, i, Apply(reg, ty, m, Other(t)))
  {
    hide *;
    OtherIsTree(t, i);
    EncodedTreeIsRead(t, i);
    OtherTagged(reg, ty, t, i, m);
    ParseStep(reg, ty, Before(EncodeTree(t), i), m, TreeTag(t), Before(EncodeBody(t), i), i, Apply(reg, ty, m, Other(t)));
  }

  /** Reading the encoding of a typed item applies the item, whatever was parsed
      before it and whatever bytes follow it. */
  lemma {:induction false} ItemParses(reg: Registry, ty: Option<MessageType>, it: Item, i: Input, m: Message)
    requires Roomy(i) && Typed(reg, ty, it) && Sized(it)
    ensures ParseFields(reg, ty, Before(EncodeItem(it), i), m)
         == ParseFields(reg, ty, i, Apply(reg, ty, m, it))
    decreases it, 0
  {
    match it
    case Other(t) => OtherParses(reg, ty, t, i, m);
    case One(n, k, v) => OneParses(reg, ty.value, n, k, v, i, m);
    case Chunk(n, k, vs) =>
      var f := Mapped(ty.value)[n];
      ChunkParses(f, n, vs, i, SelectMember(m, f));
      DelimitedParses(reg, ty.value, n, EncodeNumbers(k, vs), i, m, Apply(reg, ty, m, it));
    case Blob(n, k, s) =>
      var f := Mapped(ty.value)[n];
      BlobParses(reg, f, n, s, i, SelectMember(m, f));
      DelimitedParses(reg, ty.value, n, s, i, m, Apply(reg, ty, m, it));
    case Sub(n, items) =>
      var f := Mapped(ty.value)[n];
      var s, e := EncodeItems(items), Input([], 0, true);
      var nested := reg.Find(f.embedded);
      ItemsParse(reg, nested, items, e, EMPTY_MESSAGE);
      BeforeEnd(s);
      SubParses(reg, f, n, s, ApplyAll(reg, nested, EMPTY_MESSAGE, items), i, SelectMember(m, f));
      DelimitedParses(reg, ty.value, n, s, i, m, Apply(reg, ty, m, it));
  }

  lemma BeforeEnd(s: bytes)
    ensures Before(s, Input([], 0, true)) == Input(s, |s|, true)
  {
    assert s + [] == s;
  }

  lemma LenDelimTag(n: nat, s: bytes, i: Input)
    requires i.Valid() && IsFieldNumber(n)
    ensures var t := MakeTag(n, WIRETYPE_LENGTH_DELIMITED);
            && ReadTag(Before(LenDelim(n, s), i)) == Tag(t, false, Before(EncodeVarint(|s|) + s, i))
            && t != 0 && TagFieldNumber(t) == n && TagWireType(t) == WIRETYPE_LENGTH_DELIMITED
  {
    var head, body := EncodeTag(n, WIRETYPE_LENGTH_DELIMITED), EncodeVarint(|s|) + s;
    assert LenDelim(n, s) == head + body;
    BeforeSplits(head, body, i);
    ReadTagBefore(n, WIRETYPE_LENGTH_DELIMITED, Before(body, i));
  }

  /** The same for a sequence of items in any order and number. */
  lemma {:induction false} ItemsParse(reg: Registry, ty: Option<MessageType>, items: seq<Item>, i: Input, m: Message)
    requires Roomy(i) && TypedAll(reg, ty, items) && SizedAll(items)
    ensures ParseFields(reg, ty, Before(EncodeItems(items), i), m)
         == ParseFields(reg, ty, i, ApplyAll(reg, ty, m, items))
    decreases items, 1
  {
    if items == [] {
      assert Before([], i) == i by { assert [] + i.data == i.data; }
    } else {
      var rest := EncodeItems(items[1..]);
      BeforeSplits(EncodeItem(items[0]), rest, i);
      ItemParses(reg, ty, items[0], Before(rest, i), m);
      ItemsParse(reg, ty, items[1..], i, Apply(reg, ty, m, items[0]));
    }
  }

  /** Parsing a whole string of items from a fresh message gives their denotation. */
  lemma WireMeaning(reg: Registry, ty: Option<MessageType>, items: seq<Item>)
    requires TypedAll(reg, ty, items) && SizedAll(items) && |EncodeItems(items)| < INT_MAX
    ensures Accepts(reg, ty, EncodeItems(items))
    ensures Parsed(reg, ty, EncodeItems(items)) == ApplyAll(reg, ty, EMPTY_MESSAGE, items)
  {
    var w := EncodeItems(items);
    var end := Input([], INT_MAX - |w|, false);
    assert Before(w, end) == Whole(w);
    ItemsParse(reg, ty, items, end, EMPTY_MESSAGE);
  }

  // ------------------------------------------------------------- sequences of items

  lemma {:induction false} EncodeItemsAppend(a: seq<Item>, b: seq<Item>)
    ensures EncodeItems(a + b) == EncodeItems(a) + EncodeItems(b)
  {
    if a == [] {
      assert a + b == b;
    } else {
      assert (a + b)[1..] == a[1..] + b;
      EncodeItemsAppend(a[1..], b);
      assert EncodeItem(a[0]) + (EncodeItems(a[1..]) + EncodeItems(b))
          == EncodeItem(a[0]) + EncodeItems(a[1..]) + EncodeItems(b);
    }
  }

  lemma {:induction false} ApplyAllAppend(reg: Registry, ty: Option<MessageType>, m: Message, a: seq<Item>, b: seq<Item>)
    ensures ApplyAll(reg, ty, m, a + b) == ApplyAll(reg, ty, ApplyAll(reg, ty, m, a), b)
    decreases a
  {
    if a == [] {
      assert a + b == b;
    } else {
      assert (a + b)[1..] == a[1..] + b;
      ApplyAllAppend(reg, ty, Apply(reg, ty, m, a[0]), a[1..], b);
    }
  }
}
