/** One wire behind another: what an accepted wire gives does not depend on the bytes behind
    it, as long as no length in it reaches past its end. */
module Concatenation {
  import opened Wire
  import opened Schema
  import opened Numeric
  import opened Messages
  import opened Parse
  import opened Groups
  import opened WireItems
  import opened Tokens
  import opened Laws

  /** `j` sees what `i` sees, and then `t`, `slack` before its limit; both are at the top level,
      where no limit has been pushed and there is room to push one. */
  predicate Extends(i: Input, j: Input, t: bytes, slack: nat) {
    && i.Valid() && j.Valid() && !i.bounded && !j.bounded
    && j.data == i.data + t && |i.data| < i.lim && j.lim == |j.data| + slack && slack > 0
  }

  lemma SkipExtends(i: Input, j: Input, t: bytes, slack: nat, k: nat)
    requires Extends(i, j, t, slack) && k <= |i.data|
    ensures Extends(i.Skip(k), j.Skip(k), t, slack)
  {
  }

  // -------------------------------------------------------------- the primitives

  lemma {:induction false} ScanExtends(s: bytes, t: bytes, room: nat)
    requires ScanVarint(s, room).ok
    ensures ScanVarint(s + t, room) == ScanVarint(s, room)
    decreases room
  {
    if s[0] >= 128 {
      ScanExtends(s[1..], t, room - 1);
      assert (s + t)[1..] == s[1..] + t;
    }
  }

  lemma VarintExtends(i: Input, j: Input, t: bytes, slack: nat)
    requires Extends(i, j, t, slack)
    ensures var r, q := ReadVarint32(i), ReadVarint32(j);
            r.ok ==> q.ok && q.value == r.value && Extends(r.rest, q.rest, t, slack)
    ensures var r, q := ReadVarint64(i), ReadVarint64(j);
            r.ok ==> q.ok && q.value == r.value && Extends(r.rest, q.rest, t, slack)
  {
    hide ScanVarint;
    var s := ScanVarint(i.data, MAX_VARINT_BYTES);
    if s.ok {
      ScanExtends(i.data, t, MAX_VARINT_BYTES);
      SkipExtends(i, j, t, slack, s.used);
    }
  }

  lemma LEExtends(i: Input, j: Input, t: bytes, slack: nat, width: nat)
    requires Extends(i, j, t, slack)
    ensures var r, q := ReadLE(i, width), ReadLE(j, width);
            r.ok ==> q.ok && q.value == r.value && Extends(r.rest, q.rest, t, slack)
  {
    hide DecodeLE;
    if width <= |i.data| {
      assert j.data[..width] == i.data[..width];
      SkipExtends(i, j, t, slack, width);
    }
  }

  lemma ContentExtends(i: Input, j: Input, t: bytes, slack: nat)
    requires Extends(i, j, t, slack)
    ensures var r, q := ReadLengthDelimited(i), ReadLengthDelimited(j);
            r.ok ==> q.ok && q.value == r.value && Extends(r.rest, q.rest, t, slack)
  {
    hide ReadVarint32;
    VarintExtends(i, j, t, slack);
    var r := ReadLengthDelimited(i);
    if r.ok {
      var n, m := ReadVarint32(i), ReadVarint32(j);
      assert m.rest.data[..n.value] == n.rest.data[..n.value];
      SkipExtends(n.rest, m.rest, t, slack, n.value);
    }
  }

  lemma TagExtends(i: Input, j: Input, t: bytes, slack: nat)
    requires Extends(i, j, t, slack) && ReadTag(i).tag != 0
    ensures ReadTag(j).tag == ReadTag(i).tag && Extends(ReadTag(i).rest, ReadTag(j).rest, t, slack)
  {
    hide ReadVarint32;
    VarintExtends(i, j, t, slack);
  }

  lemma NumberExtends(k: Kind, i: Input, j: Input, t: bytes, slack: nat)
    requires k.IsNumeric() && Extends(i, j, t, slack)
    ensures var r, q := ReadNumber(k, i), ReadNumber(k, j);
            r.ok ==> q.ok && q.value == r.value && Extends(r.rest, q.rest, t, slack)
  {
    hide ReadVarint32, ReadVarint64, ReadLE, Transform;
    VarintExtends(i, j, t, slack);
    LEExtends(i, j, t, slack, 4);
    LEExtends(i, j, t, slack, 8);
  }

  // --------------------------------------------------------------- unknown fields

  lemma {:induction false} UnknownExtends(tag: nat, i: Input, j: Input, t: bytes, slack: nat)
    requires Extends(i, j, t, slack)
    ensures var r, q := ReadUnknown(tag, i), ReadUnknown(tag, j);
            r.ok ==> q.ok && q.fields == r.fields && Extends(r.rest, q.rest, t, slack)
    decreases |i.data|, 1
  {
    hide ReadVarint64, ReadLE, ReadLengthDelimited, ReadGroup;
    match TagWireType(tag)
    case 0 => VarintExtends(i, j, t, slack);
    case 1 => LEExtends(i, j, t, slack, 8);
    case 2 => ContentExtends(i, j, t, slack);
    case 3 => GroupExtends(MakeTag(TagFieldNumber(tag), WIRETYPE_END_GROUP), i, j, t, slack);
    case 5 => LEExtends(i, j, t, slack, 4);
    case _ =>
  }

  lemma {:induction false} GroupExtends(endTag: nat, i: Input, j: Input, t: bytes, slack: nat)
    requires Extends(i, j, t, slack)
    ensures var r, q := ReadGroup(endTag, i), ReadGroup(endTag, j);
            r.ok ==> q.ok && q.fields == r.fields && Extends(r.rest, q.rest, t, slack)
    decreases |i.data|, 0
  {
    ExtendsIsValid(i, j, t, slack);
    hide ReadTag, ReadUnknown, Extends;
    if ReadGroup(endTag, i).ok {
      var a := ReadTag(i);
      TagExtends(i, j, t, slack);
      var b := ReadTag(j);
      if a.tag != endTag {
        ExtendsIsValid(a.rest, b.rest, t, slack);
        UnknownExtends(a.tag, a.rest, b.rest, t, slack);
        var one, other := ReadUnknown(a.tag, a.rest), ReadUnknown(a.tag, b.rest);
        GroupExtends(endTag, one.rest, other.rest, t, slack);
      }
    }
  }

  lemma ExtendsIsValid(i: Input, j: Input, t: bytes, slack: nat)
    requires Extends(i, j, t, slack)
    ensures i.Valid() && j.Valid()
  {
  }

  // ----------------------------------------------------------------------- fields

  /** The field read at `i` announces no length that reaches past the end of the data. Text and
      unknown fields that do are not accepted anyway. */
  predicate FieldIsFramed(f: Field, wireType: nat, i: Input)
    requires i.Valid()
  {
    f.kind == MessageValue || (!f.kind.IsText() && f.repeated && wireType == WIRETYPE_LENGTH_DELIMITED) ==>
      var length := ReadVarint32(i);
      length.ok ==> length.value <= |length.rest.data|
  }

  /** The same of every described field of a wire, at its top level. */
  predicate IsFramed(reg: Registry, ty: Option<MessageType>, i: Input)
    requires i.Valid()
    decreases |i.data|
  {
    var t := ReadTag(i);
    t.tag == 0 ||
    (var n := TagFieldNumber(t.tag);
     && (ty.Some? && n in Mapped(ty.value) ==> FieldIsFramed(Mapped(ty.value)[n], TagWireType(t.tag), t.rest))
     && var one := CutTagged(reg, ty, t.tag, t.rest);
        one.status == Accepted ==> IsFramed(reg, ty, one.rest))
  }

  /** A length that fits confines both readers to the same bytes. */
  lemma PushExtends(i: Input, j: Input, t: bytes, slack: nat, length: nat)
    requires Extends(i, j, t, slack) && length <= |i.data| && length <= INT_MAX
    ensures i.Push(length) == j.Push(length) == Input(i.data[..length], length, true)
  {
    assert j.data[..length] == i.data[..length];
  }

  lemma PopExtends(i: Input, j: Input, t: bytes, slack: nat, pushed: Input, inner: Input)
    requires Extends(i, j, t, slack) && |inner.data| <= |pushed.data| <= |i.data|
    ensures Extends(i.Pop(pushed, inner), j.Pop(pushed, inner), t, slack)
  {
    SkipExtends(i, j, t, slack, |pushed.data| - |inner.data|);
  }

  ghost predicate CutExtends(c: Cut, e: Cut, t: bytes, slack: nat) {
    e.status == c.status && e.items == c.items && !e.atEnd && !c.atEnd && Extends(c.rest, e.rest, t, slack)
  }

  lemma FieldExtends(reg: Registry, f: Field, n: nat, wireType: nat, i: Input, j: Input, t: bytes, slack: nat)
    requires Extends(i, j, t, slack) && |i.data| <= INT_MAX && FieldIsFramed(f, wireType, i)
    requires CutField(reg, f, n, wireType, i).status == Accepted
    ensures CutExtends(CutField(reg, f, n, wireType, i), CutField(reg, f, n, wireType, j), t, slack)
  {
    hide ReadVarint32, ReadNumber, ReadPacked, ReadLengthDelimited;
    if f.kind == MessageValue || (!f.kind.IsText() && f.repeated && wireType == WIRETYPE_LENGTH_DELIMITED) {
      VarintExtends(i, j, t, slack);
      var length, other := ReadVarint32(i), ReadVarint32(j);
      if length.ok {
        PushExtends(length.rest, other.rest, t, slack, length.value);
        var pushed := length.rest.Push(length.value);
        if f.kind == MessageValue {
          PopExtends(length.rest, other.rest, t, slack, pushed, CutFields(reg, reg.Find(f.embedded), pushed).rest);
        } else {
          PopExtends(length.rest, other.rest, t, slack, pushed, ReadPacked(f.kind, pushed).rest);
        }
      }
    } else if f.kind.IsText() {
      ContentExtends(i, j, t, slack);
    } else {
      NumberExtends(f.kind, i, j, t, slack);
    }
  }

  lemma TaggedExtends(reg: Registry, ty: Option<MessageType>, tag: nat, i: Input, j: Input, t: bytes, slack: nat)
    requires Extends(i, j, t, slack) && |i.data| <= INT_MAX && CutTagged(reg, ty, tag, i).status == Accepted
    requires ty.Some? && TagFieldNumber(tag) in Mapped(ty.value) ==>
               FieldIsFramed(Mapped(ty.value)[TagFieldNumber(tag)], TagWireType(tag), i)
    ensures CutExtends(CutTagged(reg, ty, tag, i), CutTagged(reg, ty, tag, j), t, slack)
  {
    hide CutField, ReadUnknown, FieldIsFramed, Extends, Mapped, Leaves;
    ExtendsIsValid(i, j, t, slack);
    var n := TagFieldNumber(tag);
    if ty.Some? && n in Mapped(ty.value) {
      FieldExtends(reg, Mapped(ty.value)[n], n, TagWireType(tag), i, j, t, slack);
    } else {
      UnknownExtends(tag, i, j, t, slack);
    }
  }

  /** An accepted, framed wire is cut into the same items when `t` follows, and cutting goes on
      with `t`. */
  lemma {:induction false} WireExtends(reg: Registry, ty: Option<MessageType>, i: Input, j: Input, t: bytes, slack: nat)
    requires Extends(i, j, t, slack) && |i.data| <= INT_MAX && IsFramed(reg, ty, i)
    requires CutFields(reg, ty, i).status == Accepted && CutFields(reg, ty, i).atEnd
    ensures var c, more := CutFields(reg, ty, i), CutFields(reg, ty, Input(t, |t| + slack, false));
            CutFields(reg, ty, j) == Cut(more.status, c.items + more.items, more.rest, more.atEnd)
    decreases |i.data|
  {
    hide CutTagged, ReadTag, FieldIsFramed;
    var a := ReadTag(i);
    if a.tag == 0 {
      assert j == Input(t, |t| + slack, false) by { assert [] + t == t; }
      assert [] + CutFields(reg, ty, j).items == CutFields(reg, ty, j).items;
    } else {
      TagExtends(i, j, t, slack);
      var b := ReadTag(j);
      TaggedExtends(reg, ty, a.tag, a.rest, b.rest, t, slack);
      var one, other := CutTagged(reg, ty, a.tag, a.rest), CutTagged(reg, ty, a.tag, b.rest);
      WireExtends(reg, ty, one.rest, other.rest, t, slack);
      var more := CutFields(reg, ty, Input(t, |t| + slack, false));
      assert one.items + CutFields(reg, ty, one.rest).items + more.items
          == one.items + (CutFields(reg, ty, one.rest).items + more.items);
    }
  }

  // -------------------------------------------------------------------- the merge

  /** Nothing follows: a framed wire is cut alike wherever it stands in a stream. */
  lemma CutAnywhere(reg: Registry, ty: Option<MessageType>, w: bytes, slack: nat)
    requires |w| < INT_MAX && slack > 0 && IsFramed(reg, ty, Whole(w))
    requires CutFields(reg, ty, Whole(w)).status == Accepted && CutFields(reg, ty, Whole(w)).atEnd
    ensures var c := CutFields(reg, ty, Input(w, |w| + slack, false));
            c.status == Accepted && c.atEnd && c.items == CutFields(reg, ty, Whole(w)).items
  {
    hide IsFramed;
    assert w + [] == w;
    WireExtends(reg, ty, Whole(w), Input(w, |w| + slack, false), [], slack);
    NothingLeft(reg, ty, slack);
    assert CutFields(reg, ty, Whole(w)).items + [] == CutFields(reg, ty, Whole(w)).items;
  }

  lemma NothingLeft(reg: Registry, ty: Option<MessageType>, slack: nat)
    ensures var c := CutFields(reg, ty, Input([], slack, false)); c.status == Accepted && c.atEnd && c.items == []
  {
  }

  lemma ConcatenationIsCut(reg: Registry, ty: Option<MessageType>, v: bytes, w: bytes)
    requires |v| + |w| < INT_MAX && IsFramed(reg, ty, Whole(v)) && IsFramed(reg, ty, Whole(w))
    requires Accepts(reg, ty, v) && Accepts(reg, ty, w)
    ensures var c := CutFields(reg, ty, Whole(v + w));
            && c.status == Accepted && c.atEnd
            && c.items == CutFields(reg, ty, Whole(v)).items + CutFields(reg, ty, Whole(w)).items
  {
    hide IsFramed, CutFields, ParseFields;
    ParseIsCutThenApply(reg, ty, Whole(v), EMPTY_MESSAGE);
    ParseIsCutThenApply(reg, ty, Whole(w), EMPTY_MESSAGE);
    var slack := INT_MAX - |v| - |w|;
    WireExtends(reg, ty, Whole(v), Whole(v + w), w, slack);
    CutAnywhere(reg, ty, w, slack);
  }

  /** The merge law for any two accepted wires in which no length reaches past the end, padded
      varints and mismatched wire types included. */
  lemma WiresMerge(reg: Registry, t: MessageType, v: bytes, w: bytes)
    requires WellFormedRegistry(reg) && WellFormedType(t) && |v| + |w| < INT_MAX
    requires IsFramed(reg, Some(t), Whole(v)) && IsFramed(reg, Some(t), Whole(w))
    requires Accepts(reg, Some(t), v) && Accepts(reg, Some(t), w)
    ensures Accepts(reg, Some(t), v + w)
    ensures Merges(t, Parsed(reg, Some(t), v), Parsed(reg, Some(t), w), Parsed(reg, Some(t), v + w))
  {
    hide IsFramed, CutFields, ParseFields, WellFormedType, WellFormedRegistry, Merges, ApplyAll, TypedAll;
    var ty := Some(t);
    ConcatenationIsCut(reg, ty, v, w);
    ParseIsCutThenApply(reg, ty, Whole(v), EMPTY_MESSAGE);
    ParseIsCutThenApply(reg, ty, Whole(w), EMPTY_MESSAGE);
    ParseIsCutThenApply(reg, ty, Whole(v + w), EMPTY_MESSAGE);
    CutIsTyped(reg, ty, Whole(v));
    CutIsTyped(reg, ty, Whole(w));
    ItemsMerge(reg, t, CutFields(reg, ty, Whole(v)).items, CutFields(reg, ty, Whole(w)).items);
  }

  // ----------------------------------------------------------- without the framing

  const NESTED_FIELD := Field(1, MessageValue, false, "E", false, "")
  const NUMBER_FIELD := Field(2, Int32Value, false, "", false, "")

  /** A message with a nested message, which describes no fields, and a number. */
  const OUTER: MessageType := [NESTED_FIELD, NUMBER_FIELD]

  /** A nested message that announces five bytes and has none, and a number. */
  const CUT_SHORT: bytes := [10, 5]
  const NUMBER: bytes := [16, 1]

  lemma OuterIsMapped()
    ensures Mapped(OUTER) == map[1 := NESTED_FIELD, 2 := NUMBER_FIELD]
  {
    assert OUTER[1..] == [NUMBER_FIELD] && OUTER[1..][1..] == [];
    assert Mapped([NUMBER_FIELD]) == map[2 := NUMBER_FIELD];
  }

  lemma ByteIsVarint(b: byte, rest: bytes, lim: nat, bounded: bool)
    requires b < 128 && |rest| < lim
    ensures ReadVarint32(Input([b] + rest, lim, bounded)) == Read(true, b, Input(rest, lim - 1, bounded))
    ensures ReadVarint64(Input([b] + rest, lim, bounded)) == Read(true, b, Input(rest, lim - 1, bounded))
    ensures ReadTag(Input([b] + rest, lim, bounded)) == Tag(b, false, Input(rest, lim - 1, bounded))
  {
    assert ([b] + rest)[1..] == rest;
  }

  lemma Ends(reg: Registry, ty: Option<MessageType>, lim: nat, bounded: bool)
    ensures CutFields(reg, ty, Input([], lim, bounded)) == Cut(Accepted, [], Input([], lim, bounded), true)
  {
  }

  /** Inside the nested message the number is an unknown field; alone it is the number. */
  lemma NumberIsCut(reg: Registry, ty: Option<MessageType>, lim: nat, bounded: bool)
    requires lim >= 2 && (ty == Some([]) || ty == Some(OUTER))
    ensures CutFields(reg, ty, Input(NUMBER, lim, bounded))
         == Cut(Accepted, [if ty == Some(OUTER) then One(2, Int32Value, 1) else Other(Group(2, [Leaf(UnknownVarint(2, 1))]))],
                Input([], lim - 2, bounded), true)
  {
    OuterIsMapped();
    assert NUMBER == [16] + [1] && [1] == [1] + [];
    ByteIsVarint(16, [1], lim, bounded);
    ByteIsVarint(1, [], lim - 1, bounded);
    Ends(reg, ty, lim - 2, bounded);
    hide ReadVarint32, ReadVarint64, ReadTag, ScanVarint, Mapped;
    var i := Input([1], lim - 1, bounded);
    if ty == Some(OUTER) {
      assert CutTagged(reg, ty, 16, i) == Cut(Accepted, [One(2, Int32Value, 1)], Input([], lim - 2, bounded), false);
    } else {
      assert 2 !in Mapped([]) by { EmptyIsMapped(); }
      assert ReadUnknown(16, i) == UnknownRead(true, [UnknownVarint(2, 1)], Input([], lim - 2, bounded));
      OneLeaf(UnknownVarint(2, 1));
    }
  }

  lemma EmptyIsMapped()
    ensures Mapped([]) == map[]
  {
  }

  lemma OneLeaf(u: Unknown)
    ensures Leaves([u]) == [Leaf(u)]
  {
  }

  /** The nested message takes whatever follows within its five bytes. */
  lemma ShortIsCut(reg: Registry, rest: bytes)
    requires rest == [] || rest == NUMBER
    requires reg.Find("E") == Some([])
    ensures var c := CutFields(reg, Some(OUTER), Whole(CUT_SHORT + rest));
            && c.status == Accepted && c.atEnd
            && c.items == [Sub(1, if rest == [] then [] else [Other(Group(2, [Leaf(UnknownVarint(2, 1))]))])]
  {
    OuterIsMapped();
    assert CUT_SHORT + rest == [10] + ([5] + rest);
    ByteIsVarint(10, [5] + rest, INT_MAX, false);
    ByteIsVarint(5, rest, INT_MAX - 1, false);
    var i, j := Input([5] + rest, INT_MAX - 1, false), Input(rest, INT_MAX - 2, false);
    assert j.Push(5) == Input(rest, 5, true);
    if rest == [] { Ends(reg, Some([]), 5, true); } else { NumberIsCut(reg, Some([]), 5, true); }
    hide ReadVarint32, ReadTag, ScanVarint, Mapped;
    var inner := CutFields(reg, Some([]), j.Push(5));
    assert j.Pop(j.Push(5), inner.rest) == Input([], INT_MAX - 2 - |rest|, false);
    assert CutTagged(reg, Some(OUTER), 10, i)
        == Cut(Accepted, [Sub(1, inner.items)], Input([], INT_MAX - 2 - |rest|, false), false);
    Ends(reg, Some(OUTER), INT_MAX - 2 - |rest|, false);
  }

  /** Both wires are accepted, and so is the one behind the other, but that has lost the number:
      the nested message that was cut short has taken it. */
  lemma ShortWireSwallows(reg: Registry)
    requires reg.Find("E") == Some([])
    ensures !IsFramed(reg, Some(OUTER), Whole(CUT_SHORT))
    ensures Accepts(reg, Some(OUTER), CUT_SHORT) && Accepts(reg, Some(OUTER), NUMBER) && Accepts(reg, Some(OUTER), CUT_SHORT + NUMBER)
    ensures !Merges(OUTER, Parsed(reg, Some(OUTER), CUT_SHORT), Parsed(reg, Some(OUTER), NUMBER),
                    Parsed(reg, Some(OUTER), CUT_SHORT + NUMBER))
  {
    hide *;
    ShortIsNotFramed(reg);
    ShortParses(reg, []);
    ShortParses(reg, NUMBER);
    NumberParses(reg);
    assert CUT_SHORT + [] == CUT_SHORT;
    NumberIsLost(reg);
  }

  lemma NumberIsLost(reg: Registry)
    requires 2 in Parsed(reg, Some(OUTER), NUMBER).values && 2 !in Parsed(reg, Some(OUTER), CUT_SHORT + NUMBER).values
    ensures !Merges(OUTER, Parsed(reg, Some(OUTER), CUT_SHORT), Parsed(reg, Some(OUTER), NUMBER),
                    Parsed(reg, Some(OUTER), CUT_SHORT + NUMBER))
  {
    OuterIsMapped();
    hide Mapped, Parsed;
    assert !MergesField(OUTER, Parsed(reg, Some(OUTER), CUT_SHORT), Parsed(reg, Some(OUTER), NUMBER),
                        Parsed(reg, Some(OUTER), CUT_SHORT + NUMBER), 2);
  }

  lemma ShortParses(reg: Registry, rest: bytes)
    requires rest == [] || rest == NUMBER
    requires reg.Find("E") == Some([])
    ensures Accepts(reg, Some(OUTER), CUT_SHORT + rest) && 2 !in Parsed(reg, Some(OUTER), CUT_SHORT + rest).values
  {
    var x := Sub(1, if rest == [] then [] else [Other(Group(2, [Leaf(UnknownVarint(2, 1))]))]);
    ShortIsCut(reg, rest);
    ParseIsCutThenApply(reg, Some(OUTER), Whole(CUT_SHORT + rest), EMPTY_MESSAGE);
    ApplyOne(reg, Some(OUTER), EMPTY_MESSAGE, x);
    OuterIsMapped();
    hide CutFields, ParseFields, Mapped, ApplyAll;
    assert 2 !in Apply(reg, Some(OUTER), EMPTY_MESSAGE, x).values;
  }

  lemma NumberParses(reg: Registry)
    ensures Accepts(reg, Some(OUTER), NUMBER) && 2 in Parsed(reg, Some(OUTER), NUMBER).values
  {
    NumberIsCut(reg, Some(OUTER), INT_MAX, false);
    ParseIsCutThenApply(reg, Some(OUTER), Whole(NUMBER), EMPTY_MESSAGE);
    ApplyOne(reg, Some(OUTER), EMPTY_MESSAGE, One(2, Int32Value, 1));
    OuterIsMapped();
    hide CutFields, ParseFields, Mapped, ApplyAll;
    assert 2 in Apply(reg, Some(OUTER), EMPTY_MESSAGE, One(2, Int32Value, 1)).values;
  }

  lemma ShortIsNotFramed(reg: Registry)
    ensures !IsFramed(reg, Some(OUTER), Whole(CUT_SHORT))
  {
    OuterIsMapped();
    assert CUT_SHORT == [10] + [5] && [5] == [5] + [];
    ByteIsVarint(10, [5], INT_MAX, false);
    ByteIsVarint(5, [], INT_MAX - 1, false);
    hide ReadVarint32, ReadTag, ScanVarint, Mapped;
    assert !FieldIsFramed(NESTED_FIELD, 2, Input([5], INT_MAX - 1, false));
  }
}
