/** LVMessage: the object that parses itself from a coded stream, field by field. */
module LVMessages {
  import opened Wire
  import opened Schema
  import Numeric
  import opened Messages
  import opened Parse
  import opened SliceStream
  import opened CodedStream

  class LVMessage {
    const registry: Registry
    const metadata: Option<MessageType>
    var values: map<int, Value>
    var oneofContainerToSelectedIndexMap: map<string, int>
    var unknownFields: seq<Unknown>

    ghost function Contents(): Message
      reads this
    {
      Message(values, oneofContainerToSelectedIndexMap, unknownFields)
    }

    constructor (registry: Registry, metadata: Option<MessageType>)
      ensures Contents() == EMPTY_MESSAGE && this.registry == registry && this.metadata == metadata
    {
      this.registry, this.metadata := registry, metadata;
      values, oneofContainerToSelectedIndexMap, unknownFields := map[], map[], [];
    }

    method Clear()
      modifies this
      ensures Contents() == EMPTY_MESSAGE
    {
      values, oneofContainerToSelectedIndexMap, unknownFields := map[], map[], [];
    }

    /** Whatever the slices, the outcome is that of parsing their concatenation. Where a tag
        inside a nested message is broken, parsing goes on behind the bytes that the failed
        varint has used up; that the library uses them up whatever the slices is assumed. */
    method ParseFromByteBuffer(slices: seq<bytes>) returns (status: Status, ok: bool)
      requires |Flatten(slices)| < INT_MAX
      modifies this
      ensures ok <==> Accepts(registry, metadata, Flatten(slices))
      ensures ok ==> Contents() == Parsed(registry, metadata, Flatten(slices))
      ensures status == ParseFields(registry, metadata, Whole(Flatten(slices)), EMPTY_MESSAGE).status
    {
      Clear();
      var source := new MultiSliceInputStream(slices);
      var input := new CodedInputStream(source);
      status := ParseFromCodedStream(input);
      ok := status == Accepted && input.legitimateEnd;
    }

    /** Does not clear: what is parsed is added to what the message holds. */
    method ParseFromString(data: bytes) returns (status: Status, ok: bool)
      requires |data| < INT_MAX
      modifies this
      ensures var o := ParseFields(registry, metadata, Whole(data), old(Contents()));
              && status == o.status && (ok <==> o.status == Accepted && o.atEnd)
              && (status == Accepted ==> Contents() == o.message)
    {
      var source := new MultiSliceInputStream([data]);
      OneSlice(data);
      var input := new CodedInputStream(source);
      status := ParseFromCodedStream(input);
      ok := status == Accepted && input.legitimateEnd;
    }

    lemma OneSlice(data: bytes)
      ensures Flatten([data]) == data
    {
      assert data + [] == data;
    }

    method ParseFromCodedStream(input: CodedInputStream) returns (status: Status)
      requires input.Valid() && !input.legitimateEnd
      modifies this, input, input.source
      ensures input.Valid() && input.limit <= old(input.limit)
      ensures var o := ParseFields(registry, metadata, old(input.In()), old(Contents()));
              && status == o.status
              && (status == Accepted ==> Contents() == o.message && input.legitimateEnd == o.atEnd
                                         && input.In() == o.rest && input.limit == old(input.limit))
      decreases |input.In().data|, 2
    {
      hide At, Parse.ParseTagged, Wire.ReadTag;
      ghost var first, before := input.In(), Contents();
      var tag := input.ReadTag();
      ghost var i, m := first, before;
      while tag != 0
        invariant input.Valid() && i.Valid() && |i.data| <= |first.data|
        invariant input.limit == old(input.limit) && Contents() == m
        invariant ParseFields(registry, metadata, first, before) == ParseFields(registry, metadata, i, m)
        invariant var t := Wire.ReadTag(i);
                  tag == t.tag && input.In() == t.rest && input.legitimateEnd == t.atEnd && |t.rest.data| <= |i.data|
                  && (tag != 0 ==> |t.rest.data| < |i.data| && !t.atEnd)
        decreases |i.data|
      {
        status := ParseTagged(input, tag);
        if status != Accepted {
          return;
        }
        ghost var o := Parse.ParseTagged(registry, metadata, tag, Wire.ReadTag(i).rest, m);
        i, m := input.In(), Contents();
        tag := input.ReadTag();
      }
      return Accepted;
    }

    /** The body of the parse loop: a described field, or an unknown one. */
    method ParseTagged(input: CodedInputStream, tag: nat) returns (status: Status)
      requires input.Valid() && !input.legitimateEnd
      modifies this, input, input.source
      ensures input.Valid() && input.limit <= old(input.limit)
      ensures var o := Parse.ParseTagged(registry, metadata, tag, old(input.In()), old(Contents()));
              && status == o.status
              && (status == Accepted ==> Contents() == o.message && !input.legitimateEnd
                                         && input.In() == o.rest && input.limit == old(input.limit))
      decreases |input.In().data|, 4
    {
      hide At, Parse.ReadUnknown, Parse.ParseField;
      var fieldNumber := TagFieldNumber(tag);
      if metadata.Some? && fieldNumber in Mapped(metadata.value) {
        var fieldInfo := Mapped(metadata.value)[fieldNumber];
        if fieldInfo.inOneof {
          if fieldInfo.container in oneofContainerToSelectedIndexMap {
            values := values - {oneofContainerToSelectedIndexMap[fieldInfo.container]};
          }
          oneofContainerToSelectedIndexMap := oneofContainerToSelectedIndexMap[fieldInfo.container := fieldInfo.number];
        }
        assert Contents() == SelectMember(old(Contents()), fieldInfo);
        status := ParseField(input, fieldInfo, fieldNumber, TagWireType(tag));
      } else {
        var ok := HandleUnknownField(input, tag);
        status := if ok then Accepted else Rejected;
      }
    }

    /** Stores the field, or the leaf fields of the group, that `tag` opens. */
    method HandleUnknownField(input: CodedInputStream, tag: nat) returns (ok: bool)
      requires input.Valid() && !input.legitimateEnd
      modifies this`unknownFields, input, input.source
      ensures input.Valid() && input.limit == old(input.limit)
      ensures var u := ReadUnknown(tag, old(input.In()));
              && ok == u.ok && input.In() == u.rest
              && (ok ==> unknownFields == old(unknownFields) + u.fields && !input.legitimateEnd)
      decreases |input.In().data|, 1
    {
      hide At, Wire.ReadVarint64, Wire.ReadLE, Wire.ReadLengthDelimited, ReadGroup;
      var fieldNumber, wireType := TagFieldNumber(tag), TagWireType(tag);
      if wireType == WIRETYPE_VARINT {
        var value;
        ok, value := input.ReadVarint64();
        if ok { unknownFields := unknownFields + [UnknownVarint(fieldNumber, value)]; }
      } else if wireType == WIRETYPE_FIXED64 {
        var value;
        ok, value := input.ReadLittleEndian(8);
        if ok { unknownFields := unknownFields + [UnknownFixed64(fieldNumber, value)]; }
      } else if wireType == WIRETYPE_LENGTH_DELIMITED {
        var value;
        ok, value := input.ReadLengthDelimited();
        if ok { unknownFields := unknownFields + [UnknownLengthDelimited(fieldNumber, value)]; }
      } else if wireType == WIRETYPE_START_GROUP {
        ok := HandleGroup(input, MakeTag(fieldNumber, WIRETYPE_END_GROUP));
      } else if wireType == WIRETYPE_FIXED32 {
        var value;
        ok, value := input.ReadLittleEndian(4);
        if ok { unknownFields := unknownFields + [UnknownFixed32(fieldNumber, value)]; }
      } else {
        ok := false;
      }
    }

    /** The loop of a group: fields until the end tag. */
    method HandleGroup(input: CodedInputStream, endTag: nat) returns (ok: bool)
      requires input.Valid() && !input.legitimateEnd
      modifies this`unknownFields, input, input.source
      ensures input.Valid() && input.limit == old(input.limit)
      ensures var u := ReadGroup(endTag, old(input.In()));
              && ok == u.ok && input.In() == u.rest
              && (ok ==> unknownFields == old(unknownFields) + u.fields && !input.legitimateEnd)
      decreases |input.In().data|, 0
    {
      hide At, ReadUnknown, ReadGroup, Wire.ReadTag, CodedInputStream.Valid;
      ghost var whole := ReadGroup(endTag, input.In());
      ghost var seen: seq<Unknown> := [];
      while true
        invariant input.Valid() && !input.legitimateEnd && input.limit == old(input.limit)
        invariant |input.In().data| <= |old(input.In()).data|
        invariant unknownFields == old(unknownFields) + seen
        invariant var r := ReadGroup(endTag, input.In());
                  whole.ok == r.ok && whole.rest == r.rest && whole.fields == seen + r.fields
        decreases |input.In().data|
      {
        GroupUnfolds(endTag, input.In());
        var innerTag := input.ReadTag();
        if innerTag == 0 {
          return false;
        }
        if innerTag == endTag {
          return true;
        }
        ghost var one := ReadUnknown(innerTag, input.In());
        ok := HandleUnknownField(input, innerTag);
        if !ok {
          return false;
        }
        assert seen + (one.fields + ReadGroup(endTag, one.rest).fields) == seen + one.fields + ReadGroup(endTag, one.rest).fields;
        seen := seen + one.fields;
      }
    }

    lemma GroupUnfolds(endTag: nat, i: Input)
      requires i.Valid()
      ensures var t := Wire.ReadTag(i); var whole := ReadGroup(endTag, i);
              if t.tag == 0 then whole == UnknownRead(false, [], t.rest)
              else if t.tag == endTag then whole == UnknownRead(true, [], t.rest)
              else
                var one := ReadUnknown(t.tag, t.rest);
                if !one.ok then !whole.ok && whole.rest == one.rest
                else
                  var more := ReadGroup(endTag, one.rest);
                  whole == UnknownRead(more.ok, one.fields + more.fields, more.rest)
    {
    }

    method ParseField(input: CodedInputStream, fieldInfo: Field, fieldNumber: nat, wireType: nat) returns (status: Status)
      requires input.Valid() && !input.legitimateEnd
      modifies this, input, input.source
      ensures input.Valid() && input.limit <= old(input.limit)
      ensures var o := Parse.ParseField(registry, fieldInfo, fieldNumber, wireType, old(input.In()), old(Contents()));
              && status == o.status
              && (status == Accepted ==> Contents() == o.message && !input.legitimateEnd
                                         && input.In() == o.rest && input.limit == old(input.limit))
      decreases |input.In().data|, 3
    {
      hide At, Parse.ParseMessageField, Parse.ParseTextField, Parse.ParseNumericField;
      if fieldInfo.kind == MessageValue {
        status := this.ParseMessageField(input, fieldInfo, fieldNumber);
      } else if fieldInfo.kind.IsText() {
        status := this.ParseTextField(input, fieldInfo, fieldNumber);
      } else {
        status := ParseNumericField(input, fieldInfo, fieldNumber, wireType);
      }
    }

    method ParseNumericField(input: CodedInputStream, fieldInfo: Field, fieldNumber: nat, wireType: nat)
      returns (status: Status)
      requires input.Valid() && !input.legitimateEnd && fieldInfo.kind.IsNumeric()
      modifies this, input, input.source
      ensures input.Valid() && input.limit <= old(input.limit)
      ensures var o := Parse.ParseNumericField(fieldInfo, fieldNumber, wireType, old(input.In()), old(Contents()));
              && status == o.status
              && (status == Accepted ==> Contents() == o.message && !input.legitimateEnd
                                         && input.In() == o.rest && input.limit == old(input.limit))
    {
      hide At, Wire.ReadVarint32, Numeric.ReadNumber, Numeric.ReadPacked;
      var kind := fieldInfo.kind;
      if fieldInfo.repeated && wireType == WIRETYPE_LENGTH_DELIMITED {
        var ok, length := input.ReadVarint32();
        if !ok {
          return Rejected;
        }
        ghost var p := input.position;
        var outer := input.PushLimit(length);
        ghost var inner := input.limit;
        ok := AppendPacked(input, kind, fieldNumber);
        if !ok {
          return Rejected;
        }
        ghost var q := input.position;
        input.PopLimit(outer);
        PopRestores(input.all, p, outer, inner, q);
        return Accepted;
      }
      var ok, v := input.ReadNumber(kind);
      if !ok {
        return Rejected;
      }
      if fieldInfo.repeated {
        var prior := if fieldNumber in values && values[fieldNumber].Packed? then values[fieldNumber].numbers else [];
        values := values[fieldNumber := Packed(kind, prior + [v])];
      } else if fieldNumber !in values {
        values := values[fieldNumber := Scalar(kind, v)];
      }
      return Accepted;
    }

    /** Adds numbers to the field until the limit is reached. */
    method AppendPacked(input: CodedInputStream, kind: Kind, fieldNumber: nat) returns (ok: bool)
      requires input.Valid() && !input.legitimateEnd && kind.IsNumeric()
      modifies this`values, input`buffer, input`bufferPos, input`position, input.source
      ensures input.Valid()
      ensures var r := Numeric.ReadPacked(kind, old(input.In()));
              && ok == r.ok
              && (ok ==> Contents() == AppendNumbers(old(Contents()), fieldNumber, kind, r.value) && input.In() == r.rest)
    {
      hide At, Numeric.ReadNumber, Numeric.ReadPacked, CodedInputStream.Valid, AppendNumbers, Numeric.PackedSoFar;
      var v := if fieldNumber in values && values[fieldNumber].Packed? then values[fieldNumber].numbers else [];
      ghost var prior, start := v, values;
      values := values[fieldNumber := Packed(kind, v)];
      ghost var whole := Numeric.ReadPacked(kind, input.In());
      Numeric.PackedStarts(kind, input.In());
      ghost var read: seq<int> := [];
      var more := input.HasBytesUntilLimit();
      while more
        invariant input.Valid() && |input.In().data| <= |old(input.In()).data|
        invariant more == input.In().BytesUntilLimit()
        invariant v == prior + read && values == start[fieldNumber := Packed(kind, v)]
        invariant Numeric.PackedSoFar(kind, whole, read, input.In())
        decreases |input.In().data|
      {
        ghost var here := input.In();
        var x;
        ok, x := input.ReadNumber(kind);
        Numeric.PackedGoesOn(kind, whole, read, here);
        if !ok {
          return;
        }
        v := v + [x];
        values := values[fieldNumber := Packed(kind, v)];
        Replaced(start, fieldNumber, Packed(kind, prior + read), Packed(kind, v));
        read := read + [x];
        more := input.HasBytesUntilLimit();
      }
      Numeric.PackedStops(kind, whole, read, input.In());
      Appended(old(Contents()), fieldNumber, kind, read);
      return true;
    }

    lemma Replaced(m: map<int, Value>, n: int, x: Value, y: Value)
      ensures m[n := x][n := y] == m[n := y]
    {
    }

    lemma Appended(m: Message, n: int, kind: Kind, xs: seq<int>)
      ensures var prior := if n in m.values && m.values[n].Packed? then m.values[n].numbers else [];
              AppendNumbers(m, n, kind, xs) == m.(values := m.values[n := Packed(kind, prior + xs)])
    {
    }

    lemma LengthAt(all: bytes, p: nat, lim: int)
      requires p <= |all| && p <= lim
      ensures |At(all, p, lim).data| == Min(lim, |all|) - p
    {
    }

    /** Popping the limit resumes after what was read below it. */
    lemma PopRestores(all: bytes, p: nat, limit: int, inner: int, q: nat)
      requires p <= |all| && q <= |all| && p <= inner <= limit && q <= inner
      requires |At(all, q, inner).data| <= |At(all, p, inner).data|
      ensures |At(all, p, inner).data| <= |At(all, p, limit).data|
      ensures At(all, p, limit).Pop(At(all, p, inner), At(all, q, inner)) == At(all, q, limit)
    {
      LengthAt(all, p, inner);
      LengthAt(all, q, inner);
      PopAtPushed(all, p, limit, inner, q);
    }

    /** String and bytes fields: one element per occurrence. */
    method ParseTextField(input: CodedInputStream, fieldInfo: Field, fieldNumber: nat) returns (status: Status)
      requires input.Valid() && !input.legitimateEnd
      modifies this`values, input`buffer, input`bufferPos, input`position, input.source
      ensures input.Valid() && input.limit <= old(input.limit)
      ensures var o := Parse.ParseTextField(registry, fieldInfo, fieldNumber, old(input.In()), old(Contents()));
              && status == o.status
              && (status == Accepted ==> Contents() == o.message && !input.legitimateEnd
                                         && input.In() == o.rest && input.limit == old(input.limit))
    {
      hide At, Wire.ReadLengthDelimited;
      var ok, value := input.ReadLengthDelimited();
      if !ok {
        return Rejected;
      }
      if fieldInfo.kind == StringValue && !registry.validUtf8(value) {
        return Threw;
      }
      if fieldInfo.repeated {
        var prior := if fieldNumber in values && values[fieldNumber].Texts? then values[fieldNumber].texts else [];
        values := values[fieldNumber := Texts(fieldInfo.kind, prior + [value])];
      } else if fieldNumber !in values {
        values := values[fieldNumber := Text(fieldInfo.kind, value)];
      }
      return Accepted;
    }

    /** A nested message: its own object parses up to the pushed limit. */
    method ParseMessageField(input: CodedInputStream, fieldInfo: Field, fieldNumber: nat) returns (status: Status)
      requires input.Valid() && !input.legitimateEnd
      modifies this, input, input.source
      ensures input.Valid() && input.limit <= old(input.limit)
      ensures var o := Parse.ParseMessageField(registry, fieldInfo, fieldNumber, old(input.In()), old(Contents()));
              && status == o.status
              && (status == Accepted ==> Contents() == o.message && !input.legitimateEnd
                                         && input.In() == o.rest && input.limit == old(input.limit))
      decreases |input.In().data|, 1
    {
      hide At, Wire.ReadVarint32, Parse.ParseFields;
      var nested;
      status, nested := ParseNested(input, fieldInfo);
      if status != Accepted {
        return;
      }
      if fieldInfo.repeated {
        var prior := if fieldNumber in values && values[fieldNumber].NestedList? then values[fieldNumber].messages else [];
        values := values[fieldNumber := NestedList(prior + [nested])];
      } else if fieldNumber !in values {
        values := values[fieldNumber := Nested(nested)];
      }
    }

    /** The length, the nested object's own parse below that limit, and the limit restored. */
    method ParseNested(input: CodedInputStream, fieldInfo: Field) returns (status: Status, nested: Message)
      requires input.Valid() && !input.legitimateEnd
      modifies input, input.source
      ensures input.Valid() && input.limit <= old(input.limit)
      ensures var length := Wire.ReadVarint32(old(input.In()));
              if !length.ok then status == Rejected
              else
                var pushed := length.rest.Push(length.value);
                var o := Parse.ParseFields(registry, registry.Find(fieldInfo.embedded), pushed, EMPTY_MESSAGE);
                && status == o.status
                && (status == Accepted ==>
                      nested == o.message && !input.legitimateEnd && input.limit == old(input.limit)
                      && input.In() == length.rest.Pop(pushed, o.rest))
      decreases |input.In().data|, 0
    {
      hide At, Wire.ReadVarint32, Parse.ParseFields;
      nested := EMPTY_MESSAGE;
      var ok, length := input.ReadVarint32();
      if !ok {
        return Rejected, nested;
      }
      ghost var p := input.position;
      var outer := input.PushLimit(length);
      ghost var inner := input.limit;
      var nestedMessage := new LVMessage(registry, registry.Find(fieldInfo.embedded));
      status := nestedMessage.ParseFromCodedStream(input);
      if status != Accepted {
        return;
      }
      ghost var q := input.position;
      input.PopLimit(outer);
      PopRestores(input.all, p, outer, inner, q);
      nested := Message(nestedMessage.values, nestedMessage.oneofContainerToSelectedIndexMap, nestedMessage.unknownFields);
    }
  }
}
