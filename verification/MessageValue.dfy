/** The value objects of an outgoing message, with the byte-size caches that the size pass
    leaves behind for the writing pass. */
module MessageValue {
  import opened Wire
  import opened Schema
  import opened Numeric
  import opened Messages

  class CodedOutputStream {
    var written: bytes

    constructor ()
      ensures written == []
    {
      written := [];
    }

    method Write(s: bytes)
      modifies this
      ensures written == old(written) + s
    {
      written := written + s;
    }

    method WriteTag(n: nat, wireType: nat)
      modifies this
      ensures written == old(written) + EncodeTag(n, wireType)
    {
      Write(EncodeTag(n, wireType));
    }

    /** The size is cast to an unsigned 32-bit number. */
    method WriteVarint32(size: nat)
      modifies this
      ensures written == old(written) + EncodeVarint(size % TWO_32)
    {
      Write(EncodeVarint(size % TWO_32));
    }
  }

  /** Only these kinds of packed field keep the payload size between the passes; the others
      have fixed-width elements and multiply. */
  predicate CachesDataSize(k: Kind) {
    k.IsNumeric() && (Form(k).Varint32? || Form(k).Varint64?) && k != BoolValue
  }

  lemma CachingKinds(k: Kind)
    ensures CachesDataSize(k) <==> k in {Int32Value, Int64Value, UInt32Value, UInt64Value, EnumValue, SInt32Value, SInt64Value}
  {
  }

  /** A value without nested messages whose numbers are in range, as C++ types enforce. */
  predicate Representable(v: Value) {
    match v
    case Scalar(k, x) => InRange(k, x)
    case Packed(k, xs) => k.IsNumeric() && AllInRange(k, xs)
    case Text(_, _) | Texts(_, _) => true
    case Nested(_) | NestedList(_) => false
  }

  datatype Payload =
    | Plain(value: Value)
    | Sub(message: OutgoingMessage)
    | SubList(messages: seq<OutgoingMessage>)

  const NOT_COMPUTED := -1

  /** The three caches of a value, and those of a whole graph at one moment. */
  datatype Caches = Caches(dataSize: int, nested: int, sizes: seq<nat>)

  type Snapshot = map<LVMessageValue, Caches>

  class LVMessageValue {
    const protobufId: nat
    var payload: Payload
    var cachedDataSize: int
    var cachedNestedByteSize: int
    var cachedNestedByteSizes: seq<nat>

    /** The value held, nested messages included, and every value object at or below this one. */
    ghost var content: Value
    ghost var repr: set<LVMessageValue>

    constructor (protobufId: nat, value: Value)
      requires Representable(value)
      ensures this.protobufId == protobufId && payload == Plain(value) && content == value && repr == {this}
      ensures IsCold()
    {
      this.protobufId, payload := protobufId, Plain(value);
      cachedDataSize, cachedNestedByteSize, cachedNestedByteSizes := NOT_COMPUTED, NOT_COMPUTED, [];
      content, repr := value, {this};
    }

    constructor Singular(protobufId: nat, message: OutgoingMessage)
      ensures this.protobufId == protobufId && payload == Sub(message)
      ensures content == Nested(message.content) && repr == {this} + message.repr
      ensures IsCold()
    {
      this.protobufId, payload := protobufId, Sub(message);
      cachedDataSize, cachedNestedByteSize, cachedNestedByteSizes := NOT_COMPUTED, NOT_COMPUTED, [];
      content := Nested(message.content);
      new;
      repr := {this} + message.repr;
    }

    constructor Repeated(protobufId: nat, messages: seq<OutgoingMessage>)
      ensures this.protobufId == protobufId && payload == SubList(messages)
      ensures content.NestedList? && |content.messages| == |messages|
      ensures forall i :: 0 <= i < |messages| ==> content.messages[i] == messages[i].content && messages[i].repr <= repr
      ensures forall w :: w in repr <==> w == this || exists i :: 0 <= i < |messages| && w in messages[i].repr
      ensures IsCold()
    {
      this.protobufId, payload := protobufId, SubList(messages);
      cachedDataSize, cachedNestedByteSize, cachedNestedByteSizes := NOT_COMPUTED, NOT_COMPUTED, [];
      content := NestedList(seq(|messages|, i requires 0 <= i < |messages| reads messages => messages[i].content));
      new;
      repr := {this} + set i, w | 0 <= i < |messages| && w in messages[i].repr :: w;
    }

    /** No size has been computed. */
    ghost predicate IsCold()
      reads this`cachedDataSize, this`cachedNestedByteSize, this`cachedNestedByteSizes
    {
      cachedDataSize == cachedNestedByteSize == NOT_COMPUTED && cachedNestedByteSizes == []
    }

    /** The content describes the payload, and nothing below is this object again. */
    ghost predicate Agrees(msgs: set<OutgoingMessage>)
      reads this`payload, this`content, this`repr, msgs`content, msgs`repr
    {
      && this in repr
      && match payload
         case Plain(v) => v == content && Representable(v) && repr == {this}
         case Sub(m) => m in msgs && content == Nested(m.content) && this !in m.repr && repr == {this} + m.repr
         case SubList(ms) =>
           && content.NestedList? && |content.messages| == |ms|
           && (forall i :: 0 <= i < |ms| ==>
                 ms[i] in msgs && content.messages[i] == ms[i].content && ms[i].repr <= repr && this !in ms[i].repr)
           && (forall w :: w in repr ==> w == this || exists i :: 0 <= i < |ms| && w in ms[i].repr)
    }

    ghost function Remembered(): Caches
      reads this`cachedDataSize, this`cachedNestedByteSize, this`cachedNestedByteSizes
    {
      Caches(cachedDataSize, cachedNestedByteSize, cachedNestedByteSizes)
    }

    /** Each cache is either not computed or what the size pass would compute now. */
    ghost predicate CacheRight()
      reads this`content, this`cachedDataSize, this`cachedNestedByteSize, this`cachedNestedByteSizes
    {
      RightIn(Remembered())
    }

    ghost predicate RightIn(c: Caches)
      reads this`content
    {
      match content
      case Packed(k, xs) =>
        CachesDataSize(k) && AllInRange(k, xs) ==> c.dataSize == NOT_COMPUTED || c.dataSize == NumbersSize(k, xs)
      case Nested(m) => c.nested == NOT_COMPUTED || c.nested == MessageSize(m)
      case NestedList(ms) => |c.sizes| == |ms| ==> forall i :: 0 <= i < |ms| ==> c.sizes[i] == MessageSize(ms[i])
      case _ => true
    }

    /** The caches that the writing pass consults here are right: its own, and those below as
        long as it does not compute a size. Where it finds no size it computes all of them
        below, whatever they were. */
    ghost predicate Sound(c: Snapshot, vals: set<LVMessageValue>, msgs: set<OutgoingMessage>)
      requires Closed(vals, msgs) && this in vals && vals <= c.Keys
      reads vals`payload, vals`content, vals`repr, msgs`values, msgs`content, msgs`repr
      decreases content, 1
    {
      Agrees(msgs) &&
      match payload
      case Plain(_) => RightIn(c[this])
      case Sub(m) => c[this].nested != NOT_COMPUTED ==> c[this].nested == MessageSize(m.content) && m.Sound(c, vals, msgs)
      case SubList(ms) =>
        |c[this].sizes| == |ms| ==>
          forall i :: 0 <= i < |ms| ==> c[this].sizes[i] == MessageSize(ms[i].content) && ms[i].Sound(c, vals, msgs)
    }

    /** All caches here and below are right. */
    ghost predicate AllRight(c: Snapshot)
      reads this`repr, repr`content
    {
      repr <= c.Keys && forall w :: w in repr ==> w.RightIn(c[w])
    }

    /** What is below a value that is below this one. */
    lemma {:induction false} ReprIsBelow(vals: set<LVMessageValue>, msgs: set<OutgoingMessage>, w: LVMessageValue)
      requires Closed(vals, msgs) && this in vals && w in repr
      ensures w in vals && w in w.repr && w.repr <= repr
      decreases content, 1
    {
      hide Closed;
      AgreesIfClosed(vals, msgs);
      if w != this {
        match payload
        case Sub(m) => m.ReprIsBelow(vals, msgs, w);
        case SubList(ms) =>
          var i :| 0 <= i < |ms| && w in ms[i].repr;
          ms[i].ReprIsBelow(vals, msgs, w);
        case Plain(_) =>
      }
    }

    lemma {:induction false} RightIsSound(c: Snapshot, vals: set<LVMessageValue>, msgs: set<OutgoingMessage>)
      requires Closed(vals, msgs) && this in vals && vals <= c.Keys && AllRight(c)
      ensures Sound(c, vals, msgs)
      decreases content, 1
    {
      AgreesIfClosed(vals, msgs);
      match payload
      case Sub(m) => m.RightIsSound(c, vals, msgs);
      case SubList(ms) => forall i | 0 <= i < |ms| ensures ms[i].Sound(c, vals, msgs) { ms[i].RightIsSound(c, vals, msgs); }
      case Plain(_) =>
    }

    /** Elsewhere in the graph every cache either stays or becomes right with all below it. */
    lemma {:induction false} StaysSound(c: Snapshot, c': Snapshot, vals: set<LVMessageValue>, msgs: set<OutgoingMessage>)
      requires Closed(vals, msgs) && this in vals && Improved(c, c', vals) && Sound(c, vals, msgs)
      ensures Sound(c', vals, msgs)
      decreases content, 1
    {
      hide Closed, AllRight, RightIn, OutgoingMessage.Sound;
      AgreesIfClosed(vals, msgs);
      if AllRight(c') {
        RightIsSound(c', vals, msgs);
      } else if payload.Sub? && c[this].nested != NOT_COMPUTED {
        payload.message.StaysSound(c, c', vals, msgs);
      } else if payload.SubList? && |c[this].sizes| == |payload.messages| {
        forall m | m in payload.messages ensures m in msgs && m.Sound(c', vals, msgs) {
          var i :| 0 <= i < |payload.messages| && payload.messages[i] == m;
          payload.messages[i].StaysSound(c, c', vals, msgs);
        }
      }
    }

    /** The size pass: computes every size below afresh and remembers it. */
    method ByteSizeLong(ghost vals: set<LVMessageValue>, ghost msgs: set<OutgoingMessage>) returns (size: nat)
      requires Closed(vals, msgs) && this in vals
      modifies repr`cachedDataSize, repr`cachedNestedByteSize, repr`cachedNestedByteSizes
      ensures size == ValueSize(protobufId, content)
      ensures forall w :: w in repr ==> w.CacheRight()
      decreases content, 1
    {
      hide Closed, MessageSize, NumbersSize;
      AgreesIfClosed(vals, msgs);
      match payload
      case Plain(v) =>
        if v.Packed? && AllInRange(v.kind, v.numbers) && CachesDataSize(v.kind) {
          cachedDataSize := NumbersSize(v.kind, v.numbers);
        }
        size := ValueSize(protobufId, v);
      case Sub(m) =>
        var nestedSize := m.ByteSizeLong(vals, msgs);
        cachedNestedByteSize := nestedSize;
        size := LenDelimSize(protobufId, nestedSize);
      case SubList(ms) =>
        size := ListByteSize(ms, vals, msgs);
    }

    lemma AgreesIfClosed(vals: set<LVMessageValue>, msgs: set<OutgoingMessage>)
      requires Closed(vals, msgs) && this in vals
      ensures Agrees(msgs)
    {
    }

    method ListByteSize(ms: seq<OutgoingMessage>, ghost vals: set<LVMessageValue>, ghost msgs: set<OutgoingMessage>)
      returns (size: nat)
      requires Closed(vals, msgs) && this in vals && payload == SubList(ms)
      modifies repr`cachedDataSize, repr`cachedNestedByteSize, repr`cachedNestedByteSizes
      ensures size == ValueSize(protobufId, content)
      ensures forall w :: w in repr ==> w.CacheRight()
      decreases content, 0
    {
      hide Closed, MessageSize, Agrees, ListSize, CacheRight;
      InRepr(vals, msgs);
      ghost var contents, done: set<LVMessageValue> := content.messages, {};
      cachedNestedByteSizes := [];
      size := 0;
      var i := 0;
      ListStarts(protobufId, contents);
      while i < |ms|
        invariant 0 <= i <= |ms| == |contents| && |cachedNestedByteSizes| == i
        invariant forall j :: 0 <= j < i ==> cachedNestedByteSizes[j] == MessageSize(contents[j])
        invariant (forall w :: w in done ==> w.CacheRight()) && this !in done
        invariant forall j :: 0 <= j < i ==> ms[j].repr <= done
        invariant size + ListSize(protobufId, contents[i..]) == ListSize(protobufId, contents)
      {
        Element(vals, msgs, ms, i);
        var nestedSize := ms[i].ByteSizeLong(vals, msgs);
        done := done + ms[i].repr;
        cachedNestedByteSizes := cachedNestedByteSizes + [nestedSize];
        size := size + LenDelimSize(protobufId, nestedSize);
        ListStep(protobufId, contents, i);
        i := i + 1;
      }
      ListEnds(protobufId, contents);
      ListCacheRight(contents);
      Covered(vals, msgs, ms, done);
    }

    /** Adding a number to a packed field that is not yet part of a message. Nothing
        invalidates the cache: it stays right exactly when it had not been computed. */
    method Add(x: int)
      requires payload.Plain? && payload.value.Packed? && payload.value == content && Representable(content)
      requires InRange(content.kind, x) && CacheRight()
      modifies this`payload, this`content
      ensures content == old(content).(numbers := old(content.numbers) + [x]) && payload == Plain(content)
      ensures Representable(content)
      ensures CachesDataSize(content.kind) ==> (CacheRight() <==> cachedDataSize == NOT_COMPUTED)
    {
      var xs := payload.value.numbers;
      payload := Plain(payload.value.(numbers := xs + [x]));
      content := payload.value;
      NumbersGrow(payload.value.kind, xs, x);
    }

    /** The writing pass. Sizes come from the caches where they were computed; those of them
        that are consulted must be right. */
    method Serialize(output: CodedOutputStream, ghost vals: set<LVMessageValue>, ghost msgs: set<OutgoingMessage>)
      requires Closed(vals, msgs) && this in vals && ValueSize(protobufId, content) < TWO_32
      requires Sound(Now(vals), vals, msgs)
      modifies output, repr`cachedDataSize, repr`cachedNestedByteSize, repr`cachedNestedByteSizes
      ensures output.written == old(output.written) + EncodeValue(protobufId, content)
      ensures Improved(old(Now(vals)), Now(vals), vals)
      decreases content, 1
    {
      hide Closed, ValueSize, EncodeValue;
      AgreesIfClosed(vals, msgs);
      match payload
      case Plain(v) => SerializePlain(output, v);
      case Sub(m) => SerializeSub(output, m, vals, msgs);
      case SubList(ms) => SerializeList(output, ms, vals, msgs);
    }

    method SerializeSub(output: CodedOutputStream, m: OutgoingMessage, ghost vals: set<LVMessageValue>, ghost msgs: set<OutgoingMessage>)
      requires Closed(vals, msgs) && this in vals && payload == Sub(m) && ValueSize(protobufId, content) < TWO_32
      requires Sound(Now(vals), vals, msgs)
      modifies output, repr`cachedDataSize, repr`cachedNestedByteSize, repr`cachedNestedByteSizes
      ensures output.written == old(output.written) + EncodeValue(protobufId, content)
      ensures Improved(old(Now(vals)), Now(vals), vals)
      decreases content, 0
    {
      hide Closed, MessageSize, EncodeMessage, EncodeVarint, VarintSize, Agrees, RightIn, OutgoingMessage.Sound, AllRight, Improved, Now;
      SubFacts(vals, msgs, m);
      m.SerializeFramed(output, protobufId, cachedNestedByteSize, vals, msgs);
    }

    lemma SubFacts(vals: set<LVMessageValue>, msgs: set<OutgoingMessage>, m: OutgoingMessage)
      requires Closed(vals, msgs) && this in vals && payload == Sub(m) && Sound(Now(vals), vals, msgs)
      ensures m in msgs && content == Nested(m.content) && this !in m.repr && repr == {this} + m.repr
      ensures cachedNestedByteSize != NOT_COMPUTED ==> cachedNestedByteSize == MessageSize(m.content) && m.Sound(Now(vals), vals, msgs)
    {
      AgreesIfClosed(vals, msgs);
    }

    method SerializePlain(output: CodedOutputStream, v: Value)
      requires payload == Plain(v) && v == content && Representable(v) && CacheRight()
      requires ValueSize(protobufId, v) < TWO_32
      modifies output, this`cachedDataSize
      ensures output.written == old(output.written) + EncodeValue(protobufId, v) && CacheRight()
    {
      hide EncodeVarint, VarintSize, NumbersSize, EncodeNumbers, EncodeTexts, EncodeNumber, NumberSize;
      match v
      case Scalar(k, x) =>
        output.WriteTag(protobufId, NaturalWireType(k));
        output.Write(EncodeNumber(k, x));
      case Packed(k, xs) => SerializePacked(output, k, xs);
      case Text(_, s) => output.Write(LenDelim(protobufId, s));
      case Texts(_, ss) => WriteTexts(output, protobufId, ss);
    }

    method SerializePacked(output: CodedOutputStream, k: Kind, xs: seq<int>)
      requires payload == Plain(Packed(k, xs)) && content == Packed(k, xs) && Representable(content) && CacheRight()
      requires ValueSize(protobufId, content) < TWO_32
      modifies output, this`cachedDataSize
      ensures output.written == old(output.written) + EncodeValue(protobufId, content) && CacheRight()
    {
      hide EncodeVarint, VarintSize, NumbersSize, EncodeNumbers;
      if xs == [] {
        return;
      }
      var dataSize := NumbersSize(k, xs);
      if CachesDataSize(k) {
        if cachedDataSize == NOT_COMPUTED {
          cachedDataSize := NumbersSize(k, xs);
        }
        dataSize := cachedDataSize;
      }
      output.WriteTag(protobufId, WIRETYPE_LENGTH_DELIMITED);
      output.WriteVarint32(dataSize);
      NumbersSizeIsLength(k, xs);
      WriteNumbers(output, k, xs);
    }

    method SerializeList(output: CodedOutputStream, ms: seq<OutgoingMessage>, ghost vals: set<LVMessageValue>, ghost msgs: set<OutgoingMessage>)
      requires Closed(vals, msgs) && this in vals && payload == SubList(ms) && ValueSize(protobufId, content) < TWO_32
      requires Sound(Now(vals), vals, msgs)
      modifies output, repr`cachedDataSize, repr`cachedNestedByteSize, repr`cachedNestedByteSizes
      ensures output.written == old(output.written) + EncodeValue(protobufId, content)
      ensures Improved(old(Now(vals)), Now(vals), vals)
      decreases content, 0
    {
      hide Closed, MessageSize, EncodeMessage, Agrees, ListSize, EncodeList, RightIn, EncodeVarint, VarintSize, AllRight,
        OutgoingMessage.Sound, Sound, Improved, Now;
      InRepr(vals, msgs);
      ghost var contents, before, start := content.messages, output.written, Now(vals);
      ListStarts(protobufId, contents);
      NothingChanged(start, vals);
      var haveCached := |cachedNestedByteSizes| == |ms|;
      var sizes := cachedNestedByteSizes;
      if haveCached { ListCacheGivesSizes(vals, msgs, ms); }
      var i := 0;
      while i < |ms|
        invariant 0 <= i <= |ms| == |contents|
        invariant haveCached ==> forall j :: i <= j < |ms| ==> ms[j] in msgs && ms[j].Sound(Now(vals), vals, msgs)
        invariant Improved(start, Now(vals), vals)
        invariant output.written + EncodeList(protobufId, contents[i..]) == before + EncodeList(protobufId, contents)
        invariant cachedNestedByteSizes == sizes && ListSize(protobufId, contents[i..]) < TWO_32
      {
        Element(vals, msgs, ms, i);
        ListStep(protobufId, contents, i);
        ghost var turn := Now(vals);
        ms[i].SerializeFramed(output, protobufId, if haveCached then sizes[i] else NOT_COMPUTED, vals, msgs);
        ImprovedTwice(start, turn, Now(vals), vals, msgs);
        if haveCached {
          forall j | i < j < |ms| ensures ms[j].Sound(Now(vals), vals, msgs) { ms[j].StaysSound(turn, Now(vals), vals, msgs); }
        }
        i := i + 1;
      }
      ListEnds(protobufId, contents);
      assert output.written + [] == output.written;
    }

    lemma ListCacheGivesSizes(vals: set<LVMessageValue>, msgs: set<OutgoingMessage>, ms: seq<OutgoingMessage>)
      requires Closed(vals, msgs) && this in vals && payload == SubList(ms) && Sound(Now(vals), vals, msgs)
      requires |cachedNestedByteSizes| == |ms|
      ensures content.NestedList? && |content.messages| == |ms|
      ensures forall j :: 0 <= j < |ms| ==>
                cachedNestedByteSizes[j] == MessageSize(content.messages[j]) && ms[j] in msgs && ms[j].Sound(Now(vals), vals, msgs)
    {
      AgreesIfClosed(vals, msgs);
    }

    lemma InRepr(vals: set<LVMessageValue>, msgs: set<OutgoingMessage>)
      requires Closed(vals, msgs) && this in vals
      ensures this in repr
      ensures payload.SubList? ==> content.NestedList? && |content.messages| == |payload.messages|
    {
      AgreesIfClosed(vals, msgs);
    }

    lemma Element(vals: set<LVMessageValue>, msgs: set<OutgoingMessage>, ms: seq<OutgoingMessage>, i: nat)
      requires Closed(vals, msgs) && this in vals && payload == SubList(ms) && i < |ms|
      ensures content.NestedList? && i < |content.messages| && content.messages[i] == ms[i].content
      ensures ms[i] in msgs && ms[i].repr <= repr && this !in ms[i].repr
    {
      AgreesIfClosed(vals, msgs);
    }

    lemma Covered(vals: set<LVMessageValue>, msgs: set<OutgoingMessage>, ms: seq<OutgoingMessage>, done: set<LVMessageValue>)
      requires Closed(vals, msgs) && this in vals && payload == SubList(ms)
      requires forall j :: 0 <= j < |ms| ==> ms[j].repr <= done
      ensures repr <= done + {this}
    {
      AgreesIfClosed(vals, msgs);
    }

    lemma ListCacheRight(contents: seq<Message>)
      requires content == NestedList(contents) && |cachedNestedByteSizes| == |contents|
      requires forall j :: 0 <= j < |contents| ==> cachedNestedByteSizes[j] == MessageSize(contents[j])
      ensures CacheRight()
    {
    }
  }

  ghost function Now(vals: set<LVMessageValue>): (c: Snapshot)
    reads vals`cachedDataSize, vals`cachedNestedByteSize, vals`cachedNestedByteSizes
    ensures c.Keys == vals
  {
    map v | v in vals :: v.Remembered()
  }

  /** Every value keeps its caches, or is right with everything below it. */
  ghost predicate Improved(c: Snapshot, c': Snapshot, vals: set<LVMessageValue>)
    reads vals`repr, (set v, w | v in vals && w in v.repr :: w)`content
  {
    vals <= c.Keys && vals <= c'.Keys && forall v :: v in vals ==> c[v] == c'[v] || v.AllRight(c')
  }

  lemma ImprovedTwice(a: Snapshot, b: Snapshot, c: Snapshot, vals: set<LVMessageValue>, msgs: set<OutgoingMessage>)
    requires Closed(vals, msgs) && Improved(a, b, vals) && Improved(b, c, vals)
    ensures Improved(a, c, vals)
  {
    forall v | v in vals ensures a[v] == c[v] || v.AllRight(c) {
      if v.AllRight(b) {
        forall w | w in v.repr ensures w in c && w.RightIn(c[w]) { v.ReprIsBelow(vals, msgs, w); }
      }
    }
  }

  lemma NothingChanged(c: Snapshot, vals: set<LVMessageValue>)
    requires vals <= c.Keys
    ensures Improved(c, c, vals)
  {
  }

  lemma ListStarts(n: nat, ms: seq<Message>)
    ensures ms[0..] == ms && ValueSize(n, NestedList(ms)) == ListSize(n, ms)
  {
  }

  lemma ListStep(n: nat, ms: seq<Message>, i: nat)
    requires i < |ms|
    ensures ListSize(n, ms[i..]) == LenDelimSize(n, MessageSize(ms[i])) + ListSize(n, ms[i + 1..])
    ensures EncodeList(n, ms[i..]) == LenDelim(n, EncodeMessage(ms[i])) + EncodeList(n, ms[i + 1..])
  {
    assert ms[i..][1..] == ms[i + 1..];
  }

  lemma ListEnds(n: nat, ms: seq<Message>)
    ensures ListSize(n, ms[|ms|..]) == 0 && EncodeList(n, ms[|ms|..]) == []
  {
  }

  class OutgoingMessage {
    /** _values: in ascending order of field number. */
    var values: seq<LVMessageValue>

    ghost var content: Message
    ghost var repr: set<LVMessageValue>

    constructor (values: seq<LVMessageValue>, ghost content: Message)
      ensures this.values == values && this.content == content
      ensures forall i :: 0 <= i < |values| ==> values[i].repr <= repr
      ensures forall w :: w in repr ==> exists i :: 0 <= i < |values| && w in values[i].repr
    {
      this.values := values;
      this.content := content;
      repr := set i, w | 0 <= i < |values| && w in values[i].repr :: w;
    }

    ghost predicate Agrees(vals: set<LVMessageValue>)
      reads this`values, this`content, this`repr, vals`content, vals`repr
    {
      && (forall i :: 0 <= i < |values| ==> values[i] in vals && IsFieldNumber(values[i].protobufId))
      && (forall i, j :: 0 <= i < j < |values| ==> values[i].protobufId < values[j].protobufId)
      && (forall i :: 0 <= i < |values| ==>
            && values[i].protobufId in content.values
            && content.values[values[i].protobufId] == values[i].content
            && values[i].repr <= repr)
      && (forall n :: n in content.values ==> exists i :: 0 <= i < |values| && values[i].protobufId == n)
      && (forall w :: w in repr ==> exists i :: 0 <= i < |values| && w in values[i].repr)
    }

    /** What the writing pass consults for the values of this message is right. */
    ghost predicate Sound(c: Snapshot, vals: set<LVMessageValue>, msgs: set<OutgoingMessage>)
      requires Closed(vals, msgs) && this in msgs && vals <= c.Keys
      reads vals`payload, vals`content, vals`repr, msgs`values, msgs`content, msgs`repr
      decreases content, 1
    {
      Agrees(vals) && forall i :: 0 <= i < |values| ==> values[i].Sound(c, vals, msgs)
    }

    lemma {:induction false} ReprIsBelow(vals: set<LVMessageValue>, msgs: set<OutgoingMessage>, w: LVMessageValue)
      requires Closed(vals, msgs) && this in msgs && w in repr
      ensures w in vals && w in w.repr && w.repr <= repr
      decreases content, 1
    {
      hide Closed, Agrees;
      AgreesIfClosed(vals, msgs);
      var i := Holder(vals, w);
      values[i].ReprIsBelow(vals, msgs, w);
    }

    lemma SmallerContent(vals: set<LVMessageValue>, i: nat)
      requires Agrees(vals) && i < |values|
      ensures values[i].content < content
    {
    }

    lemma Holder(vals: set<LVMessageValue>, w: LVMessageValue) returns (i: nat)
      requires Agrees(vals) && w in repr
      ensures i < |values| && w in values[i].repr && values[i].repr <= repr && values[i] in vals
      ensures values[i].content < content
    {
      i :| 0 <= i < |values| && w in values[i].repr;
    }

    lemma {:induction false} RightIsSound(c: Snapshot, vals: set<LVMessageValue>, msgs: set<OutgoingMessage>)
      requires Closed(vals, msgs) && this in msgs && vals <= c.Keys && forall w :: w in repr ==> w in c && w.RightIn(c[w])
      ensures Sound(c, vals, msgs)
      decreases content, 1
    {
      hide Closed, LVMessageValue.RightIn, LVMessageValue.Sound, Agrees;
      AgreesIfClosed(vals, msgs);
      forall i | 0 <= i < |values| ensures values[i] in vals && values[i].Sound(c, vals, msgs) {
        AtIndex(vals, i);
        assert values[i].AllRight(c);
        SmallerContent(vals, i);
        values[i].RightIsSound(c, vals, msgs);
      }
    }

    /** After a size pass over this message every cache below is right, and no other changed. */
    lemma SizedImproves(c: Snapshot, vals: set<LVMessageValue>, msgs: set<OutgoingMessage>)
      requires Closed(vals, msgs) && this in msgs && vals <= c.Keys
      requires forall w :: w in repr ==> w.CacheRight()
      requires forall w :: w in vals && w !in repr ==> w.Remembered() == c[w]
      ensures Sound(Now(vals), vals, msgs) && Improved(c, Now(vals), vals)
    {
      hide Closed, LVMessageValue.RightIn, Sound;
      forall w | w in repr ensures w in vals && w.AllRight(Now(vals)) {
        ReprIsBelow(vals, msgs, w);
        forall u | u in w.repr ensures u in vals { w.ReprIsBelow(vals, msgs, u); }
      }
      RightIsSound(Now(vals), vals, msgs);
    }

    lemma {:induction false} StaysSound(c: Snapshot, c': Snapshot, vals: set<LVMessageValue>, msgs: set<OutgoingMessage>)
      requires Closed(vals, msgs) && this in msgs && Improved(c, c', vals) && Sound(c, vals, msgs)
      ensures Sound(c', vals, msgs)
      decreases content, 1
    {
      hide Closed, LVMessageValue.Sound;
      AgreesIfClosed(vals, msgs);
      forall i | 0 <= i < |values| ensures values[i].Sound(c', vals, msgs) { values[i].StaysSound(c, c', vals, msgs); }
    }

    /** The number of the last value before position `i`. */
    ghost function LastBefore(i: nat): nat
      requires i <= |values|
      reads this`values
    {
      if i == 0 then 0 else values[i - 1].protobufId
    }

    lemma AgreesIfClosed(vals: set<LVMessageValue>, msgs: set<OutgoingMessage>)
      requires Closed(vals, msgs) && this in msgs
      ensures Agrees(vals)
    {
    }

    lemma NothingBetween(vals: set<LVMessageValue>, i: nat, n: int)
      requires Agrees(vals) && i <= |values| && LastBefore(i) < n && (i < |values| ==> n < values[i].protobufId)
      ensures n !in content.values
    {
      forall j | 0 <= j < |values| ensures values[j].protobufId != n {
        if j < i - 1 { assert values[j].protobufId < values[i - 1].protobufId; }
        if i < j { assert values[i].protobufId < values[j].protobufId; }
      }
    }

    lemma AtIndex(vals: set<LVMessageValue>, i: nat)
      requires Agrees(vals) && i < |values|
      ensures values[i] in vals && values[i].repr <= repr && LastBefore(i) < values[i].protobufId
      ensures IsFieldNumber(values[i].protobufId)
      ensures values[i].protobufId in content.values && content.values[values[i].protobufId] == values[i].content
    {
      if i > 0 { assert values[i - 1].protobufId < values[i].protobufId; }
    }

    /** No field lies strictly between two neighbours, so the running total and the bytes so
        far grow by exactly the next value. */
    lemma Step(vals: set<LVMessageValue>, msgs: set<OutgoingMessage>, i: nat)
      requires Closed(vals, msgs) && this in msgs && i < |values|
      ensures var v := values[i];
              && v in vals && v.repr <= repr && LastBefore(i + 1) == v.protobufId && IsFieldNumber(v.protobufId)
              && v.protobufId in content.values && content.values[v.protobufId] == v.content
              && FieldsSize(content, v.protobufId) == FieldsSize(content, LastBefore(i)) + ValueSize(v.protobufId, v.content)
              && EncodeFields(content, v.protobufId) == EncodeFields(content, LastBefore(i)) + EncodeValue(v.protobufId, v.content)
    {
      hide ValueSize, EncodeValue, Closed, Agrees;
      AgreesIfClosed(vals, msgs);
      AtIndex(vals, i);
      forall n | LastBefore(i) < n <= values[i].protobufId - 1 ensures n !in content.values {
        NothingBetween(vals, i, n);
      }
      FieldsSkip(content, LastBefore(i), values[i].protobufId - 1);
    }

    lemma End(vals: set<LVMessageValue>, msgs: set<OutgoingMessage>)
      requires Closed(vals, msgs) && this in msgs
      ensures FieldsSize(content, LastBefore(|values|)) == MessageSize(content)
      ensures EncodeFields(content, LastBefore(|values|)) == EncodeMessage(content)
    {
      hide FieldsSize, EncodeFields, Closed, Agrees;
      AgreesIfClosed(vals, msgs);
      LastIsFieldNumber(vals);
      forall n | LastBefore(|values|) < n <= MAX_FIELD_NUMBER ensures n !in content.values {
        NothingBetween(vals, |values|, n);
      }
      FieldsSkip(content, LastBefore(|values|), MAX_FIELD_NUMBER);
    }

    lemma LastIsFieldNumber(vals: set<LVMessageValue>)
      requires Agrees(vals)
      ensures LastBefore(|values|) <= MAX_FIELD_NUMBER
    {
    }

    lemma Covered(vals: set<LVMessageValue>, msgs: set<OutgoingMessage>, done: set<LVMessageValue>)
      requires Closed(vals, msgs) && this in msgs
      requires forall j :: 0 <= j < |values| ==> values[j].repr <= done
      ensures repr <= done
    {
      AgreesIfClosed(vals, msgs);
    }

    method ByteSizeLong(ghost vals: set<LVMessageValue>, ghost msgs: set<OutgoingMessage>) returns (size: nat)
      requires Closed(vals, msgs) && this in msgs
      modifies repr`cachedDataSize, repr`cachedNestedByteSize, repr`cachedNestedByteSizes
      ensures size == MessageSize(content)
      ensures forall w :: w in repr ==> w.CacheRight()
      decreases content, 1
    {
      hide Closed, FieldsSize, ValueSize, MessageSize;
      ghost var done: set<LVMessageValue> := {};
      size := 0;
      var i := 0;
      NoFields(content);
      while i < |values|
        invariant 0 <= i <= |values|
        invariant size == FieldsSize(content, LastBefore(i))
        invariant forall w :: w in done ==> w.CacheRight()
        invariant forall j :: 0 <= j < i ==> values[j].repr <= done
      {
        Step(vals, msgs, i);
        var s := values[i].ByteSizeLong(vals, msgs);
        done := done + values[i].repr;
        size := size + s;
        i := i + 1;
      }
      End(vals, msgs);
      Covered(vals, msgs, done);
    }

    /** A remembered size is the right one, and then so is what is consulted below it. */
    ghost predicate Trusted(cached: int, vals: set<LVMessageValue>, msgs: set<OutgoingMessage>)
      requires Closed(vals, msgs) && this in msgs
      reads vals, msgs
    {
      cached != NOT_COMPUTED ==> cached == MessageSize(content) && Sound(Now(vals), vals, msgs)
    }

    /** The size, remembered or computed, as a prefix, and then the message. */
    method SerializeFramed(output: CodedOutputStream, n: nat, cached: int, ghost vals: set<LVMessageValue>,
                           ghost msgs: set<OutgoingMessage>)
      requires Closed(vals, msgs) && this in msgs && LenDelimSize(n, MessageSize(content)) < TWO_32
      requires Trusted(cached, vals, msgs)
      modifies output, repr`cachedDataSize, repr`cachedNestedByteSize, repr`cachedNestedByteSizes
      ensures output.written == old(output.written) + LenDelim(n, EncodeMessage(content))
      ensures Improved(old(Now(vals)), Now(vals), vals)
      decreases content, 3
    {
      hide Closed, MessageSize, EncodeMessage, EncodeVarint, VarintSize, Sound, Improved, Now;
      ghost var start := Now(vals);
      var nestedSize := SizeGiven(cached, vals, msgs);
      ghost var sized := Now(vals);
      output.WriteTag(n, WIRETYPE_LENGTH_DELIMITED);
      output.WriteVarint32(nestedSize);
      MessageSizeIsLength(content);
      SerializeToCodedStream(output, vals, msgs);
      ImprovedTwice(start, sized, Now(vals), vals, msgs);
    }

    method SizeGiven(cached: int, ghost vals: set<LVMessageValue>, ghost msgs: set<OutgoingMessage>) returns (size: nat)
      requires Closed(vals, msgs) && this in msgs
      requires Trusted(cached, vals, msgs)
      modifies repr`cachedDataSize, repr`cachedNestedByteSize, repr`cachedNestedByteSizes
      ensures size == MessageSize(content)
      ensures Sound(Now(vals), vals, msgs)
      ensures Improved(old(Now(vals)), Now(vals), vals)
      decreases content, 2
    {
      hide Closed, MessageSize, Sound, Improved, LVMessageValue.CacheRight;
      ghost var start := Now(vals);
      NothingChanged(start, vals);
      if cached != NOT_COMPUTED { return cached; }
      size := ByteSizeLong(vals, msgs);
      SizedImproves(start, vals, msgs);
    }

    lemma SoundAt(c: Snapshot, vals: set<LVMessageValue>, msgs: set<OutgoingMessage>)
      requires Closed(vals, msgs) && this in msgs && vals <= c.Keys && Sound(c, vals, msgs)
      ensures forall j :: 0 <= j < |values| ==> values[j] in vals && values[j].Sound(c, vals, msgs)
    {
      AgreesIfClosed(vals, msgs);
    }

    method SerializeToCodedStream(output: CodedOutputStream, ghost vals: set<LVMessageValue>, ghost msgs: set<OutgoingMessage>)
      requires Closed(vals, msgs) && this in msgs && MessageSize(content) < TWO_32
      requires Sound(Now(vals), vals, msgs)
      modifies output, repr`cachedDataSize, repr`cachedNestedByteSize, repr`cachedNestedByteSizes
      ensures output.written == old(output.written) + EncodeMessage(content)
      ensures Improved(old(Now(vals)), Now(vals), vals)
      decreases content, 1
    {
      hide Closed, FieldsSize, EncodeFields, ValueSize, EncodeValue, MessageSize, EncodeMessage, LVMessageValue.Sound,
        LVMessageValue.AllRight, LVMessageValue.RightIn, Improved, Now, Sound;
      ghost var before, start := output.written, Now(vals);
      var i := 0;
      NoFields(content);
      SoundAt(start, vals, msgs);
      NothingChanged(start, vals);
      while i < |values|
        invariant 0 <= i <= |values|
        invariant output.written == before + EncodeFields(content, LastBefore(i))
        invariant forall j :: i <= j < |values| ==> values[j] in vals && values[j].Sound(Now(vals), vals, msgs)
        invariant Improved(start, Now(vals), vals)
      {
        Step(vals, msgs, i);
        ValueFits(content, values[i].protobufId);
        ghost var turn := Now(vals);
        values[i].Serialize(output, vals, msgs);
        ImprovedTwice(start, turn, Now(vals), vals, msgs);
        forall j | i < j < |values| ensures values[j].Sound(Now(vals), vals, msgs) {
          values[j].StaysSound(turn, Now(vals), vals, msgs);
        }
        i := i + 1;
      }
      End(vals, msgs);
    }

    /** Size pass, then writing pass: right whatever the caches held before. */
    method SerializeToByteBuffer(ghost vals: set<LVMessageValue>, ghost msgs: set<OutgoingMessage>)
      returns (buffer: Option<bytes>)
      requires Closed(vals, msgs) && this in msgs
      modifies repr`cachedDataSize, repr`cachedNestedByteSize, repr`cachedNestedByteSizes
      ensures buffer == if |EncodeMessage(content)| <= INT_MAX then Some(EncodeMessage(content)) else None
    {
      hide Closed, MessageSize, EncodeMessage, Sound, Improved, LVMessageValue.CacheRight;
      ghost var before := Now(vals);
      var size := ByteSizeLong(vals, msgs);
      MessageSizeIsLength(content);
      if size == 0 {
        return Some([]);
      }
      if size > INT_MAX {
        return None;
      }
      var output := new CodedOutputStream();
      SizedImproves(before, vals, msgs);
      SerializeToCodedStream(output, vals, msgs);
      assert [] + EncodeMessage(content) == EncodeMessage(content);
      return Some(output.written);
    }

    /** Writing pass alone: right as long as no cache that it consults is stale, so in particular
        when nothing was mutated since the last size pass or since construction. */
    method SerializeToString(ghost vals: set<LVMessageValue>, ghost msgs: set<OutgoingMessage>) returns (s: bytes)
      requires Closed(vals, msgs) && this in msgs && |EncodeMessage(content)| < TWO_32
      requires Sound(Now(vals), vals, msgs)
      modifies repr`cachedDataSize, repr`cachedNestedByteSize, repr`cachedNestedByteSizes
      ensures s == EncodeMessage(content)
    {
      hide Closed, MessageSize, EncodeMessage, Sound, Improved, Now;
      MessageSizeIsLength(content);
      var output := new CodedOutputStream();
      SerializeToCodedStream(output, vals, msgs);
      assert [] + EncodeMessage(content) == EncodeMessage(content);
      return output.written;
    }
  }

  method WriteNumbers(output: CodedOutputStream, k: Kind, xs: seq<int>)
    requires AllInRange(k, xs)
    modifies output
    ensures output.written == old(output.written) + EncodeNumbers(k, xs)
  {
    hide InRange, EncodeNumber, EncodeNumbers;
    ghost var before := output.written;
    var i := 0;
    assert xs[0..] == xs;
    while i < |xs|
      invariant 0 <= i <= |xs| && AllInRange(k, xs[i..])
      invariant output.written + EncodeNumbers(k, xs[i..]) == before + EncodeNumbers(k, xs)
    {
      NumbersStep(k, xs, i);
      output.Write(EncodeNumber(k, xs[i]));
      i := i + 1;
    }
    NumbersEnd(k, xs);
    assert output.written + [] == output.written;
  }

  lemma NumbersStep(k: Kind, xs: seq<int>, i: nat)
    requires i < |xs| && AllInRange(k, xs)
    ensures InRange(k, xs[i]) && AllInRange(k, xs[i..]) && AllInRange(k, xs[i + 1..])
    ensures EncodeNumbers(k, xs[i..]) == EncodeNumber(k, xs[i]) + EncodeNumbers(k, xs[i + 1..])
  {
    assert xs[i..][1..] == xs[i + 1..];
  }

  lemma NumbersEnd(k: Kind, xs: seq<int>)
    ensures EncodeNumbers(k, xs[|xs|..]) == []
  {
  }

  method WriteTexts(output: CodedOutputStream, n: nat, ss: seq<bytes>)
    modifies output
    ensures output.written == old(output.written) + EncodeTexts(n, ss)
  {
    ghost var before := output.written;
    var i := 0;
    while i < |ss|
      invariant 0 <= i <= |ss|
      invariant output.written + EncodeTexts(n, ss[i..]) == before + EncodeTexts(n, ss)
    {
      output.Write(LenDelim(n, ss[i]));
      assert ss[i..][1..] == ss[i + 1..];
      i := i + 1;
    }
  }

  lemma {:induction false} NumbersGrow(k: Kind, xs: seq<int>, x: int)
    requires AllInRange(k, xs) && InRange(k, x)
    ensures AllInRange(k, xs + [x]) && NumbersSize(k, xs + [x]) == NumbersSize(k, xs) + NumberSize(k, x)
    ensures NumberSize(k, x) > 0
  {
    if xs == [] {
      assert xs + [x] == [x];
    } else {
      assert (xs + [x])[1..] == xs[1..] + [x];
      NumbersGrow(k, xs[1..], x);
    }
  }

  /** No field is bigger than its message. */
  lemma {:induction false} ValueFits(m: Message, n: nat)
    requires n in m.values && IsFieldNumber(n)
    ensures ValueSize(n, m.values[n]) <= MessageSize(m)
  {
    FieldFits(m, n, MAX_FIELD_NUMBER);
  }

  lemma {:induction false} FieldFits(m: Message, n: nat, top: nat)
    requires n in m.values && 0 < n <= top
    ensures ValueSize(n, m.values[n]) <= FieldsSize(m, top)
    decreases top
  {
    if n < top { FieldFits(m, n, top - 1); }
  }

  // ------------------------------------------------------- what a stale cache does

  /** A packed field written with a remembered payload size. */
  function PackedWithPrefix(n: nat, k: Kind, xs: seq<int>, dataSize: nat): bytes
    requires AllInRange(k, xs)
  {
    EncodeTag(n, WIRETYPE_LENGTH_DELIMITED) + EncodeVarint(dataSize % TWO_32) + EncodeNumbers(k, xs)
  }

  /** The writing pass is right exactly when the remembered size is. */
  lemma PrefixMatters(n: nat, k: Kind, xs: seq<int>, dataSize: nat)
    requires xs != [] && AllInRange(k, xs) && NumbersSize(k, xs) < TWO_32
    ensures PackedWithPrefix(n, k, xs, dataSize) == EncodeValue(n, Packed(k, xs))
       <==> dataSize % TWO_32 == NumbersSize(k, xs)
  {
    var tag, payload := EncodeTag(n, WIRETYPE_LENGTH_DELIMITED), EncodeNumbers(k, xs);
    var a, b := dataSize % TWO_32, NumbersSize(k, xs);
    NumbersSizeIsLength(k, xs);
    if tag + EncodeVarint(a) + payload == tag + EncodeVarint(b) + payload {
      SameMiddle(tag, EncodeVarint(a), EncodeVarint(b), payload);
      ScanEncoded(a, []);
      ScanEncoded(b, []);
    }
  }

  /** A nested message written with a remembered size. */
  function NestedWithPrefix(n: nat, m: Message, nestedSize: nat): bytes {
    EncodeTag(n, WIRETYPE_LENGTH_DELIMITED) + EncodeVarint(nestedSize % TWO_32) + EncodeMessage(m)
  }

  /** The same holds of a nested message, singular or in a list. */
  lemma NestedPrefixMatters(n: nat, m: Message, nestedSize: nat)
    requires MessageSize(m) < TWO_32
    ensures NestedWithPrefix(n, m, nestedSize) == EncodeValue(n, Nested(m)) == EncodeList(n, [m])
       <==> nestedSize % TWO_32 == MessageSize(m)
  {
    hide EncodeMessage, MessageSize;
    var tag, a, b := EncodeTag(n, WIRETYPE_LENGTH_DELIMITED), nestedSize % TWO_32, MessageSize(m);
    MessageSizeIsLength(m);
    assert EncodeList(n, [m]) == LenDelim(n, EncodeMessage(m));
    if tag + EncodeVarint(a) + EncodeMessage(m) == tag + EncodeVarint(b) + EncodeMessage(m) {
      SameMiddle(tag, EncodeVarint(a), EncodeVarint(b), EncodeMessage(m));
      ScanEncoded(a, []);
      ScanEncoded(b, []);
    }
  }

  lemma SameMiddle(p: bytes, x: bytes, y: bytes, q: bytes)
    requires p + x + q == p + y + q
    ensures x == y
  {
    assert |x| == |y|;
    assert x == (p + x + q)[|p|..|p| + |x|];
    assert y == (p + y + q)[|p|..|p| + |y|];
  }

  lemma NoFields(m: Message)
    ensures FieldsSize(m, 0) == 0 && EncodeFields(m, 0) == []
  {
  }

  lemma {:induction false} FieldsSkip(m: Message, a: nat, b: nat)
    requires a <= b && forall n :: a < n <= b ==> n !in m.values
    ensures FieldsSize(m, b) == FieldsSize(m, a) && EncodeFields(m, b) == EncodeFields(m, a)
    decreases b
  {
    if a < b { FieldsSkip(m, a, b - 1); }
  }

  /** `vals` and `msgs` hold everything that they mention, and contents describe payloads.
      Says nothing about caches, and allows objects to be shared. */
  ghost predicate Closed(vals: set<LVMessageValue>, msgs: set<OutgoingMessage>)
    reads vals`payload, vals`content, vals`repr, msgs`values, msgs`content, msgs`repr
  {
    && (forall v :: v in vals ==> v.Agrees(msgs))
    && (forall m :: m in msgs ==> m.Agrees(vals))
  }

  // ------------------------------------------------- from contents to value objects

  /** Every value has a field number and is one that its C++ class can hold. */
  ghost predicate Buildable(m: Message)
    decreases m, 1
  {
    forall n :: n in m.values ==> IsFieldNumber(n) && BuildableValue(m.values[n])
  }

  ghost predicate BuildableValue(v: Value)
    decreases v, 0
  {
    match v
    case Nested(m) => Buildable(m)
    case NestedList(ms) => forall m :: m in ms ==> Buildable(m)
    case _ => Representable(v)
  }

  lemma {:induction false} WellTypedIsBuildable(reg: Registry, ty: Option<MessageType>, m: Message)
    requires WellTyped(reg, ty, m)
    ensures Buildable(m)
    decreases m, 1
  {
    forall n | n in m.values ensures IsFieldNumber(n) && BuildableValue(m.values[n]) {
      WellTypedValueIsBuildable(reg, Mapped(ty.value)[n], m.values[n]);
    }
  }

  lemma {:induction false} WellTypedValueIsBuildable(reg: Registry, f: Field, v: Value)
    requires WellTypedValue(reg, f, v)
    ensures BuildableValue(v)
    decreases v, 0
  {
    match v
    case Nested(m) => WellTypedIsBuildable(reg, reg.Find(f.embedded), m);
    case NestedList(ms) =>
      forall m | m in ms ensures Buildable(m) { WellTypedIsBuildable(reg, reg.Find(f.embedded), m); }
    case _ =>
  }

  lemma ClosedUnion(v1: set<LVMessageValue>, m1: set<OutgoingMessage>, v2: set<LVMessageValue>, m2: set<OutgoingMessage>)
    requires Closed(v1, m1) && Closed(v2, m2)
    ensures Closed(v1 + v2, m1 + m2)
  {
  }

  /** A graph of value objects, none of which has computed a size. */
  ghost predicate IsColdGraph(vals: set<LVMessageValue>, msgs: set<OutgoingMessage>)
    reads vals, msgs
  {
    Closed(vals, msgs) && forall v :: v in vals ==> v.IsCold()
  }

  /** Where no size was computed the writing pass consults none. */
  lemma {:induction false} ColdIsSound(vals: set<LVMessageValue>, msgs: set<OutgoingMessage>, o: OutgoingMessage)
    requires IsColdGraph(vals, msgs) && o in msgs
    ensures o.Sound(Now(vals), vals, msgs)
  {
    o.AgreesIfClosed(vals, msgs);
    forall i | 0 <= i < |o.values| ensures o.values[i].Sound(Now(vals), vals, msgs) {
      ColdValueIsSound(vals, msgs, o.values[i]);
    }
  }

  lemma ColdValueIsSound(vals: set<LVMessageValue>, msgs: set<OutgoingMessage>, v: LVMessageValue)
    requires IsColdGraph(vals, msgs) && v in vals
    ensures v.Sound(Now(vals), vals, msgs)
  {
    v.AgreesIfClosed(vals, msgs);
    assert v.IsCold() && Now(vals)[v] == Caches(NOT_COMPUTED, NOT_COMPUTED, []);
  }

  lemma ColdUnion(v1: set<LVMessageValue>, m1: set<OutgoingMessage>, v2: set<LVMessageValue>, m2: set<OutgoingMessage>)
    requires IsColdGraph(v1, m1) && IsColdGraph(v2, m2)
    ensures IsColdGraph(v1 + v2, m1 + m2)
  {
    hide Closed;
    ClosedUnion(v1, m1, v2, m2);
  }

  /** The value objects of a message that was filled: one object for each value, in ascending
      order of field number, with the contents of the message and no size computed. */
  method BuildMessage(m: Message)
    returns (o: OutgoingMessage, ghost vals: set<LVMessageValue>, ghost msgs: set<OutgoingMessage>)
    requires Buildable(m)
    ensures IsColdGraph(vals, msgs) && o in msgs && o.content == m && o.repr <= vals
    ensures fresh(vals) && fresh(msgs)
    decreases m, 1
  {
    hide Closed, Representable, BuildableValue;
    var values: seq<LVMessageValue>, remaining := [], m.values.Keys;
    vals, msgs := {}, {};
    NothingBuilt();
    while remaining != {}
      invariant remaining <= m.values.Keys
      invariant IsColdGraph(vals, msgs) && fresh(vals) && fresh(msgs)
      invariant Built(m, values, remaining, vals)
      decreases |remaining|
    {
      var n := LeastOf(remaining);
      var v;
      ghost var vs, ms, before := {}, {}, vals;
      v, vs, ms := BuildValue(n, m.values[n]);
      ColdUnion(vals, msgs, vs, ms);
      BuiltGrows(m, values, remaining, vals, vs, n, v);
      values, remaining := values + [v], remaining - {n};
      vals, msgs := vals + vs, msgs + ms;
    }
    o := new OutgoingMessage(values, m);
    MessageCloses(m, values, vals, msgs, o);
    msgs := msgs + {o};
  }

  /** The values so far are those of all fields but the `remaining` ones, which come later. */
  ghost predicate Built(m: Message, values: seq<LVMessageValue>, remaining: set<int>, vals: set<LVMessageValue>)
    reads vals
  {
    && (forall i :: 0 <= i < |values| ==>
          && values[i] in vals && values[i].repr <= vals && IsFieldNumber(values[i].protobufId)
          && values[i].protobufId in m.values && values[i].protobufId !in remaining
          && m.values[values[i].protobufId] == values[i].content)
    && (forall i, j :: 0 <= i < j < |values| ==> values[i].protobufId < values[j].protobufId)
    && (forall i, n :: 0 <= i < |values| && n in remaining ==> values[i].protobufId < n)
    && (forall n :: n in m.values && n !in remaining ==> HasNumber(values, n))
  }

  ghost predicate HasNumber(values: seq<LVMessageValue>, n: int) {
    exists i :: 0 <= i < |values| && values[i].protobufId == n
  }

  lemma NothingBuilt()
    ensures IsColdGraph({}, {})
  {
  }

  lemma BuiltGrows(m: Message, values: seq<LVMessageValue>, remaining: set<int>, vals: set<LVMessageValue>,
                   more: set<LVMessageValue>, n: int, v: LVMessageValue)
    requires Buildable(m) && remaining <= m.values.Keys && Built(m, values, remaining, vals)
    requires n in remaining && forall k :: k in remaining ==> n <= k
    requires v in more && v.repr <= more && v.protobufId == n && v.content == m.values[n]
    ensures Built(m, values + [v], remaining - {n}, vals + more)
  {
    hide BuildableValue;
    var grown := values + [v];
    forall k | k in m.values && k !in remaining - {n} ensures HasNumber(grown, k) {
      if k == n {
        assert grown[|values|].protobufId == n;
      } else {
        assert HasNumber(values, k);
        var i :| 0 <= i < |values| && values[i].protobufId == k;
        assert grown[i].protobufId == k;
      }
    }
  }

  lemma MessageCloses(m: Message, values: seq<LVMessageValue>, vals: set<LVMessageValue>, msgs: set<OutgoingMessage>,
                      o: OutgoingMessage)
    requires IsColdGraph(vals, msgs) && Built(m, values, {}, vals) && o.values == values && o.content == m
    requires forall i :: 0 <= i < |values| ==> values[i].repr <= o.repr
    requires forall w :: w in o.repr ==> exists i :: 0 <= i < |values| && w in values[i].repr
    ensures IsColdGraph(vals, msgs + {o}) && o.repr <= vals
  {
    hide IsColdGraph;
    MessageAgrees(m, values, vals, o);
    hide *;
    AgreedJoins(vals, msgs, o);
  }

  lemma MessageAgrees(m: Message, values: seq<LVMessageValue>, vals: set<LVMessageValue>, o: OutgoingMessage)
    requires Built(m, values, {}, vals) && o.values == values && o.content == m
    requires forall i :: 0 <= i < |values| ==> values[i].repr <= o.repr
    requires forall w :: w in o.repr ==> exists i :: 0 <= i < |values| && w in values[i].repr
    ensures o.Agrees(vals) && o.repr <= vals
  {
    forall n | n in m.values ensures exists i :: 0 <= i < |values| && values[i].protobufId == n {
      assert HasNumber(values, n);
    }
  }

  lemma AgreedJoins(vals: set<LVMessageValue>, msgs: set<OutgoingMessage>, o: OutgoingMessage)
    requires IsColdGraph(vals, msgs) && o.Agrees(vals)
    ensures IsColdGraph(vals, msgs + {o})
  {
  }

  method BuildValue(n: nat, v: Value)
    returns (x: LVMessageValue, ghost vals: set<LVMessageValue>, ghost msgs: set<OutgoingMessage>)
    requires BuildableValue(v)
    ensures IsColdGraph(vals, msgs) && x in vals && x.content == v && x.protobufId == n && x.repr <= vals
    ensures fresh(vals) && fresh(msgs)
    decreases v, 0
  {
    hide Closed, Buildable;
    if v.Nested? {
      var o;
      o, vals, msgs := BuildMessage(v.message);
      x := new LVMessageValue.Singular(n, o);
      SingularCloses(vals, msgs, o, x);
      vals := vals + {x};
    } else if v.NestedList? {
      var os;
      os, vals, msgs := BuildMessages(v.messages);
      x := new LVMessageValue.Repeated(n, os);
      RepeatedCloses(vals, msgs, os, x);
      assert x.content.messages == v.messages;
      vals := vals + {x};
    } else {
      x := new LVMessageValue(n, v);
      vals, msgs := {x}, {};
      PlainCloses(x);
    }
  }

  lemma SingularCloses(vals: set<LVMessageValue>, msgs: set<OutgoingMessage>, o: OutgoingMessage, x: LVMessageValue)
    requires IsColdGraph(vals, msgs) && o in msgs && o.repr <= vals && x !in vals && x.IsCold()
    requires x.payload == Sub(o) && x.content == Nested(o.content) && x.repr == {x} + o.repr
    ensures IsColdGraph(vals + {x}, msgs)
  {
  }

  lemma RepeatedCloses(vals: set<LVMessageValue>, msgs: set<OutgoingMessage>, os: seq<OutgoingMessage>, x: LVMessageValue)
    requires IsColdGraph(vals, msgs) && x !in vals && x.IsCold()
    requires forall i :: 0 <= i < |os| ==> os[i] in msgs && os[i].repr <= vals
    requires x.payload == SubList(os) && x.content.NestedList? && |x.content.messages| == |os|
    requires forall i :: 0 <= i < |os| ==> x.content.messages[i] == os[i].content && os[i].repr <= x.repr
    requires forall w :: w in x.repr <==> w == x || exists i :: 0 <= i < |os| && w in os[i].repr
    ensures IsColdGraph(vals + {x}, msgs) && x.repr <= vals + {x}
  {
  }

  lemma PlainCloses(x: LVMessageValue)
    requires x.IsCold() && x.payload == Plain(x.content) && Representable(x.content) && x.repr == {x}
    ensures IsColdGraph({x}, {})
  {
  }

  method BuildMessages(ms: seq<Message>)
    returns (os: seq<OutgoingMessage>, ghost vals: set<LVMessageValue>, ghost msgs: set<OutgoingMessage>)
    requires forall m :: m in ms ==> Buildable(m)
    ensures IsColdGraph(vals, msgs) && |os| == |ms|
    ensures forall i :: 0 <= i < |os| ==> os[i] in msgs && os[i].content == ms[i] && os[i].repr <= vals
    ensures fresh(vals) && fresh(msgs)
    decreases ms, 2
  {
    hide Closed, Buildable, IsColdGraph;
    os, vals, msgs := [], {}, {};
    NothingBuilt();
    while |os| < |ms|
      invariant |os| <= |ms| && IsColdGraph(vals, msgs) && fresh(vals) && fresh(msgs)
      invariant forall i :: 0 <= i < |os| ==> os[i] in msgs && os[i].content == ms[i] && os[i].repr <= vals
    {
      var o;
      ghost var vs, qs := {}, {};
      o, vs, qs := BuildMessage(ms[|os|]);
      ColdUnion(vals, msgs, vs, qs);
      os, vals, msgs := os + [o], vals + vs, msgs + qs;
    }
  }
}
