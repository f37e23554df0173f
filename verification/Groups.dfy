/** Unknown fields and groups: the handler accepts exactly the properly nested ones, and
    keeps their leaf fields in order. */
module Groups {
  import opened Wire
  import opened Messages
  import opened Parse

  /** An unknown field as the wire nests it. */
  datatype Tree = Leaf(field: Unknown) | Group(number: nat, kids: seq<Tree>)

  function Flatten(t: Tree): seq<Unknown> {
    match t
    case Leaf(u) => [u]
    case Group(_, kids) => FlattenAll(kids)
  }

  function FlattenAll(ts: seq<Tree>): seq<Unknown> {
    if ts == [] then [] else Flatten(ts[0]) + FlattenAll(ts[1..])
  }

  /** The number under which a tree stands on the wire. */
  function TreeNumber(t: Tree): nat {
    match t
    case Leaf(u) => u.number
    case Group(n, _) => n
  }

  function TreeTag(t: Tree): nat {
    match t
    case Leaf(UnknownVarint(n, _)) => MakeTag(n, WIRETYPE_VARINT)
    case Leaf(UnknownFixed64(n, _)) => MakeTag(n, WIRETYPE_FIXED64)
    case Leaf(UnknownLengthDelimited(n, _)) => MakeTag(n, WIRETYPE_LENGTH_DELIMITED)
    case Leaf(UnknownFixed32(n, _)) => MakeTag(n, WIRETYPE_FIXED32)
    case Group(n, _) => MakeTag(n, WIRETYPE_START_GROUP)
  }

  // ------------------------------------------------------------- the grammar

  /** `s` is some encoding, shortest or padded, of a number equal to `v` modulo `modulus`. */
  predicate DerivesVarint(v: nat, modulus: nat, s: bytes)
    requires modulus > 0
  {
    IsVarint(s) && |s| <= MAX_VARINT_BYTES && VarintValue(s) % modulus == v
  }

  /** `s` is an encoding of what follows the tag of `t`. */
  ghost predicate Derives(t: Tree, s: bytes)
    decreases t, 0
  {
    match t
    case Leaf(UnknownVarint(_, v)) => DerivesVarint(v, TWO_64, s)
    case Leaf(UnknownFixed64(_, v)) => |s| == 8 && DecodeLE(s) == v
    case Leaf(UnknownFixed32(_, v)) => |s| == 4 && DecodeLE(s) == v
    case Leaf(UnknownLengthDelimited(_, c)) =>
      && |c| <= INT_MAX && |c| <= |s|
      && DerivesVarint(|c|, TWO_32, s[..|s| - |c|]) && s[|s| - |c|..] == c
    case Group(n, kids) => DerivesGroup(n, kids, s)
  }

  /** `s` is the kids of group `n`, each with its tag, and then the matching end tag. */
  ghost predicate DerivesGroup(n: nat, kids: seq<Tree>, s: bytes)
    decreases kids, 1
  {
    if kids == [] then DerivesVarint(MakeTag(n, WIRETYPE_END_GROUP), TWO_32, s)
    else
      exists a: nat, b: nat ::
        && a <= b <= |s|
        && TreeTag(kids[0]) != 0
        && DerivesVarint(TreeTag(kids[0]), TWO_32, s[..a])
        && Derives(kids[0], s[a..b])
        && DerivesGroup(n, kids[1..], s[b..])
  }

  // ------------------------------------------------------------- completeness

  lemma ReadVarintDerived(v: nat, s: bytes, i: Input)
    requires i.Valid()
    ensures DerivesVarint(v, TWO_64, s) ==> ReadVarint64(Before(s, i)) == Read(true, v, i)
    ensures DerivesVarint(v, TWO_32, s) ==> ReadVarint32(Before(s, i)) == Read(true, v, i)
  {
    if IsVarint(s) && |s| <= MAX_VARINT_BYTES {
      ScanAcceptsAVarint(s, MAX_VARINT_BYTES, i.data);
      SkipBefore(s, i);
    }
  }

  lemma ReadTagDerived(tag: nat, s: bytes, i: Input)
    requires i.Valid() && tag != 0 && DerivesVarint(tag, TWO_32, s)
    ensures ReadTag(Before(s, i)) == Tag(tag, false, i)
  {
    ReadVarintDerived(tag, s, i);
  }

  lemma TagParts(n: nat, wireType: nat)
    requires wireType < 8
    ensures TagFieldNumber(MakeTag(n, wireType)) == n && TagWireType(MakeTag(n, wireType)) == wireType
  {
  }

  lemma TreeTagNumber(t: Tree)
    ensures TagFieldNumber(TreeTag(t)) == TreeNumber(t)
  {
  }

  lemma LeafIsRead(u: Unknown, s: bytes, i: Input)
    requires i.Valid() && Derives(Leaf(u), s)
    ensures ReadUnknown(TreeTag(Leaf(u)), Before(s, i)) == UnknownRead(true, [u], i)
  {
    match u
    case UnknownVarint(n, v) =>
      TagParts(n, WIRETYPE_VARINT);
      ReadVarintDerived(v, s, i);
    case UnknownFixed64(n, v) =>
      TagParts(n, WIRETYPE_FIXED64);
      assert (s + i.data)[..8] == s;
      SkipBefore(s, i);
    case UnknownFixed32(n, v) =>
      TagParts(n, WIRETYPE_FIXED32);
      assert (s + i.data)[..4] == s;
      SkipBefore(s, i);
    case UnknownLengthDelimited(n, c) =>
      TagParts(n, WIRETYPE_LENGTH_DELIMITED);
      DerivedContentIsRead(c, s, i);
  }

  lemma DerivedContentIsRead(c: bytes, s: bytes, i: Input)
    requires i.Valid() && |c| <= INT_MAX && |c| <= |s|
    requires DerivesVarint(|c|, TWO_32, s[..|s| - |c|]) && s[|s| - |c|..] == c
    ensures ReadLengthDelimited(Before(s, i)) == Read(true, c, i)
  {
    var a := s[..|s| - |c|];
    assert s == a + c;
    BeforeSplits(a, c, i);
    ReadVarintDerived(|c|, a, Before(c, i));
    ReadAfterLength(c, Before(s, i), i);
  }

  /** Every encoding of a tree is accepted, gives its leaves in order, and stops right
      after its last byte. */
  lemma {:induction false} DerivedIsRead(t: Tree, s: bytes, i: Input)
    requires i.Valid() && Derives(t, s)
    ensures ReadUnknown(TreeTag(t), Before(s, i)) == UnknownRead(true, Flatten(t), i)
    decreases t, 0
  {
    match t
    case Leaf(u) => LeafIsRead(u, s, i);
    case Group(n, kids) =>
      TagParts(n, WIRETYPE_START_GROUP);
      DerivedGroupIsRead(n, kids, s, i);
  }

  lemma {:induction false} DerivedGroupIsRead(n: nat, kids: seq<Tree>, s: bytes, i: Input)
    requires i.Valid() && DerivesGroup(n, kids, s)
    ensures ReadGroup(MakeTag(n, WIRETYPE_END_GROUP), Before(s, i)) == UnknownRead(true, FlattenAll(kids), i)
    decreases kids, 1
  {
    hide DerivesVarint, Derives, ReadUnknown, ReadGroup, ReadTag;
    var close := MakeTag(n, WIRETYPE_END_GROUP);
    if kids == [] {
      ReadTagDerived(close, s, i);
      GroupEnds(close, Before(s, i), i);
    } else {
      var a: nat, b: nat :| a <= b <= |s| && TreeTag(kids[0]) != 0
        && DerivesVarint(TreeTag(kids[0]), TWO_32, s[..a]) && Derives(kids[0], s[a..b])
        && DerivesGroup(n, kids[1..], s[b..]);
      var h, j, k := Before(s, i), Before(s[a..b] + s[b..], i), Before(s[b..], i);
      assert s == s[..a] + (s[a..b] + s[b..]);
      BeforeSplits(s[..a], s[a..b] + s[b..], i);
      BeforeSplits(s[a..b], s[b..], i);
      ReadTagDerived(TreeTag(kids[0]), s[..a], j);
      DerivedIsRead(kids[0], s[a..b], k);
      DerivedGroupIsRead(n, kids[1..], s[b..], i);
      TagNeverCloses(kids[0], n);
      GroupStep(close, h, TreeTag(kids[0]), j, k);
    }
  }

  lemma TagNeverCloses(t: Tree, n: nat)
    ensures TreeTag(t) != MakeTag(n, WIRETYPE_END_GROUP)
  {
  }

  lemma GroupEnds(endTag: nat, h: Input, i: Input)
    requires h.Valid() && i.Valid() && endTag != 0 && ReadTag(h) == Tag(endTag, false, i)
    ensures ReadGroup(endTag, h) == UnknownRead(true, [], i)
  {
  }

  /** One turn of the group loop, given what its reads return. */
  lemma GroupStep(endTag: nat, h: Input, tag: nat, j: Input, k: Input)
    requires h.Valid() && j.Valid() && k.Valid() && tag != 0 && tag != endTag
    requires ReadTag(h) == Tag(tag, false, j)
    requires ReadUnknown(tag, j).ok && ReadUnknown(tag, j).rest == k
    ensures var more := ReadGroup(endTag, k);
            ReadGroup(endTag, h) == UnknownRead(more.ok, ReadUnknown(tag, j).fields + more.fields, more.rest)
  {
  }

  // ---------------------------------------------------------------- soundness

  lemma ReadVarintIsDerived(i: Input)
    requires i.Valid()
    ensures var r := ReadVarint64(i); var k := |i.data| - |r.rest.data|;
            r.ok ==> DerivesVarint(r.value, TWO_64, i.data[..k]) && r.rest == i.Skip(k)
    ensures var r := ReadVarint32(i); var k := |i.data| - |r.rest.data|;
            r.ok ==> DerivesVarint(r.value, TWO_32, i.data[..k]) && r.rest == i.Skip(k)
  {
    ScanReadsAVarint(i.data, MAX_VARINT_BYTES);
  }

  lemma SlicesOf(s: bytes, a: nat, n: nat)
    requires a + n <= |s|
    ensures s[..a + n][..a] == s[..a] && s[..a + n][a..] == s[a..][..n] && s[a..][n..] == s[a + n..]
  {
  }

  lemma ContentIsDerived(i: Input)
    requires i.Valid() && ReadLengthDelimited(i).ok
    ensures var r := ReadLengthDelimited(i); var k := |i.data| - |r.rest.data|; var a := k - |r.value|;
            && |r.value| <= INT_MAX && 0 <= a
            && DerivesVarint(|r.value|, TWO_32, i.data[..k][..a]) && i.data[..k][a..] == r.value
            && r.rest == i.Skip(k)
  {
    hide DerivesVarint, ReadVarint32;
    var n := ReadVarint32(i);
    ReadVarintIsDerived(i);
    var a := |i.data| - |n.rest.data|;
    assert n.rest.data == i.data[a..];
    SlicesOf(i.data, a, n.value);
  }

  /** Whatever the handler accepts was an encoding of some tree with that tag. */
  lemma {:induction false} ReadIsDerived(tag: nat, i: Input) returns (t: Tree, k: nat)
    requires i.Valid() && ReadUnknown(tag, i).ok
    ensures k <= |i.data| && TreeTag(t) == tag && Derives(t, i.data[..k])
    ensures ReadUnknown(tag, i).rest == i.Skip(k)
    decreases |i.data|, 1
  {
    if TagWireType(tag) == WIRETYPE_START_GROUP {
      var kids;
      kids, k := ReadGroupIsDerived(TagFieldNumber(tag), i);
      t := Group(TagFieldNumber(tag), kids);
    } else {
      t, k := LeafIsDerived(tag, i);
    }
  }

  lemma LeafIsDerived(tag: nat, i: Input) returns (t: Tree, k: nat)
    requires i.Valid() && ReadUnknown(tag, i).ok && TagWireType(tag) != WIRETYPE_START_GROUP
    ensures k <= |i.data| && TreeTag(t) == tag && Derives(t, i.data[..k])
    ensures ReadUnknown(tag, i).rest == i.Skip(k)
  {
    hide DerivesVarint, ReadVarint32, ReadVarint64;
    var n := TagFieldNumber(tag);
    k := |i.data| - |ReadUnknown(tag, i).rest.data|;
    if TagWireType(tag) == WIRETYPE_VARINT {
      ReadVarintIsDerived(i);
      t := Leaf(UnknownVarint(n, ReadVarint64(i).value));
    } else if TagWireType(tag) == WIRETYPE_FIXED64 {
      t := Leaf(UnknownFixed64(n, DecodeLE(i.data[..8])));
    } else if TagWireType(tag) == WIRETYPE_FIXED32 {
      t := Leaf(UnknownFixed32(n, DecodeLE(i.data[..4])));
    } else {
      ContentIsDerived(i);
      t := Leaf(UnknownLengthDelimited(n, ReadLengthDelimited(i).value));
    }
  }

  lemma {:induction false} ReadGroupIsDerived(n: nat, i: Input) returns (kids: seq<Tree>, k: nat)
    requires i.Valid() && ReadGroup(MakeTag(n, WIRETYPE_END_GROUP), i).ok
    ensures k <= |i.data| && DerivesGroup(n, kids, i.data[..k])
    ensures ReadGroup(MakeTag(n, WIRETYPE_END_GROUP), i).rest == i.Skip(k)
    decreases |i.data|, 0
  {
    hide Derives, DerivesVarint, DerivesGroup, ReadUnknown, ReadGroup, ReadTag;
    var close, t := MakeTag(n, WIRETYPE_END_GROUP), ReadTag(i);
    GroupSteps(close, i);
    TagIsDerived(i);
    var a := |i.data| - |t.rest.data|;
    if t.tag == close {
      kids, k := [], a;
      CloseRead(n, i.data[..a]);
    } else {
      var kid, b := ReadIsDerived(t.tag, t.rest);
      var rest := ReadUnknown(t.tag, t.rest).rest;
      var others, c := ReadGroupIsDerived(n, rest);
      JoinRead(n, kid, others, i, a, t.rest, b, rest, c);
      kids, k := [kid] + others, a + b + c;
    }
  }

  /** Gluing a kid that was read to the rest of its group. */
  lemma JoinRead(n: nat, kid: Tree, others: seq<Tree>, i: Input, a: nat, j: Input, b: nat, l: Input, c: nat)
    requires i.Valid() && a + b + c <= |i.data| && TreeTag(kid) != 0
    requires j == i.Skip(a) && l == j.Skip(b)
    requires DerivesVarint(TreeTag(kid), TWO_32, i.data[..a])
    requires Derives(kid, j.data[..b])
    requires DerivesGroup(n, others, l.data[..c])
    ensures DerivesGroup(n, [kid] + others, i.data[..a + b + c])
    ensures l.Skip(c) == i.Skip(a + b + c)
  {
    JoinGroupParts(n, kid, others, i, a, b, c);
    SkipSkip(i, a, b);
    SkipSkip(i, a + b, c);
  }

  lemma CloseRead(n: nat, s: bytes)
    requires DerivesVarint(MakeTag(n, WIRETYPE_END_GROUP), TWO_32, s)
    ensures DerivesGroup(n, [], s)
  {
  }

  lemma GroupSteps(endTag: nat, i: Input)
    requires i.Valid() && ReadGroup(endTag, i).ok
    ensures var t := ReadTag(i);
            && t.tag != 0
            && (t.tag == endTag ==> ReadGroup(endTag, i).rest == t.rest)
            && (t.tag != endTag ==>
                  var one := ReadUnknown(t.tag, t.rest);
                  && one.ok && ReadGroup(endTag, one.rest).ok
                  && ReadGroup(endTag, i).rest == ReadGroup(endTag, one.rest).rest)
  {
  }

  lemma SkipSkip(i: Input, a: nat, b: nat)
    requires i.Valid() && a + b <= |i.data|
    ensures i.Skip(a).Skip(b) == i.Skip(a + b)
  {
    assert i.data[a..][b..] == i.data[a + b..];
  }

  lemma TagIsDerived(i: Input)
    requires i.Valid() && ReadTag(i).tag != 0
    ensures var t := ReadTag(i); var k := |i.data| - |t.rest.data|;
            DerivesVarint(t.tag, TWO_32, i.data[..k]) && t.rest == i.Skip(k)
  {
    ReadVarintIsDerived(i);
  }

  lemma JoinGroupParts(n: nat, kid: Tree, others: seq<Tree>, i: Input, a: nat, b: nat, c: nat)
    requires i.Valid() && a + b + c <= |i.data| && TreeTag(kid) != 0
    requires DerivesVarint(TreeTag(kid), TWO_32, i.data[..a])
    requires Derives(kid, i.Skip(a).data[..b])
    requires DerivesGroup(n, others, i.Skip(a).Skip(b).data[..c])
    ensures DerivesGroup(n, [kid] + others, i.data[..a + b + c])
  {
    ThreeSlices(i.data, a, b, c);
    JoinThree(n, kid, others, i.data[..a], i.Skip(a).data[..b], i.Skip(a).Skip(b).data[..c]);
  }

  lemma ThreeSlices(d: bytes, a: nat, b: nat, c: nat)
    requires a + b + c <= |d|
    ensures d[..a] + d[a..][..b] + d[a..][b..][..c] == d[..a + b + c]
  {
  }

  lemma JoinGroup(n: nat, kid: Tree, others: seq<Tree>, s: bytes, a: nat, b: nat)
    requires a <= b <= |s| && TreeTag(kid) != 0
    requires DerivesVarint(TreeTag(kid), TWO_32, s[..a])
    requires Derives(kid, s[a..b])
    requires DerivesGroup(n, others, s[b..])
    ensures DerivesGroup(n, [kid] + others, s)
  {
    var kids := [kid] + others;
    assert kids[1..] == others;
  }

  /** HandleUnknownField succeeds exactly on encodings of one tree with the given tag. For a
      start-group tag that means: exactly when a properly nested, matching end tag follows. */
  lemma AcceptsExactlyTrees(tag: nat, i: Input)
    requires i.Valid()
    ensures ReadUnknown(tag, i).ok <==>
            exists t: Tree, k: nat :: k <= |i.data| && TreeTag(t) == tag && Derives(t, i.data[..k])
    ensures forall t: Tree, k: nat :: k <= |i.data| && TreeTag(t) == tag && Derives(t, i.data[..k]) ==>
              ReadUnknown(tag, i) == UnknownRead(true, Flatten(t), i.Skip(k))
  {
    hide Derives, ReadUnknown;
    if ReadUnknown(tag, i).ok {
      var t, k := ReadIsDerived(tag, i);
    }
    forall t: Tree, k: nat | k <= |i.data| && TreeTag(t) == tag && Derives(t, i.data[..k])
      ensures ReadUnknown(tag, i) == UnknownRead(true, Flatten(t), i.Skip(k))
    {
      DerivedPrefixIsRead(t, i, k);
    }
  }

  lemma DerivedPrefixIsRead(t: Tree, i: Input, k: nat)
    requires i.Valid() && k <= |i.data| && Derives(t, i.data[..k])
    ensures ReadUnknown(TreeTag(t), i) == UnknownRead(true, Flatten(t), i.Skip(k))
  {
    assert Before(i.data[..k], i.Skip(k)) == i by { assert i.data[..k] + i.data[k..] == i.data; }
    DerivedIsRead(t, i.data[..k], i.Skip(k));
  }

  // ------------------------------------------------------- the usual encoding

  predicate WellFormedTree(t: Tree) {
    match t
    case Leaf(UnknownVarint(n, v)) => IsFieldNumber(n) && v < TWO_64
    case Leaf(UnknownFixed64(n, v)) => IsFieldNumber(n) && v < TWO_64
    case Leaf(UnknownFixed32(n, v)) => IsFieldNumber(n) && v < TWO_32
    case Leaf(UnknownLengthDelimited(n, c)) => IsFieldNumber(n) && |c| <= INT_MAX
    case Group(n, kids) => IsFieldNumber(n) && forall k :: k in kids ==> WellFormedTree(k)
  }

  function EncodeBody(t: Tree): bytes
    decreases t, 0
  {
    match t
    case Leaf(UnknownVarint(_, v)) => EncodeVarint(v)
    case Leaf(UnknownFixed64(_, v)) => EncodeLE(v, 8)
    case Leaf(UnknownFixed32(_, v)) => EncodeLE(v, 4)
    case Leaf(UnknownLengthDelimited(_, c)) => EncodeVarint(|c|) + c
    case Group(n, kids) => EncodeTrees(kids) + EncodeTag(n, WIRETYPE_END_GROUP)
  }

  function EncodeTree(t: Tree): bytes
    decreases t, 1
  {
    EncodeVarint(TreeTag(t)) + EncodeBody(t)
  }

  function EncodeTrees(ts: seq<Tree>): bytes
    decreases ts, 2
  {
    if ts == [] then [] else EncodeTree(ts[0]) + EncodeTrees(ts[1..])
  }

  lemma EncodedVarintDerives(v: nat, modulus: nat)
    requires v < modulus <= TWO_64
    ensures DerivesVarint(v, modulus, EncodeVarint(v))
  {
    Pow128Ten();
    ScanInvertsEncode(v, MAX_VARINT_BYTES, []);
    assert EncodeVarint(v) + [] == EncodeVarint(v);
    ScanReadsAVarint(EncodeVarint(v), MAX_VARINT_BYTES);
    assert EncodeVarint(v)[..|EncodeVarint(v)|] == EncodeVarint(v);
  }

  lemma {:induction false} EncodedTreeDerives(t: Tree)
    requires WellFormedTree(t)
    ensures Derives(t, EncodeBody(t)) && 0 < TreeTag(t) < TWO_32
    decreases t, 0
  {
    Pow256Words();
    match t
    case Leaf(UnknownVarint(_, v)) => EncodedVarintDerives(v, TWO_64);
    case Leaf(UnknownFixed64(_, v)) => DecodeInvertsEncodeLE(v, 8);
    case Leaf(UnknownFixed32(_, v)) => DecodeInvertsEncodeLE(v, 4);
    case Leaf(UnknownLengthDelimited(_, c)) =>
      EncodedVarintDerives(|c|, TWO_32);
      var s := EncodeVarint(|c|) + c;
      assert s[..|s| - |c|] == EncodeVarint(|c|) && s[|s| - |c|..] == c;
    case Group(n, kids) => EncodedGroupDerives(n, kids);
  }

  lemma {:induction false} EncodedGroupDerives(n: nat, kids: seq<Tree>)
    requires IsFieldNumber(n) && forall k :: k in kids ==> WellFormedTree(k)
    ensures DerivesGroup(n, kids, EncodeTrees(kids) + EncodeTag(n, WIRETYPE_END_GROUP))
    decreases kids, 1
  {
    var close := EncodeTag(n, WIRETYPE_END_GROUP);
    var s := EncodeTrees(kids) + close;
    if kids == [] {
      EncodedVarintDerives(MakeTag(n, WIRETYPE_END_GROUP), TWO_32);
      assert s == close;
    } else {
      var kid, open, body, tail :=
        kids[0], EncodeVarint(TreeTag(kids[0])), EncodeBody(kids[0]), EncodeTrees(kids[1..]) + close;
      EncodedTreeDerives(kid);
      EncodedVarintDerives(TreeTag(kid), TWO_32);
      EncodedGroupDerives(n, kids[1..]);
      JoinThree(n, kid, kids[1..], open, body, tail);
      EncodeTreesUnfolds(kids, close);
      assert [kid] + kids[1..] == kids;
    }
  }

  lemma EncodeTreesUnfolds(kids: seq<Tree>, close: bytes)
    requires kids != []
    ensures EncodeTrees(kids) + close
         == EncodeVarint(TreeTag(kids[0])) + EncodeBody(kids[0]) + (EncodeTrees(kids[1..]) + close)
  {
    var open, body, tail := EncodeVarint(TreeTag(kids[0])), EncodeBody(kids[0]), EncodeTrees(kids[1..]);
    assert EncodeTrees(kids) == open + body + tail;
    assert open + body + tail + close == open + body + (tail + close);
  }

  lemma JoinThree(n: nat, kid: Tree, others: seq<Tree>, open: bytes, body: bytes, tail: bytes)
    requires TreeTag(kid) != 0 && DerivesVarint(TreeTag(kid), TWO_32, open)
    requires Derives(kid, body) && DerivesGroup(n, others, tail)
    ensures DerivesGroup(n, [kid] + others, open + body + tail)
  {
    var s, a, b := open + body + tail, |open|, |open| + |body|;
    assert s[..a] == open && s[a..b] == body && s[b..] == tail;
    JoinGroup(n, kid, others, s, a, b);
  }

  /** For any encoded tree: accepted, flattened in order, and nothing after it is touched. */
  lemma EncodedTreeIsRead(t: Tree, i: Input)
    requires i.Valid() && WellFormedTree(t)
    ensures ReadTag(Before(EncodeTree(t), i)) == Tag(TreeTag(t), false, Before(EncodeBody(t), i))
    ensures ReadUnknown(TreeTag(t), Before(EncodeBody(t), i)) == UnknownRead(true, Flatten(t), i)
  {
    EncodedTreeDerives(t);
    DerivedIsRead(t, EncodeBody(t), i);
    BeforeSplits(EncodeVarint(TreeTag(t)), EncodeBody(t), i);
    EncodedVarintDerives(TreeTag(t), TWO_32);
    ReadTagDerived(TreeTag(t), EncodeVarint(TreeTag(t)), Before(EncodeBody(t), i));
  }
}
