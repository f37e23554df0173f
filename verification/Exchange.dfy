/** A cluster sent and received: metadata finalized, memory read, bytes written, slices parsed,
    memory written. */
module Exchange {
  import opened Wire
  import opened Schema
  import opened Numeric
  import opened Messages
  import opened Parse
  import opened LVMessages
  import SliceStream
  import Values = MessageValue
  import opened Layout
  import Owners = MetadataOwner
  import opened Enums
  import opened Clusters
  import opened Copying
  import opened ClusterCopier
  import opened ClusterReader
  import opened EndToEnd

  // ------------------------------------------------------------------ the metadata

  /** What is asked of the declarations of a registry: names resolve, and a type that comes in
      arrays has elements. */
  ghost predicate DeclaredField(types: map<string, MessageType>, enums: set<string>, f: Field) {
    && (f.kind.EnumValue? ==> f.embedded in enums)
    && (EmbedsCluster(f) ==> f.embedded in types && types[f.embedded] != [])
    && (IsGrid(f, Double2DArray) ==> f.embedded in types && types[f.embedded] == GridType(DoubleValue))
    && (IsGrid(f, String2DArray) ==> f.embedded in types && types[f.embedded] == GridType(StringValue))
  }

  ghost predicate Declared(types: map<string, MessageType>, enums: set<string>) {
    forall name :: name in types ==>
      && WellFormedType(types[name]) && OneofsAreDescribed(types[name])
      && forall f :: f in types[name] ==> DeclaredField(types, enums, f)
  }

  /** The texts that describe the enums. */
  ghost predicate AreTables(tables: map<string, string>, rows: map<string, seq<Row>>) {
    forall e :: e in tables ==> e in rows && IsTable(tables[e], rows[e]) && |rows[e]| <= TWO_32
  }

  ghost predicate AllNumbered(rows: map<string, seq<Row>>, names: set<string>) {
    forall e, r :: e in names && e in rows && r in rows[e] ==> Stoi(r.digits).Some?
  }

  lemma NumberedFits(rows: seq<Row>, numbers: seq<int>, e: EnumMetadata)
    requires Numbered(rows, numbers) && Describes(e, numbers) && |rows| <= TWO_32
    ensures IsEnumTable(e, numbers)
  {
    forall i | 0 <= i < |numbers| ensures InRange(EnumValue, numbers[i]) {
      assert Stoi(rows[i].digits) == Some(numbers[i]);
    }
  }

  /** CreateEnumMetadata2 for every enum; None when a number does not convert. */
  method CreateEnums(tables: map<string, string>, ghost rows: map<string, seq<Row>>)
    returns (enums: Option<map<string, EnumMetadata>>)
    requires AreTables(tables, rows)
    ensures enums.Some? <==> AllNumbered(rows, tables.Keys)
    ensures enums.Some? ==> enums.value.Keys == tables.Keys
                            && forall e :: e in tables ==> exists numbers :: IsEnumTable(enums.value[e], numbers)
  {
    hide IsEnumTable, IsTable, Stoi, Describes, Numbered;
    var made: map<string, EnumMetadata> := map[];
    var remaining := tables.Keys;
    while remaining != {}
      invariant remaining <= tables.Keys && made.Keys == tables.Keys - remaining
      invariant forall e :: e in made ==> exists numbers :: IsEnumTable(made[e], numbers)
      invariant AllNumbered(rows, made.Keys)
      decreases |remaining|
    {
      var name := AnyOf(remaining);
      var e;
      ghost var numbers;
      e, numbers := CreateEnumMetadata(tables[name], rows[name]);
      if e.None? { return None; }
      NumberedFits(rows[name], numbers, e.value);
      made := made[name := e.value];
      remaining := remaining - {name};
    }
    enums := Some(made);
  }

  /** A registry whose pass is done and whose enums have their maps is what the copiers rely
      on. */
  lemma FinalizedIsDescribed(registered: map<string, Owners.MessageMetadata>, rank: Rank, enums: map<string, EnumMetadata>,
                             validUtf8: bytes -> bool, d: Descriptors)
    requires Owners.Closed(registered, rank) && Declared(Owners.TypesOf(registered), enums.Keys)
    requires forall n :: n in registered ==> Owners.LaidOut(registered, rank, n)
    requires forall e :: e in enums ==> exists numbers :: IsEnumTable(enums[e], numbers)
    requires d.reg == Registry(Owners.TypesOf(registered), validUtf8) && d.enums == enums
    requires d.layouts.Keys == registered.Keys && forall n :: n in registered ==> d.layouts[n] == Owners.Recorded(registered, n)
    ensures Described(d, rank)
  {
    hide OneofsAreDescribed, WellFormedType, LayoutOf, IsEnumTable;
    var types := Owners.TypesOf(registered);
    forall name | name in types ensures DescribedType(d, rank, name) {
      assert Owners.LaidOut(registered, rank, name);
      forall f | f in types[name] ensures DescribedField(d, f) {
        assert DeclaredField(types, enums.Keys, f);
      }
    }
  }

  /** The metadata that a registry and the texts of its enums come to. */
  method Prepare(owner: Owners.MessageElementMetadataOwner, ghost rank: Rank, tables: map<string, string>,
                 ghost rows: map<string, seq<Row>>, validUtf8: bytes -> bool)
    returns (d: Option<Descriptors>)
    requires Owners.Valid(owner.registeredMessageMetadata, rank)
    requires Declared(Owners.TypesOf(owner.registeredMessageMetadata), tables.Keys) && AreTables(tables, rows)
    modifies Owners.Layouts(owner.registeredMessageMetadata)
    ensures d.Some? <==> AllNumbered(rows, tables.Keys)
    ensures d.Some? ==> Described(d.value, rank)
    ensures d.Some? ==> d.value.reg == Registry(Owners.TypesOf(owner.registeredMessageMetadata), validUtf8)
                        && d.value.enums.Keys == tables.Keys
  {
    hide Described, Declared, AreTables, AllNumbered, IsEnumTable, Owners.Valid, Owners.Closed, Owners.LaidOut, Owners.Recorded,
      Owners.TypesOf;
    var enums := CreateEnums(tables, rows);
    if enums.None? { return None; }
    owner.FinalizeMetadata(rank);
    var registered := owner.registeredMessageMetadata;
    Owners.ValidIsClosed(registered, rank);
    var layouts := map n | n in registered :: registered[n].Recorded();
    assert forall n :: n in registered ==> layouts[n] == Owners.Recorded(registered, n) by { SameRecords(registered); }
    var made := Descriptors(Registry(Owners.TypesOf(registered), validUtf8), enums.value, layouts);
    FinalizedIsDescribed(registered, rank, enums.value, validUtf8, made);
    d := Some(made);
  }

  lemma SameRecords(registered: map<string, Owners.MessageMetadata>)
    ensures forall n :: n in registered ==> registered[n].Recorded() == Owners.Recorded(registered, n)
  {
  }

  // ---------------------------------------------------------------------- sending

  datatype Sending = NotConvertible | TooLong | Sent(wire: bytes)

  /** CopyFromCluster and SerializeToByteBuffer: the wire is the encoding of the message that
      the cluster shows, unless a conversion throws or the message is too long. */
  method Send(d: Descriptors, ghost rank: Rank, name: string, cluster: seq<Cell>) returns (r: Sending)
    requires Described(d, rank) && Layable(d.reg.messages, rank) && name in d.reg.messages
    ensures r.NotConvertible? <==> !Sends(d, rank, name, cluster)
    ensures Sends(d, rank, name, cluster) ==>
              var w := EncodeMessage(MessageOf(d, name, View(d, rank, name, cluster)));
              r == if |w| <= INT_MAX then Sent(w) else TooLong
  {
    hide Described, Layable, View, Sendable, Fits, MessageOf, EncodeMessage, Values.IsColdGraph, Values.Buildable, WellTyped;
    var message := new LVMessage(d.reg, d.reg.Find(name));
    var ok := CopyFromCluster(d, rank, name, message, cluster);
    if !ok { return NotConvertible; }
    var contents := Message(message.values, message.oneofContainerToSelectedIndexMap, message.unknownFields);
    MessageIsWellTyped(d, rank, name, View(d, rank, name, cluster));
    Values.WellTypedIsBuildable(d.reg, Some(d.Type(name)), contents);
    ghost var vals, msgs;
    var outgoing;
    outgoing, vals, msgs := Values.BuildMessage(contents);
    assert Values.Closed(vals, msgs) by { ColdIsClosed(vals, msgs); }
    var buffer := outgoing.SerializeToByteBuffer(vals, msgs);
    r := if buffer.Some? then Sent(buffer.value) else TooLong;
  }

  lemma ColdIsClosed(vals: set<Values.LVMessageValue>, msgs: set<Values.OutgoingMessage>)
    requires Values.IsColdGraph(vals, msgs)
    ensures Values.Closed(vals, msgs)
  {
  }

  // -------------------------------------------------------------------- receiving

  datatype Receipt = Malformed | UnknownEnum | Received(inside: bool)

  /** ParseFromByteBuffer and CopyToCluster: whatever the slices, the cluster shows the parsed
      message over what it showed before. */
  method Receive(d: Descriptors, ghost rank: Rank, name: string, slices: seq<bytes>, mem: array<Cell>, base: nat)
    returns (r: Receipt)
    requires Described(d, rank) && Layable(d.reg.messages, rank) && name in d.reg.messages
    requires |SliceStream.Flatten(slices)| < INT_MAX && base + d.Size(name) <= mem.Length
    modifies mem
    ensures SameOutside(old(mem[..]), mem[..], base, d.Size(name))
    ensures var w := SliceStream.Flatten(slices); var ty := d.reg.Find(name);
            && (r.Malformed? <==> !Accepts(d.reg, ty, w))
            && (Accepts(d.reg, ty, w) ==>
                  && (r.UnknownEnum? <==> !Receivable(d, name, Parsed(d.reg, ty, w)))
                  && (r.Received? ==>
                        && (r.inside <==> StaysInside(d, name, Parsed(d.reg, ty, w)))
                        && View(d, rank, name, Cut(mem[..], base, d.Size(name)))
                           == Absorb(d, rank, name, Cut(old(mem[..]), base, d.Size(name)), Parsed(d.reg, ty, w))))
    ensures r.Malformed? ==> mem[..] == old(mem[..])
  {
    hide Described, Layable, View, Absorb, Receivable, StaysInside, WellTyped, OneofsFit, SameOutside, Accepts, Parsed, ParseFields;
    NothingOutside(mem[..], base, d.Size(name));
    var message := new LVMessage(d.reg, d.reg.Find(name));
    var status, parsed := message.ParseFromByteBuffer(slices);
    if !parsed { return Malformed; }
    AcceptedCanBeCopied(d, rank, name, SliceStream.Flatten(slices));
    var contents := Message(message.values, message.oneofContainerToSelectedIndexMap, message.unknownFields);
    var ok, inside := CopyToCluster(d, rank, name, contents, mem, base);
    r := if ok then Received(inside) else UnknownEnum;
  }

  lemma NothingOutside(s: seq<Cell>, at: nat, n: nat)
    ensures SameOutside(s, s, at, n)
  {
  }

  // ------------------------------------------------------------------ the round trip

  /** A message of exactly INT_MAX bytes leaves, but the coded stream at the other end has no
      room to push a limit that ends with it; reading it is not part of this model. */
  datatype Delivery = NotSent | LeftTooLong | AtTheLimit | Delivered(arrived: bool, inside: bool)

  /** From the memory of one cluster to a fresh block of another, over a wire cut in any way:
      it fails exactly when a conversion throws or the message is too long; otherwise, and
      short of the limit itself, the receiver sees the sender's cluster in normal form, and nothing around its cluster has
      changed. */
  method SendAndReceive(d: Descriptors, ghost rank: Rank, name: string, sender: seq<Cell>, cut: bytes -> seq<bytes>,
                        mem: array<Cell>, base: nat)
    returns (r: Delivery)
    requires Described(d, rank) && Layable(d.reg.messages, rank) && name in d.reg.messages
    requires forall w :: SliceStream.Flatten(cut(w)) == w
    requires base + d.Size(name) <= mem.Length && Cut(mem[..], base, d.Size(name)) == Zeros(d.Size(name))
    modifies mem
    ensures SameOutside(old(mem[..]), mem[..], base, d.Size(name))
    ensures r.NotSent? <==> !Sends(d, rank, name, sender)
    ensures Sends(d, rank, name, sender) ==>
              && (r.LeftTooLong? <==> |EncodeMessage(MessageOf(d, name, View(d, rank, name, sender)))| > INT_MAX)
              && (r.AtTheLimit? <==> |EncodeMessage(MessageOf(d, name, View(d, rank, name, sender)))| == INT_MAX)
    ensures r.Delivered? ==>
              && r.arrived && Sends(d, rank, name, sender)
              && View(d, rank, name, Cut(mem[..], base, d.Size(name))) == Normal(d, rank, name, View(d, rank, name, sender))
              && (r.inside <==> StaysInside(d, name,
                    Parsed(d.reg, d.reg.Find(name), EncodeMessage(MessageOf(d, name, View(d, rank, name, sender))))))
    ensures !r.Delivered? ==> mem[..] == old(mem[..])
  {
    hide Described, Layable, View, Absorb, Receivable, StaysInside, SameOutside, Accepts, Parsed, Normal, MessageOf, EncodeMessage,
      Sendable, Fits;
    NothingOutside(mem[..], base, d.Size(name));
    var sent := Send(d, rank, name, sender);
    if sent.NotConvertible? { return NotSent; }
    if sent.TooLong? { return LeftTooLong; }
    if |sent.wire| == INT_MAX { return AtTheLimit; }
    ClusterRoundTrips(d, rank, name, View(d, rank, name, sender));
    var receipt := Receive(d, rank, name, cut(sent.wire), mem, base);
    r := Delivered(receipt.Received?, receipt.Received? && receipt.inside);
  }

  /** The same from the declarations on: types registered and laid out, enum texts read, and a
      fresh cluster for the receiver. */
  method DeclareAndExchange(owner: Owners.MessageElementMetadataOwner, ghost rank: Rank, tables: map<string, string>,
                            ghost rows: map<string, seq<Row>>, validUtf8: bytes -> bool, name: string, sender: seq<Cell>,
                            cut: bytes -> seq<bytes>)
    returns (d: Option<Descriptors>, r: Delivery, received: seq<Cell>)
    requires Owners.Valid(owner.registeredMessageMetadata, rank) && name in owner.registeredMessageMetadata
    requires Declared(Owners.TypesOf(owner.registeredMessageMetadata), tables.Keys) && AreTables(tables, rows)
    requires forall w :: SliceStream.Flatten(cut(w)) == w
    modifies Owners.Layouts(owner.registeredMessageMetadata)
    ensures d.Some? <==> AllNumbered(rows, tables.Keys)
    ensures d.Some? ==>
              && Described(d.value, rank) && d.value.reg == Registry(Owners.TypesOf(owner.registeredMessageMetadata), validUtf8)
              && (r.Delivered? <==>
                    Sends(d.value, rank, name, sender)
                    && |EncodeMessage(MessageOf(d.value, name, View(d.value, rank, name, sender)))| < INT_MAX)
              && (r.Delivered? ==>
                    r.arrived && View(d.value, rank, name, received) == Normal(d.value, rank, name, View(d.value, rank, name, sender)))
  {
    hide Described, Declared, AreTables, AllNumbered, Owners.Valid, View, Normal, MessageOf, EncodeMessage, Sends, Fits, Layable;
    d := Prepare(owner, rank, tables, rows, validUtf8);
    r, received := NotSent, [];
    if d.Some? {
      assert Layable(d.value.reg.messages, rank) by { DescribedIsLayable(d.value, rank); }
      assert name in d.value.reg.messages;
      var block := new Cell[d.value.Size(name)](_ => ZERO);
      assert Cut(block[..], 0, d.value.Size(name)) == Zeros(d.value.Size(name));
      r := SendAndReceive(d.value, rank, name, sender, cut, block, 0);
      received := block[..];
      assert Cut(received, 0, d.value.Size(name)) == received;
    }
  }

  lemma DescribedIsLayable(d: Descriptors, rank: Rank)
    requires Described(d, rank)
    ensures Layable(d.reg.messages, rank)
  {
  }
}
