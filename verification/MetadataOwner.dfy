/** The metadata objects and the memoised pass that lays out every registered message. */
module MetadataOwner {
  import opened Schema
  import opened Layout

  class MessageElementMetadata {
    const field: Field
    var clusterOffset: nat

    constructor (field: Field)
      ensures this.field == field
    {
      this.field := field;
      clusterOffset := 0;
    }
  }

  /** `clusterSize` zero means not laid out yet; `alignmentRequirement` is not initialised. */
  class MessageMetadata {
    const elements: seq<MessageElementMetadata>
    var clusterSize: nat
    var alignmentRequirement: nat

    constructor (elements: seq<MessageElementMetadata>)
      ensures this.elements == elements && clusterSize == 0
    {
      this.elements := elements;
      clusterSize := 0;
    }

    function Recorded(): ClusterLayout
      reads this, elements
    {
      ClusterLayout(Extent(clusterSize, alignmentRequirement),
        seq(|elements|, i requires 0 <= i < |elements| reads elements => OffsetAt(i)))
    }

    function OffsetAt(i: nat): nat
      requires i < |elements|
      reads elements
    {
      elements[i].clusterOffset
    }

    function Type(): (ty: MessageType)
      ensures |ty| == |elements|
    {
      seq(|elements|, i requires 0 <= i < |elements| => elements[i].field)
    }
  }

  /** Two distinct positions never hold the same element object. */
  ghost predicate Separate(registered: map<string, MessageMetadata>) {
    && (forall m, n :: m in registered && n in registered && registered[m] == registered[n] ==> m == n)
    && (forall m, n, i, j ::
          && m in registered && n in registered
          && 0 <= i < |registered[m].elements| && 0 <= j < |registered[n].elements|
          && registered[m].elements[i] == registered[n].elements[j]
          ==> m == n && i == j)
  }

  function TypesOf(registered: map<string, MessageMetadata>): map<string, MessageType> {
    map name | name in registered :: registered[name].Type()
  }

  /** The mutable state of the pass. */
  ghost function Layouts(registered: map<string, MessageMetadata>): set<object> {
    (set n | n in registered :: registered[n] as object)
    + (set n, i | n in registered && 0 <= i < |registered[n].elements| :: registered[n].elements[i] as object)
  }

  ghost predicate Closed(registered: map<string, MessageMetadata>, rank: Rank) {
    Separate(registered) && Layable(TypesOf(registered), rank)
  }

  /** Everything the pass records about one message. */
  ghost function Recorded(registered: map<string, MessageMetadata>, name: string): ClusterLayout
    requires name in registered
    reads registered[name], registered[name].elements
  {
    registered[name].Recorded()
  }

  /** A message's metadata holds exactly the layout that the recursive definition gives; a
      message without elements has size zero and no alignment of its own. */
  ghost predicate LaidOut(registered: map<string, MessageMetadata>, rank: Rank, name: string)
    requires Closed(registered, rank) && name in registered
    reads registered[name], registered[name].elements
  {
    IsLayout(TypesOf(registered), rank, name, Recorded(registered, name))
  }

  ghost predicate IsLayout(types: map<string, MessageType>, rank: Rank, name: string, layout: ClusterLayout)
    requires Layable(types, rank) && name in types
  {
    if types[name] == [] then layout.extent.size == 0 else layout == LayoutOf(types, rank, name)
  }

  /** A non-zero clusterSize is a valid mark of completion. */
  ghost predicate Valid(registered: map<string, MessageMetadata>, rank: Rank)
    reads Layouts(registered)
  {
    && Closed(registered, rank)
    && forall n :: n in registered && Recorded(registered, n).extent.size != 0 ==> LaidOut(registered, rank, n)
  }

  /** The pass over `name` has reached element `k`, with `layout` recorded so far. */
  ghost predicate Reached(types: map<string, MessageType>, rank: Rank, name: string, layout: ClusterLayout, k: nat,
                          clusterOffset: nat, maxAlignment: nat)
    requires Layable(types, rank) && name in types && k <= |types[name]|
  {
    && layout.extent.size == 0 && |layout.offsets| == |types[name]|
    && clusterOffset == EndOf(types, rank, name, k) && maxAlignment == MaxAlignment(types, rank, name, k)
    && forall i :: 0 <= i < k ==> layout.offsets[i] == OffsetOf(types, rank, name, i)
  }

  ghost predicate Progress(registered: map<string, MessageMetadata>, rank: Rank, name: string, k: nat,
                           clusterOffset: nat, maxAlignment: nat)
    requires Closed(registered, rank) && name in registered && k <= |registered[name].elements|
    reads registered[name], registered[name].elements
  {
    Reached(TypesOf(registered), rank, name, Recorded(registered, name), k, clusterOffset, maxAlignment)
  }

  /** The messages that laying out `name` does not touch: those already laid out, and those
      it does not embed. */
  ghost predicate Spared(registered: map<string, MessageMetadata>, rank: Rank, name: string, n: string)
    requires Closed(registered, rank) && n in registered
    reads registered[n], registered[n].elements
  {
    LaidOut(registered, rank, n) || (n != name && rank(n) >= rank(name))
  }

  ghost function ElementExtent(registered: map<string, MessageMetadata>, rank: Rank, name: string, k: nat): Extent
    requires Closed(registered, rank) && name in registered && k < |registered[name].elements|
  {
    TypesMatch(registered, rank, name, k);
    ExtentOf(TypesOf(registered), rank, name, registered[name].elements[k].field)
  }

  lemma TypesMatch(registered: map<string, MessageMetadata>, rank: Rank, name: string, k: nat)
    requires Closed(registered, rank) && name in registered && k < |registered[name].elements|
    ensures var types, f := TypesOf(registered), registered[name].elements[k].field;
            && name in types && |types[name]| == |registered[name].elements| && types[name][k] == f
            && f in types[name]
            && (EmbedsCluster(f) ==> f.embedded in registered && rank(f.embedded) < rank(name))
            && (EmbedsCluster(f) && !f.repeated ==> registered[f.embedded].elements != [])
  {
    var types, f := TypesOf(registered), registered[name].elements[k].field;
    assert types[name][k] == f;
    if EmbedsCluster(f) {
      assert f.embedded in types;
      assert |types[f.embedded]| == |registered[f.embedded].elements|;
    }
  }

  lemma TypeOf(registered: map<string, MessageMetadata>, name: string)
    requires name in registered
    ensures name in TypesOf(registered) && |TypesOf(registered)[name]| == |registered[name].elements|
  {
  }

  /** What the loop computes for element `k` is its offset in the recursive definition. */
  lemma ElementStep(types: map<string, MessageType>, rank: Rank, name: string, layout: ClusterLayout, k: nat,
                    clusterOffset: nat, maxAlignment: nat)
    requires Layable(types, rank) && name in types && k < |types[name]|
    requires Reached(types, rank, name, layout, k, clusterOffset, maxAlignment)
    ensures var e := ExtentOf(types, rank, name, types[name][k]);
            && e.alignment > 0 && layout.extent.size == 0
            && Reached(types, rank, name, layout.(offsets := layout.offsets[k := Align(clusterOffset, e.alignment)]), k + 1,
                 Align(clusterOffset, e.alignment) + e.size,
                 if maxAlignment < e.alignment then e.alignment else maxAlignment)
  {
    ElementIsPlaced(types, rank, name, k);
  }

  lemma ReachedEnd(types: map<string, MessageType>, rank: Rank, name: string, layout: ClusterLayout,
                   clusterOffset: nat, maxAlignment: nat)
    requires Layable(types, rank) && name in types && types[name] != []
    requires Reached(types, rank, name, layout, |types[name]|, clusterOffset, maxAlignment)
    ensures maxAlignment > 0
    ensures LayoutOf(types, rank, name)
            == ClusterLayout(Extent(Align(clusterOffset, maxAlignment), maxAlignment), layout.offsets)
  {
    ClusterIsSound(types, rank, name);
  }

  lemma ValidIsClosed(registered: map<string, MessageMetadata>, rank: Rank)
    requires Valid(registered, rank)
    ensures Closed(registered, rank)
  {
  }

  lemma NothingToDo(registered: map<string, MessageMetadata>, rank: Rank, name: string)
    requires Valid(registered, rank) && name in registered
    requires registered[name].clusterSize != 0 || registered[name].elements == []
    ensures LaidOut(registered, rank, name)
  {
    assert Recorded(registered, name).extent.size == registered[name].clusterSize;
    TypeOf(registered, name);
  }

  lemma NotYetLaidOut(registered: map<string, MessageMetadata>, rank: Rank, name: string)
    requires Closed(registered, rank) && name in registered
    requires registered[name].clusterSize == 0 && registered[name].elements != []
    ensures !LaidOut(registered, rank, name)
  {
    assert |TypesOf(registered)[name]| > 0;
    ClusterIsSound(TypesOf(registered), rank, name);
  }

  lemma NoProgress(registered: map<string, MessageMetadata>, rank: Rank, name: string)
    requires Closed(registered, rank) && name in registered && registered[name].clusterSize == 0
    ensures Progress(registered, rank, name, 0, 0, 0)
  {
  }

  class MessageElementMetadataOwner {
    var registeredMessageMetadata: map<string, MessageMetadata>

    constructor ()
      ensures registeredMessageMetadata == map[]
    {
      registeredMessageMetadata := map[];
    }

    /** The first registration of a name is kept. */
    method RegisterMetadata(name: string, metadata: MessageMetadata)
      modifies this
      ensures registeredMessageMetadata == map[name := metadata] + old(registeredMessageMetadata)
    {
      if name !in registeredMessageMetadata {
        registeredMessageMetadata := registeredMessageMetadata[name := metadata];
      }
    }

    method UpdateMetadataClusterLayout(ghost rank: Rank, name: string)
      requires Valid(registeredMessageMetadata, rank) && name in registeredMessageMetadata
      modifies Layouts(registeredMessageMetadata)
      ensures registeredMessageMetadata == old(registeredMessageMetadata)
      ensures Valid(registeredMessageMetadata, rank) && LaidOut(registeredMessageMetadata, rank, name)
      ensures forall n :: n in registeredMessageMetadata && old(Spared(registeredMessageMetadata, rank, name, n)) ==>
                Recorded(registeredMessageMetadata, n) == old(Recorded(registeredMessageMetadata, n))
      ensures forall n :: n in registeredMessageMetadata && old(LaidOut(registeredMessageMetadata, rank, n)) ==>
                LaidOut(registeredMessageMetadata, rank, n)
                && Recorded(registeredMessageMetadata, n) == old(Recorded(registeredMessageMetadata, n))
      decreases rank(name)
    {
      hide IsLayout, Recorded, Layable, Separate;
      var metadata := registeredMessageMetadata[name];
      if metadata.clusterSize != 0 || |metadata.elements| == 0 {
        NothingToDo(registeredMessageMetadata, rank, name);
        return;
      }
      LayOut(rank, name);
    }

    method LayOut(ghost rank: Rank, name: string)
      requires Valid(registeredMessageMetadata, rank) && name in registeredMessageMetadata
      requires registeredMessageMetadata[name].clusterSize == 0 && registeredMessageMetadata[name].elements != []
      modifies Layouts(registeredMessageMetadata)
      ensures registeredMessageMetadata == old(registeredMessageMetadata)
      ensures Valid(registeredMessageMetadata, rank) && LaidOut(registeredMessageMetadata, rank, name)
      ensures forall n :: n in registeredMessageMetadata && old(Spared(registeredMessageMetadata, rank, name, n)) ==>
                Recorded(registeredMessageMetadata, n) == old(Recorded(registeredMessageMetadata, n))
      decreases rank(name), 1
    {
      ghost var registered := registeredMessageMetadata;
      NoProgress(registered, rank, name);
      NotYetLaidOut(registered, rank, name);
      hide EndOf, OffsetOf, MaxAlignment, ClusterExtent, ExtentOf, IsLayout, Layable, Separate, ElementExtent, Reached, TypesOf,
        Recorded, Valid, Closed, Progress, LaidOut;
      var clusterOffset, maxAlignmentRequirement := LayOutElements(rank, name);
      Complete(rank, name, clusterOffset, maxAlignmentRequirement);
    }

    /** The loop over the elements. */
    method LayOutElements(ghost rank: Rank, name: string) returns (clusterOffset: nat, maxAlignmentRequirement: nat)
      requires Valid(registeredMessageMetadata, rank) && name in registeredMessageMetadata
      requires Progress(registeredMessageMetadata, rank, name, 0, 0, 0)
      modifies Layouts(registeredMessageMetadata)
      ensures registeredMessageMetadata == old(registeredMessageMetadata)
      ensures Valid(registeredMessageMetadata, rank)
      ensures Progress(registeredMessageMetadata, rank, name, |registeredMessageMetadata[name].elements|, clusterOffset,
                maxAlignmentRequirement)
      ensures forall n :: n in registeredMessageMetadata ==>
                n != name && old(Spared(registeredMessageMetadata, rank, name, n)) ==>
                Recorded(registeredMessageMetadata, n) == old(Recorded(registeredMessageMetadata, n))
      decreases rank(name), 0, 2
    {
      ghost var registered := registeredMessageMetadata;
      ghost var spared := set n | n in registered && n != name && Spared(registered, rank, name, n);
      hide EndOf, OffsetOf, MaxAlignment, ClusterExtent, ExtentOf, IsLayout, Layable, Separate, ElementExtent, Reached, TypesOf,
        Recorded, Valid, Closed, Progress, Layouts;
      var k;
      clusterOffset, maxAlignmentRequirement, k := 0, 0, 0;
      while k < |registeredMessageMetadata[name].elements|
        invariant 0 <= k <= |registered[name].elements| && registeredMessageMetadata == registered
        invariant Valid(registered, rank) && Closed(registered, rank)
        invariant Progress(registered, rank, name, k, clusterOffset, maxAlignmentRequirement)
        invariant forall n :: n in spared ==> Recorded(registered, n) == old(Recorded(registered, n))
      {
        clusterOffset, maxAlignmentRequirement := LayOutElement(rank, name, k, clusterOffset, maxAlignmentRequirement);
        k := k + 1;
      }
    }

    /** The body of the loop. */
    method LayOutElement(ghost rank: Rank, name: string, k: nat, clusterOffset: nat, maxAlignment: nat)
      returns (nextOffset: nat, nextMaxAlignment: nat)
      requires Valid(registeredMessageMetadata, rank) && name in registeredMessageMetadata
      requires k < |registeredMessageMetadata[name].elements|
      requires Progress(registeredMessageMetadata, rank, name, k, clusterOffset, maxAlignment)
      modifies Layouts(registeredMessageMetadata)
      ensures registeredMessageMetadata == old(registeredMessageMetadata)
      ensures Valid(registeredMessageMetadata, rank)
      ensures Progress(registeredMessageMetadata, rank, name, k + 1, nextOffset, nextMaxAlignment)
      ensures forall n :: n in registeredMessageMetadata ==>
                n != name && (old(LaidOut(registeredMessageMetadata, rank, n)) || rank(n) >= rank(name)) ==>
                Recorded(registeredMessageMetadata, n) == old(Recorded(registeredMessageMetadata, n))
      decreases rank(name), 0, 1
    {
      hide EndOf, OffsetOf, MaxAlignment, ClusterExtent, ExtentOf, IsLayout, Layable, Separate, ElementExtent, Reached, TypesOf,
        Recorded, LaidOut;
      var elementSize, alignmentRequirement := SizeElement(rank, name, k);
      nextOffset, nextMaxAlignment :=
        PlaceElement(rank, name, k, clusterOffset, maxAlignment, elementSize, alignmentRequirement);
    }

    method PlaceElement(ghost rank: Rank, name: string, k: nat, clusterOffset: nat, maxAlignment: nat,
                        elementSize: nat, alignmentRequirement: nat)
      returns (nextOffset: nat, nextMaxAlignment: nat)
      requires Valid(registeredMessageMetadata, rank) && name in registeredMessageMetadata
      requires k < |registeredMessageMetadata[name].elements|
      requires Progress(registeredMessageMetadata, rank, name, k, clusterOffset, maxAlignment)
      requires Extent(elementSize, alignmentRequirement) == ElementExtent(registeredMessageMetadata, rank, name, k)
      modifies registeredMessageMetadata[name].elements[k]
      ensures registeredMessageMetadata == old(registeredMessageMetadata)
      ensures Valid(registeredMessageMetadata, rank)
      ensures Progress(registeredMessageMetadata, rank, name, k + 1, nextOffset, nextMaxAlignment)
      ensures forall n :: n in registeredMessageMetadata && n != name ==>
                Recorded(registeredMessageMetadata, n) == old(Recorded(registeredMessageMetadata, n))
    {
      hide EndOf, OffsetOf, MaxAlignment, ClusterExtent, ExtentOf, LayoutOf, Reached;
      ghost var types, layout := TypesOf(registeredMessageMetadata), Recorded(registeredMessageMetadata, name);
      var element := registeredMessageMetadata[name].elements[k];
      TypesMatch(registeredMessageMetadata, rank, name, k);
      ElementStep(types, rank, name, layout, k, clusterOffset, maxAlignment);
      nextOffset := Align(clusterOffset, alignmentRequirement);
      assert forall n :: n in registeredMessageMetadata && n != name ==> element !in registeredMessageMetadata[n].elements;
      element.clusterOffset := nextOffset;
      assert Recorded(registeredMessageMetadata, name) == layout.(offsets := layout.offsets[k := nextOffset]);
      nextOffset := nextOffset + elementSize;
      nextMaxAlignment := if maxAlignment < alignmentRequirement then alignmentRequirement else maxAlignment;
    }

    method Complete(ghost rank: Rank, name: string, clusterOffset: nat, maxAlignment: nat)
      requires Valid(registeredMessageMetadata, rank) && name in registeredMessageMetadata
      requires registeredMessageMetadata[name].elements != []
      requires Progress(registeredMessageMetadata, rank, name, |registeredMessageMetadata[name].elements|, clusterOffset, maxAlignment)
      modifies registeredMessageMetadata[name]
      ensures registeredMessageMetadata == old(registeredMessageMetadata)
      ensures Valid(registeredMessageMetadata, rank) && LaidOut(registeredMessageMetadata, rank, name)
      ensures forall n :: n in registeredMessageMetadata && n != name ==>
                Recorded(registeredMessageMetadata, n) == old(Recorded(registeredMessageMetadata, n))
    {
      hide EndOf, OffsetOf, MaxAlignment, ClusterExtent, ExtentOf, Reached, Layable;
      var metadata := registeredMessageMetadata[name];
      TypeOf(registeredMessageMetadata, name);
      ReachedEnd(TypesOf(registeredMessageMetadata), rank, name, metadata.Recorded(), clusterOffset, maxAlignment);
      metadata.alignmentRequirement := maxAlignment;
      metadata.clusterSize := Align(clusterOffset, maxAlignment);
    }

    /** The size and alignment of element `k`; lays out the type it embeds. */
    method SizeElement(ghost rank: Rank, name: string, k: nat) returns (size: nat, alignment: nat)
      requires Valid(registeredMessageMetadata, rank) && name in registeredMessageMetadata
      requires k < |registeredMessageMetadata[name].elements|
      modifies Layouts(registeredMessageMetadata)
      ensures registeredMessageMetadata == old(registeredMessageMetadata)
      ensures Valid(registeredMessageMetadata, rank) && alignment > 0
      ensures Extent(size, alignment) == ElementExtent(registeredMessageMetadata, rank, name, k)
      ensures forall n :: n in registeredMessageMetadata ==>
                (old(LaidOut(registeredMessageMetadata, rank, n)) || rank(n) >= rank(name)) ==>
                Recorded(registeredMessageMetadata, n) == old(Recorded(registeredMessageMetadata, n))
      decreases rank(name), 0, 0
    {
      var field := registeredMessageMetadata[name].elements[k].field;
      TypesMatch(registeredMessageMetadata, rank, name, k);
      if EmbedsCluster(field) {
        UpdateMetadataClusterLayout(rank, field.embedded);
        if !field.repeated {
          ClusterIsSound(TypesOf(registeredMessageMetadata), rank, field.embedded);
          var nested := registeredMessageMetadata[field.embedded];
          return nested.clusterSize, nested.alignmentRequirement;
        }
      }
      size := ElementSize(field.kind, field.repeated);
      alignment := size;
    }

    /** Whatever order the map is walked in, every message ends up with the layout of the
        recursive definition, and messages already laid out are left alone. */
    method FinalizeMetadata(ghost rank: Rank)
      requires Valid(registeredMessageMetadata, rank)
      modifies Layouts(registeredMessageMetadata)
      ensures Valid(registeredMessageMetadata, rank)
      ensures forall n :: n in registeredMessageMetadata ==> LaidOut(registeredMessageMetadata, rank, n)
      ensures forall n :: n in registeredMessageMetadata && old(LaidOut(registeredMessageMetadata, rank, n)) ==>
                Recorded(registeredMessageMetadata, n) == old(Recorded(registeredMessageMetadata, n))
    {
      hide EndOf, OffsetOf, MaxAlignment, ClusterExtent, ExtentOf, IsLayout, Layable, Separate, TypesOf, Recorded, LaidOut, Valid,
        Closed, Spared;
      ghost var registered := registeredMessageMetadata;
      assert Closed(registered, rank) by { ValidIsClosed(registered, rank); }
      ghost var done := set n | n in registered && LaidOut(registered, rank, n);
      var remaining := registeredMessageMetadata.Keys;
      while remaining != {}
        invariant registeredMessageMetadata == registered && remaining <= registered.Keys
        invariant Valid(registered, rank) && Closed(registered, rank)
        invariant forall n :: n in registered && n !in remaining ==> LaidOut(registered, rank, n)
        invariant forall n :: n in done ==>
                    LaidOut(registered, rank, n) && Recorded(registered, n) == old(Recorded(registered, n))
        decreases |remaining|
      {
        var name := AnyOf(remaining);
        UpdateMetadataClusterLayout(rank, name);
        remaining := remaining - {name};
      }
    }
  }
}
