/** The life of server calls: completion-queue tags on one side, LabVIEW on the other. Each
    action below runs under the call's state mutex, so it is one step. */
module CallLifecycle {

  datatype CallStatus = WaitingForConnection | Connected | Finishing | Finished

  function Order(s: CallStatus): nat {
    match s
    case WaitingForConnection => 0
    case Connected => 1
    case Finishing => 2
    case Finished => 3
  }

  /** A request tag and a finish tag are both CompletionQueueTags; a done tag is the
      CallFinishedTag that was handed to AsyncNotifyWhenDone. */
  datatype Tag = RequestTag(call: nat) | FinishTag(call: nat) | DoneTag(call: nat)

  /** One CallData. `tagPointer` says that _callFinishedTag is not null; the rest is history:
      whether an RPC started, how often Finish was issued and the CallFinishedTag freed, and
      how many LabVIEW threads are inside CloseServerEvent: `casters` have the object and are
      about to finish the call, `closers` are about to unregister it. */
  datatype Call = Call(
    status: CallStatus, tagPointer: bool, started: bool, finishes: nat, tagFrees: nat, casters: nat,
    closers: nat)

  /** `posted` are the tags the queue has not returned; `registered` the calls that LabVIEW
      holds a pointer to; `refused` says that a request tag came back with ok = false. */
  datatype World = World(calls: seq<Call>, posted: multiset<Tag>, registered: set<nat>, shutdown: bool, refused: bool)

  const EMPTY_WORLD := World([], multiset{}, {}, false, false)

  // ------------------------------------------------------------------ the code

  /** CallData::Create. */
  function Create(w: World): (v: World)
    ensures |v.calls| == |w.calls| + 1
  {
    var i := |w.calls|;
    w.(calls := w.calls + [Call(WaitingForConnection, true, false, 0, 0, 0, 0)],
       posted := w.posted + multiset{DoneTag(i), RequestTag(i)})
  }

  function SetCall(w: World, i: nat, c: Call): World
    requires i < |w.calls|
  {
    w.(calls := w.calls[i := c])
  }

  /** The first branch of CallData::Proceed. */
  function NoteFailure(c: Call, ok: bool): Call {
    if ok || c.status.Finished? then c
    else if c.status.WaitingForConnection? then
      c.(status := Finishing, tagPointer := false, tagFrees := c.tagFrees + 1)
    else c.(status := Finishing)
  }

  /** CallData::Proceed; `known` says that a handler is registered for the method. */
  function Proceed(w: World, i: nat, ok: bool, known: bool): World
    requires i < |w.calls|
  {
    var c := NoteFailure(w.calls[i], ok);
    match c.status
    case WaitingForConnection =>
      var v := Create(SetCall(w, i, c));
      if known then SetCall(v, i, c.(status := Connected)).(registered := v.registered + {i})
      else SetCall(v, i, c.(status := Finishing, finishes := c.finishes + 1)).(posted := v.posted + multiset{FinishTag(i)})
    case Connected => w
    case Finishing => SetCall(w, i, c.(status := Finished))
    case Finished => w
  }

  /** CallData::FinishFromLabVIEW. */
  function FinishFromLabVIEW(w: World, i: nat): World
    requires i < |w.calls|
  {
    var c := w.calls[i];
    if c.status.Finishing? || c.status.Finished? then w
    else SetCall(w, i, c.(status := Finishing, finishes := c.finishes + 1)).(posted := w.posted + multiset{FinishTag(i)})
  }

  /** CallData::FinishFromCompletionQueue, and the CallFinishedTag that then deletes itself. */
  function FinishFromCompletionQueue(w: World, i: nat): World
    requires i < |w.calls|
  {
    var c := w.calls[i];
    var status := if c.status.Finishing? || c.status.Finished? then c.status else Finished;
    SetCall(w, i, c.(status := status, tagPointer := false, tagFrees := c.tagFrees + 1))
  }

  // ------------------------------------------------------------------- actions

  datatype Action =
    | Deliver(tag: Tag, ok: bool, known: bool)
    | CloseBegin(call: nat)
    | CloseFinish(call: nat)
    | CloseEnd(call: nat)
    | Shutdown

  /** What gRPC promises: only posted tags come back, each once; a done tag only after its
      request tag came back with ok = true; a request tag fails only on shutdown. */
  ghost predicate Enabled(w: World, a: Action) {
    match a
    case Deliver(tag, ok, _) =>
      && tag in w.posted && tag.call < |w.calls|
      && (tag.RequestTag? && !ok ==> w.shutdown)
      && (tag.DoneTag? ==> w.calls[tag.call].started)
    case CloseBegin(i) => i < |w.calls|
    case CloseFinish(i) => i < |w.calls| && w.calls[i].casters > 0
    case CloseEnd(i) => i < |w.calls| && w.calls[i].closers > 0
    case Shutdown => true
  }

  /** What gRPC remembers when a request tag comes back. */
  function NoteRequest(w: World, i: nat, ok: bool): World
    requires i < |w.calls|
  {
    SetCall(w, i, w.calls[i].(started := ok)).(refused := w.refused || !ok)
  }

  function Step(w: World, a: Action): World {
    match a
    case Deliver(tag, ok, known) =>
      var i, v := tag.call, w.(posted := w.posted - multiset{tag});
      if i >= |w.calls| then w
      else if tag.DoneTag? then FinishFromCompletionQueue(v, i)
      else if tag.RequestTag? then
        Proceed(NoteRequest(v, i, ok), i, ok, known)
      else Proceed(v, i, ok, known)
    case CloseBegin(i) =>
      // A pointer that is no longer registered fails the cast: nothing happens.
      if i < |w.calls| && i in w.registered then
        SetCall(w, i, w.calls[i].(casters := w.calls[i].casters + 1))
      else w
    case CloseFinish(i) =>
      // By now another thread may have closed the call, or the queue finished it.
      if i < |w.calls| && w.calls[i].casters > 0 then
        var v := FinishFromLabVIEW(w, i);
        SetCall(v, i, v.calls[i].(casters := v.calls[i].casters - 1, closers := v.calls[i].closers + 1))
      else w
    case CloseEnd(i) =>
      if i < |w.calls| && w.calls[i].closers > 0 then
        SetCall(w, i, w.calls[i].(closers := w.calls[i].closers - 1)).(registered := w.registered - {i})
      else w
    case Shutdown => w.(shutdown := true)
  }

  function Run(w: World, actions: seq<Action>): World
    decreases |actions|
  {
    if actions == [] then w else Run(Step(w, actions[0]), actions[1..])
  }

  /** Every action is one the environment allows when its turn comes. */
  ghost predicate Admissible(w: World, actions: seq<Action>)
    decreases |actions|
  {
    actions != [] ==> Enabled(w, actions[0]) && Admissible(Step(w, actions[0]), actions[1..])
  }

  /** HandleRpcs begins by creating the first acceptor. */
  const START: World := Create(EMPTY_WORLD)

  // ----------------------------------------------------------------- invariant

  /** The CallFinishedTag is alive and posted, or was freed once. A tag that was freed while
      its call still waited stays posted, but its call never started. */
  ghost predicate TagInv(w: World, i: nat)
    requires i < |w.calls|
  {
    var c := w.calls[i];
    && (c.tagPointer <==> c.tagFrees == 0) && c.tagFrees <= 1
    && w.posted[DoneTag(i)] == (if c.started && c.tagFrees == 1 then 0 else 1)
    && (!c.started && c.tagFrees == 1 ==> c.status.Finished?)
  }

  ghost predicate CallInv(w: World, i: nat)
    requires i < |w.calls|
  {
    var c := w.calls[i];
    && TagInv(w, i)
    && w.posted[RequestTag(i)] == (if c.status.WaitingForConnection? then 1 else 0)
    && w.posted[FinishTag(i)] == (if c.status.Finishing? then 1 else 0)
    && (c.status.WaitingForConnection? ==> !c.started && c.tagFrees == 0)
    && (c.status.Connected? ==> c.started && c.tagFrees == 0 && i in w.registered)
    && (c.status.Finishing? ==> c.started)
    && c.finishes <= 1 && (c.finishes == 1 ==> Order(c.status) >= 2) && (c.status.Finishing? ==> c.finishes == 1)
    && (i in w.registered || c.casters > 0 || c.closers > 0 ==> c.started)
    && (c.closers > 0 ==> Order(c.status) >= 2)
    && (c.status.Finished? && !c.started ==> c.tagFrees == 1 && c.finishes == 0)
  }

  ghost predicate Inv(w: World) {
    && (forall i :: 0 <= i < |w.calls| ==> CallInv(w, i))
    && (forall t :: t in w.posted ==> t.call < |w.calls|)
    && (forall i :: i in w.registered ==> i < |w.calls|)
    && (w.refused ==> w.shutdown)
    && (if w.refused then forall i :: 0 <= i < |w.calls| ==> !w.calls[i].status.WaitingForConnection?
        else exists a: nat :: IsOnlyAcceptor(w, a))
  }

  ghost predicate IsOnlyAcceptor(w: World, a: nat) {
    && a < |w.calls| && w.calls[a].status.WaitingForConnection?
    && forall i :: 0 <= i < |w.calls| && w.calls[i].status.WaitingForConnection? ==> i == a
  }

  lemma StartIsInv()
    ensures Inv(START)
  {
    assert IsOnlyAcceptor(START, 0);
  }

  /** Only call `i` and its tags differ. */
  ghost predicate Elsewhere(w: World, v: World, i: nat) {
    && |v.calls| == |w.calls|
    && (forall j :: 0 <= j < |w.calls| && j != i ==> v.calls[j] == w.calls[j])
    && (forall t: Tag :: t.call != i ==> v.posted[t] == w.posted[t])
    && (forall j: nat :: j != i ==> (j in v.registered <==> j in w.registered))
  }

  lemma KeepsCallInv(w: World, v: World, j: nat)
    requires j < |w.calls| && j < |v.calls| && v.calls[j] == w.calls[j] && CallInv(w, j)
    requires forall t: Tag :: t.call == j ==> v.posted[t] == w.posted[t]
    requires j in v.registered <==> j in w.registered
    ensures CallInv(v, j)
  {
    assert v.posted[DoneTag(j)] == w.posted[DoneTag(j)];
    assert v.posted[RequestTag(j)] == w.posted[RequestTag(j)];
    assert v.posted[FinishTag(j)] == w.posted[FinishTag(j)];
  }

  lemma OthersKeepInv(w: World, v: World, i: nat)
    requires Elsewhere(w, v, i)
    requires forall j :: 0 <= j < |w.calls| && j != i ==> CallInv(w, j)
    ensures forall j :: 0 <= j < |v.calls| && j != i ==> CallInv(v, j)
  {
    forall j | 0 <= j < |v.calls| && j != i ensures CallInv(v, j) {
      KeepsCallInv(w, v, j);
    }
  }

  /** A step that leaves call `i` out of the waiting state, or in it, as it was. */
  lemma SingleCallStep(w: World, v: World, i: nat)
    requires Inv(w) && i < |w.calls| && Elsewhere(w, v, i) && CallInv(v, i)
    requires v.calls[i].status.WaitingForConnection? <==> w.calls[i].status.WaitingForConnection?
    requires v.refused == w.refused && v.shutdown == w.shutdown
    ensures Inv(v)
  {
    OthersKeepInv(w, v, i);
    if !w.refused {
      var a: nat :| IsOnlyAcceptor(w, a);
      assert IsOnlyAcceptor(v, a);
    }
    forall t | t in v.posted ensures t.call < |v.calls| {
      if t.call != i { assert v.posted[t] == w.posted[t]; }
    }
  }

  lemma DoneStep(w: World, i: nat)
    requires Inv(w) && i < |w.calls| && DoneTag(i) in w.posted && w.calls[i].started
    ensures Inv(FinishFromCompletionQueue(w.(posted := w.posted - multiset{DoneTag(i)}), i))
  {
    assert CallInv(w, i);
    SingleCallStep(w, FinishFromCompletionQueue(w.(posted := w.posted - multiset{DoneTag(i)}), i), i);
  }

  lemma FinishStep(w: World, i: nat, ok: bool, known: bool)
    requires Inv(w) && i < |w.calls| && FinishTag(i) in w.posted
    ensures Inv(Proceed(w.(posted := w.posted - multiset{FinishTag(i)}), i, ok, known))
  {
    assert CallInv(w, i);
    SingleCallStep(w, Proceed(w.(posted := w.posted - multiset{FinishTag(i)}), i, ok, known), i);
  }

  lemma CloseStep(w: World, i: nat)
    requires Inv(w) && i < |w.calls| && i in w.registered
    ensures Inv(Step(w, CloseBegin(i)))
  {
    assert CallInv(w, i);
    SingleCallStep(w, Step(w, CloseBegin(i)), i);
  }

  lemma CloseFinishStep(w: World, i: nat)
    requires Inv(w) && i < |w.calls| && w.calls[i].casters > 0
    ensures Inv(Step(w, CloseFinish(i)))
  {
    assert CallInv(w, i);
    SingleCallStep(w, Step(w, CloseFinish(i)), i);
  }

  lemma CloseEndStep(w: World, i: nat)
    requires Inv(w) && i < |w.calls| && w.calls[i].closers > 0
    ensures Inv(Step(w, CloseEnd(i)))
  {
    assert CallInv(w, i);
    SingleCallStep(w, Step(w, CloseEnd(i)), i);
  }

  lemma RefusedStep(w: World, i: nat, known: bool)
    requires Inv(w) && Enabled(w, Deliver(RequestTag(i), false, known))
    ensures Inv(Step(w, Deliver(RequestTag(i), false, known)))
  {
    assert CallInv(w, i);
    var v := Step(w, Deliver(RequestTag(i), false, known));
    OthersKeepInv(w, v, i);
    assert IsOnlyAcceptor(w, i) by { var a: nat :| IsOnlyAcceptor(w, a); }
  }

  lemma AcceptedCalls(w: World, i: nat, known: bool)
    requires Inv(w) && Enabled(w, Deliver(RequestTag(i), true, known))
    ensures var v, n := Step(w, Deliver(RequestTag(i), true, known)), |w.calls|;
            && |v.calls| == n + 1 && CallInv(v, n) && CallInv(v, i)
            && v.calls[n].status.WaitingForConnection? && !v.calls[i].status.WaitingForConnection?
            && !v.refused && v.shutdown == w.shutdown
  {
    assert CallInv(w, i);
    var n := |w.calls|;
    assert RequestTag(n) !in w.posted && FinishTag(n) !in w.posted && DoneTag(n) !in w.posted;
    assert n !in w.registered;
    assert IsOnlyAcceptor(w, i) by { var a: nat :| IsOnlyAcceptor(w, a); }
  }

  lemma AcceptedFrame(w: World, i: nat, known: bool)
    requires i < |w.calls| && w.calls[i].status.WaitingForConnection?
    ensures var v, n := Step(w, Deliver(RequestTag(i), true, known)), |w.calls|;
            && |v.calls| == n + 1
            && (forall j :: 0 <= j < n && j != i ==> v.calls[j] == w.calls[j])
            && (forall t: Tag :: t.call != i && t.call != n ==> v.posted[t] == w.posted[t])
            && (forall j: nat :: j != i ==> (j in v.registered <==> j in w.registered))
  {
  }

  lemma AcceptedOthers(w: World, i: nat, known: bool)
    requires Inv(w) && Enabled(w, Deliver(RequestTag(i), true, known))
    ensures var v, n := Step(w, Deliver(RequestTag(i), true, known)), |w.calls|;
            && |v.calls| == n + 1
            && (forall j :: 0 <= j < n && j != i ==> v.calls[j] == w.calls[j] && CallInv(v, j))
            && (forall t :: t in v.posted ==> t.call <= n) && (forall j :: j in v.registered ==> j <= n)
  {
    assert CallInv(w, i);
    AcceptedFrame(w, i, known);
    hide Step, CallInv;
    var v, n := Step(w, Deliver(RequestTag(i), true, known)), |w.calls|;
    forall j | 0 <= j < n && j != i ensures v.calls[j] == w.calls[j] && CallInv(v, j) { KeepsCallInv(w, v, j); }
    forall t | t in v.posted ensures t.call <= n {
      if t.call != i && t.call != n { assert v.posted[t] == w.posted[t]; }
    }
  }

  /** The new acceptor takes over before the old one moves on. */
  lemma AcceptedStep(w: World, i: nat, known: bool)
    requires Inv(w) && Enabled(w, Deliver(RequestTag(i), true, known))
    ensures Inv(Step(w, Deliver(RequestTag(i), true, known)))
  {
    AcceptedCalls(w, i, known);
    AcceptedOthers(w, i, known);
    hide Step, CallInv, Enabled;
    assert IsOnlyAcceptor(w, i) by { OnlyAcceptor(w, i); }
    assert IsOnlyAcceptor(Step(w, Deliver(RequestTag(i), true, known)), |w.calls|);
  }

  lemma OnlyAcceptor(w: World, i: nat)
    requires Inv(w) && i < |w.calls| && RequestTag(i) in w.posted
    ensures IsOnlyAcceptor(w, i) && !w.refused
  {
    assert CallInv(w, i);
    var a: nat :| IsOnlyAcceptor(w, a);
  }

  lemma InvStep(w: World, a: Action)
    requires Inv(w) && Enabled(w, a)
    ensures Inv(Step(w, a))
  {
    match a
    case Deliver(tag, ok, known) =>
      if tag.DoneTag? { DoneStep(w, tag.call); }
      else if tag.FinishTag? { FinishStep(w, tag.call, ok, known); }
      else if ok { AcceptedStep(w, tag.call, known); }
      else { RefusedStep(w, tag.call, known); }
    case CloseBegin(i) => if i in w.registered { CloseStep(w, i); }
    case CloseFinish(i) => CloseFinishStep(w, i);
    case CloseEnd(i) => CloseEndStep(w, i);
    case Shutdown =>
      forall i | 0 <= i < |w.calls| ensures CallInv(Step(w, a), i) { assert CallInv(w, i); }
      if !w.refused {
        var x: nat :| IsOnlyAcceptor(w, x);
        assert IsOnlyAcceptor(Step(w, a), x);
      }
  }

  lemma {:induction false} InvAlways(w: World, actions: seq<Action>)
    requires Inv(w) && Admissible(w, actions)
    ensures Inv(Run(w, actions))
    decreases |actions|
  {
    if actions != [] {
      InvStep(w, actions[0]);
      InvAlways(Step(w, actions[0]), actions[1..]);
    }
  }

  // ------------------------------------------------------------- what it means

  /** CompletionQueueTags of a call that the queue has not returned. */
  function QueueTags(w: World, i: nat): nat { w.posted[RequestTag(i)] + w.posted[FinishTag(i)] }

  /** Everything that keeps call `i` alive: its tags, LabVIEW's pointer, and threads that are
      closing it. A freed tag holds nothing, even if the queue still has its address. */
  function Holders(w: World, i: nat): nat
    requires i < |w.calls|
  {
    QueueTags(w, i) + (if w.calls[i].tagFrees == 0 then w.posted[DoneTag(i)] else 0)
    + (if i in w.registered then 1 else 0) + w.calls[i].casters + w.calls[i].closers
  }

  function Acceptors(w: World): set<nat> {
    set i: nat | i < |w.calls| && w.calls[i].status.WaitingForConnection?
  }

  ghost predicate IsSafe(w: World, i: nat)
    requires i < |w.calls|
  {
    var c := w.calls[i];
    && c.finishes <= 1 && c.tagFrees <= 1 && QueueTags(w, i) <= 1
    && (c.status.Connected? ==> QueueTags(w, i) == 0 && i in w.registered)
    && (QueueTags(w, i) == 0 <==> c.status.Connected? || c.status.Finished?)
  }

  /** In every reachable world: Finish is issued at most once per call, at most one
      CompletionQueueTag of a call is out and none while it is connected, and exactly one
      call waits for a connection until a request is refused, none after that. */
  lemma EveryRunIsSafe(actions: seq<Action>)
    requires Admissible(START, actions)
    ensures var w := Run(START, actions);
            && (forall i :: 0 <= i < |w.calls| ==> IsSafe(w, i))
            && |Acceptors(w)| == if w.refused then 0 else 1
  {
    StartIsInv();
    InvAlways(START, actions);
    var w := Run(START, actions);
    forall i | 0 <= i < |w.calls| ensures IsSafe(w, i) { assert CallInv(w, i); }
    if w.refused {
      assert Acceptors(w) == {};
    } else {
      var a: nat :| IsOnlyAcceptor(w, a);
      assert Acceptors(w) == {a};
    }
  }

  /** Nothing about the call went backwards. */
  predicate IsLater(c: Call, e: Call) {
    Order(c.status) <= Order(e.status) && c.finishes <= e.finishes && c.tagFrees <= e.tagFrees
  }

  lemma ProceedMovesForward(w: World, k: nat, ok: bool, known: bool, i: nat)
    requires k < |w.calls| && i < |w.calls| && !w.calls[k].status.Connected?
    ensures var v := Proceed(w, k, ok, known); i < |v.calls| && IsLater(w.calls[i], v.calls[i])
  {
    hide NoteFailure, IsLater;
    var c := NoteFailure(w.calls[k], ok);
    NoteIsLater(w.calls[k], ok);
    StaysAsItIs(w.calls[i]);
    assert Proceed(w, k, ok, known).calls[i] == if i != k then w.calls[i] else Proceeded(c, known);
  }

  /** What Proceed makes of the call itself. */
  function Proceeded(c: Call, known: bool): Call {
    match c.status
    case WaitingForConnection => if known then c.(status := Connected) else c.(status := Finishing, finishes := c.finishes + 1)
    case Finishing => c.(status := Finished)
    case _ => c
  }

  lemma NoteIsLater(c: Call, ok: bool)
    requires !c.status.Connected?
    ensures !NoteFailure(c, ok).status.Connected? && (NoteFailure(c, ok).status.Finished? ==> NoteFailure(c, ok) == c)
    ensures forall known :: IsLater(c, Proceeded(NoteFailure(c, ok), known))
  {
  }

  lemma StaysAsItIs(c: Call)
    ensures IsLater(c, c)
  {
  }

  /** Statuses only move forward, and nothing that was issued or freed is taken back. */
  lemma StepMovesForward(w: World, a: Action, i: nat)
    requires Inv(w) && Enabled(w, a) && i < |w.calls|
    ensures i < |Step(w, a).calls| && IsLater(w.calls[i], Step(w, a).calls[i])
  {
    match a
    case Deliver(tag, ok, known) => DeliveryMovesForward(w, tag, ok, known, i);
    case _ =>
  }

  lemma DeliveryMovesForward(w: World, tag: Tag, ok: bool, known: bool, i: nat)
    requires Inv(w) && Enabled(w, Deliver(tag, ok, known)) && i < |w.calls|
    ensures i < |Step(w, Deliver(tag, ok, known)).calls|
    ensures IsLater(w.calls[i], Step(w, Deliver(tag, ok, known)).calls[i])
  {
    hide Proceed, NoteFailure;
    DeliveryIsSound(w, tag, ok, known);
    var v := w.(posted := w.posted - multiset{tag});
    if tag.FinishTag? {
      ProceedMovesForward(v, tag.call, ok, known, i);
    } else if tag.RequestTag? {
      ProceedMovesForward(NoteRequest(v, tag.call, ok), tag.call, ok, known, i);
    }
  }

  lemma {:induction false} RunMovesForward(w: World, actions: seq<Action>, i: nat)
    requires Inv(w) && Admissible(w, actions) && i < |w.calls|
    ensures var v := Run(w, actions);
            i < |v.calls| && IsLater(w.calls[i], v.calls[i])
    decreases |actions|
  {
    if actions != [] {
      StepMovesForward(w, actions[0], i);
      InvStep(w, actions[0]);
      RunMovesForward(Step(w, actions[0]), actions[1..], i);
    }
  }

  /** When a tag is delivered the object behind it is alive, the `assert(false)` of Proceed is
      out of reach, and the pointer that Proceed deletes is neither null nor freed. */
  lemma DeliveryIsSound(w: World, tag: Tag, ok: bool, known: bool)
    requires Inv(w) && Enabled(w, Deliver(tag, ok, known))
    ensures tag.DoneTag? ==>
              w.calls[tag.call].tagFrees == 0 && Step(w, Deliver(tag, ok, known)).calls[tag.call].tagFrees == 1
    ensures !tag.DoneTag? ==> !w.calls[tag.call].status.Connected? && !NoteFailure(w.calls[tag.call], ok).status.Connected?
    ensures !tag.DoneTag? && !ok && w.calls[tag.call].status.WaitingForConnection? ==> w.calls[tag.call].tagPointer
  {
    assert CallInv(w, tag.call);
  }

  /** The queue has nothing left to return: what is posted was freed by its call. */
  ghost predicate Drained(w: World) {
    forall t :: t in w.posted ==> t.DoneTag? && t.call < |w.calls| && !w.calls[t.call].started
  }

  /** Once the queue is drained every call is finished, every CallFinishedTag was freed exactly
      once, and a call that LabVIEW has closed has no holder left. */
  lemma DrainedMeansReleased(w: World, i: nat)
    requires Inv(w) && Drained(w) && i < |w.calls|
    ensures w.refused && w.shutdown
    ensures w.calls[i].status.Finished? && w.calls[i].tagFrees == 1 && !w.calls[i].tagPointer
    ensures i !in w.registered && w.calls[i].casters == w.calls[i].closers == 0 ==> Holders(w, i) == 0
  {
    assert CallInv(w, i);
    assert RequestTag(i) !in w.posted && FinishTag(i) !in w.posted;
    if !w.refused { var _ := AcceptorIsPosted(w); }
  }

  lemma AcceptorIsPosted(w: World) returns (a: nat)
    requires Inv(w) && !w.refused
    ensures a < |w.calls| && RequestTag(a) in w.posted
  {
    a :| IsOnlyAcceptor(w, a);
    assert CallInv(w, a);
  }

  lemma OnlyWaitingCallsRegister(w: World, a: Action, i: nat)
    requires Inv(w) && Enabled(w, a) && i < |w.calls|
    requires i !in w.registered && !w.calls[i].status.WaitingForConnection?
    ensures i !in Step(w, a).registered
  {
    if a.Deliver? {
      assert CallInv(w, a.tag.call);
      hide Inv;
    }
  }

  /** Closing an event ends LabVIEW's hold on it for good. */
  lemma {:induction false} ClosedStaysClosed(w: World, actions: seq<Action>, i: nat)
    requires Inv(w) && Admissible(w, actions) && i < |w.calls|
    requires i !in w.registered && !w.calls[i].status.WaitingForConnection?
    ensures i !in Run(w, actions).registered
    decreases |actions|
  {
    if actions != [] {
      StepMovesForward(w, actions[0], i);
      OnlyWaitingCallsRegister(w, actions[0], i);
      InvStep(w, actions[0]);
      hide Inv, Step, Enabled;
      ClosedStaysClosed(Step(w, actions[0]), actions[1..], i);
    }
  }

  // --------------------------------------------------------- what each step does

  /** Everything about the other calls is as it was. */
  ghost predicate OthersStay(w: World, v: World, i: nat) {
    && |w.calls| <= |v.calls|
    && (forall j :: 0 <= j < |w.calls| && j != i ==> v.calls[j] == w.calls[j])
    && (forall t: Tag :: t.call < |w.calls| && t.call != i ==> v.posted[t] == w.posted[t])
    && (forall j: nat :: j < |w.calls| && j != i ==> (j in v.registered <==> j in w.registered))
  }

  /** A connection has arrived. A call to a method with a handler is connected, and LabVIEW gets
      its pointer; any other is finished as unimplemented. Either way a new call waits. */
  lemma AcceptingConnects(w: World, i: nat, known: bool)
    requires Inv(w) && Enabled(w, Deliver(RequestTag(i), true, known))
    ensures var v, n := Step(w, Deliver(RequestTag(i), true, known)), |w.calls|;
            && |v.calls| == n + 1 && OthersStay(w, v, i)
            && v.calls[i].started && v.posted[RequestTag(i)] == 0
            && (known ==> v.calls[i].status.Connected? && i in v.registered
                          && v.posted[FinishTag(i)] == 0 && v.calls[i].finishes == 0)
            && (!known ==> v.calls[i].status.Finishing? && i !in v.registered
                           && v.posted[FinishTag(i)] == 1 && v.calls[i].finishes == 1)
            && v.calls[n].status.WaitingForConnection? && v.posted[RequestTag(n)] == 1 && v.posted[DoneTag(n)] == 1
            && v.posted[FinishTag(n)] == 0 && !v.calls[n].started && v.calls[n].tagPointer
  {
    assert CallInv(w, i);
    var n := |w.calls|;
    assert RequestTag(n) !in w.posted && FinishTag(n) !in w.posted && DoneTag(n) !in w.posted;
    AcceptedFrame(w, i, known);
  }

  /** The server shuts down: the waiting call ends, its CallFinishedTag is freed, and no call
      takes its place. */
  lemma RefusalFinishes(w: World, i: nat, known: bool)
    requires Inv(w) && Enabled(w, Deliver(RequestTag(i), false, known))
    ensures var v := Step(w, Deliver(RequestTag(i), false, known));
            && |v.calls| == |w.calls| && OthersStay(w, v, i) && v.refused
            && v.calls[i].status.Finished? && v.calls[i].tagFrees == 1 && !v.calls[i].tagPointer && v.calls[i].finishes == 0
            && i !in v.registered && v.posted[RequestTag(i)] == 0 && v.posted[FinishTag(i)] == 0
  {
    assert CallInv(w, i);
  }

  /** The stream's Finish is done. */
  lemma FinishTagFinishes(w: World, i: nat, ok: bool, known: bool)
    requires Inv(w) && Enabled(w, Deliver(FinishTag(i), ok, known))
    ensures var v := Step(w, Deliver(FinishTag(i), ok, known));
            && |v.calls| == |w.calls| && OthersStay(w, v, i)
            && w.calls[i].status.Finishing? && v.calls[i] == w.calls[i].(status := Finished)
            && v.posted[FinishTag(i)] == 0 && (i in v.registered <==> i in w.registered)
  {
    assert CallInv(w, i);
  }

  /** The call was cancelled or is over: a connected call ends without Finish, one that is
      finishing goes on to its own tag; the CallFinishedTag is gone either way. */
  lemma DoneTagEnds(w: World, i: nat, ok: bool, known: bool)
    requires Inv(w) && Enabled(w, Deliver(DoneTag(i), ok, known))
    ensures var v := Step(w, Deliver(DoneTag(i), ok, known));
            && |v.calls| == |w.calls| && OthersStay(w, v, i) && v.posted[DoneTag(i)] == 0
            && v.posted[FinishTag(i)] == w.posted[FinishTag(i)] && (i in v.registered <==> i in w.registered)
            && !v.calls[i].tagPointer && v.calls[i].tagFrees == 1 && v.calls[i].finishes == w.calls[i].finishes
            && (w.calls[i].status.Connected? ==> v.calls[i].status.Finished?)
            && (w.calls[i].status.Finishing? ==> v.calls[i].status.Finishing?)
            && (w.calls[i].status.Finished? ==> v.calls[i].status.Finished?)
  {
    assert CallInv(w, i);
  }

  /** LabVIEW finishes a call: a connected one issues its one Finish, any other stays as it is. */
  lemma ClosingFinishes(w: World, i: nat)
    requires Inv(w) && Enabled(w, CloseFinish(i))
    ensures var v := Step(w, CloseFinish(i));
            && |v.calls| == |w.calls| && OthersStay(w, v, i)
            && v.calls[i].casters + 1 == w.calls[i].casters && v.calls[i].closers == w.calls[i].closers + 1
            && (w.calls[i].status.Connected? ==>
                  v.calls[i].status.Finishing? && v.calls[i].finishes == 1 && v.posted[FinishTag(i)] == 1)
            && (!w.calls[i].status.Connected? ==>
                  v.calls[i].status == w.calls[i].status && v.calls[i].finishes == w.calls[i].finishes && v.posted == w.posted)
  {
    assert CallInv(w, i);
  }

  /** The cast takes hold of a registered call and of no other, and the last part of closing
      ends LabVIEW's own hold. */
  lemma ClosingHoldsAndReleases(w: World, i: nat)
    requires Inv(w) && i < |w.calls|
    ensures var v := Step(w, CloseBegin(i));
            if i in w.registered then v == w.(calls := w.calls[i := w.calls[i].(casters := w.calls[i].casters + 1)]) else v == w
    ensures w.calls[i].closers > 0 ==>
              var v := Step(w, CloseEnd(i));
              i !in v.registered && OthersStay(w, v, i) && v.posted == w.posted && v.calls[i].status == w.calls[i].status
              && v.calls[i].closers + 1 == w.calls[i].closers
  {
  }
}
