/** The call objects and the server's completion-queue loop, step by step against the
    transition functions of CallLifecycle. */
module ServerCalls {
  import opened CallLifecycle

  class CallData {
    var status: CallStatus
    var callFinishedTag: bool
    // History that no code reads.
    ghost var started: bool
    ghost var finishes: nat
    ghost var tagFrees: nat
    ghost var casters: nat
    ghost var closers: nat

    ghost function Value(): Call
      reads this
    {
      Call(status, callFinishedTag, started, finishes, tagFrees, casters, closers)
    }

    constructor ()
      ensures Value() == Call(WaitingForConnection, true, false, 0, 0, 0, 0)
    {
      status, callFinishedTag := WaitingForConnection, true;
      started, finishes, tagFrees, casters, closers := false, 0, 0, 0, 0;
    }
  }

  /** The server, its completion queue and the pointers that LabVIEW holds. */
  class LabVIEWgRPCServer {
    var calls: seq<CallData>
    var posted: multiset<Tag>
    var registered: set<nat>
    ghost var shutdown: bool
    ghost var refused: bool

    ghost predicate Valid()
      reads this
    {
      forall i, j :: 0 <= i < j < |calls| ==> calls[i] != calls[j]
    }

    ghost function State(): World
      reads this, calls
    {
      World(seq(|calls|, i requires 0 <= i < |calls| reads this, calls => calls[i].Value()),
        posted, registered, shutdown, refused)
    }

    constructor ()
      ensures Valid() && State() == EMPTY_WORLD && fresh(this)
    {
      calls, posted, registered, shutdown, refused := [], multiset{}, {}, false, false;
    }

    /** CallData::Create. */
    method Create()
      requires Valid()
      modifies this
      ensures Valid() && State() == CallLifecycle.Create(old(State()))
      ensures |calls| == |old(calls)| + 1 && calls[..|old(calls)|] == old(calls) && fresh(calls[|old(calls)|])
    {
      var callData := new CallData();
      var i := |calls|;
      calls := calls + [callData];
      posted := posted + multiset{DoneTag(i), RequestTag(i)};
    }

    /** CallData::Proceed. The environment's promises keep the Connected branch dead. */
    method Proceed(i: nat, ok: bool, known: bool)
      requires Valid() && i < |calls| && !calls[i].status.Connected?
      modifies this, calls[i]
      ensures Valid() && State() == CallLifecycle.Proceed(old(State()), i, ok, known)
      ensures forall c :: c in calls ==> c in old(calls) || fresh(c)
    {
      var call := calls[i];
      if !ok && call.status != Finished {
        if call.status == WaitingForConnection {
          call.callFinishedTag := false;
          call.tagFrees := call.tagFrees + 1;
        }
        call.status := Finishing;
      }
      if call.status == WaitingForConnection {
        assert SetCall(State(), i, State().calls[i]) == State();
        Connect(i, known);
      } else if call.status == Connected {
        assert false;
      } else if call.status == Finishing {
        call.status := Finished;
      }
    }

    /** A connection has arrived: a new acceptor takes over first. */
    method Connect(i: nat, known: bool)
      requires Valid() && i < |calls|
      modifies this, calls[i]
      ensures Valid()
      ensures var v, c := CallLifecycle.Create(old(State())), old(calls[i].Value());
              State() == if known then SetCall(v, i, c.(status := Connected)).(registered := v.registered + {i})
                         else SetCall(v, i, c.(status := Finishing, finishes := c.finishes + 1))
                              .(posted := v.posted + multiset{FinishTag(i)})
      ensures forall c :: c in calls ==> c in old(calls) || fresh(c)
    {
      var call := calls[i];
      Create();
      ghost var created := State();
      if known {
        registered := registered + {i};
        call.status := Connected;
      } else {
        call.status := Finishing;
        call.finishes := call.finishes + 1;
        posted := posted + multiset{FinishTag(i)};
      }
      assert State().calls == created.calls[i := call.Value()];
    }

    method FinishFromLabVIEW(i: nat)
      requires Valid() && i < |calls|
      modifies this`posted, calls[i]
      ensures Valid() && State() == CallLifecycle.FinishFromLabVIEW(old(State()), i)
    {
      var call := calls[i];
      if call.status == Finishing || call.status == Finished { return; }
      call.status := Finishing;
      call.finishes := call.finishes + 1;
      posted := posted + multiset{FinishTag(i)};
    }

    /** CallFinishedTag::Proceed: FinishFromCompletionQueue, then the tag deletes itself. */
    method FinishFromCompletionQueue(i: nat)
      requires Valid() && i < |calls|
      modifies calls[i]
      ensures Valid() && State() == CallLifecycle.FinishFromCompletionQueue(old(State()), i)
    {
      var call := calls[i];
      call.callFinishedTag := false;
      if call.status != Finishing && call.status != Finished {
        call.status := Finished;
      }
      call.tagFrees := call.tagFrees + 1;
    }

    ghost method NoteRequest(call: CallData, i: nat, ok: bool)
      requires Valid() && i < |calls| && calls[i] == call
      modifies this`refused, call`started
      ensures Valid() && State() == CallLifecycle.NoteRequest(old(State()), i, ok)
    {
      ghost var before := State();
      call.started := ok;
      refused := refused || !ok;
      assert State().calls == before.calls[i := before.calls[i].(started := ok)];
    }

    /** One event of the queue: the tag's Proceed, after which the tag is gone. */
    method Dispatch(tag: Tag, ok: bool, known: bool)
      requires Valid() && Inv(State()) && Enabled(State(), Deliver(tag, ok, known))
      modifies this, calls
      ensures Valid() && State() == Step(old(State()), Deliver(tag, ok, known))
      ensures forall c :: c in calls ==> c in old(calls) || fresh(c)
    {
      DeliveryIsSound(State(), tag, ok, known);
      hide Inv, NoteFailure, SetCall, CallLifecycle.NoteRequest, CallLifecycle.Proceed, CallLifecycle.FinishFromCompletionQueue;
      var i := tag.call;
      posted := posted - multiset{tag};
      assert State() == old(State()).(posted := old(posted) - multiset{tag});
      if tag.DoneTag? {
        FinishFromCompletionQueue(i);
      } else {
        if tag.RequestTag? { NoteRequest(calls[i], i, ok); }
        Proceed(i, ok, known);
      }
    }

    /** CloseServerEvent begins: -1 when the pointer is not registered any more, otherwise the
        cast gives this thread the object. */
    method BeginCloseServerEvent(i: nat) returns (error: int)
      requires Valid() && i < |calls|
      modifies calls[i]
      ensures Valid() && State() == Step(old(State()), CloseBegin(i)) && calls == old(calls)
      ensures error == if i in registered then 0 else -1
    {
      if i !in registered { return -1; }
      ghost var before := State();
      calls[i].casters := calls[i].casters + 1;
      assert State().calls == before.calls[i := before.calls[i].(casters := before.calls[i].casters + 1)];
      error := 0;
    }

    /** Its second part: the call is finished, unless it is finishing already. */
    method FinishServerEvent(i: nat)
      requires Valid() && i < |calls| && calls[i].casters > 0
      modifies this, calls[i]
      ensures Valid() && State() == Step(old(State()), CloseFinish(i)) && calls == old(calls)
    {
      FinishFromLabVIEW(i);
      ghost var before := State();
      assert before.calls[i] == calls[i].Value() && before.calls[i].casters == old(State()).calls[i].casters;
      calls[i].casters, calls[i].closers := calls[i].casters - 1, calls[i].closers + 1;
      ghost var c := before.calls[i];
      assert State().calls == before.calls[i := c.(casters := c.casters - 1, closers := c.closers + 1)];
    }

    /** Its last part: the pointer is unregistered. */
    method EndCloseServerEvent(i: nat)
      requires Valid() && i < |calls| && calls[i].closers > 0
      modifies this, calls[i]
      ensures Valid() && State() == Step(old(State()), CloseEnd(i)) && calls == old(calls)
    {
      registered := registered - {i};
      calls[i].closers := calls[i].closers - 1;
      assert State().calls == old(State()).calls[i := old(State()).calls[i].(closers := old(calls[i].closers) - 1)];
    }

    /** HandleRpcs: the drain loop, with LabVIEW's steps and the shutdown interleaved in any
        order the environment allows. */
    method HandleRpcs(schedule: seq<Action>)
      requires calls == [] && State() == EMPTY_WORLD && Admissible(START, schedule)
      modifies this
      ensures Valid() && State() == Run(START, schedule) && Inv(State())
    {
      Create();
      StartIsInv();
      hide Inv, Run, Admissible;
      Drain(schedule);
    }

    method Drain(schedule: seq<Action>)
      requires Valid() && Inv(State()) && Admissible(State(), schedule)
      modifies this, calls
      ensures Valid() && State() == Run(old(State()), schedule) && Inv(State())
    {
      hide Inv, Step, Enabled, Valid, State;
      ghost var first := State();
      var k := 0;
      while k < |schedule|
        invariant 0 <= k <= |schedule| && Valid() && Inv(State())
        invariant Admissible(State(), schedule[k..]) && Run(State(), schedule[k..]) == Run(first, schedule)
        invariant forall c :: c in calls ==> c in old(calls) || fresh(c)
      {
        InvStep(State(), schedule[k]);
        assert forall j :: 0 <= j < |calls| ==> calls[j] in old(calls) || fresh(calls[j]);
        Perform(schedule[k]);
        assert schedule[k..][1..] == schedule[k + 1..];
        k := k + 1;
      }
    }

    method Perform(action: Action)
      requires Valid() && Inv(State()) && Enabled(State(), action)
      modifies this, calls
      ensures Valid() && State() == Step(old(State()), action)
      ensures forall c :: c in calls ==> c in old(calls) || fresh(c)
    {
      match action
      case Deliver(tag, ok, known) => Dispatch(tag, ok, known);
      case CloseBegin(i) => var _ := BeginCloseServerEvent(i);
      case CloseFinish(i) => FinishServerEvent(i);
      case CloseEnd(i) => EndCloseServerEvent(i);
      case Shutdown => shutdown := true;
    }
  }
}
