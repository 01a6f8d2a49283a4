/**
  The HGFS transport: concurrent calls of HgfsTransportSendRequest share one
  channel and one list of pending requests.  The calls are interleaved at the
  granularity of their critical sections and list operations, and the host
  decides freely whether each open and each dispatch succeeds.
*/
module Transport {
  import opened Common

  /** Identity of the request object owned by one call. */
  type ReqId = nat

  datatype ChannelStatus = Uninitialized | NotConnected | Connected

  datatype ReqState = Unsent | Submitted | Completed

  // ------------------------------------------------------------------ channel

  /** The backdoor channel: `active` is "the active channel pointer is not null",
      `backdoor` is "the private pointer is not null". */
  datatype Channel = Channel(active: bool, status: ChannelStatus, backdoor: bool)

  function BdOpen(c: Channel, hostOpens: bool): Channel {
    if c.status.NotConnected? && hostOpens then c.(status := Connected, backdoor := true) else c
  }

  function BdClose(c: Channel): Channel {
    if c.status.Connected? then c.(status := NotConnected, backdoor := false) else c
  }

  function BdExit(c: Channel): Channel {
    BdClose(c).(status := Uninitialized)
  }

  function Close(c: Channel): Channel {
    if c.active then BdExit(BdClose(c)).(active := false) else c
  }

  /** Initialise and open; a channel that does not come up is closed again. */
  function Open(c: Channel, hostOpens: bool): Channel {
    var ch := BdOpen(Channel(true, NotConnected, false), hostOpens);
    if ch.status.Connected? then ch else Close(ch)
  }

  /** The assertions of the backdoor handler: connected exactly when the private
      pointer is set; and a channel is published exactly if it is connected. */
  ghost predicate ChannelOk(c: Channel) {
    && (c.status.Connected? <==> c.backdoor)
    && (c.active <==> c.status.Connected?)
  }

  // ------------------------------------------------------------- the protocol

  /** Where a call stands. */
  datatype Pc =
    | Waiting                // about to take the channel lock
    | HasLock                // about to test the active channel
    | Ready                  // about to enqueue
    | Queued                 // about to send
    | SendFailed(ret: int)   // about to close the channel
    | Closed(ret: int)       // about to reopen it
    | Reopened               // about to send again
    | Replied                // about to copy the reply
    | Marked                 // about to unlink the completed request
    | AtExit(ret: int)       // about to release the channel lock
    | Unlocked(ret: int)     // about to dequeue after a failure
    | Returned(ret: int)

  /** `dispatches` counts how often the request reached the host, `refusals` how often the
      host refused the call anything: to open a channel, or to answer. */
  datatype Call = Call(pc: Pc, state: ReqState, dispatches: nat, refusals: nat)

  datatype State = State(
    calls: map<ReqId, Call>,
    pending: seq<ReqId>,
    holder: Option<ReqId>,
    channel: Channel)

  datatype Action =
    | Begin(r: ReqId)
    | Run(r: ReqId, hostAgrees: bool)
    | Shutdown

  const INITIAL := State(map[], [], None, Channel(true, Connected, true))

  ghost predicate Quiescent(s: State) {
    forall r :: r in s.calls ==> s.calls[r].pc.Returned?
  }

  ghost predicate Enabled(s: State, a: Action) {
    match a
    case Begin(r) => r !in s.calls
    case Run(r, _) =>
      && r in s.calls
      && !s.calls[r].pc.Returned?
      && (s.calls[r].pc.Waiting? ==> s.holder.None?)
    case Shutdown => s.holder.None? && Quiescent(s)
  }

  function RemoveFrom(q: seq<ReqId>, r: ReqId): (out: seq<ReqId>)
  {
    if q == [] then [] else if q[0] == r then q[1..] else [q[0]] + RemoveFrom(q[1..], r)
  }

  /** One send on the channel: the new call and whether it was answered. */
  function Send(s: State, r: ReqId, hostAgrees: bool, onFail: int -> Pc): State
    requires r in s.calls
  {
    var c := s.calls[r];
    if !s.channel.status.Connected? then
      s.(calls := s.calls[r := c.(pc := onFail(-ENOTCONN))])
    else if hostAgrees then
      s.(calls := s.calls[r := c.(pc := Replied, dispatches := c.dispatches + 1)])
    else
      s.(calls := s.calls[r := c.(pc := onFail(-EIO), dispatches := c.dispatches + 1, refusals := c.refusals + 1)])
  }

  function Advance(s: State, r: ReqId, hostAgrees: bool): State
    requires r in s.calls
  {
    var c := s.calls[r];
    match c.pc
    case Waiting =>
      s.(holder := Some(r), calls := s.calls[r := c.(pc := HasLock)])
    case HasLock =>
      var ch := if s.channel.active then s.channel else Open(s.channel, hostAgrees);
      s.(channel := ch,
         calls := s.calls[r := if ch.active then c.(pc := Ready)
                               else c.(pc := AtExit(-ENOTCONN), refusals := c.refusals + 1)])
    case Ready =>
      s.(pending := s.pending + [r], calls := s.calls[r := c.(pc := Queued)])
    case Queued =>
      Send(s, r, hostAgrees, ret => SendFailed(ret))
    case SendFailed(ret) =>
      s.(channel := Close(s.channel), calls := s.calls[r := c.(pc := Closed(ret))])
    case Closed(ret) =>
      var ch := Open(s.channel, hostAgrees);
      s.(channel := ch,
         calls := s.calls[r := if ch.active then c.(pc := Reopened)
                               else c.(pc := AtExit(ret), refusals := c.refusals + 1)])
    case Reopened =>
      Send(s, r, hostAgrees, ret => AtExit(ret))
    case Replied =>
      s.(calls := s.calls[r := c.(pc := Marked, state := Completed)])
    case Marked =>
      s.(pending := RemoveFrom(s.pending, r), calls := s.calls[r := c.(pc := AtExit(0))])
    case AtExit(ret) =>
      s.(holder := None, calls := s.calls[r := c.(pc := if ret < 0 then Unlocked(ret) else Returned(ret))])
    case Unlocked(ret) =>
      s.(pending := RemoveFrom(s.pending, r), calls := s.calls[r := c.(pc := Returned(ret))])
    case Returned(_) => s
  }

  function Apply(s: State, a: Action): State
    requires a.Run? ==> a.r in s.calls
  {
    match a
    case Begin(r) => s.(calls := s.calls[r := Call(Waiting, Unsent, 0, 0)])
    case Run(r, ok) => Advance(s, r, ok)
    case Shutdown => s.(channel := Close(s.channel))
  }

  /** The state after a run, None when some action was not possible. */
  ghost function Exec(s: State, actions: seq<Action>): Option<State>
    decreases |actions|
  {
    if actions == [] then Some(s)
    else
      var n := |actions| - 1;
      match Exec(s, actions[..n])
      case None => None
      case Some(t) => if Enabled(t, actions[n]) then Some(Apply(t, actions[n])) else None
  }

  // ---------------------------------------------------------------- invariant

  predicate Critical(pc: Pc) {
    !(pc.Waiting? || pc.Unlocked? || pc.Returned?)
  }

  /** On the pending list: from the enqueue until the unlink. */
  predicate OnList(c: Call) {
    match c.pc
    case Queued => true
    case SendFailed(_) => true
    case Closed(_) => true
    case Reopened => true
    case Replied => true
    case Marked => true
    case AtExit(ret) => ret < 0 && c.dispatches > 0
    case Unlocked(ret) => ret < 0 && c.dispatches > 0
    case _ => false
  }

  /** What the return value says about dispatches and refusals: a call gives up when the
      host does not open a channel for it, or refuses it a second time. */
  predicate RetOk(ret: int, dispatches: nat, refusals: nat) {
    match ret
    case 0 => 1 <= dispatches <= 2 && refusals == dispatches - 1
    case _ =>
      || (ret == -ENOTCONN && dispatches == 0 && refusals == 1)
      || (ret == -EIO && 1 <= dispatches <= 2 && refusals == 2)
  }

  predicate CallOk(c: Call) {
    && (c.state == match c.pc
                   case Marked => Completed
                   case AtExit(ret) => if ret == 0 then Completed else Unsent
                   case Returned(ret) => if ret == 0 then Completed else Unsent
                   case _ => Unsent)
    && match c.pc
       case Waiting => c.dispatches == 0 == c.refusals
       case HasLock => c.dispatches == 0 == c.refusals
       case Ready => c.dispatches == 0 == c.refusals
       case Queued => c.dispatches == 0 == c.refusals
       case SendFailed(ret) => c.dispatches == 1 == c.refusals && ret == -EIO
       case Closed(ret) => c.dispatches == 1 == c.refusals && ret == -EIO
       case Reopened => c.dispatches == 1 == c.refusals
       case Replied => 1 <= c.dispatches <= 2 && c.refusals == c.dispatches - 1
       case Marked => 1 <= c.dispatches <= 2 && c.refusals == c.dispatches - 1
       case AtExit(ret) => RetOk(ret, c.dispatches, c.refusals)
       case Unlocked(ret) => ret < 0 && RetOk(ret, c.dispatches, c.refusals)
       case Returned(ret) => RetOk(ret, c.dispatches, c.refusals)
  }

  ghost predicate Distinct(q: seq<ReqId>) {
    forall i, j :: 0 <= i < j < |q| ==> q[i] != q[j]
  }

  /** The holder of the lock relies on a connected channel while it sends. */
  predicate HolderChannelOk(c: Call, ch: Channel) {
    match c.pc
    case Ready => ch.active
    case Queued => ch.active
    case Reopened => ch.active
    case SendFailed(_) => ch.active
    case Closed(_) => ch == Channel(false, Uninitialized, false)
    case _ => true
  }

  ghost predicate Inv(s: State) {
    && ChannelOk(s.channel)
    && (forall r :: r in s.calls ==> CallOk(s.calls[r]))
    && (forall r :: r in s.calls && Critical(s.calls[r].pc) ==> s.holder == Some(r))
    && (s.holder.Some? ==>
          && s.holder.value in s.calls
          && Critical(s.calls[s.holder.value].pc)
          && HolderChannelOk(s.calls[s.holder.value], s.channel))
    && Distinct(s.pending)
    && (forall r :: r in s.pending ==> r in s.calls && OnList(s.calls[r]))
    && (forall r :: r in s.calls && OnList(s.calls[r]) ==> r in s.pending)
  }

  lemma {:induction false} RemoveFromSpec(q: seq<ReqId>, r: ReqId)
    requires Distinct(q)
    ensures Distinct(RemoveFrom(q, r))
    ensures forall x :: x in RemoveFrom(q, r) <==> x in q && x != r
  {
    if q == [] {
    } else if q[0] == r {
      forall x ensures x in q[1..] <==> x in q && x != r {
        if x in q && x != r {
          var i :| 0 <= i < |q| && q[i] == x;
          assert q[1..][i - 1] == x;
        }
      }
    } else {
      var t := q[1..];
      RemoveFromSpec(t, r);
      var out := [q[0]] + RemoveFrom(t, r);
      assert q == [q[0]] + t;
      assert q[0] !in t;
      assert Distinct(out);
    }
  }

  /** A step that only touches call r keeps the invariant when it keeps r's share of it. */
  lemma LocalStepKeepsInv(s: State, t: State, r: ReqId)
    requires Inv(s)
    requires r in t.calls && t.calls == s.calls[r := t.calls[r]]
    requires CallOk(t.calls[r]) && ChannelOk(t.channel)
    requires (r in s.calls && Critical(s.calls[r].pc)) || s.holder.None? || t.holder == s.holder
    requires Critical(t.calls[r].pc) ==> t.holder == Some(r) && HolderChannelOk(t.calls[r], t.channel)
    requires !Critical(t.calls[r].pc) ==>
               t.holder.None? || (t.holder == s.holder && t.holder != Some(r) && t.channel == s.channel)
    requires Distinct(t.pending)
    requires forall x :: x != r ==> (x in t.pending <==> x in s.pending)
    requires r in t.pending <==> OnList(t.calls[r])
    ensures Inv(t)
  {
  }

  lemma LockStepKeepsInv(s: State, r: ReqId, ok: bool)
    requires Inv(s) && Enabled(s, Run(r, ok))
    requires s.calls[r].pc.Waiting? || s.calls[r].pc.AtExit?
    ensures Inv(Advance(s, r, ok))
  {
    LocalStepKeepsInv(s, Advance(s, r, ok), r);
  }

  lemma ChannelStepKeepsInv(s: State, r: ReqId, ok: bool)
    requires Inv(s) && Enabled(s, Run(r, ok))
    requires s.calls[r].pc.HasLock? || s.calls[r].pc.SendFailed? || s.calls[r].pc.Closed?
    ensures Inv(Advance(s, r, ok))
  {
    LocalStepKeepsInv(s, Advance(s, r, ok), r);
  }

  lemma SendKeepsInv(s: State, r: ReqId, ok: bool)
    requires Inv(s) && Enabled(s, Run(r, ok))
    requires s.calls[r].pc.Queued? || s.calls[r].pc.Reopened?
    ensures Inv(Advance(s, r, ok))
  {
    LocalStepKeepsInv(s, Advance(s, r, ok), r);
  }

  lemma ListStepKeepsInv(s: State, r: ReqId, ok: bool)
    requires Inv(s) && Enabled(s, Run(r, ok))
    requires s.calls[r].pc.Ready? || s.calls[r].pc.Marked? || s.calls[r].pc.Unlocked?
    ensures Inv(Advance(s, r, ok))
  {
    RemoveFromSpec(s.pending, r);
    var t := Advance(s, r, ok);
    assert s.calls[r].pc.Ready? ==> forall x :: x in t.pending <==> x in s.pending || x == r;
    LocalStepKeepsInv(s, t, r);
  }

  lemma CompleteKeepsInv(s: State, r: ReqId, ok: bool)
    requires Inv(s) && Enabled(s, Run(r, ok))
    requires s.calls[r].pc.Replied?
    ensures Inv(Advance(s, r, ok))
  {
    LocalStepKeepsInv(s, Advance(s, r, ok), r);
  }

  lemma StepKeepsInv(s: State, a: Action)
    requires Inv(s) && Enabled(s, a)
    ensures Inv(Apply(s, a))
  {
    match a
    case Begin(r) =>
      assert r !in s.pending;
      LocalStepKeepsInv(s, Apply(s, a), r);
    case Shutdown =>
    case Run(r, ok) =>
      var pc := s.calls[r].pc;
      if pc.Waiting? || pc.AtExit? {
        LockStepKeepsInv(s, r, ok);
      } else if pc.HasLock? || pc.SendFailed? || pc.Closed? {
        ChannelStepKeepsInv(s, r, ok);
      } else if pc.Queued? || pc.Reopened? {
        SendKeepsInv(s, r, ok);
      } else if pc.Replied? {
        CompleteKeepsInv(s, r, ok);
      } else {
        ListStepKeepsInv(s, r, ok);
      }
  }

  /** The invariant holds after every run, whatever the interleaving and the host. */
  lemma {:induction false} EveryRunKeepsInv(actions: seq<Action>)
    requires Exec(INITIAL, actions).Some?
    ensures Inv(Exec(INITIAL, actions).value)
    decreases |actions|
  {
    if actions != [] {
      var n := |actions| - 1;
      EveryRunKeepsInv(actions[..n]);
      StepKeepsInv(Exec(INITIAL, actions[..n]).value, actions[n]);
    }
  }

  // ------------------------------------------------------------ what it means

  /** After every run: only calls that have not returned are on the list, a
      returned call is off it, and the return value tells the request's state and
      how often it reached the host. */
  lemma SendOutcome(actions: seq<Action>, r: ReqId)
    requires Exec(INITIAL, actions).Some?
    requires r in Exec(INITIAL, actions).value.calls
    ensures var s := Exec(INITIAL, actions).value;
            var c := s.calls[r];
            && c.dispatches <= 2
            && c.state != Submitted
            && (r in s.pending ==> !c.pc.Returned?)
            && (c.pc.Returned? ==>
                  && (c.pc.ret == 0 <==> c.state == Completed)
                  && (c.pc.ret != 0 <==> c.state == Unsent)
                  && (c.pc.ret == -ENOTCONN <==> c.dispatches == 0)
                  && c.refusals == (if c.pc.ret == 0 then c.dispatches - 1 else if c.pc.ret == -ENOTCONN then 1 else 2)
                  && (c.pc.ret in {0, -EIO, -ENOTCONN}))
  {
    EveryRunKeepsInv(actions);
  }

  /** Whenever the channel lock is free the active channel, if any, is connected;
      and whenever a call is about to send, the channel it uses is connected. */
  lemma ChannelConnected(actions: seq<Action>)
    requires Exec(INITIAL, actions).Some?
    ensures var s := Exec(INITIAL, actions).value;
            && (s.holder.None? && s.channel.active ==> s.channel.status == Connected && s.channel.backdoor)
            && (forall r :: r in s.calls && (s.calls[r].pc.Queued? || s.calls[r].pc.Reopened?) ==>
                  s.holder == Some(r) && s.channel.active && s.channel.status == Connected)
  {
    EveryRunKeepsInv(actions);
  }

  /** A teardown leaves no channel behind, and nothing on the list. */
  lemma TeardownCloses(actions: seq<Action>)
    requires Exec(INITIAL, actions).Some? && actions != [] && actions[|actions| - 1].Shutdown?
    ensures var s := Exec(INITIAL, actions).value;
            && !s.channel.active && !s.channel.backdoor && !s.channel.status.Connected?
            && s.pending == [] && s.holder.None?
  {
    var n := |actions| - 1;
    EveryRunKeepsInv(actions[..n]);
    QuiescentListEmpty(actions[..n]);
    EveryRunKeepsInv(actions);
  }

  lemma NonEmptyHasMember(q: seq<ReqId>)
    ensures q != [] ==> exists r :: r in q
  {
    assert q != [] ==> q[0] in q;
  }

  /** With no send in progress the list is empty, as the teardown asserts. */
  lemma QuiescentListEmpty(actions: seq<Action>)
    requires Exec(INITIAL, actions).Some?
    requires Quiescent(Exec(INITIAL, actions).value)
    ensures Exec(INITIAL, actions).value.pending == []
    ensures Exec(INITIAL, actions).value.holder == None
  {
    EveryRunKeepsInv(actions);
    var s := Exec(INITIAL, actions).value;
    NonEmptyHasMember(s.pending);
  }

  /** No deadlock: as long as some call has not returned, some call can move. */
  lemma NoDeadlock(actions: seq<Action>)
    requires Exec(INITIAL, actions).Some?
    requires !Quiescent(Exec(INITIAL, actions).value)
    ensures exists r :: Enabled(Exec(INITIAL, actions).value, Run(r, true))
  {
    EveryRunKeepsInv(actions);
    var s := Exec(INITIAL, actions).value;
    var r :| r in s.calls && !s.calls[r].pc.Returned?;
    if s.holder.Some? {
      assert Enabled(s, Run(s.holder.value, true));
    } else {
      assert Enabled(s, Run(r, true));
    }
  }

  // -------------------------------------------------------------- termination

  /** Most steps a call still has to take. */
  function Remaining(pc: Pc): nat {
    match pc
    case Waiting => 10
    case HasLock => 9
    case Ready => 8
    case Queued => 7
    case SendFailed(_) => 6
    case Closed(_) => 5
    case Reopened => 4
    case Replied => 3
    case Marked => 2
    case AtExit(ret) => if ret < 0 then 2 else 1
    case Unlocked(_) => 1
    case Returned(_) => 0
  }

  ghost function StepsOf(r: ReqId, actions: seq<Action>): nat {
    if actions == [] then 0
    else
      var n := |actions| - 1;
      StepsOf(r, actions[..n]) + (if actions[n].Run? && actions[n].r == r then 1 else 0)
  }

  lemma AdvanceShortens(s: State, r: ReqId, ok: bool)
    requires r in s.calls && !s.calls[r].pc.Returned?
    ensures r in Advance(s, r, ok).calls
    ensures Remaining(Advance(s, r, ok).calls[r].pc) < Remaining(s.calls[r].pc)
  {
  }

  lemma AdvanceLeavesOthers(s: State, r: ReqId, ok: bool, other: ReqId)
    requires r in s.calls && other in s.calls && other != r
    ensures other in Advance(s, r, ok).calls && Advance(s, r, ok).calls[other] == s.calls[other]
  {
  }

  /** A step takes its own call closer to its return and leaves the others where they are. */
  lemma StepShortens(s: State, a: Action, r: ReqId)
    requires Enabled(s, a) && r in s.calls
    ensures r in Apply(s, a).calls
    ensures var left := Remaining(Apply(s, a).calls[r].pc);
            if a.Run? && a.r == r then left < Remaining(s.calls[r].pc) else left == Remaining(s.calls[r].pc)
  {
    if a.Run? {
      if a.r == r {
        AdvanceShortens(s, r, a.hostAgrees);
      } else {
        AdvanceLeavesOthers(s, a.r, a.hostAgrees, r);
      }
    }
  }

  /** Every call takes at most ten steps of its own, in every interleaving. */
  lemma {:induction false} CallIsBounded(actions: seq<Action>, r: ReqId)
    requires Exec(INITIAL, actions).Some?
    ensures var s := Exec(INITIAL, actions).value;
            if r in s.calls then StepsOf(r, actions) + Remaining(s.calls[r].pc) <= 10
            else StepsOf(r, actions) == 0
    decreases |actions|
  {
    if actions != [] {
      var n := |actions| - 1;
      CallIsBounded(actions[..n], r);
      var s := Exec(INITIAL, actions[..n]).value;
      if r in s.calls {
        StepShortens(s, actions[n], r);
      }
    }
  }

  // ------------------------------------------------- the code, one call at a time

  lemma ExecAppend(s: State, actions: seq<Action>, a: Action)
    requires Exec(s, actions).Some? && Enabled(Exec(s, actions).value, a)
    ensures Exec(s, actions + [a]) == Some(Apply(Exec(s, actions).value, a))
  {
    assert (actions + [a])[..|actions|] == actions;
  }

  class Client {
    var active: bool
    var status: ChannelStatus
    var backdoor: bool
    var pending: seq<ReqId>
    var holder: Option<ReqId>
    var calls: map<ReqId, Call>

    ghost function Snapshot(): State
      reads this
    {
      State(calls, pending, holder, Channel(active, status, backdoor))
    }

    method ChannelClose()
      modifies `active, `status, `backdoor
      ensures Channel(active, status, backdoor) == Close(old(Channel(active, status, backdoor)))
    {
      if active {
        if status.Connected? {
          backdoor := false;
          status := NotConnected;
        }
        status := Uninitialized;
        active := false;
      }
    }

    method ChannelOpen(hostOpens: bool) returns (result: int)
      modifies `active, `status, `backdoor
      ensures Channel(active, status, backdoor) == Open(old(Channel(active, status, backdoor)), hostOpens)
      ensures result == (if active then 0 else -ENOTCONN)
      ensures active <==> hostOpens
    {
      backdoor, status, active := false, NotConnected, true;
      if hostOpens {
        backdoor, status := true, Connected;
      }
      result := 0;
      if !status.Connected? {
        ChannelClose();
        result := -ENOTCONN;
      }
    }

    method ChannelReset(hostOpens: bool) returns (ok: bool)
      modifies `active, `status, `backdoor
      ensures Channel(active, status, backdoor) ==
              Open(Close(old(Channel(active, status, backdoor))), hostOpens)
      ensures ok <==> active
    {
      ChannelClose();
      var openResult := ChannelOpen(hostOpens);
      ok := openResult == 0;
    }

    /** Position of the request on the list, None when it is on no list. */
    method Find(r: ReqId) returns (at: Option<nat>)
      ensures at.Some? ==> at.value < |pending| && pending[at.value] == r && r !in pending[..at.value]
      ensures at.None? <==> r !in pending
    {
      at := None;
      for i := 0 to |pending|
        invariant at.None? && r !in pending[..i]
      {
        if pending[i] == r {
          return Some(i);
        }
      }
    }

    method Unlink(r: ReqId)
      modifies `pending
      ensures pending == RemoveFrom(old(pending), r)
    {
      var at := Find(r);
      if at.Some? {
        RemoveFromAt(pending, r, at.value);
        pending := pending[..at.value] + pending[at.value + 1..];
      } else {
        RemoveFromAbsent(pending, r);
      }
    }

    /** HgfsBdChannelSend: 0 when the host answered, an error otherwise. */
    method BackdoorSend(r: ReqId, hostAnswers: bool) returns (ret: int)
      requires r in calls
      modifies `calls, `pending
      ensures !status.Connected? ==> ret == -ENOTCONN && calls == old(calls) && pending == old(pending)
      ensures status.Connected? ==>
                && ret == (if hostAnswers then 0 else -EIO)
                && pending == (if hostAnswers then RemoveFrom(old(pending), r) else old(pending))
                && calls == old(calls[r := calls[r].(
                     dispatches := calls[r].dispatches + 1,
                     refusals := calls[r].refusals + (if hostAnswers then 0 else 1),
                     state := if hostAnswers then Completed else calls[r].state)])
    {
      if !status.Connected? {
        return -ENOTCONN;
      }
      calls := calls[r := calls[r].(dispatches := calls[r].dispatches + 1)];
      if hostAnswers {
        calls := calls[r := calls[r].(state := Completed)];
        Unlink(r);
        ret := 0;
      } else {
        calls := calls[r := calls[r].(refusals := calls[r].refusals + 1)];
        ret := -EIO;
      }
    }

    /** The send with its one retry on a reopened channel. */
    method SendWithRetry(r: ReqId, send1: bool, open2: bool, send2: bool) returns (ret: int)
      requires r in calls && status.Connected?
      modifies `active, `status, `backdoor, `pending, `calls
      ensures Channel(active, status, backdoor) ==
              if send1 then old(Channel(active, status, backdoor))
              else Open(Close(old(Channel(active, status, backdoor))), open2)
      ensures ret == (if send1 || (open2 && send2) then 0 else -EIO)
      ensures pending == (if ret == 0 then RemoveFrom(old(pending), r) else old(pending))
      ensures calls == old(calls[r := calls[r].(
                         dispatches := calls[r].dispatches + (if send1 || !open2 then 1 else 2),
                         refusals := calls[r].refusals + (if send1 then 0 else if open2 && send2 then 1 else 2),
                         state := if send1 || (open2 && send2) then Completed else calls[r].state)])
    {
      ret := BackdoorSend(r, send1);
      if ret < 0 {
        var reopened := ChannelReset(open2);
        if reopened {
          ret := BackdoorSend(r, send2);
        } else {
          calls := calls[r := calls[r].(refusals := calls[r].refusals + 1)];
        }
      }
    }

    /** Enqueue and send; a request that was not answered stays on the list. */
    method QueueAndSend(r: ReqId, send1: bool, open2: bool, send2: bool) returns (ret: int)
      requires r in calls && r !in pending && status.Connected?
      modifies `active, `status, `backdoor, `pending, `calls
      ensures Channel(active, status, backdoor) ==
              if send1 then old(Channel(active, status, backdoor))
              else Open(Close(old(Channel(active, status, backdoor))), open2)
      ensures ret == (if send1 || (open2 && send2) then 0 else -EIO)
      ensures pending == (if ret == 0 then old(pending) else old(pending) + [r])
      ensures calls == old(calls[r := calls[r].(
                         dispatches := calls[r].dispatches + (if send1 || !open2 then 1 else 2),
                         refusals := calls[r].refusals + (if send1 then 0 else if open2 && send2 then 1 else 2),
                         state := if send1 || (open2 && send2) then Completed else calls[r].state)])
    {
      RemoveFromLast(pending, r);
      pending := pending + [r];
      ret := SendWithRetry(r, send1, open2, send2);
    }

    /** The exit path: release the lock, then dequeue after a failure. */
    method Leave(r: ReqId, ret: int)
      requires r in calls
      modifies `holder, `pending, `calls
      ensures holder.None? && calls == old(calls[r := calls[r].(pc := Returned(ret))])
      ensures pending == if ret < 0 then RemoveFrom(old(pending), r) else old(pending)
    {
      holder := None;
      if ret < 0 {
        Unlink(r);
      }
      calls := calls[r := calls[r].(pc := Returned(ret))];
    }

    /** HgfsTransportSendRequest running alone; SoloIsRun shows that what it does is
        a run of the protocol, so everything proved of runs holds of it. */
    method SendRequest(r: ReqId, open1: bool, send1: bool, open2: bool, send2: bool) returns (ret: int)
      requires r !in calls && r !in pending && holder.None?
      requires ChannelOk(Channel(active, status, backdoor))
      modifies this
      ensures Snapshot() == Solo(old(Snapshot()), r, open1, send1, open2, send2)
      ensures r in calls && calls[r].pc == Returned(ret)
    {
      ghost var pending0 := pending;
      ghost var calls0 := calls;
      calls := calls[r := Call(Waiting, Unsent, 0, 0)];
      holder := Some(r);
      ret := 0;
      if !active {
        ret := ChannelOpen(open1);
      }
      if ret == 0 {
        ret := QueueAndSend(r, send1, open2, send2);
      } else {
        calls := calls[r := calls[r].(refusals := 1)];
      }
      RemoveFromLast(pending0, r);
      RemoveFromAbsent(pending0, r);
      Leave(r, ret);
      assert calls == calls0[r := calls[r]];
    }
  }

  lemma RemoveFromLast(q: seq<ReqId>, r: ReqId)
    requires r !in q
    ensures RemoveFrom(q + [r], r) == q
  {
    RemoveFromAt(q + [r], r, |q|);
  }

  /** The outcome of a call that nobody interferes with: the list is as before. */
  function Solo(s: State, r: ReqId, open1: bool, send1: bool, open2: bool, send2: bool): State {
    var ch1 := if s.channel.active then s.channel else Open(s.channel, open1);
    var ch2 := Open(Close(ch1), open2);
    if !ch1.active then
      s.(channel := ch1, calls := s.calls[r := Call(Returned(-ENOTCONN), Unsent, 0, 1)])
    else if send1 then
      s.(channel := ch1, calls := s.calls[r := Call(Returned(0), Completed, 1, 0)])
    else if !ch2.active then
      s.(channel := ch2, calls := s.calls[r := Call(Returned(-EIO), Unsent, 1, 2)])
    else if send2 then
      s.(channel := ch2, calls := s.calls[r := Call(Returned(0), Completed, 2, 1)])
    else
      s.(channel := ch2, calls := s.calls[r := Call(Returned(-EIO), Unsent, 2, 2)])
  }

  lemma {:induction false} RemoveFromAt(q: seq<ReqId>, r: ReqId, i: nat)
    requires i < |q| && q[i] == r && r !in q[..i]
    ensures RemoveFrom(q, r) == q[..i] + q[i + 1..]
  {
    if i > 0 {
      assert q[0] in q[..i];
      assert q[1..][..i - 1] == q[1..i];
      assert forall x :: x in q[1..i] ==> x in q[..i];
      RemoveFromAt(q[1..], r, i - 1);
      assert q[..i] == [q[0]] + q[1..][..i - 1];
    }
  }

  lemma {:induction false} RemoveFromAbsent(q: seq<ReqId>, r: ReqId)
    requires r !in q
    ensures RemoveFrom(q, r) == q
  {
    if q != [] {
      RemoveFromAbsent(q[1..], r);
    }
  }

  function With(s: State, r: ReqId, c: Call, pending: seq<ReqId>, holder: Option<ReqId>, ch: Channel): State {
    State(s.calls[r := c], pending, holder, ch)
  }

  lemma AdvanceMovesOne(g: State, r: ReqId, ok: bool)
    requires r in g.calls
    ensures r in Advance(g, r, ok).calls
    ensures Advance(g, r, ok).calls == g.calls[r := Advance(g, r, ok).calls[r]]
  {
  }

  /** One more step of call r at the end of a run that has only moved r. */
  lemma OneStep(s: State, actions: seq<Action>, g: State, r: ReqId, ok: bool) returns (h: State)
    requires r in g.calls && g == With(s, r, g.calls[r], g.pending, g.holder, g.channel)
    requires Exec(s, actions) == Some(g) && Enabled(g, Run(r, ok))
    ensures h == Advance(g, r, ok) && Exec(s, actions + [Run(r, ok)]) == Some(h)
    ensures r in h.calls && h == With(s, r, h.calls[r], h.pending, h.holder, h.channel)
  {
    ExecAppend(s, actions, Run(r, ok));
    h := Advance(g, r, ok);
    AdvanceMovesOne(g, r, ok);
    assert s.calls[r := g.calls[r]][r := h.calls[r]] == s.calls[r := h.calls[r]];
  }

  predicate OnlyBy(r: ReqId, actions: seq<Action>) {
    forall a :: a in actions ==> !a.Shutdown? && a.r == r
  }

  lemma OpenPhase(s: State, r: ReqId, open1: bool) returns (actions: seq<Action>, g: State)
    requires r !in s.calls && r !in s.pending && s.holder.None? && ChannelOk(s.channel)
    ensures Exec(s, actions) == Some(g) && OnlyBy(r, actions)
    ensures var ch := if s.channel.active then s.channel else Open(s.channel, open1);
            g == if ch.active then With(s, r, Call(Queued, Unsent, 0, 0), s.pending + [r], Some(r), ch)
                 else With(s, r, Call(AtExit(-ENOTCONN), Unsent, 0, 1), s.pending, Some(r), ch)
  {
    ExecAppend(s, [], Begin(r));
    actions, g := [Begin(r)], Apply(s, Begin(r));
    assert [] + [Begin(r)] == actions;
    g := OneStep(s, actions, g, r, true);
    actions := actions + [Run(r, true)];
    g := OneStep(s, actions, g, r, open1);
    actions := actions + [Run(r, open1)];
    if g.channel.active {
      g := OneStep(s, actions, g, r, true);
      actions := actions + [Run(r, true)];
    }
  }

  lemma RetryPhase(s: State, r: ReqId, actions0: seq<Action>, q: seq<ReqId>, ch: Channel, open2: bool, send2: bool)
    returns (actions: seq<Action>, g: State)
    requires Exec(s, actions0) == Some(With(s, r, Call(SendFailed(-EIO), Unsent, 1, 1), q, Some(r), ch))
    requires OnlyBy(r, actions0)
    ensures Exec(s, actions) == Some(g) && OnlyBy(r, actions)
    ensures g == With(s, r, if !open2 then Call(AtExit(-EIO), Unsent, 1, 2)
                            else if send2 then Call(Replied, Unsent, 2, 1) else Call(AtExit(-EIO), Unsent, 2, 2),
                      q, Some(r), Open(Close(ch), open2))
  {
    actions := actions0;
    g := OneStep(s, actions, With(s, r, Call(SendFailed(-EIO), Unsent, 1, 1), q, Some(r), ch), r, true);
    actions := actions + [Run(r, true)];
    g := OneStep(s, actions, g, r, open2);
    actions := actions + [Run(r, open2)];
    if open2 {
      g := OneStep(s, actions, g, r, send2);
      actions := actions + [Run(r, send2)];
    }
  }

  lemma SendPhase(s: State, r: ReqId, actions0: seq<Action>, q: seq<ReqId>, ch: Channel,
                  send1: bool, open2: bool, send2: bool) returns (actions: seq<Action>, g: State)
    requires Exec(s, actions0) == Some(With(s, r, Call(Queued, Unsent, 0, 0), q, Some(r), ch)) && OnlyBy(r, actions0)
    requires ch.active && ch.status.Connected?
    ensures Exec(s, actions) == Some(g) && OnlyBy(r, actions)
    ensures var answered := send1 || (open2 && send2);
            g == With(s, r, Call(if answered then Replied else AtExit(-EIO), Unsent, if send1 || !open2 then 1 else 2,
                                 if send1 then 0 else if answered then 1 else 2),
                      q, Some(r), if send1 then ch else Open(Close(ch), open2))
  {
    g := OneStep(s, actions0, With(s, r, Call(Queued, Unsent, 0, 0), q, Some(r), ch), r, send1);
    actions := actions0 + [Run(r, send1)];
    if !send1 {
      actions, g := RetryPhase(s, r, actions, q, ch, open2, send2);
    }
  }

  lemma FinishPhase(s: State, r: ReqId, actions0: seq<Action>, c: Call, q: seq<ReqId>, ch: Channel)
    returns (actions: seq<Action>, g: State)
    requires Exec(s, actions0) == Some(With(s, r, c, q, Some(r), ch)) && OnlyBy(r, actions0)
    requires c.pc.Replied? || (c.pc.AtExit? && c.pc.ret < 0)
    ensures Exec(s, actions) == Some(g) && OnlyBy(r, actions)
    ensures g == With(s, r, if c.pc.Replied? then c.(pc := Returned(0), state := Completed)
                            else c.(pc := Returned(c.pc.ret)), RemoveFrom(q, r), None, ch)
  {
    actions := actions0;
    g := OneStep(s, actions, With(s, r, c, q, Some(r), ch), r, true);
    actions := actions + [Run(r, true)];
    g := OneStep(s, actions, g, r, true);
    actions := actions + [Run(r, true)];
    if c.pc.Replied? {
      g := OneStep(s, actions, g, r, true);
      actions := actions + [Run(r, true)];
    }
  }

  /** The undisturbed call is one run of the protocol, in which nobody else moves. */
  lemma SoloIsRun(s: State, r: ReqId, open1: bool, send1: bool, open2: bool, send2: bool)
    requires r !in s.calls && r !in s.pending && s.holder.None? && ChannelOk(s.channel)
    ensures exists actions ::
              OnlyBy(r, actions) && Exec(s, actions) == Some(Solo(s, r, open1, send1, open2, send2))
  {
    var actions, g := OpenPhase(s, r, open1);
    if g.calls[r].pc.Queued? {
      actions, g := SendPhase(s, r, actions, g.pending, g.channel, send1, open2, send2);
      RemoveFromLast(s.pending, r);
    } else {
      RemoveFromAbsent(s.pending, r);
    }
    actions, g := FinishPhase(s, r, actions, g.calls[r], g.pending, g.channel);
    assert g == Solo(s, r, open1, send1, open2, send2);
  }
}
