/**
  The global version switches.  Each kind of request starts at version 3; a host
  that answers "protocol error" moves the switch down its chain and the call is
  retried.  The switches are read and written without a lock.
*/
module Versions {
  import opened Common

  /** The operations with more than one opcode. */
  datatype Kind =
    | Open | Read | Write | Close | SearchOpen | SearchRead | Getattr | Setattr
    | CreateDir | DeleteFile | DeleteDir | Rename | QueryVolume | CreateSymlink

  const KINDS := {Open, Read, Write, Close, SearchOpen, SearchRead, Getattr, Setattr,
                  CreateDir, DeleteFile, DeleteDir, Rename, QueryVolume, CreateSymlink}

  lemma EveryKind(k: Kind)
    ensures k in KINDS
  {
  }

  /** Kinds with three versions; the others go from version 3 to version 1. */
  predicate ThreeStep(k: Kind) {
    k.Open? || k.SearchRead? || k.Getattr? || k.Setattr? || k.CreateDir?
  }

  function Fallback(k: Kind, v: Version): (w: Option<Version>)
    ensures w.Some? ==> Rank(w.value) < Rank(v)
    ensures w.None? <==> v.V1? || (v.V2? && !ThreeStep(k))
  {
    match v
    case V3 => Some(if ThreeStep(k) then V2 else V1)
    case V2 => if ThreeStep(k) then Some(V1) else None
    case V1 => None
  }

  /** Kinds that are tried once more after a denial, with the read-only bit cleared. */
  predicate Protected(k: Kind) {
    k.DeleteFile? || k.DeleteDir? || k.Rename?
  }

  // -------------------------------------------------------------- one at a time

  /** The host's verdict on one request; Denied is EACCES or EPERM. */
  datatype Answer = Fine | Denied | Rejected | Failed(error: int)

  function ErrorOf(a: Answer): (r: int)
    ensures r < 0
  {
    match a
    case Denied => -EACCES
    case Failed(error) => if error < 0 && error != -EPROTO then error else -EIO
    case _ => -EPROTO
  }

  type Table = map<Kind, Version>

  /** Every kind has a switch, at one of its versions. */
  ghost predicate ValidTable(t: Table) {
    forall k :: k in t && (t[k].V2? ==> ThreeStep(k))
  }

  /** From a to b switches only moved down, and only those of the given kinds. */
  ghost predicate Lowered(a: Table, b: Table, kinds: set<Kind>) {
    && ValidTable(a) && ValidTable(b)
    && forall k :: Rank(b[k]) <= Rank(a[k]) && (k !in kinds ==> b[k] == a[k])
  }

  lemma LoweredTwice(a: Table, b: Table, c: Table, ks: set<Kind>, ls: set<Kind>)
    requires Lowered(a, b, ks) && Lowered(b, c, ls)
    ensures Lowered(a, c, ks + ls)
  {
  }

  lemma LowerOne(a: Table, b: Table, kinds: set<Kind>, k: Kind, v: Version)
    requires Lowered(a, b, kinds) && k in kinds && Rank(v) <= Rank(b[k]) && (v.V2? ==> ThreeStep(k))
    ensures Lowered(a, b[k := v], kinds)
  {
  }

  /** After n rejections the switch has moved from one version to the other: a version at a
      time if the kind has three, and otherwise to version 1 at once. */
  predicate SteppedDown(k: Kind, from: Version, to: Version, n: nat) {
    if ThreeStep(k) then n == Rank(from) - Rank(to)
    else if n == 0 then to == from
    else n == 1 && from.V3? && to.V1?
  }

  /** A call of a three-version kind that starts at version v succeeds: the first answer
      that is no rejection is "fine", and comes while there is a version to try. */
  predicate Succeeds(host: nat -> Answer, v: Version) {
    exists n: nat :: n <= Rank(v) && host(n).Fine? && forall i :: 0 <= i < n ==> host(i).Rejected?
  }

  lemma SettledSucceeds(host: nat -> Answer, v: Version, n: nat)
    requires n <= Rank(v) && (host(n).Rejected? ==> n == Rank(v))
    requires forall i :: 0 <= i < n ==> host(i).Rejected?
    ensures Succeeds(host, v) <==> host(n).Fine?
  {
    if Succeeds(host, v) {
      var m: nat :| m <= Rank(v) && host(m).Fine? && forall i :: 0 <= i < m ==> host(i).Rejected?;
      assert m < n ==> host(m).Rejected?;
      assert n < m ==> host(n).Rejected?;
    }
  }

  /** Request i of a delete or rename is followed by another one: it was the first denial
      and the read-only bit could be cleared, or the first rejection and in version 3. */
  predicate Retries(host: nat -> Answer, three: bool, clearable: bool, i: nat) {
    || (host(i).Denied? && clearable && forall j :: 0 <= j < i ==> !host(j).Denied?)
    || (host(i).Rejected? && three && forall j :: 0 <= j < i ==> !host(j).Rejected?)
  }

  /** A delete or rename sends n requests: all but the last are retried. */
  predicate SendsExactly(host: nat -> Answer, three: bool, clearable: bool, n: nat) {
    && n > 0 && !Retries(host, three, clearable, n - 1)
    && forall i :: 0 <= i < n - 1 ==> Retries(host, three, clearable, i)
  }

  lemma SendsAtMostThree(host: nat -> Answer, three: bool, clearable: bool, n: nat)
    requires SendsExactly(host, three, clearable, n)
    ensures n <= 3
    ensures !three || !clearable ==> n <= 2
  {
    assert n > 1 ==> Retries(host, three, clearable, 0);
    assert n > 2 ==> Retries(host, three, clearable, 1);
    assert n > 3 ==> Retries(host, three, clearable, 2);
  }

  /** The answers decide how many requests there are. */
  lemma SendsOneNumber(host: nat -> Answer, three: bool, clearable: bool, m: nat, n: nat)
    requires SendsExactly(host, three, clearable, m) && SendsExactly(host, three, clearable, n)
    ensures m == n
  {
  }

  /** A denial that clearing the read-only bit cures: two requests, and the second counts. */
  lemma DeniedThenFine(host: nat -> Answer, three: bool, n: nat)
    requires host(0).Denied? && host(1).Fine? && SendsExactly(host, three, true, n)
    ensures n == 2 && host(n - 1).Fine?
  {
    SendsOneNumber(host, three, true, 2, n);
  }

  /** Some answer before request n is a denial, or a rejection. */
  predicate DeniedBefore(host: nat -> Answer, n: nat) {
    exists i :: 0 <= i < n && host(i).Denied?
  }

  predicate RejectedBefore(host: nat -> Answer, n: nat) {
    exists i :: 0 <= i < n && host(i).Rejected?
  }

  /** The first n requests were all retried; the bit is cleared iff one was denied. */
  ghost predicate RetriedSoFar(host: nat -> Answer, three: bool, clearable: bool, n: nat, cleared: bool) {
    && (cleared <==> DeniedBefore(host, n)) && (cleared ==> clearable)
    && (RejectedBefore(host, n) ==> three)
    && forall i :: 0 <= i < n ==> Retries(host, three, clearable, i)
  }

  lemma RetriedAtMostTwo(host: nat -> Answer, three: bool, clearable: bool, n: nat, cleared: bool)
    requires RetriedSoFar(host, three, clearable, n, cleared)
    ensures n <= 2
  {
    assert n > 0 ==> Retries(host, three, clearable, 0);
    assert n > 1 ==> Retries(host, three, clearable, 1);
    assert n > 2 ==> Retries(host, three, clearable, 2);
  }

  /** What the next answer does to that. */
  lemma RetriedOneMore(host: nat -> Answer, three: bool, clearable: bool, n: nat, cleared: bool)
    requires RetriedSoFar(host, three, clearable, n, cleared)
    ensures Retries(host, three, clearable, n) <==>
            (host(n).Denied? && clearable && !cleared) || (host(n).Rejected? && three && !RejectedBefore(host, n))
    ensures if Retries(host, three, clearable, n)
            then RetriedSoFar(host, three, clearable, n + 1, cleared || host(n).Denied?)
            else SendsExactly(host, three, clearable, n + 1)
  {
    BeforeNext(host, n);
  }

  lemma BeforeNext(host: nat -> Answer, n: nat)
    ensures DeniedBefore(host, n + 1) <==> DeniedBefore(host, n) || host(n).Denied?
    ensures RejectedBefore(host, n + 1) <==> RejectedBefore(host, n) || host(n).Rejected?
  {
  }

  /** The read-only bit can be cleared: the attributes are at hand, and setting them
      succeeds. */
  ghost predicate Clearable(t: Table, cached: bool, fetch: nat -> Answer, put: nat -> Answer)
    requires ValidTable(t)
  {
    (cached || Succeeds(fetch, t[Getattr])) && Succeeds(put, t[Setattr])
  }

  /** Between two requests of a delete or rename. */
  ghost predicate Retrying(base: Table, now: Table, k: Kind, host: nat -> Answer, clearable: bool, n: nat,
                           cleared: bool) {
    && Lowered(base, now, {k, Getattr, Setattr})
    && (!cleared ==> now[Getattr] == base[Getattr] && now[Setattr] == base[Setattr])
    && now[k] == (if RejectedBefore(host, n) then V1 else base[k])
    && RetriedSoFar(host, base[k].V3?, clearable, n, cleared)
  }

  lemma NothingRetried(base: Table, k: Kind, host: nat -> Answer, clearable: bool)
    requires ValidTable(base)
    ensures Retrying(base, base, k, host, clearable, 0, false)
  {
  }

  /** After the last of n requests: switches and result. */
  ghost predicate Ended(base: Table, now: Table, k: Kind, host: nat -> Answer, clearable: bool, n: nat, result: int) {
    && Lowered(base, now, {k, Getattr, Setattr})
    && SendsExactly(host, base[k].V3?, clearable, n)
    && now[k] == (if RejectedBefore(host, n - 1) then V1 else base[k])
    && (result == 0 <==> host(n - 1).Fine?)
    && (host(n - 1).Rejected? ==> result == -EPROTO && now[k].V1?)
    && (host(n - 1).Denied? && DeniedBefore(host, n - 1) ==> result == -EACCES)
    && (host(n - 1).Failed? ==> result == ErrorOf(host(n - 1)))
  }

  class Switches {
    var current: Table

    ghost predicate Valid()
      reads this
    {
      ValidTable(current)
    }

    /** HgfsResetOps. */
    constructor ()
      ensures Valid() && forall k :: current[k] == V3
    {
      current := map k | k in KINDS :: V3;
      forall k: Kind ensures k in KINDS {
        EveryKind(k);
      }
    }

    /** The retry loop of an operation that gives up on a denial.  The switch only moves
        down, one request per step, and the last request went out in the version it
        stays at. */
    method Call(k: Kind, host: nat -> Answer) returns (result: int, requests: nat, used: Version)
      requires Valid() && !Protected(k)
      modifies this
      ensures Lowered(old(current), current, {k}) && used == current[k] && requests > 0
      ensures SteppedDown(k, old(current)[k], used, requests - 1)
      ensures forall i :: 0 <= i < requests - 1 ==> host(i).Rejected?
      ensures result == 0 <==> host(requests - 1).Fine?
      ensures host(requests - 1).Rejected? ==> result == -EPROTO && used.V1?
      ensures host(requests - 1).Denied? ==> result == -EACCES
      ensures host(requests - 1).Failed? ==> result == ErrorOf(host(requests - 1))
      ensures ThreeStep(k) ==> (result == 0 <==> Succeeds(host, old(current)[k]))
    {
      requests := 0;
      while true
        invariant Lowered(old(current), current, {k})
        invariant SteppedDown(k, old(current)[k], current[k], requests)
        invariant forall i :: 0 <= i < requests ==> host(i).Rejected?
        decreases Rank(current[k])
      {
        used := current[k];
        requests := requests + 1;
        var answer := host(requests - 1);
        var next := Fallback(k, used);
        if !answer.Rejected? || next.None? {
          if ThreeStep(k) {
            SettledSucceeds(host, old(current)[k], requests - 1);
          }
          return if answer.Fine? then 0 else ErrorOf(answer), requests, used;
        }
        LowerOne(old(current), current, {k}, k, next.value);
        current := current[k := next.value];
      }
    }

    /** HgfsClearReadOnly: the attributes, from the cache or the host, then a setattr.
        Both requests may lower their own switches. */
    method ClearReadOnly(cached: bool, fetch: nat -> Answer, put: nat -> Answer) returns (result: int)
      requires Valid()
      modifies this
      ensures Lowered(old(current), current, {Getattr, Setattr})
      ensures result == 0 <==> Clearable(old(current), cached, fetch, put)
    {
      result := 0;
      if !cached {
        var r, _, _ := Call(Getattr, fetch);
        result := r;
      }
      ghost var mid := current;
      if result == 0 {
        var r, _, _ := Call(Setattr, put);
        result := r;
        LoweredTwice(old(current), mid, current, {Getattr}, {Setattr});
        assert {Getattr} + {Setattr} == {Getattr, Setattr};
      }
    }

    /** The reaction to a denial: once the bit is cleared and the request tried again,
        a second denial restores it. */
    method Deny(k: Kind, cleared: bool, cached: bool, fetch: nat -> Answer, put: nat -> Answer,
                restore: nat -> Answer, ghost base: Table)
      returns (result: int)
      requires Protected(k) && Lowered(base, current, {k, Getattr, Setattr})
      requires !cleared ==> current[Getattr] == base[Getattr] && current[Setattr] == base[Setattr]
      modifies this
      ensures Lowered(base, current, {k, Getattr, Setattr}) && current[k] == old(current[k])
      ensures cleared ==> result == -EACCES
      ensures !cleared ==> (result == 0 <==> Clearable(base, cached, fetch, put))
    {
      if cleared {
        var _, _, _ := Call(Setattr, restore);
        result := -EACCES;
      } else {
        result := ClearReadOnly(cached, fetch, put);
      }
      LoweredTwice(base, old(current), current, {k, Getattr, Setattr}, {Getattr, Setattr});
      assert {k, Getattr, Setattr} + {Getattr, Setattr} == {k, Getattr, Setattr};
    }

    /** The reaction to a version that is too new. */
    method FallToOne(k: Kind, ghost base: Table)
      requires Protected(k) && Lowered(base, current, {k, Getattr, Setattr})
      modifies this
      ensures Lowered(base, current, {k, Getattr, Setattr}) && current == old(current)[k := V1]
    {
      LowerOne(base, current, {k, Getattr, Setattr}, k, V1);
      current := current[k := V1];
    }

    /** One round of the loop below, with request n. */
    method Round(k: Kind, host: nat -> Answer, n: nat, cleared: bool, cached: bool, fetch: nat -> Answer,
                 put: nat -> Answer, restore: nat -> Answer, ghost base: Table, ghost clearable: bool)
      returns (stop: bool, result: int)
      requires Protected(k) && Retrying(base, current, k, host, clearable, n, cleared)
      requires clearable == Clearable(base, cached, fetch, put)
      modifies this
      ensures !stop ==> n < 2 && Retrying(base, current, k, host, clearable, n + 1, cleared || host(n).Denied?)
      ensures stop ==> Ended(base, current, k, host, clearable, n + 1, result)
    {
      RetriedOneMore(host, base[k].V3?, clearable, n, cleared);
      BeforeNext(host, n);
      match host(n) {
        case Fine =>
          stop, result := true, 0;
        case Denied =>
          result := Deny(k, cleared, cached, fetch, put, restore, base);
          stop := result != 0;
        case Rejected =>
          stop, result := current[k].V1?, -EPROTO;
          if !stop {
            FallToOne(k, base);
          }
        case Failed(_) =>
          stop, result := true, ErrorOf(host(n));
      }
      if !stop {
        RetriedAtMostTwo(host, base[k].V3?, clearable, n + 1, cleared || host(n).Denied?);
      }
    }

    /** The retry loop of delete and rename.  The answers decide the number of requests:
        the first denial is retried if the read-only bit can be cleared, the first
        rejection if it was in version 3, nothing else; clearing and restoring the bit
        may lower the switches of getattr and setattr. */
    method CallProtected(k: Kind, host: nat -> Answer, cached: bool, fetch: nat -> Answer,
                         put: nat -> Answer, restore: nat -> Answer)
      returns (result: int, requests: nat, used: Version)
      requires Valid() && Protected(k)
      modifies this
      ensures Ended(old(current), current, k, host, Clearable(old(current), cached, fetch, put), requests, result)
      ensures used == current[k]
    {
      ghost var base, clearable := current, Clearable(current, cached, fetch, put);
      NothingRetried(base, k, host, clearable);
      var cleared, stop := false, false;
      requests, result := 0, 0;
      while !stop
        invariant !stop ==> requests <= 2
        invariant if stop then Ended(base, current, k, host, clearable, requests, result)
                  else Retrying(base, current, k, host, clearable, requests, cleared)
        decreases !stop, 3 - requests
      {
        stop, result := Round(k, host, requests, cleared, cached, fetch, put, restore, base, clearable);
        cleared := cleared || host(requests).Denied?;
        requests := requests + 1;
      }
      used := current[k];
    }
  }

  // ---------------------------------------------------------------- interleaved

  type CallId = nat

  datatype Pc = Reading | Sent(v: Version) | Falling(v: Version) | Done

  /** A call, how many requests it has sent in each version, and whether it has
      cleared the read-only bit after a denial. */
  datatype CallState = CallState(pc: Pc, sent1: nat, sent2: nat, sent3: nat, cleared: bool)

  /** `fallen` records the calls that have reacted to a rejection of version 3. */
  datatype State = State(current: Version, calls: map<CallId, CallState>, fallen: set<CallId>)

  /** A reply that is neither a rejection nor a denial ends the call; `clears` says
      whether the read-only bit could be cleared. */
  datatype Verdict = Ends | TooNew | Denial(clears: bool)

  datatype Action = Begin(c: CallId) | ReadSwitch(c: CallId) | Reply(c: CallId, verdict: Verdict) | Fall(c: CallId)

  const INITIAL := State(V3, map[], {})

  predicate Enabled(s: State, a: Action) {
    match a
    case Begin(c) => c !in s.calls
    case ReadSwitch(c) => c in s.calls && s.calls[c].pc.Reading?
    case Reply(c, _) => c in s.calls && s.calls[c].pc.Sent?
    case Fall(c) => c in s.calls && s.calls[c].pc.Falling?
  }

  function Count(x: CallState, v: Version): CallState {
    match v
    case V1 => x.(sent1 := x.sent1 + 1)
    case V2 => x.(sent2 := x.sent2 + 1)
    case V3 => x.(sent3 := x.sent3 + 1)
  }

  function Replied(k: Kind, x: CallState, verdict: Verdict): CallState
    requires x.pc.Sent?
  {
    match verdict
    case Ends => x.(pc := Done)
    case TooNew => x.(pc := if Fallback(k, x.pc.v).Some? then Falling(x.pc.v) else Done)
    case Denial(clears) =>
      if Protected(k) && !x.cleared && clears then x.(pc := Reading, cleared := true) else x.(pc := Done)
  }

  function Apply(k: Kind, s: State, a: Action): State
    requires Enabled(s, a)
  {
    match a
    case Begin(c) => s.(calls := s.calls[c := CallState(Reading, 0, 0, 0, false)])
    case ReadSwitch(c) =>
      s.(calls := s.calls[c := Count(s.calls[c], s.current).(pc := Sent(s.current))])
    case Reply(c, verdict) => s.(calls := s.calls[c := Replied(k, s.calls[c], verdict)])
    case Fall(c) =>
      var v := s.calls[c].pc.v;
      var next := Fallback(k, v);
      s.(current := if next.Some? then next.value else v,
         calls := s.calls[c := s.calls[c].(pc := Reading)],
         fallen := if v.V3? then s.fallen + {c} else s.fallen)
  }

  function Exec(k: Kind, s: State, actions: seq<Action>): Option<State>
    decreases |actions|
  {
    if actions == [] then Some(s)
    else
      match Exec(k, s, actions[..|actions| - 1])
      case None => None
      case Some(t) =>
        var a := actions[|actions| - 1];
        if Enabled(t, a) then Some(Apply(k, t, a)) else None
  }

  /** What holds of one call, given the switch and the set of fallen calls. */
  predicate CallInv(k: Kind, current: Version, fallen: set<CallId>, c: CallId, x: CallState) {
    var extra := if x.cleared then 1 else 0;
    && (x.cleared ==> Protected(k))
    && x.sent1 <= 1 + extra && x.sent2 <= |fallen| && x.sent3 <= 1 + extra
    && (!ThreeStep(k) ==> x.sent2 == 0 && x.sent1 + x.sent3 <= 2 + extra)
    && (x.pc.Reading? ==>
          && x.sent1 <= extra
          && (!ThreeStep(k) ==> x.sent1 + x.sent3 <= 1 + extra)
          && (current.V3? ==> x.sent1 == 0 && x.sent3 <= extra)
          && (current.V2? ==> x.sent2 < |fallen|))
    && (x.pc.Sent? || x.pc.Falling? ==>
          && (x.pc.v.V3? ==> x.sent3 >= 1 && x.sent1 == 0 && c !in fallen)
          && (!x.pc.v.V3? ==> fallen != {})
          && (!x.pc.v.V1? ==> x.sent1 == 0))
    && (x.pc.Falling? ==> Fallback(k, x.pc.v).Some?)
    && (c in fallen ==> x.sent3 >= 1)
  }

  ghost predicate Inv(k: Kind, s: State) {
    && s.fallen <= s.calls.Keys
    && (s.fallen == {} <==> s.current.V3?)
    && (s.current.V2? ==> ThreeStep(k))
    && (forall c :: c in s.calls ==> CallInv(k, s.current, s.fallen, c, s.calls[c]))
  }

  /** Another call falling to `next` keeps a call's share of the invariant. */
  lemma OthersFall(k: Kind, current: Version, fallen: set<CallId>, c: CallId, d: CallId, x: CallState, v: Version)
    requires CallInv(k, current, fallen, d, x) && d != c
    requires Fallback(k, v).Some? && (v.V3? ==> c !in fallen)
    ensures CallInv(k, Fallback(k, v).value, if v.V3? then fallen + {c} else fallen, d, x)
  {
    assert v.V3? ==> |fallen + {c}| == |fallen| + 1;
  }

  lemma FallKeepsInv(k: Kind, s: State, c: CallId)
    requires Inv(k, s) && Enabled(s, Fall(c))
    ensures Inv(k, Apply(k, s, Fall(c)))
  {
    var t := Apply(k, s, Fall(c));
    var v := s.calls[c].pc.v;
    assert CallInv(k, s.current, s.fallen, c, s.calls[c]);
    forall d | d in t.calls ensures CallInv(k, t.current, t.fallen, d, t.calls[d]) {
      if d != c {
        OthersFall(k, s.current, s.fallen, c, d, s.calls[d], v);
      } else {
        assert v.V3? ==> |t.fallen| == |s.fallen| + 1;
      }
    }
  }

  lemma ReadKeepsCallInv(k: Kind, s: State, c: CallId)
    requires Inv(k, s) && Enabled(s, ReadSwitch(c))
    ensures CallInv(k, s.current, s.fallen, c, Apply(k, s, ReadSwitch(c)).calls[c])
  {
  }

  lemma ReplyKeepsCallInv(k: Kind, current: Version, fallen: set<CallId>, c: CallId, x: CallState, verdict: Verdict)
    requires CallInv(k, current, fallen, c, x) && x.pc.Sent?
    requires (fallen == {} <==> current.V3?) && (current.V2? ==> ThreeStep(k))
    ensures CallInv(k, current, fallen, c, Replied(k, x, verdict))
  {
  }

  lemma StepKeepsInv(k: Kind, s: State, a: Action)
    requires Inv(k, s) && Enabled(s, a)
    ensures Inv(k, Apply(k, s, a))
  {
    match a
    case Begin(c) =>
    case ReadSwitch(c) => ReadKeepsCallInv(k, s, c);
    case Reply(c, verdict) => ReplyKeepsCallInv(k, s.current, s.fallen, c, s.calls[c], verdict);
    case Fall(c) => FallKeepsInv(k, s, c);
  }

  lemma {:induction false} EveryRunKeepsInv(k: Kind, actions: seq<Action>)
    requires Exec(k, INITIAL, actions).Some?
    ensures Inv(k, Exec(k, INITIAL, actions).value)
    decreases |actions|
  {
    if actions != [] {
      var n := |actions| - 1;
      EveryRunKeepsInv(k, actions[..n]);
      StepKeepsInv(k, Exec(k, INITIAL, actions[..n]).value, actions[n]);
    }
  }

  /** Among n calls, in every interleaving, no call sends more than n + 2 requests of
      a three-version kind: three when it runs alone.  Deletes and renames never send
      more than three, other kinds without a version 2 never more than two. */
  lemma RequestsBounded(k: Kind, actions: seq<Action>, c: CallId)
    requires Exec(k, INITIAL, actions).Some?
    requires c in Exec(k, INITIAL, actions).value.calls
    ensures var s := Exec(k, INITIAL, actions).value;
            var x := s.calls[c];
            x.sent1 + x.sent2 + x.sent3 <=
              if ThreeStep(k) then |s.calls| + 2 else if Protected(k) then 3 else 2
  {
    EveryRunKeepsInv(k, actions);
    var s := Exec(k, INITIAL, actions).value;
    SubsetSize(s.fallen, s.calls.Keys);
  }

  lemma SubsetSize(a: set<CallId>, b: set<CallId>)
    requires a <= b
    ensures |a| <= |b|
  {
    assert b == a + (b - a);
  }

  // ------------------------------------------- calls in flight when version 3 is left

  /** The calls that may still react to a rejection of version 3. */
  function InFlight(s: State): set<CallId> {
    set c | c in s.calls && (s.calls[c].pc == Sent(V3) || s.calls[c].pc == Falling(V3))
  }

  /** The version 2 requests a call has sent or can send before another call falls from 3. */
  function Allowance(s: State, c: CallId): nat {
    if c !in s.calls then 1
    else s.calls[c].sent2 + if s.calls[c].pc.Reading? && s.current.V2? then 1 else 0
  }

  /** How many calls were in flight when the switch left version 3; 0 if it has not. */
  function FlightAtLeave(k: Kind, actions: seq<Action>): nat
    requires Exec(k, INITIAL, actions).Some?
    decreases |actions|
  {
    if actions == [] then 0
    else
      var n := |actions| - 1;
      var s, t := Exec(k, INITIAL, actions[..n]).value, Exec(k, INITIAL, actions).value;
      if s.current.V3? && !t.current.V3? then |InFlight(s)| else FlightAtLeave(k, actions[..n])
  }

  predicate FallsFromThree(s: State, a: Action)
    requires Enabled(s, a)
  {
    a.Fall? && s.calls[a.c].pc.v.V3?
  }

  lemma FlightShrinks(k: Kind, s: State, a: Action)
    requires Enabled(s, a) && !s.current.V3?
    ensures |InFlight(Apply(k, s, a))| + (if FallsFromThree(s, a) then 1 else 0) <= |InFlight(s)|
  {
    var t := Apply(k, s, a);
    if FallsFromThree(s, a) {
      assert InFlight(t) == InFlight(s) - {a.c};
    } else {
      SubsetSize(InFlight(t), InFlight(s));
    }
  }

  lemma AllowanceGrowth(k: Kind, s: State, a: Action, c: CallId)
    requires Enabled(s, a) && ThreeStep(k)
    requires !s.current.V3?
    ensures Allowance(Apply(k, s, a), c) <= Allowance(s, c) + if FallsFromThree(s, a) then 1 else 0
  {
    var t := Apply(k, s, a);
    assert c != a.c ==> (c in t.calls <==> c in s.calls) && (c in s.calls ==> t.calls[c] == s.calls[c]);
  }

  /** Every further version 2 request uses up a call in flight. */
  lemma StepSpends(k: Kind, s: State, a: Action, c: CallId)
    requires Enabled(s, a) && ThreeStep(k) && !s.current.V3?
    ensures Allowance(Apply(k, s, a), c) + |InFlight(Apply(k, s, a))| <= Allowance(s, c) + |InFlight(s)|
  {
    FlightShrinks(k, s, a);
    AllowanceGrowth(k, s, a, c);
  }

  lemma LeaveSpends(k: Kind, s: State, a: Action, c: CallId)
    requires Inv(k, s) && Enabled(s, a) && ThreeStep(k) && s.current.V3? && !Apply(k, s, a).current.V3?
    ensures Allowance(Apply(k, s, a), c) + |InFlight(Apply(k, s, a))| <= |InFlight(s)|
  {
    var t := Apply(k, s, a);
    assert CallInv(k, s.current, s.fallen, a.c, s.calls[a.c]);
    assert a.c in InFlight(s) && InFlight(t) == InFlight(s) - {a.c};
    if c in s.calls {
      assert CallInv(k, s.current, s.fallen, c, s.calls[c]);
    }
  }

  lemma {:induction false} AllowanceBounded(k: Kind, actions: seq<Action>, c: CallId)
    requires Exec(k, INITIAL, actions).Some? && ThreeStep(k)
    ensures var s := Exec(k, INITIAL, actions).value;
            !s.current.V3? ==> Allowance(s, c) + |InFlight(s)| <= FlightAtLeave(k, actions)
    decreases |actions|
  {
    if actions != [] {
      var n := |actions| - 1;
      var s := Exec(k, INITIAL, actions[..n]).value;
      AllowanceBounded(k, actions[..n], c);
      EveryRunKeepsInv(k, actions[..n]);
      if !Exec(k, INITIAL, actions).value.current.V3? {
        if s.current.V3? {
          LeaveSpends(k, s, actions[n], c);
        } else {
          StepSpends(k, s, actions[n], c);
        }
      }
    }
  }

  /** In every interleaving a call of a three-version kind sends at most two requests
      more than there were calls in flight when the switch left version 3, however many
      calls ran before or after. */
  lemma FlightBoundsRequests(k: Kind, actions: seq<Action>, c: CallId)
    requires Exec(k, INITIAL, actions).Some? && ThreeStep(k)
    requires c in Exec(k, INITIAL, actions).value.calls
    ensures var x := Exec(k, INITIAL, actions).value.calls[c];
            && x.sent2 <= FlightAtLeave(k, actions)
            && x.sent1 + x.sent2 + x.sent3 <= FlightAtLeave(k, actions) + 2
  {
    EveryRunKeepsInv(k, actions);
    AllowanceBounded(k, actions, c);
    var s := Exec(k, INITIAL, actions).value;
    assert CallInv(k, s.current, s.fallen, c, s.calls[c]);
  }

  /** One more action at the end of a run. */
  lemma Go(k: Kind, s: State, actions: seq<Action>, a: Action) returns (t: State, actions': seq<Action>)
    requires Exec(k, INITIAL, actions) == Some(s) && Enabled(s, a)
    ensures t == Apply(k, s, a) && actions' == actions + [a] && Exec(k, INITIAL, actions') == Some(t)
    ensures FlightAtLeave(k, actions') ==
            if s.current.V3? && !t.current.V3? then |InFlight(s)| else FlightAtLeave(k, actions)
  {
    t, actions' := Do(k, s, actions, a);
    assert actions'[..|actions|] == actions;
  }

  ghost predicate AllFalling(s: State, lo: nat, n: nat) {
    forall c :: lo <= c < n ==> c in s.calls && s.calls[c] == CallState(Falling(V3), 0, 0, 1, false)
  }

  /** A new call sends version 3 and is rejected. */
  lemma OneRejected(k: Kind, s0: State, actions0: seq<Action>, c: CallId)
    returns (s: State, actions: seq<Action>)
    requires ThreeStep(k)
    requires Exec(k, INITIAL, actions0) == Some(s0) && s0.current.V3? && c !in s0.calls
    ensures Exec(k, INITIAL, actions) == Some(s) && s.current.V3?
    ensures s.calls == s0.calls[c := CallState(Falling(V3), 0, 0, 1, false)]
  {
    s, actions := Go(k, s0, actions0, Begin(c));
    s, actions := Go(k, s, actions, ReadSwitch(c));
    s, actions := Go(k, s, actions, Reply(c, TooNew));
  }

  /** n calls, all rejected in version 3, none of which has reacted. */
  lemma {:induction false} NRejected(k: Kind, n: nat) returns (s: State, actions: seq<Action>)
    requires ThreeStep(k)
    ensures Exec(k, INITIAL, actions) == Some(s) && s.current.V3?
    ensures AllFalling(s, 0, n) && (forall c :: c in s.calls ==> c < n) && |InFlight(s)| == n
  {
    if n == 0 {
      s, actions := INITIAL, [];
    } else {
      var s0;
      s0, actions := NRejected(k, n - 1);
      s, actions := OneRejected(k, s0, actions, n - 1);
      assert InFlight(s) == InFlight(s0) + {n - 1};
    }
  }

  /** Call d falls from version 3, and call 0 sends version 2 once more and is rejected. */
  lemma OneMore(k: Kind, s0: State, actions0: seq<Action>, d: CallId, sent: nat)
    returns (s: State, actions: seq<Action>)
    requires Exec(k, INITIAL, actions0) == Some(s0) && ThreeStep(k)
    requires d in s0.calls && s0.calls[d] == CallState(Falling(V3), 0, 0, 1, false)
    requires d != 0 ==> 0 in s0.calls && s0.calls[0] == CallState(Reading, 0, sent, 1, false)
    requires d == 0 ==> sent == 0
    ensures Exec(k, INITIAL, actions) == Some(s) && s.current == V1
    ensures FlightAtLeave(k, actions) == if s0.current.V3? then |InFlight(s0)| else FlightAtLeave(k, actions0)
    ensures 0 in s.calls && s.calls[0] == CallState(Reading, 0, sent + 1, 1, false)
    ensures forall c :: c in s0.calls && c != d && c != 0 ==> c in s.calls && s.calls[c] == s0.calls[c]
  {
    s, actions := Go(k, s0, actions0, Fall(d));
    s, actions := Go(k, s, actions, ReadSwitch(0));
    s, actions := Go(k, s, actions, Reply(0, TooNew));
    s, actions := Go(k, s, actions, Fall(0));
  }

  lemma {:induction false} ManyMore(k: Kind, n: nat, i: nat) returns (s: State, actions: seq<Action>)
    requires ThreeStep(k) && 1 <= i <= n
    ensures Exec(k, INITIAL, actions) == Some(s) && s.current == V1 && FlightAtLeave(k, actions) == n
    ensures 0 in s.calls && s.calls[0] == CallState(Reading, 0, i, 1, false) && AllFalling(s, i, n)
  {
    if i == 1 {
      s, actions := NRejected(k, n);
      s, actions := OneMore(k, s, actions, 0, 0);
    } else {
      s, actions := ManyMore(k, n, i - 1);
      s, actions := OneMore(k, s, actions, i - 1, i - 1);
    }
  }

  /** The bound is reached for every number of calls in flight. */
  lemma FlightBoundReached(k: Kind, n: nat) returns (actions: seq<Action>)
    requires ThreeStep(k) && n >= 1
    ensures Exec(k, INITIAL, actions).Some? && FlightAtLeave(k, actions) == n
    ensures var s := Exec(k, INITIAL, actions).value;
            0 in s.calls && s.calls[0].sent2 == n && s.calls[0].sent1 + s.calls[0].sent2 + s.calls[0].sent3 == n + 2
  {
    var s;
    s, actions := ManyMore(k, n, n);
    s, actions := Go(k, s, actions, ReadSwitch(0));
  }

  // ------------------------------------------------------------- when the switch rises

  /** A call reacts to a rejection of version 3 when the switch is already at 1. */
  predicate LateFall(k: Kind, s: State, a: Action) {
    a.Fall? && ThreeStep(k) && a.c in s.calls && s.calls[a.c].pc == Falling(V3) && s.current.V1?
  }

  /** In every run a step raises the switch exactly if it is such a late reaction. */
  lemma RisesIffLate(k: Kind, actions: seq<Action>, a: Action)
    requires Exec(k, INITIAL, actions).Some? && Enabled(Exec(k, INITIAL, actions).value, a)
    ensures var s := Exec(k, INITIAL, actions).value;
            Rank(Apply(k, s, a).current) > Rank(s.current) <==> LateFall(k, s, a)
  {
    EveryRunKeepsInv(k, actions);
    var s := Exec(k, INITIAL, actions).value;
    if a.Fall? {
      assert CallInv(k, s.current, s.fallen, a.c, s.calls[a.c]);
    }
  }

  /** No late reaction from position m on. */
  ghost predicate NoneLate(k: Kind, actions: seq<Action>, m: nat)
    requires Exec(k, INITIAL, actions).Some?
    decreases |actions|
  {
    |actions| > m ==>
      var n := |actions| - 1;
      NoneLate(k, actions[..n], m) && !LateFall(k, Exec(k, INITIAL, actions[..n]).value, actions[n])
  }

  /** Over any stretch of any run without a late reaction the switch only moves down. */
  lemma {:induction false} OnlyMovesDown(k: Kind, actions: seq<Action>, m: nat)
    requires Exec(k, INITIAL, actions).Some? && m <= |actions| && NoneLate(k, actions, m)
    ensures Exec(k, INITIAL, actions[..m]).Some?
    ensures Rank(Exec(k, INITIAL, actions).value.current) <= Rank(Exec(k, INITIAL, actions[..m]).value.current)
    decreases |actions|
  {
    if m == |actions| {
      assert actions[..m] == actions;
    } else {
      var n := |actions| - 1;
      OnlyMovesDown(k, actions[..n], m);
      assert actions[..n][..m] == actions[..m];
      RisesIffLate(k, actions[..n], actions[n]);
    }
  }

  /** A rejection of version 3, once recorded, is never forgotten. */
  lemma {:induction false} NeverBackToThree(k: Kind, actions: seq<Action>, more: seq<Action>)
    requires Exec(k, INITIAL, actions + more).Some?
    ensures Exec(k, INITIAL, actions).Some?
    ensures !Exec(k, INITIAL, actions).value.current.V3? ==> !Exec(k, INITIAL, actions + more).value.current.V3?
    decreases |more|
  {
    if more == [] {
      assert actions + more == actions;
    } else {
      var n := |more| - 1;
      assert (actions + more)[..|actions + more| - 1] == actions + more[..n];
      NeverBackToThree(k, actions, more[..n]);
      EveryRunKeepsInv(k, actions + more[..n]);
    }
  }

  lemma ExecSnoc(k: Kind, actions: seq<Action>, s: State, a: Action)
    requires Exec(k, INITIAL, actions) == Some(s) && Enabled(s, a)
    ensures Exec(k, INITIAL, actions + [a]) == Some(Apply(k, s, a))
  {
    assert (actions + [a])[..|actions|] == actions;
  }

  /** Two calls, both answered "protocol error" in version 3, neither reacting yet. */
  lemma BothRejected(k: Kind) returns (s: State, actions: seq<Action>)
    ensures Exec(k, INITIAL, actions) == Some(s)
    ensures 0 in s.calls && s.calls[0] == CallState(Falling(V3), 0, 0, 1, false)
    ensures 1 in s.calls && s.calls[1] == CallState(Falling(V3), 0, 0, 1, false)
  {
    s, actions := Do(k, INITIAL, [], Begin(0));
    s, actions := Do(k, s, actions, Begin(1));
    s, actions := Do(k, s, actions, ReadSwitch(0));
    s, actions := Do(k, s, actions, ReadSwitch(1));
    s, actions := Do(k, s, actions, Reply(0, TooNew));
    s, actions := Do(k, s, actions, Reply(1, TooNew));
  }

  /** The switch can move up again: of two calls of a three-version kind, both answered
      "protocol error", the one that reacts late to version 3 undoes the other's fall
      to version 1, and the other then sends version 2 a second time. */
  lemma LateReactionRaisesSwitch(k: Kind) returns (before: seq<Action>, after: seq<Action>)
    requires ThreeStep(k)
    ensures Exec(k, INITIAL, before).Some? && Exec(k, INITIAL, before).value.current == V1
    ensures after == before + [Fall(1), ReadSwitch(0)]
    ensures Exec(k, INITIAL, after).Some? && Exec(k, INITIAL, after).value.current == V2
    ensures 0 in Exec(k, INITIAL, after).value.calls && Exec(k, INITIAL, after).value.calls[0].sent2 == 2
  {
    var s;
    s, before := BothRejected(k);
    s, before := Do(k, s, before, Fall(0));
    s, before := Do(k, s, before, ReadSwitch(0));
    s, before := Do(k, s, before, Reply(0, TooNew));
    s, before := Do(k, s, before, Fall(0));
    after := before;
    s, after := Do(k, s, after, Fall(1));
    s, after := Do(k, s, after, ReadSwitch(0));
  }

  /** One call that has sent version 3. */
  lemma Started(k: Kind) returns (s: State, actions: seq<Action>)
    ensures Exec(k, INITIAL, actions) == Some(s) && s.current == V3
    ensures 0 in s.calls && s.calls[0] == CallState(Sent(V3), 0, 0, 1, false)
  {
    s, actions := Do(k, INITIAL, [], Begin(0));
    s, actions := Do(k, s, actions, ReadSwitch(0));
  }

  /** The same call once version 3 was rejected and it has moved the switch. */
  lemma FellToOne(k: Kind) returns (s: State, actions: seq<Action>)
    requires Protected(k)
    ensures Exec(k, INITIAL, actions) == Some(s) && s.current == V1
    ensures 0 in s.calls && s.calls[0] == CallState(Reading, 0, 0, 1, false)
  {
    s, actions := Started(k);
    s, actions := Do(k, s, actions, Reply(0, TooNew));
    s, actions := Do(k, s, actions, Fall(0));
  }

  /** A delete or rename sends three requests when version 3 is rejected and then
      version 1 denied. */
  lemma ThreeRequestsReached(k: Kind) returns (actions: seq<Action>)
    requires Protected(k)
    ensures var s := Exec(k, INITIAL, actions);
            s.Some? && 0 in s.value.calls && s.value.calls[0].sent3 == 1 && s.value.calls[0].sent1 == 2
  {
    var s;
    s, actions := FellToOne(k);
    s, actions := Do(k, s, actions, ReadSwitch(0));
    s, actions := Do(k, s, actions, Reply(0, Denial(true)));
    s, actions := Do(k, s, actions, ReadSwitch(0));
  }

  /** Denied first, it sends version 3 twice. */
  lemma VersionThreeTwice(k: Kind) returns (actions: seq<Action>)
    requires Protected(k)
    ensures var s := Exec(k, INITIAL, actions);
            s.Some? && 0 in s.value.calls && s.value.calls[0].sent3 == 2
  {
    var s;
    s, actions := Started(k);
    s, actions := Do(k, s, actions, Reply(0, Denial(true)));
    s, actions := Do(k, s, actions, ReadSwitch(0));
  }

  lemma Do(k: Kind, s: State, actions: seq<Action>, a: Action) returns (t: State, actions': seq<Action>)
    requires Exec(k, INITIAL, actions) == Some(s) && Enabled(s, a)
    ensures t == Apply(k, s, a) && actions' == actions + [a] && Exec(k, INITIAL, actions') == Some(t)
  {
    ExecSnoc(k, actions, s, a);
    t, actions' := Apply(k, s, a), actions + [a];
  }
}
