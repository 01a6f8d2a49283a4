/**
  The guest statistics library: the version negotiation of one update, the decoding
  of the statistics, and what the getters hand out afterwards.
*/
module GuestLib {
  import opened Common

  const DATA_VERSION := 3
  const MAX_STATISTIC_ID := 38
  const V2_STATISTICS := 17
  /** Sizes of the version number, the version 2 structure and the version 3 header. */
  const VERSION_SIZE := 4
  const V2_SIZE := 669
  const V3_SIZE := 16

  const UNKNOWN_COMMAND := "Unknown command"

  datatype Error = Success | NotEnabled | Other

  datatype Stat = Stat(id: nat, valid: bool, value: nat)

  type Fields = s: seq<Stat> | |s| == V2_STATISTICS witness seq(V2_STATISTICS, i => Stat(0, false, 0))

  /** The XDR part of a version 3 reply: the announced count if it decodes, and the
      statistics that decode before the first that does not. */
  datatype Body = Body(count: Option<nat>, stats: seq<Stat>)

  datatype Reply =
    | Refused(text: string)
    | Answer(length: nat, version: nat, session: nat, fields: Fields, body: Body)

  /** The host: its reply to the i-th request of an update, asking for a version. */
  type Host = (nat, nat) -> Reply

  /** What the handle's buffer holds; Torn after a decoding that broke off. */
  datatype Data = NoData | DataV2(fields: Fields) | DataV3(stats: seq<Stat>) | Torn

  datatype Handle = Handle(version: nat, session: nat, data: Data)

  const OPENED := Handle(0, 0, NoData)

  // ---------------------------------------------------------------- negotiation

  datatype Settled = Settled(error: Error, version: nat, session: nat, reply: Reply, sent: seq<nat>)

  function Negotiate(v: nat, session: nat, host: Host, sent: seq<nat>): Settled
    requires v == 2 || v == 3
    decreases if session != 0 then 1 else 0, v
  {
    var reply := host(|sent|, v);
    if reply.Answer? then
      if session != 0 && session != reply.session then Negotiate(DATA_VERSION, 0, host, sent + [v])
      else Settled(Success, v, session, reply, sent + [v])
    else if v == 2 || reply.text == UNKNOWN_COMMAND then Settled(NotEnabled, v, session, reply, sent + [v])
    else Negotiate(2, 0, host, sent + [v])
  }

  predicate VersionOk(v: nat) {
    v == 0 || v == 2 || v == 3
  }

  function FirstVersion(v: nat): nat
    requires VersionOk(v)
  {
    if v == 0 then DATA_VERSION else v
  }

  function Negotiated(h: Handle, host: Host): Settled
    requires VersionOk(h.version)
  {
    Negotiate(FirstVersion(h.version), h.session, host, [])
  }

  lemma {:induction false} NegotiateSent(v: nat, session: nat, host: Host, sent: seq<nat>)
    requires v == 2 || v == 3
    ensures var n := Negotiate(v, session, host, sent);
            && |sent| < |n.sent| <= |sent| + (if session == 0 then v - 1 else 3)
            && n.sent[..|sent|] == sent
            && (forall i :: |sent| <= i < |n.sent| ==> n.sent[i] == 2 || n.sent[i] == 3)
    decreases if session != 0 then 1 else 0, v
  {
    var reply := host(|sent|, v);
    var n := Negotiate(v, session, host, sent);
    if reply.Answer? && session != 0 && session != reply.session {
      NegotiateSent(DATA_VERSION, 0, host, sent + [v]);
      assert n.sent[|sent|] == (sent + [v])[|sent|] && n.sent[..|sent|] == (sent + [v])[..|sent|];
    } else if reply.Refused? && v == 3 && reply.text != UNKNOWN_COMMAND {
      NegotiateSent(2, 0, host, sent + [v]);
      assert n.sent[|sent|] == (sent + [v])[|sent|] && n.sent[..|sent|] == (sent + [v])[..|sent|];
    }
  }

  lemma {:induction false} NegotiateSettles(v: nat, session: nat, host: Host, sent: seq<nat>)
    requires v == 2 || v == 3
    ensures var n := Negotiate(v, session, host, sent);
            && n.sent != [] && n.sent[|n.sent| - 1] == n.version
            && n.reply == host(|n.sent| - 1, n.version)
            && (n.error == Success <==> n.reply.Answer?) && (n.error == NotEnabled <==> n.reply.Refused?)
            && (n.error == Success ==> n.session == 0 || n.session == n.reply.session)
    decreases if session != 0 then 1 else 0, v
  {
    var reply := host(|sent|, v);
    if reply.Answer? && session != 0 && session != reply.session {
      NegotiateSettles(DATA_VERSION, 0, host, sent + [v]);
    } else if reply.Refused? && v == 3 && reply.text != UNKNOWN_COMMAND {
      NegotiateSettles(2, 0, host, sent + [v]);
    }
  }

  /** Against any host an update sends at most three requests, at most two when the
      handle carries no session; it asks only for versions 2 and 3, and what it
      settles on is the reply to its last request. */
  lemma NegotiationBounded(h: Handle, host: Host)
    requires VersionOk(h.version)
    ensures var n := Negotiated(h, host);
            && 1 <= |n.sent| <= (if h.session == 0 then 2 else 3)
            && (forall i :: 0 <= i < |n.sent| ==> n.sent[i] == 2 || n.sent[i] == 3)
            && n.sent[|n.sent| - 1] == n.version
            && n.reply == host(|n.sent| - 1, n.version)
            && (n.error == Success <==> n.reply.Answer?) && (n.error == NotEnabled <==> n.reply.Refused?)
            && (n.error == Success ==> n.session == 0 || n.session == n.reply.session)
  {
    NegotiateSent(FirstVersion(h.version), h.session, host, []);
    NegotiateSettles(FirstVersion(h.version), h.session, host, []);
  }

  /** A host whose replies depend only on the version asked for, all in one session. */
  ghost predicate Steady(host: Host, session: nat) {
    && (forall i, v :: host(i, v) == host(0, v))
    && (forall v :: host(0, v).Answer? ==> host(0, v).session == session)
  }

  lemma FreshSettles(v: nat, host: Host, session: nat, sent: seq<nat>)
    requires (v == 2 || v == 3) && Steady(host, session)
    ensures var n := Negotiate(v, 0, host, sent);
            var three, two := host(0, 3), host(0, 2);
            && ((n.error == Success && n.version == 3) <==> (v == 3 && three.Answer?))
            && ((n.error == Success && n.version == 2) <==>
                (two.Answer? && (v == 3 ==> three.Refused? && three.text != UNKNOWN_COMMAND)))
  {
    assert host(|sent|, v) == host(0, v);
    assert host(|sent + [v]|, 2) == host(0, 2);
  }

  /** Against a steady host the negotiation ends on the highest version the host
      accepts exactly when it starts at 3 or is sent back there, and 3 is not
      refused as an unknown command: a handle that once settled on 2 stays on 2. */
  lemma SettlesOnHighest(h: Handle, host: Host, session: nat)
    requires VersionOk(h.version) && Steady(host, session)
    ensures var n := Negotiated(h, host);
            var three, two := host(0, 3), host(0, 2);
            var tries3 := h.version != 2 || (two.Answer? && h.session != 0 && h.session != session);
            && ((n.error == Success && n.version == 3) <==> (tries3 && three.Answer?))
            && ((n.error == Success && n.version == 2) <==>
                (two.Answer? && (tries3 ==> three.Refused? && three.text != UNKNOWN_COMMAND)))
  {
    var v := FirstVersion(h.version);
    FreshSettles(v, host, session, []);
    FreshSettles(DATA_VERSION, host, session, [] + [v]);
    FreshSettles(2, host, session, [] + [v]);
  }

  // ------------------------------------------------------------------- decoding

  function Announced(count: nat): nat {
    if count >= MAX_STATISTIC_ID then MAX_STATISTIC_ID - 1 else count
  }

  /** The first k statistics decode and carry the identifiers 1, 2, ..., k. */
  predicate Ordered(stats: seq<Stat>, k: nat) {
    k <= |stats| && forall i :: 0 <= i < k ==> stats[i].id == i + 1
  }

  predicate WellFormed(r: Reply, v: nat) {
    && r.Answer? && r.version == v
    && if v == 2 then r.length == V2_SIZE else r.length >= V3_SIZE
  }

  datatype Updated = Updated(handle: Handle, error: Error)

  /** One update as a function of the handle and the host. */
  function Update(h: Handle, host: Host): Updated
    requires VersionOk(h.version)
  {
    var n := Negotiated(h, host);
    if n.error != Success then Updated(h.(session := 0), n.error)
    else if !WellFormed(n.reply, n.version) then Updated(h.(session := 0), Other)
    else if n.version == 2 then Updated(Handle(2, n.reply.session, DataV2(n.reply.fields)), Success)
    else if n.reply.body.count.None? then Updated(Handle(3, n.reply.session, h.data), Success)
    else
      var k := Announced(n.reply.body.count.value);
      if Ordered(n.reply.body.stats, k) then
        Updated(Handle(3, n.reply.session, DataV3(n.reply.body.stats[..k])), Success)
      else Updated(Handle(3, 0, Torn), Success)
  }

  datatype Outcome = Value(value: nat) | NoInfo | NotAvailable | Unsupported | Undefined

  function FromStat(s: Stat): Outcome {
    if s.valid then Value(s.value) else NotAvailable
  }

  /** The version 3 accessor over whatever the buffer holds.  Version 2 data starts
      with its version number, which the accessor takes for the count. */
  function ReadV3(d: Data, id: nat): Outcome
    requires id >= 1
  {
    match d
    case DataV3(stats) => if id - 1 >= |stats| then Unsupported else FromStat(stats[id - 1])
    case DataV2(_) => if id - 1 >= 2 then Unsupported else Undefined
    case _ => Undefined
  }

  function Get(h: Handle, id: nat): Outcome
    requires id >= 1
  {
    if h.session == 0 then NoInfo
    else if h.version == 2 && id <= V2_STATISTICS then
      if h.data.DataV2? then FromStat(h.data.fields[id - 1]) else Undefined
    else ReadV3(h.data, id)
  }

  /** How many statistics a reply is good for: all 17 of version 2, and of version 3 as
      many as it announces, 37 at most. */
  function Carried(r: Reply): nat
    requires r.Answer?
  {
    if r.version != 3 then 17
    else if r.body.count.None? then 0
    else if r.body.count.value > 37 then 37
    else r.body.count.value
  }

  /** The reply holds a statistic under that identifier. */
  predicate HoldsStat(r: Reply, id: nat, valid: bool, value: nat)
    requires r.Answer?
  {
    && 1 <= id <= Carried(r)
    && if r.version != 3 then r.fields[id - 1].valid == valid && r.fields[id - 1].value == value
       else id <= |r.body.stats| && r.body.stats[id - 1] == Stat(id, valid, value)
  }

  /** What a reply says about a statistic, read off the reply alone. */
  ghost predicate Says(r: Reply, id: nat, o: Outcome)
    requires r.Answer?
  {
    match o
    case Value(x) => HoldsStat(r, id, true, x)
    case NotAvailable => exists x: nat :: HoldsStat(r, id, false, x)
    case Unsupported => id > Carried(r)
    case _ => false
  }

  lemma HoldsOne(r: Reply, id: nat)
    requires r.Answer? && 1 <= id <= Carried(r)
    requires r.version == 3 ==> Ordered(r.body.stats, Carried(r))
    ensures var s := if r.version == 3 then r.body.stats[id - 1] else r.fields[id - 1];
            forall valid, x :: HoldsStat(r, id, valid, x) <==> valid == s.valid && x == s.value
  {
    if r.version == 3 {
      var s := r.body.stats[id - 1];
      assert s == Stat(id, s.valid, s.value);
    }
  }

  /** After an update that leaves a session, a getter hands out x iff the last reply holds
      a valid statistic of value x under that identifier, reports it as not available iff
      the reply holds one that is not valid, and as unsupported iff the identifier is
      beyond what the reply carries; except when the count of a version 3 reply does not
      decode: then it reads the buffer as the previous updates left it. */
  lemma GettersReadLastReply(h: Handle, host: Host, id: nat, o: Outcome)
    requires VersionOk(h.version) && id >= 1
    requires Update(h, host).handle.session != 0
    ensures var u := Update(h, host);
            var r := Negotiated(h, host).reply;
            && u.error == Success && r.Answer? && u.handle.version == r.version && u.handle.session == r.session
            && (r.version == 2 || r.version == 3)
            && if CountIsBad(r) then Get(u.handle, id) == ReadV3(h.data, id)
               else Get(u.handle, id) == o <==> Says(r, id, o)
  {
    NegotiationBounded(h, host);
    var r := Negotiated(h, host).reply;
    if !CountIsBad(r) && id <= Carried(r) {
      HoldsOne(r, id);
      var s := if r.version == 3 then r.body.stats[id - 1] else r.fields[id - 1];
      assert HoldsStat(r, id, s.valid, s.value);
    }
  }

  predicate CountIsBad(r: Reply) {
    r.Answer? && r.version == 3 && r.body.count.None?
  }

  /** The first statistics of the reply carry the identifiers 1, 2, ... in order, as many
      of them as it is good for. */
  predicate InOrder(r: Reply)
    requires r.Answer?
  {
    Carried(r) <= |r.body.stats| && forall i :: 0 <= i < Carried(r) ==> r.body.stats[i].id == i + 1
  }

  /** How an update ends: it fails if the host refused, or if the answer is not of the
      version asked for or not of its size (669 bytes, or at least 16 of version 3), and
      then no getter has any information; otherwise it reports success, and the session is
      that of the reply unless the statistics broke off or came out of order. */
  lemma UpdateOutcome(h: Handle, host: Host)
    requires VersionOk(h.version)
    ensures var u := Update(h, host);
            var n := Negotiated(h, host);
            var r := n.reply;
            && (u.error == NotEnabled <==> r.Refused?)
            && (u.error == Success <==>
                r.Answer? && r.version == n.version && if r.version == 2 then r.length == 669 else r.length >= 16)
            && (u.error != Success ==> u.handle.session == 0)
            && (u.error == Success ==>
                  u.handle.session ==
                  if r.version == 3 && r.body.count.Some? && !InOrder(r) then 0 else r.session)
  {
    NegotiationBounded(h, host);
  }

  /** An update reports success and yet leaves no session exactly when the host sent
      session 0 or the statistics broke off or came out of order. */
  lemma SuccessWithoutInfo(h: Handle, host: Host)
    requires VersionOk(h.version)
    ensures var u := Update(h, host);
            var n := Negotiated(h, host);
            var r := n.reply;
            (u.error == Success && u.handle.session == 0) <==>
            (n.error == Success && WellFormed(r, n.version) &&
             (r.session == 0 || (n.version == 3 && r.body.count.Some? && !InOrder(r))))
  {
    UpdateOutcome(h, host);
    NegotiationBounded(h, host);
  }

  // ----------------------------------------------------------------------- runs

  predicate Inv(h: Handle) {
    && VersionOk(h.version)
    && (h.version == 0 ==> h.session == 0 && h.data == NoData)
    && (h.session != 0 && h.version == 2 ==> h.data.DataV2?)
    && (h.data.DataV3? ==> |h.data.stats| < MAX_STATISTIC_ID && Ordered(h.data.stats, |h.data.stats|))
  }

  lemma UpdateKeepsInv(h: Handle, host: Host)
    requires Inv(h)
    ensures Inv(Update(h, host).handle)
  {
    NegotiationBounded(h, host);
  }

  function After(hosts: seq<Host>): (h: Handle)
    ensures Inv(h)
  {
    if hosts == [] then OPENED
    else
      var before := After(hosts[..|hosts| - 1]);
      UpdateKeepsInv(before, hosts[|hosts| - 1]);
      Update(before, hosts[|hosts| - 1]).handle
  }

  lemma UpdateIsSound(h: Handle, host: Host, id: nat)
    requires Inv(h) && id >= 1
    ensures var r := Negotiated(h, host).reply;
            var g := Get(Update(h, host).handle, id);
            || CountIsBad(r)
            || g == NoInfo
            || (r.Answer? && Says(r, id, g))
  {
    if Update(h, host).handle.session != 0 {
      GettersReadLastReply(h, host, id, Get(Update(h, host).handle, id));
    }
  }

  /** In every run of updates on a fresh handle, whatever the hosts reply, each getter
      either has no information or hands out what the last reply says under that
      identifier, unless the count of that reply does not decode. */
  lemma EveryRunIsSound(hosts: seq<Host>, host: Host, id: nat)
    requires id >= 1
    ensures var r := Negotiated(After(hosts), host).reply;
            var g := Get(After(hosts + [host]), id);
            || CountIsBad(r)
            || g == NoInfo
            || (r.Answer? && Says(r, id, g))
  {
    assert (hosts + [host])[..|hosts|] == hosts;
    UpdateIsSound(After(hosts), host, id);
  }

  /** A run in which the getters hand out a value no longer sent: a good update, then
      a reply in the same session whose count does not decode. */
  lemma StaleAfterBadCount(value: nat, session: nat)
    requires session != 0
    ensures var good := Answer(V3_SIZE + 20, 3, session, NO_FIELDS, Body(Some(1), [Stat(1, true, value)]));
            var bad := Answer(V3_SIZE, 3, session, NO_FIELDS, Body(None, []));
            var hosts: seq<Host> := [(i, v) => good, (i, v) => bad];
            && Get(After(hosts), 1) == Value(value)
            && Update(After(hosts[..1]), hosts[1]).error == Success
  {
    var good := Answer(V3_SIZE + 20, 3, session, NO_FIELDS, Body(Some(1), [Stat(1, true, value)]));
    var bad := Answer(V3_SIZE, 3, session, NO_FIELDS, Body(None, []));
    var first: Host := (i, v) => good;
    var second: Host := (i, v) => bad;
    assert [first][..0] == [];
    assert Negotiated(OPENED, first) == Settled(Success, 3, 0, good, [3]);
    assert good.body.stats[..1] == good.body.stats;
    assert After([first]) == Update(OPENED, first).handle == Handle(3, session, DataV3([Stat(1, true, value)]));
    var hosts: seq<Host> := [first, second];
    assert hosts[..1] == [first];
  }

  const NO_FIELDS: Fields := seq(V2_STATISTICS, i => Stat(0, false, 0))

  // ------------------------------------------------------------------- the code

  class GuestLibHandle {
    var version: nat
    var session: nat
    var data: Data

    ghost function Now(): Handle
      reads this
    {
      Handle(version, session, data)
    }

    constructor ()
      ensures Now() == OPENED
    {
      version, session, data := 0, 0, NoData;
    }

    /** The request loop; the branch that parses a version out of a refusal is never
        reached, because only versions 2 and 3 are ever asked for. */
    method NegotiateVersion(host: Host) returns (error: Error, hostVersion: nat, reply: Reply)
      requires VersionOk(version)
      modifies `session
      ensures var n := Negotiated(old(Now()), host);
              error == n.error && hostVersion == n.version && reply == n.reply && session == n.session
    {
      hostVersion := version;
      if hostVersion == 0 {
        hostVersion := DATA_VERSION;
      }
      var sent := [];
      while true
        invariant hostVersion == 2 || hostVersion == 3
        invariant Negotiate(hostVersion, session, host, sent) == Negotiated(old(Now()), host)
        decreases if session != 0 then 1 else 0, hostVersion
      {
        reply := host(|sent|, hostVersion);
        sent := sent + [hostVersion];
        if reply.Answer? {
          if session != 0 && session != reply.session {
            hostVersion := DATA_VERSION;
            session := 0;
            continue;
          }
          return Success, hostVersion, reply;
        }
        if hostVersion == 2 || reply.text == UNKNOWN_COMMAND {
          return NotEnabled, hostVersion, reply;
        }
        assert hostVersion == 3;
        hostVersion := 2;
        session := 0;
      }
    }

    /** Unmarshals the first k statistics into the buffer. */
    method Unmarshal(body: Body, k: nat) returns (ok: bool)
      modifies `data
      ensures ok <==> Ordered(body.stats, k)
      ensures data == if ok then DataV3(body.stats[..k]) else Torn
    {
      var count := 0;
      var stats := [];
      while count < k
        invariant count <= k
        invariant Ordered(body.stats, count) && stats == body.stats[..count]
      {
        if count >= |body.stats| {
          break;
        }
        stats := stats + [body.stats[count]];
        if body.stats[count].id != count + 1 {
          break;
        }
        count := count + 1;
      }
      ok := count >= k;
      data := if ok then DataV3(stats) else Torn;
    }

    method UpdateInfo(host: Host) returns (error: Error)
      requires VersionOk(version)
      modifies this
      ensures Updated(Now(), error) == Update(old(Now()), host)
      ensures VersionOk(version)
    {
      ghost var before := Now();
      NegotiationBounded(before, host);
      var hostVersion, reply;
      error, hostVersion, reply := NegotiateVersion(host);
      if error != Success {
        session := 0;
        return;
      }
      if reply.length < VERSION_SIZE || reply.version != hostVersion {
        session := 0;
        return Other;
      }
      if hostVersion == 2 {
        if reply.length != V2_SIZE {
          session := 0;
          return Other;
        }
        version := reply.version;
        session := reply.session;
        data := DataV2(reply.fields);
      } else {
        if reply.length < V3_SIZE {
          session := 0;
          return Other;
        }
        version := reply.version;
        session := reply.session;
        if reply.body.count.None? {
          return;
        }
        var ok := Unmarshal(reply.body, Announced(reply.body.count.value));
        if !ok {
          session := 0;
        }
      }
    }
  }
}
