/**
  The protocol session: created at start-up, lost when the host says so, and
  re-created from inside the parsing of a reply.
*/
module Session {
  import opened Common

  // ------------------------------------------------------------------- status

  const STATUS_SUCCESS := 0
  const STATUS_NO_SUCH_FILE_OR_DIR := 1
  const STATUS_INVALID_HANDLE := 2
  const STATUS_OPERATION_NOT_PERMITTED := 3
  const STATUS_FILE_EXISTS := 4
  const STATUS_NOT_DIRECTORY := 5
  const STATUS_DIR_NOT_EMPTY := 6
  const STATUS_PROTOCOL_ERROR := 7
  const STATUS_ACCESS_DENIED := 8
  const STATUS_INVALID_NAME := 9
  const STATUS_SHARING_VIOLATION := 11
  const STATUS_NO_SPACE := 12
  const STATUS_OPERATION_NOT_SUPPORTED := 13
  const STATUS_NAME_TOO_LONG := 14
  const STATUS_STALE_SESSION := 17

  /** HgfsStatusConvertToLinux; unknown codes become EIO. */
  function ToLinux(status: nat): (r: int)
    ensures r <= 0
    ensures r == 0 <==> status == STATUS_SUCCESS
    ensures r == -EPROTO <==> status == STATUS_PROTOCOL_ERROR
    ensures r == -EACCES <==> status == STATUS_ACCESS_DENIED || status == STATUS_SHARING_VIOLATION
    ensures r == -EPERM <==> status == STATUS_OPERATION_NOT_PERMITTED
    ensures r == -ENOENT <==> status == STATUS_NO_SUCH_FILE_OR_DIR || status == STATUS_INVALID_NAME
    ensures r == -EBADF <==> status == STATUS_INVALID_HANDLE
    ensures r == -EEXIST <==> status == STATUS_FILE_EXISTS
    ensures r == -ENOTDIR <==> status == STATUS_NOT_DIRECTORY
    ensures r == -ENOTEMPTY <==> status == STATUS_DIR_NOT_EMPTY
    ensures r == -ENOSPC <==> status == STATUS_NO_SPACE
    ensures r == -EOPNOTSUPP <==> status == STATUS_OPERATION_NOT_SUPPORTED
    ensures r == -ENAMETOOLONG <==> status == STATUS_NAME_TOO_LONG
    ensures status > STATUS_NAME_TOO_LONG || status == 10 ==> r == -EIO
  {
    if status == STATUS_SUCCESS then 0
    else if status == STATUS_NO_SUCH_FILE_OR_DIR || status == STATUS_INVALID_NAME then -ENOENT
    else if status == STATUS_INVALID_HANDLE then -EBADF
    else if status == STATUS_OPERATION_NOT_PERMITTED then -EPERM
    else if status == STATUS_FILE_EXISTS then -EEXIST
    else if status == STATUS_NOT_DIRECTORY then -ENOTDIR
    else if status == STATUS_DIR_NOT_EMPTY then -ENOTEMPTY
    else if status == STATUS_PROTOCOL_ERROR then -EPROTO
    else if status == STATUS_ACCESS_DENIED || status == STATUS_SHARING_VIOLATION then -EACCES
    else if status == STATUS_NO_SPACE then -ENOSPC
    else if status == STATUS_OPERATION_NOT_SUPPORTED then -EOPNOTSUPP
    else if status == STATUS_NAME_TOO_LONG then -ENAMETOOLONG
    else -EIO
  }

  // ------------------------------------------------------------------ packets

  /** sizeof (HgfsReply) and sizeof (HgfsHeader). */
  const REPLY_SIZE := 8
  const HEADER_SIZE := 52
  const OP_NEW_HEADER := 0xff
  const HEADER_VERSION := 1
  const INVALID_SESSION_ID := 0xffff_ffff_ffff_ffff

  /** A reply packet read as a new-style header.  `marker` is the second word: the
      header's "dummy" field, which is where an old-style reply keeps its status.
      `payloadId` is the session id found where the header says the payload is. */
  datatype Packet = Packet(
    size: nat, version: nat, marker: nat, packetSize: nat, headerSize: nat,
    status: nat, flags: nat, sessionId: nat, payloadId: nat)

  datatype Reply = Answer(packet: Packet) | SendError(error: int)

  /** The checks of HgfsUnpackHeader. */
  predicate HeaderOk(p: Packet) {
    && HEADER_SIZE <= p.size
    && p.marker == OP_NEW_HEADER
    && p.packetSize <= p.size
    && p.headerSize <= p.packetSize
  }

  predicate FlagsOk(p: Packet) {
    p.flags == 0 || (p.flags / 2) % 2 == 1
  }

  /** A create-session reply that establishes a session. */
  predicate Establishes(r: Reply) {
    && r.Answer?
    && r.packet.status == STATUS_SUCCESS
    && HeaderOk(r.packet) && FlagsOk(r.packet)
    && r.packet.headerSize < r.packet.packetSize
  }

  /** Success without a payload: the code dereferences a null payload pointer. */
  predicate MissesPayload(r: Reply) {
    && r.Answer?
    && r.packet.status == STATUS_SUCCESS
    && HeaderOk(r.packet) && FlagsOk(r.packet)
    && r.packet.headerSize == r.packet.packetSize
  }

  predicate SaysStale(r: Reply) {
    r.Answer? && HEADER_SIZE <= r.packet.size && r.packet.status == STATUS_STALE_SESSION
  }

  // -------------------------------------------------------------- the functions

  /** The session part of the client state; `latest` records the id of the latest
      create-session reply that established a session. */
  datatype State = State(enabled: bool, id: nat, headerVersion: nat, latest: Option<nat>, crashed: bool)

  datatype Outcome = Outcome(state: State, result: int, rest: seq<Reply>)

  function ProcessResult(s: State, p: Packet): State {
    if !HeaderOk(p) then
      s.(id := INVALID_SESSION_ID, headerVersion := HEADER_VERSION, enabled := false)
    else if !FlagsOk(p) || p.status != STATUS_SUCCESS then
      s.(id := p.sessionId, headerVersion := p.version, enabled := false)
    else if p.headerSize == p.packetSize then
      s.(crashed := true)
    else
      s.(id := p.payloadId, headerVersion := p.version, enabled := true, latest := Some(p.payloadId))
  }

  /** HgfsGetReplyStatus: the status, after re-creating a stale session. */
  function ReplyStatus(s: State, p: Packet, rest: seq<Reply>): (o: Outcome)
    ensures |o.rest| <= |rest| && o.result >= 0
    decreases |rest|, 1
  {
    if p.size < REPLY_SIZE then Outcome(s, STATUS_PROTOCOL_ERROR, rest)
    else if s.enabled && HEADER_SIZE <= p.size then
      if p.status == STATUS_STALE_SESSION then
        var created := Create(s, rest);
        Outcome(created.state, p.status, created.rest)
      else Outcome(s, p.status, rest)
    else Outcome(s.(enabled := false), p.marker, rest)
  }

  /** HgfsCreateSession, with allocation succeeding; no more replies means that the
      request could not be sent. */
  function Create(s: State, replies: seq<Reply>): (o: Outcome)
    ensures |o.rest| <= |replies|
    ensures replies != [] ==> |o.rest| < |replies|
    decreases |replies|, 0
  {
    var s1 := s.(enabled := true, headerVersion := HEADER_VERSION);
    if replies == [] then Outcome(s1.(enabled := false), -EIO, [])
    else
      match replies[0]
      case SendError(error) =>
        Outcome(s1.(enabled := false), if error < 0 then error else -EIO, replies[1..])
      case Answer(p) =>
        var o := ReplyStatus(s1, p, replies[1..]);
        var result := ToLinux(o.result);
        if o.state.crashed then Outcome(o.state, result, o.rest)
        else if result == 0 then Outcome(ProcessResult(o.state, p), 0, o.rest)
        else Outcome(o.state.(enabled := false), result, o.rest)
  }

  // ------------------------------------------------------ what creation achieves

  /** How many of the first replies say that the session is stale. */
  function LeadingStale(replies: seq<Reply>): (n: nat)
    ensures n <= |replies|
    ensures n < |replies| ==> !SaysStale(replies[n])
    ensures forall i :: 0 <= i < n ==> SaysStale(replies[i])
  {
    if replies != [] && SaysStale(replies[0]) then 1 + LeadingStale(replies[1..]) else 0
  }

  /** The reply that ends the recursion, if the host ever sends one. */
  function Deciding(replies: seq<Reply>): Option<Reply> {
    var n := LeadingStale(replies);
    if n < |replies| then Some(replies[n]) else None
  }

  /** Session creation in full.  It uses one reply more than the host repeats "stale";
      the session ends up enabled iff the very first reply establishes it, so a
      stale answer leaves it disabled even when the nested creation succeeded; and
      the recorded id is that of the deciding reply. */
  lemma {:induction false} CreateSpec(s: State, replies: seq<Reply>)
    requires !s.crashed
    ensures var o := Create(s, replies);
            var d := Deciding(replies);
            && (o.state.crashed <==> d.Some? && MissesPayload(d.value))
            && (!o.state.crashed ==> (o.state.enabled <==> replies != [] && Establishes(replies[0])))
            && (o.state.enabled && !o.state.crashed ==>
                  && o.state.id == replies[0].packet.payloadId
                  && o.state.headerVersion == replies[0].packet.version)
            && o.state.latest == (if d.Some? && Establishes(d.value) then Some(d.value.packet.payloadId) else s.latest)
            && |replies| - |o.rest| == (if d.Some? then LeadingStale(replies) + 1 else |replies|)
            && o.rest == replies[|replies| - |o.rest|..]
    decreases |replies|
  {
    var s1 := s.(enabled := true, headerVersion := HEADER_VERSION);
    if replies != [] && SaysStale(replies[0]) {
      CreateSpec(s1, replies[1..]);
    }
  }

  /** sizeof (HgfsReplyCreateSessionV4). */
  const CREATE_REPLY_SIZE := 36

  /** What the protocol asks of a reply to create-session: a whole header, and behind
      it, within the size it gives, the whole reply structure. */
  predicate WellFormed(p: Packet) {
    && p.marker == OP_NEW_HEADER
    && (p.flags == 0 || (p.flags / 2) % 2 == 1)
    && HEADER_SIZE <= p.headerSize
    && p.headerSize + CREATE_REPLY_SIZE <= p.packetSize <= p.size
  }

  predicate Grants(r: Reply) {
    r.Answer? && r.packet.status == STATUS_SUCCESS && WellFormed(r.packet)
  }

  /** Ill-formed, but past the checks: a payload that is cut short, or one that starts
      inside the header. */
  predicate SlipsThrough(r: Reply) {
    && r.Answer? && r.packet.status == STATUS_SUCCESS
    && r.packet.marker == OP_NEW_HEADER && FlagsOk(r.packet)
    && HEADER_SIZE <= r.packet.size && r.packet.packetSize <= r.packet.size
    && 0 < r.packet.packetSize - r.packet.headerSize
    && (r.packet.packetSize - r.packet.headerSize < CREATE_REPLY_SIZE || r.packet.headerSize < HEADER_SIZE)
  }

  /** A well-formed grant enables the session under the id it carries, whatever
      follows in the stream. */
  lemma GrantEnables(s: State, reply: Reply, rest: seq<Reply>)
    requires !s.crashed && Grants(reply)
    ensures var o := Create(s, [reply] + rest);
            o.state.enabled && !o.state.crashed && o.state.id == reply.packet.payloadId && o.rest == rest
  {
    CreateSpec(s, [reply] + rest);
  }

  /** Any other reply, before any stream: the session ends up enabled exactly if the
      reply slips through the checks, and the client goes down exactly if the reply, or
      the first one after a run of "stale", is a success without payload. */
  lemma BadReplyDisables(s: State, reply: Reply, rest: seq<Reply>)
    requires !s.crashed && !Grants(reply)
    ensures var o := Create(s, [reply] + rest);
            var d := if SaysStale(reply) then Deciding(rest) else Some(reply);
            && (o.state.enabled && !o.state.crashed <==> SlipsThrough(reply))
            && (o.state.crashed <==> d.Some? && MissesPayload(d.value))
  {
    var replies := [reply] + rest;
    assert replies[1..] == rest;
    CreateSpec(s, replies);
    LeadingStaleTail(reply, rest);
  }

  lemma LeadingStaleTail(reply: Reply, rest: seq<Reply>)
    ensures Deciding([reply] + rest) == if SaysStale(reply) then Deciding(rest) else Some(reply)
  {
    assert ([reply] + rest)[1..] == rest;
  }

  /** A payload of one byte enables the session. */
  lemma CutPayloadEnables(s: State, id: nat, rest: seq<Reply>)
    requires !s.crashed
    ensures var cut := Answer(Packet(53, 1, OP_NEW_HEADER, 53, 52, STATUS_SUCCESS, 2, 0, id));
            !Grants(cut) && Create(s, [cut] + rest).state.enabled
  {
    BadReplyDisables(s, Answer(Packet(53, 1, OP_NEW_HEADER, 53, 52, STATUS_SUCCESS, 2, 0, id)), rest);
  }

  /** So does a payload that overlaps the header. */
  lemma OverlappingPayloadEnables(s: State, id: nat, rest: seq<Reply>)
    requires !s.crashed
    ensures var overlap := Answer(Packet(52, 1, OP_NEW_HEADER, 1, 0, STATUS_SUCCESS, 0, 0, id));
            !Grants(overlap) && Create(s, [overlap] + rest).state.enabled
  {
    BadReplyDisables(s, Answer(Packet(52, 1, OP_NEW_HEADER, 1, 0, STATUS_SUCCESS, 0, 0, id)), rest);
  }

  // ------------------------------------------------------------------ every run

  /** HgfsDestroySession. */
  function Destroy(s: State, replies: seq<Reply>): Outcome {
    if !s.enabled then Outcome(s, 0, replies)
    else if replies == [] then Outcome(s, -EIO, [])
    else
      match replies[0]
      case SendError(error) => Outcome(s, if error < 0 then error else -EIO, replies[1..])
      case Answer(p) =>
        var o := ReplyStatus(s, p, replies[1..]);
        if !o.state.crashed && ToLinux(o.result) == 0
        then Outcome(o.state.(id := INVALID_SESSION_ID, enabled := false), 0, o.rest)
        else Outcome(o.state, ToLinux(o.result), o.rest)
  }

  /** Any other request: send it and look at the status of the answer. */
  function Request(s: State, replies: seq<Reply>): Outcome {
    if replies == [] then Outcome(s, -EIO, [])
    else
      match replies[0]
      case SendError(error) => Outcome(s, if error < 0 then error else -EIO, replies[1..])
      case Answer(p) =>
        var o := ReplyStatus(s, p, replies[1..]);
        Outcome(o.state, ToLinux(o.result), o.rest)
  }

  datatype Op = DoCreate | DoRequest | DoDestroy

  const INITIAL := State(false, 0, 0, None, false)

  /** The session after a sequence of operations against a stream of replies. */
  function After(ops: seq<Op>, replies: seq<Reply>): Outcome
    decreases |ops|
  {
    if ops == [] then Outcome(INITIAL, 0, replies)
    else
      var o := After(ops[..|ops| - 1], replies);
      if o.state.crashed then o
      else
        match ops[|ops| - 1]
        case DoCreate => Create(o.state, o.rest)
        case DoRequest => Request(o.state, o.rest)
        case DoDestroy => Destroy(o.state, o.rest)
  }

  predicate Consistent(s: State) {
    s.enabled && !s.crashed ==> s.latest == Some(s.id)
  }

  lemma StatusKeepsConsistent(s: State, p: Packet, rest: seq<Reply>)
    requires Consistent(s) && !s.crashed
    ensures Consistent(ReplyStatus(s, p, rest).state)
  {
    CreateSpec(s, rest);
  }

  /** Between operations, an enabled session carries the id of the latest reply that
      established one, in every run. */
  lemma {:induction false} EnabledCarriesLatestId(ops: seq<Op>, replies: seq<Reply>)
    ensures Consistent(After(ops, replies).state)
    decreases |ops|
  {
    if ops != [] {
      var n := |ops| - 1;
      EnabledCarriesLatestId(ops[..n], replies);
      var o := After(ops[..n], replies);
      if !o.state.crashed {
        match ops[n]
        case DoCreate => CreateSpec(o.state, o.rest);
        case _ =>
          if o.rest != [] && o.rest[0].Answer? {
            StatusKeepsConsistent(o.state, o.rest[0].packet, o.rest[1..]);
          }
      }
    }
  }

  /** A stale answer to an ordinary request: the session is usable afterwards iff the
      next reply establishes it, and that request itself still fails. */
  lemma StaleRequest(s: State, replies: seq<Reply>)
    requires s.enabled && !s.crashed && replies != [] && SaysStale(replies[0])
    ensures var o := Request(s, replies);
            && o.result == -EIO
            && (!o.state.crashed ==> (o.state.enabled <==> |replies| > 1 && Establishes(replies[1])))
  {
    CreateSpec(s, replies[1..]);
  }

  /** The status of a reply as its sender meant it: in the second word of an old-style
      reply, in the header of a new-style one, which only counts while a session is
      enabled and if all of the header has come. */
  function StatusIn(p: Packet, inSession: bool): nat {
    if p.size < REPLY_SIZE then STATUS_PROTOCOL_ERROR
    else if !inSession || p.size < HEADER_SIZE then p.marker
    else p.status
  }

  /** What a caller is told about a request, by the first reply alone. */
  function ToldBy(replies: seq<Reply>, inSession: bool): int {
    if replies == [] then -EIO
    else if replies[0].SendError? then if replies[0].error < 0 then replies[0].error else -EIO
    else ToLinux(StatusIn(replies[0].packet, inSession))
  }

  /** Any request in any state against any stream: the result is that of the first reply,
      old-style or new-style; the session stays as it was, unless an old-style reply ends
      it or a stale answer brings another one; and no further reply is used but by that. */
  lemma RequestSpec(s: State, replies: seq<Reply>)
    requires !s.crashed
    ensures var o := Request(s, replies);
            && o.result == ToldBy(replies, s.enabled)
            && (replies == [] || replies[0].SendError? || replies[0].packet.size < REPLY_SIZE ==> o.state == s)
            && (replies != [] && replies[0].Answer? && REPLY_SIZE <= replies[0].packet.size < HEADER_SIZE ==>
                  o.state == s.(enabled := false))
            && (replies != [] && replies[0].Answer? && HEADER_SIZE <= replies[0].packet.size ==>
                  (!s.enabled || replies[0].packet.status != STATUS_STALE_SESSION ==> o.state == s))
            && (replies != [] && !(s.enabled && SaysStale(replies[0])) ==> o.rest == replies[1..])
  {
  }

  /** The results of creating and destroying a session; both read the answer as a
      new-style reply. */
  lemma CreateAndDestroyResults(s: State, replies: seq<Reply>)
    requires !s.crashed
    ensures Create(s, replies).result == ToldBy(replies, true)
    ensures Destroy(s, replies).result == if s.enabled then ToldBy(replies, true) else 0
  {
    if replies != [] && SaysStale(replies[0]) {
      CreateSpec(s, replies[1..]);
      CreateSpec(s.(enabled := true, headerVersion := HEADER_VERSION), replies[1..]);
    }
  }

  /** The replies after which a destroyed session is still enabled: no reply or none
      that could be read, an error status, or "stale" and then a reply that establishes
      a new session. */
  predicate SurvivesDestroy(replies: seq<Reply>) {
    || replies == []
    || replies[0].SendError?
    || replies[0].packet.size < REPLY_SIZE
    || (HEADER_SIZE <= replies[0].packet.size &&
        if replies[0].packet.status == STATUS_STALE_SESSION then |replies| > 1 && Establishes(replies[1])
        else replies[0].packet.status != STATUS_SUCCESS)
  }

  /** Whether a session is gone after its destroy, for every stream of replies that does
      not bring the client down. */
  lemma DestroyLeavesEnabledIff(s: State, replies: seq<Reply>)
    requires s.enabled && !s.crashed && !Destroy(s, replies).state.crashed
    ensures Destroy(s, replies).state.enabled <==> SurvivesDestroy(replies)
  {
    if replies != [] && SaysStale(replies[0]) {
      CreateSpec(s, replies[1..]);
    }
  }

  /** And when it brings the client down: "stale", and then, after any more of these, a
      success without payload. */
  lemma DestroyCrashesIff(s: State, replies: seq<Reply>)
    requires s.enabled && !s.crashed
    ensures Destroy(s, replies).state.crashed <==>
            replies != [] && SaysStale(replies[0]) &&
            Deciding(replies[1..]).Some? && MissesPayload(Deciding(replies[1..]).value)
  {
    if replies != [] && SaysStale(replies[0]) {
      CreateSpec(s, replies[1..]);
    }
  }

  /** A destroy that could not be sent leaves the session as it was. */
  lemma DestroyNotSentKeeps(s: State, error: int, rest: seq<Reply>)
    requires s.enabled
    ensures Destroy(s, [SendError(error)] + rest).state == s
  {
  }

  /** A host that answers the destroy with "stale" is sent a create, and the session
      it then grants stays enabled although it was to be destroyed. */
  lemma DestroyOfStaleRecreates(s: State, replies: seq<Reply>)
    requires s.enabled && !s.crashed && |replies| > 1 && SaysStale(replies[0]) && Establishes(replies[1])
    ensures var o := Destroy(s, replies);
            o.state.enabled && o.state.id == replies[1].packet.payloadId && o.result == -EIO
  {
    CreateSpec(s, replies[1..]);
  }

  // ------------------------------------------------------------------ the code

  class Client {
    var enabled: bool
    var id: nat
    var headerVersion: nat
    ghost var latest: Option<nat>
    ghost var crashed: bool

    ghost function Now(): State
      reads this
    {
      State(enabled, id, headerVersion, latest, crashed)
    }

    /** HgfsCreateSessionProcessResult; `ok` is false where a null payload would be read. */
    method CreateProcessResult(p: Packet) returns (ok: bool)
      modifies this
      ensures Now() == ProcessResult(old(Now()), p)
      ensures ok <==> !(HeaderOk(p) && FlagsOk(p) && p.status == STATUS_SUCCESS && p.headerSize == p.packetSize)
    {
      var sessionId, version, present, status := INVALID_SESSION_ID, HEADER_VERSION, false, STATUS_PROTOCOL_ERROR;
      if HeaderOk(p) {
        sessionId, version := p.sessionId, p.version;
        if FlagsOk(p) {
          status := p.status;
        }
      }
      if status == STATUS_SUCCESS {
        if p.packetSize - p.headerSize == 0 {
          crashed := true;
          return false;
        }
        sessionId, present := p.payloadId, true;
        latest := Some(p.payloadId);
      }
      id, headerVersion, enabled := sessionId, version, present;
      ok := true;
    }

    method GetReplyStatus(p: Packet, host: seq<Reply>) returns (status: nat, rest: seq<Reply>, ok: bool)
      requires !crashed
      modifies this
      ensures var o := ReplyStatus(old(Now()), p, host); Now() == o.state && status == o.result && rest == o.rest
      ensures ok <==> !crashed
      decreases |host|, 1
    {
      rest, ok := host, true;
      if p.size < REPLY_SIZE {
        return STATUS_PROTOCOL_ERROR, rest, ok;
      }
      if enabled && p.size < HEADER_SIZE {
        enabled := false;
      }
      if enabled {
        status := p.status;
        if status == STATUS_STALE_SESSION {
          var _, r, o := CreateSession(host);
          rest, ok := r, o;
        }
      } else {
        status := p.marker;
      }
    }

    method CreateSession(host: seq<Reply>) returns (result: int, rest: seq<Reply>, ok: bool)
      requires !crashed
      modifies this
      ensures var o := Create(old(Now()), host); Now() == o.state && result == o.result && rest == o.rest
      ensures ok <==> !crashed
      decreases |host|, 0
    {
      enabled, headerVersion := true, HEADER_VERSION;
      if host == [] {
        enabled := false;
        return -EIO, [], true;
      }
      match host[0] {
        case SendError(error) =>
          enabled := false;
          return if error < 0 then error else -EIO, host[1..], true;
        case Answer(p) =>
          var status;
          status, rest, ok := GetReplyStatus(p, host[1..]);
          result := ToLinux(status);
          if ok {
            if result == 0 {
              ok := CreateProcessResult(p);
            } else {
              enabled := false;
            }
          }
      }
    }

    /** HgfsDestroySession. */
    method DestroySession(host: seq<Reply>) returns (result: int, rest: seq<Reply>, ok: bool)
      requires !crashed
      modifies this
      ensures var o := Destroy(old(Now()), host); Now() == o.state && result == o.result && rest == o.rest
      ensures ok <==> !crashed
    {
      result, rest, ok := 0, host, true;
      if !enabled {
        return;
      }
      if host == [] {
        return -EIO, [], true;
      }
      match host[0] {
        case SendError(error) =>
          return if error < 0 then error else -EIO, host[1..], true;
        case Answer(p) =>
          var status;
          status, rest, ok := GetReplyStatus(p, host[1..]);
          result := ToLinux(status);
          if ok && result == 0 {
            id, enabled := INVALID_SESSION_ID, false;
          }
      }
    }
  }
}
