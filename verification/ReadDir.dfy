/**
  Directory enumeration.  The server holds a finite directory and answers each
  search-read from the offset asked for: a version 3 reply carries any number of
  entries, an older one carries exactly one.  Which requests the host rejects as
  too new, which it fails, and how many entries it packs are its free choice.
*/
module ReadDir {
  import opened Common
  import opened Escape
  import opened Memory

  const NAME_MAX := 255

  datatype DirEntry = DirEntry(name: string, attr: nat)

  /** What the filler receives. */
  datatype Shown = Shown(name: string, attr: nat)

  /** The host's decision on one request; `Entries` tells how many entries it would
      like to pack, `Refused` is any error but "protocol error". */
  datatype Answer = Entries(wanted: nat) | Rejected | Refused(error: int)

  ghost predicate ValidDir(dir: seq<DirEntry>) {
    && |dir| < TWO32
    && (forall i :: 0 <= i < |dir| ==> dir[i].name != "" && NUL !in dir[i].name)
  }

  predicate Legal(e: DirEntry) {
    |e.name| <= NAME_MAX
  }

  function ShownAs(e: DirEntry): Shown {
    Shown(Escape.Escape(LINUX, e.name), e.attr)
  }

  /** Fits the escape buffer of NAME_MAX + 1 bytes. */
  predicate Fits(e: DirEntry) {
    |Escape.Escape(LINUX, e.name)| <= NAME_MAX
  }

  /** The reference: the entries of legal length, escaped, in server order. */
  function Listing(dir: seq<DirEntry>): seq<Shown> {
    if dir == [] then []
    else
      var e := dir[|dir| - 1];
      Listing(dir[..|dir| - 1]) + (if Legal(e) then [ShownAs(e)] else [])
  }

  lemma {:induction false} ListingGrows(dir: seq<DirEntry>, m: nat, n: nat)
    requires m <= n <= |dir|
    ensures Listing(dir[..m]) <= Listing(dir[..n])
    decreases n
  {
    if m < n {
      ListingGrows(dir, m, n - 1);
      assert dir[..n][..n - 1] == dir[..n - 1];
    }
  }

  /** How many of the first n entries have a name of at most 255 bytes. */
  function LegalAmong(dir: seq<DirEntry>, n: nat): nat
    requires n <= |dir|
  {
    if n == 0 then 0 else LegalAmong(dir, n - 1) + if |dir[n - 1].name| <= 255 then 1 else 0
  }

  lemma {:induction false} LegalAmongPrefix(dir: seq<DirEntry>, m: nat, n: nat)
    requires n <= m <= |dir|
    ensures LegalAmong(dir[..m], n) == LegalAmong(dir, n)
  {
    if n > 0 {
      LegalAmongPrefix(dir, m, n - 1);
    }
  }

  /** Every name that is not too long has its place in the listing, in server order, and
      can be restored from what is shown there; nothing else is listed. */
  lemma {:induction false} ListingSpec(dir: seq<DirEntry>, i: nat)
    ensures |Listing(dir)| == LegalAmong(dir, |dir|)
    ensures i < |dir| && |dir[i].name| <= 255 ==>
              && LegalAmong(dir, i) < |Listing(dir)|
              && Undo(LINUX, Listing(dir)[LegalAmong(dir, i)].name) == dir[i].name
              && Listing(dir)[LegalAmong(dir, i)].attr == dir[i].attr
  {
    TablesAreValid();
    if dir != [] {
      var n := |dir| - 1;
      ListingSpec(dir[..n], i);
      LegalAmongPrefix(dir, n, n);
      if i < n {
        LegalAmongPrefix(dir, n, i);
      } else if i == n {
        RoundTrip(LINUX, dir[n].name);
      }
    }
  }

  ghost predicate AllFit(dir: seq<DirEntry>) {
    forall i :: 0 <= i < |dir| && Legal(dir[i]) ==> Fits(dir[i])
  }

  /** What a server holding `dir` may answer. */
  ghost predicate IsReply(dir: seq<DirEntry>, version: Version, offset: nat, reply: seq<DirEntry>) {
    if version.V3? then
      if offset < |dir| then
        0 < |reply| <= |dir| - offset && forall i :: 0 <= i < |reply| ==> reply[i] == dir[offset + i]
      else reply == []
    else
      reply == if offset < |dir| then [dir[offset]] else [DirEntry("", 0)]
  }

  class Search {
    /** The global switch hgfsVersionSearchRead. */
    var version: Version

    /** HgfsRequestDirEntries: a rejected request is sent again one version lower, and
        the switch stays there; no other answer is followed by a request. */
    method RequestEntries(dir: seq<DirEntry>, offset: nat, host: nat -> Answer, n: nat)
      returns (result: int, used: Version, reply: seq<DirEntry>, n': nat)
      modifies this
      ensures n < n' && version == used && n' - 1 - n == Rank(old(version)) - Rank(used)
      ensures forall i :: n <= i < n' - 1 ==> host(i).Rejected?
      ensures result == 0 <==> host(n' - 1).Entries?
      ensures result == 0 ==> IsReply(dir, used, offset, reply)
      ensures host(n' - 1).Rejected? ==> used.V1? && result == -EPROTO
      ensures host(n' - 1).Refused? ==>
                result == if host(n' - 1).error < 0 then host(n' - 1).error else -EIO
    {
      n' := n;
      while true
        invariant n <= n' && n' - n == Rank(old(version)) - Rank(version)
        invariant forall i :: n <= i < n' ==> host(i).Rejected?
        decreases Rank(version)
      {
        used := version;
        n' := n' + 1;
        match host(n' - 1) {
          case Entries(wanted) =>
            result := 0;
            if used.V3? {
              var count := if wanted == 0 then 1 else wanted;
              reply := if |dir| <= offset then []
                       else if count <= |dir| - offset then dir[offset..offset + count] else dir[offset..];
            } else {
              reply := if |dir| <= offset then [DirEntry("", 0)] else [dir[offset]];
            }
            return;
          case Refused(error) =>
            result, reply := if error < 0 then error else -EIO, [];
            return;
          case Rejected =>
            if used.V1? {
              result, reply := -EPROTO, [];
              return;
            }
            version := if used.V3? then V2 else V1;
        }
      }
    }
  }

  function Next(position: nat): nat {
    (position + 1) % TWO32
  }

  datatype Outcome = NameTooLong | EndOfDirectory | EscapeFailed | FillerFull | Handed(shown: Shown)

  /** One entry of a reply; `held` is what the filler already holds. */
  method HandEntry(e: DirEntry, held: nat, full: nat -> bool) returns (o: Outcome)
    requires NUL !in e.name
    ensures o == if !Legal(e) then NameTooLong
                 else if e.name == "" then EndOfDirectory
                 else if !Fits(e) then EscapeFailed
                 else if full(held) then FillerFull
                 else Handed(ShownAs(e))
  {
    TablesAreValid();
    var escName := new char[NAME_MAX + 1];
    if |e.name| > NAME_MAX {
      return NameTooLong;
    } else if |e.name| == 0 {
      return EndOfDirectory;
    }
    var r := DoComponent(LINUX, e.name, escName);
    if r < 0 {
      return EscapeFailed;
    }
    if full(held) {
      return FillerFull;
    }
    o := Handed(Shown(escName[..r], e.attr));
  }

  /** The listing of a directory whose legal names all fit, None for any other. */
  function Complete(dir: seq<DirEntry>): Option<seq<Shown>> {
    if dir == [] then Some([])
    else
      var e := dir[|dir| - 1];
      match Complete(dir[..|dir| - 1])
      case None => None
      case Some(before) =>
        if !Legal(e) then Some(before) else if Fits(e) then Some(before + [ShownAs(e)]) else None
  }

  lemma CompleteStep(dir: seq<DirEntry>, n: nat, before: seq<Shown>)
    requires n < |dir| && Complete(dir[..n]) == Some(before)
    ensures Complete(dir[..n + 1]) ==
            if !Legal(dir[n]) then Some(before) else if Fits(dir[n]) then Some(before + [ShownAs(dir[n])]) else None
  {
    assert dir[..n + 1][..n] == dir[..n];
  }

  /** Complete exactly when every legal name fits, and then it is the listing. */
  lemma {:induction false} CompleteSpec(dir: seq<DirEntry>)
    ensures Complete(dir).Some? <==> forall i :: 0 <= i < |dir| && Legal(dir[i]) ==> Fits(dir[i])
    ensures Complete(dir).Some? ==> Complete(dir).value == Listing(dir)
  {
    if dir != [] {
      var n := |dir| - 1;
      CompleteSpec(dir[..n]);
      assert forall i :: 0 <= i < n ==> dir[..n][i] == dir[i];
    }
  }

  /** What one reply may lead to: the entries seen are accounted for, and the result
      tells why the reply was left. */
  ghost predicate OutcomeOk(dir: seq<DirEntry>, start: nat, full: nat -> bool,
                            result: int, position: nat, handed: seq<Shown>, done: bool, seen: nat) {
    && start <= seen <= |dir| && Complete(dir[..seen]) == Some(handed)
    && (result == 0 || result == -ENAMETOOLONG || result == -ENOSPC || result == -1)
    && (done ==> result == 0 && seen == |dir|)
    && (!done && (result == 0 || result == -ENAMETOOLONG) ==> position == seen > start)
    && (result == -ENOSPC ==> full(|handed|))
    && (result == -1 ==> seen < |dir| && Legal(dir[seen]) && !Fits(dir[seen]))
  }

  /** One entry of a reply, and whether the reply is left there. */
  method HandNext(ghost dir: seq<DirEntry>, e: DirEntry, rounds: nat, ghost start: nat, seen: nat,
                  handed: seq<Shown>, full: nat -> bool)
    returns (stop: bool, result: int, position: nat, handed': seq<Shown>, done: bool, ghost seen': nat)
    requires ValidDir(dir) && start <= seen <= |dir| && Complete(dir[..seen]) == Some(handed)
    requires if start < |dir| then seen < |dir| && e == dir[seen] else e.name == ""
    ensures stop ==> OutcomeOk(dir, start, full, result, position, handed', done, seen')
    ensures !stop ==> seen' == seen + 1 <= |dir| && position == seen' && Complete(dir[..seen']) == Some(handed')
  {
    var o := HandEntry(e, |handed|, full);
    stop, result, position, handed', done, seen' := true, 0, seen, handed, false, seen;
    match o {
      case NameTooLong =>
        CompleteStep(dir, seen, handed);
        position, seen', result := Next(position), seen + 1, -ENAMETOOLONG;
      case EndOfDirectory =>
        done := true;
      case EscapeFailed =>
        position := StayOn(e, |handed|, full, rounds, Next(position));
        result := -1;
      case FillerFull =>
        result := -ENOSPC;
      case Handed(shown) =>
        CompleteStep(dir, seen, handed);
        stop, handed', position, seen' := false, handed + [shown], Next(position), seen + 1;
    }
  }

  /** HgfsReadDirFromReply: hand the entries of one reply to the filler.  `full`
      tells whether the filler refuses an entry when it holds that many.  After an
      escape failure the code stays on the same entry, so it reports the failure. */
  method ReadFromReply(ghost dir: seq<DirEntry>, reply: seq<DirEntry>, used: Version, start: nat,
                       handed0: seq<Shown>, full: nat -> bool)
    returns (result: int, position: nat, handed: seq<Shown>, done: bool, ghost seen: nat)
    requires ValidDir(dir) && start <= |dir| && IsReply(dir, used, start, reply)
    requires Complete(dir[..start]) == Some(handed0)
    ensures OutcomeOk(dir, start, full, result, position, handed, done, seen)
  {
    result, position, handed, done, seen := 0, start, handed0, false, start;
    if used.V3? && |reply| == 0 {
      done := true;
      return;
    }
    for d := 0 to |reply|
      invariant position == seen == start + d <= |dir| && result == 0 && !done
      invariant start == |dir| ==> d == 0
      invariant Complete(dir[..seen]) == Some(handed)
    {
      var stop;
      stop, result, position, handed, done, seen :=
        HandNext(dir, reply[d], |reply| - d - 1, start, position, handed, full);
      if stop {
        return;
      }
      result, done := 0, false;
    }
  }

  /** The rest of a reply after an escape failure: the entry pointer does not move,
      so every further round fails on the same entry and only counts on. */
  method StayOn(e: DirEntry, held: nat, full: nat -> bool, rounds: nat, start: nat) returns (position: nat)
    requires NUL !in e.name && e.name != "" && Legal(e) && !Fits(e)
    ensures start < TWO32 ==> position == (start + rounds) % TWO32
  {
    position := start;
    for i := 0 to rounds
      invariant start < TWO32 ==> position == (start + i) % TWO32
    {
      var o := HandEntry(e, held, full);
      assert o.EscapeFailed?;
      position := Next(position);
    }
  }

  /** HgfsReaddir.  What the filler got is always a prefix of the listing; a listing
      that ran to its end is complete; and the reasons to stop early are these. */
  method Readdir(search: Search, dir: seq<DirEntry>, host: nat -> Answer, full: nat -> bool)
    returns (result: int, handed: seq<Shown>, done: bool, ghost requests: nat)
    requires ValidDir(dir)
    modifies search
    ensures handed <= Listing(dir)
    ensures done ==> result == 0 && handed == Listing(dir) && AllFit(dir)
    ensures result == 0 && !done ==> full(|handed|)
    ensures result < 0 ==>
              || !AllFit(dir)
              || (requests > 0 && host(requests - 1).Refused?)
              || (requests > 0 && host(requests - 1).Rejected? && search.version.V1? && result == -EPROTO)
    ensures result <= 0 && Rank(search.version) <= Rank(old(search.version))
  {
    var position: nat, n: nat := 0, 0;
    result, handed, done := 0, [], false;
    ghost var seen := 0;
    requests := 0;
    while !done
      invariant result <= 0 && requests == n && Rank(search.version) <= Rank(old(search.version))
      invariant seen <= |dir| && Complete(dir[..seen]) == Some(handed)
      invariant !done ==> position == seen
      invariant done ==> result == 0 && seen == |dir|
      decreases |dir| - seen, !done
    {
      var used, reply;
      result, used, reply, n := search.RequestEntries(dir, position, host, n);
      requests := n;
      if result != 0 {
        break;
      }
      result, position, handed, done, seen := ReadFromReply(dir, reply, used, position, handed, full);
      if result == -ENAMETOOLONG {
        continue;
      } else if result == -ENOSPC {
        result := 0;
        break;
      } else if result < 0 {
        break;
      }
    }
    CompleteSpec(dir[..seen]);
    ListingGrows(dir, seen, |dir|);
    assert dir[..|dir|] == dir;
  }
}
