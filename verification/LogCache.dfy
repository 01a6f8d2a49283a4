/**
  Logging while log IO is suspended: messages for handlers that write files are
  cached, the oldest dropped when the cache is full, and flushed on resume.
*/
module LogCache {
  import opened Common

  type HandlerId = nat

  datatype Entry = Entry(handler: HandlerId, text: string)

  /** The fixed configuration: the cap and the handlers that need file IO. */
  datatype Config = Config(cap: nat, files: set<HandlerId>)

  /** `delivered` lists the calls of handlers in order, `lost` the dropped messages. */
  datatype State = State(
    suspended: bool, cached: seq<Entry>, dropped: nat, delivered: seq<Entry>, lost: seq<Entry>)

  /** Messages that pass the level filter, and the two switches.  A resume may log up
      to two messages of its own: how much it flushed, and how much was dropped. */
  datatype Event =
    | Accept(entry: Entry)
    | Suspend
    | Resume(flushNote: Option<Entry>, dropNote: Option<Entry>)

  const INITIAL := State(false, [], 0, [], [])

  function Log(c: Config, s: State, e: Entry): State {
    if s.suspended && e.handler in c.files then
      if c.cap == 0 then s.(dropped := (s.dropped + 1) % TWO32, lost := s.lost + [e])
      else if |s.cached| < c.cap then s.(cached := s.cached + [e])
      else s.(cached := s.cached[1..] + [e], dropped := (s.dropped + 1) % TWO32, lost := s.lost + [s.cached[0]])
    else s.(delivered := s.delivered + [e])
  }

  function Note(n: Option<Entry>): seq<Entry> {
    if n.Some? then [n.value] else []
  }

  /** The messages of its own that a resume logs. */
  function OwnNotes(s: State, e: Event): seq<Entry>
    requires e.Resume?
  {
    Note(e.flushNote) + if s.dropped > 0 then Note(e.dropNote) else []
  }

  function Step(c: Config, s: State, e: Event): State {
    match e
    case Accept(entry) => Log(c, s, entry)
    case Suspend => s.(suspended := true)
    case Resume(_, _) =>
      s.(suspended := false, cached := [], dropped := 0, delivered := s.delivered + s.cached + OwnNotes(s, e))
  }

  function After(c: Config, h: seq<Event>): State {
    if h == [] then INITIAL else Step(c, After(c, h[..|h| - 1]), h[|h| - 1])
  }

  // ---------------------------------------------------------------- references

  function NewlyAccepted(s: State, e: Event): seq<Entry> {
    match e
    case Accept(entry) => [entry]
    case Suspend => []
    case Resume(_, _) => OwnNotes(s, e)
  }

  /** Everything that was accepted for logging. */
  function Accepted(c: Config, h: seq<Event>): seq<Entry> {
    if h == [] then []
    else Accepted(c, h[..|h| - 1]) + NewlyAccepted(After(c, h[..|h| - 1]), h[|h| - 1])
  }

  /** The history holds a suspend with no resume behind it. */
  predicate SuspendedBy(h: seq<Event>) {
    exists i :: 0 <= i < |h| && h[i].Suspend? && forall j :: i < j < |h| ==> !h[j].Resume?
  }

  /** The file-bound messages since IO was suspended; empty when it is not. */
  function SinceSuspension(c: Config, h: seq<Event>): seq<Entry> {
    if h == [] then []
    else
      var before := SinceSuspension(c, h[..|h| - 1]);
      match h[|h| - 1]
      case Accept(e) =>
        if SuspendedBy(h[..|h| - 1]) && e.handler in c.files then before + [e] else before
      case Suspend => before
      case Resume(_, _) => []
  }

  function LastOf(s: seq<Entry>, n: nat): seq<Entry> {
    if |s| <= n then s else s[|s| - n..]
  }

  // ------------------------------------------------------------------ theorems

  lemma SuspendedSnoc(h: seq<Event>, e: Event)
    ensures SuspendedBy(h + [e]) <==> e.Suspend? || (SuspendedBy(h) && !e.Resume?)
  {
    var g := h + [e];
    if SuspendedBy(g) && !e.Suspend? {
      var i :| 0 <= i < |g| && g[i].Suspend? && forall j :: i < j < |g| ==> !g[j].Resume?;
      assert h[i].Suspend? && g[|h|] == e;
      assert forall j :: i < j < |h| ==> h[j] == g[j];
    }
    if e.Suspend? {
      assert g[|h|].Suspend?;
    } else if SuspendedBy(h) && !e.Resume? {
      var i :| 0 <= i < |h| && h[i].Suspend? && forall j :: i < j < |h| ==> !h[j].Resume?;
      assert g[i].Suspend?;
    }
  }

  /** Log IO is suspended exactly after a suspend with no resume behind it. */
  lemma {:induction false} SuspendedExactly(c: Config, h: seq<Event>)
    ensures After(c, h).suspended <==> SuspendedBy(h)
  {
    if h != [] {
      var init, e := h[..|h| - 1], h[|h| - 1];
      SuspendedExactly(c, init);
      SuspendedSnoc(init, e);
      assert h == init + [e];
    }
  }

  predicate HoldsLast(c: Config, s: State, stream: seq<Entry>) {
    && s.cached == LastOf(stream, c.cap)
    && s.dropped == (|stream| - |s.cached|) % TWO32
    && (!s.suspended ==> stream == [])
  }

  lemma LogKeepsLast(c: Config, s: State, stream: seq<Entry>, e: Entry)
    requires HoldsLast(c, s, stream)
    ensures HoldsLast(c, Log(c, s, e), if s.suspended && e.handler in c.files then stream + [e] else stream)
  {
    if s.suspended && e.handler in c.files && |s.cached| == c.cap && c.cap > 0 {
      assert s.cached[1..] + [e] == LastOf(stream + [e], c.cap);
    }
  }

  /** At every point of every history the cache is the last min(n, cap) of the n
      file-bound messages since suspension, and the drop count is the rest. */
  lemma {:induction false} CacheIsLastOfStream(c: Config, h: seq<Event>)
    ensures HoldsLast(c, After(c, h), SinceSuspension(c, h))
  {
    if h != [] {
      var init := h[..|h| - 1];
      CacheIsLastOfStream(c, init);
      SuspendedExactly(c, init);
      if h[|h| - 1].Accept? {
        LogKeepsLast(c, After(c, init), SinceSuspension(c, init), h[|h| - 1].entry);
      }
    }
  }

  function Everything(s: State): multiset<Entry> {
    multiset(s.delivered) + multiset(s.cached) + multiset(s.lost)
  }

  lemma DropConserves(s: State, e: Entry)
    requires s.cached != []
    ensures multiset(s.cached[1..] + [e]) + multiset(s.lost + [s.cached[0]]) ==
            multiset(s.cached) + multiset(s.lost) + multiset{e}
  {
    var x, rest := s.cached[0], s.cached[1..];
    assert s.cached == [x] + rest;
    assert multiset(rest + [e]) == multiset(rest) + multiset{e};
  }

  lemma LogConserves(c: Config, s: State, e: Entry)
    ensures Everything(Log(c, s, e)) == Everything(s) + multiset{e}
  {
    if s.suspended && e.handler in c.files && 0 < c.cap <= |s.cached| {
      var t := Log(c, s, e);
      DropConserves(s, e);
      assert Everything(t) == multiset(t.delivered) + (multiset(t.cached) + multiset(t.lost));
      assert Everything(s) == multiset(s.delivered) + (multiset(s.cached) + multiset(s.lost));
    }
  }

  /** Nothing is invented or forgotten: accepted = delivered + cached + dropped. */
  lemma {:induction false} Conservation(c: Config, h: seq<Event>)
    ensures multiset(Accepted(c, h)) == Everything(After(c, h))
  {
    if h != [] {
      var init := h[..|h| - 1];
      Conservation(c, init);
      if h[|h| - 1].Accept? {
        LogConserves(c, After(c, init), h[|h| - 1].entry);
      }
    }
  }

  /** Resume empties the cache, resets the count and hands over all that was cached, then
      what it has to say itself: how much it flushed, and how much was dropped if any was. */
  lemma ResumeFlushes(c: Config, h: seq<Event>, flushNote: Option<Entry>, dropNote: Option<Entry>)
    ensures var s := After(c, h);
            var t := After(c, h + [Resume(flushNote, dropNote)]);
            var kept := LastOf(SinceSuspension(c, h), c.cap);
            var anyDropped := (|SinceSuspension(c, h)| - |kept|) % TWO32 > 0;
            && t.cached == [] && t.dropped == 0 && !t.suspended && t.lost == s.lost
            && t.delivered == s.delivered + kept + (Note(flushNote) + if anyDropped then Note(dropNote) else [])
  {
    var e := Resume(flushNote, dropNote);
    assert (h + [e])[..|h|] == h;
    CacheIsLastOfStream(c, h);
  }

  /** Unless log IO is suspended, a message goes out at once, whatever its handler. */
  lemma UnsuspendedDelivers(c: Config, h: seq<Event>, e: Entry)
    requires !SuspendedBy(h)
    ensures After(c, h + [Accept(e)]).delivered == After(c, h).delivered + [e]
  {
    SuspendedExactly(c, h);
    assert (h + [Accept(e)])[..|h|] == h;
  }

  // --------------------------------------------------------- order per handler

  function Only(s: seq<Entry>, hd: HandlerId): seq<Entry> {
    if s == [] then []
    else Only(s[..|s| - 1], hd) + if s[|s| - 1].handler == hd then [s[|s| - 1]] else []
  }

  /** a is a subsequence of b. */
  predicate Subsequence(a: seq<Entry>, b: seq<Entry>)
    decreases |b|
  {
    || a == []
    || (b != [] && a[|a| - 1] == b[|b| - 1] && Subsequence(a[..|a| - 1], b[..|b| - 1]))
    || (b != [] && Subsequence(a, b[..|b| - 1]))
  }

  lemma SubsequenceSnoc(a: seq<Entry>, b: seq<Entry>, x: Entry)
    requires Subsequence(a, b)
    ensures Subsequence(a + [x], b + [x])
  {
    assert (a + [x])[..|a|] == a && (b + [x])[..|b|] == b;
  }

  lemma SubsequenceSkip(a: seq<Entry>, b: seq<Entry>, x: Entry)
    requires Subsequence(a, b)
    ensures Subsequence(a, b + [x])
  {
    assert (b + [x])[..|b|] == b;
  }

  lemma {:induction false} SubsequenceRemove(a: seq<Entry>, b: seq<Entry>, i: nat)
    requires Subsequence(a, b) && i < |a|
    ensures Subsequence(a[..i] + a[i + 1..], b)
    decreases |b|
  {
    var a' := a[..|a| - 1];
    var b' := b[..|b| - 1];
    var r := a[..i] + a[i + 1..];
    if a[|a| - 1] == b[|b| - 1] && Subsequence(a', b') {
      if i == |a| - 1 {
        assert r == a';
        SubsequenceSkip(a', b', b[|b| - 1]);
        assert b == b' + [b[|b| - 1]];
      } else {
        SubsequenceRemove(a', b', i);
        assert r[..|r| - 1] == a'[..i] + a'[i + 1..];
      }
    } else {
      SubsequenceRemove(a, b', i);
    }
  }

  lemma {:induction false} OnlyConcat(s: seq<Entry>, t: seq<Entry>, hd: HandlerId)
    ensures Only(s + t, hd) == Only(s, hd) + Only(t, hd)
    decreases |t|
  {
    if t == [] {
      assert s + t == s;
    } else {
      assert (s + t)[..|s + t| - 1] == s + t[..|t| - 1];
      OnlyConcat(s, t[..|t| - 1], hd);
    }
  }

  lemma OnlySnoc(s: seq<Entry>, e: Entry, hd: HandlerId)
    ensures Only(s + [e], hd) == if e.handler == hd then Only(s, hd) + [e] else Only(s, hd)
  {
    assert (s + [e])[..|s|] == s;
    assert Only(s, hd) + [] == Only(s, hd);
  }

  lemma OnlyCons(e: Entry, s: seq<Entry>, hd: HandlerId)
    ensures Only([e] + s, hd) == if e.handler == hd then [e] + Only(s, hd) else Only(s, hd)
  {
    OnlyConcat([e], s, hd);
    assert [] + [e] == [e];
    OnlySnoc([], e, hd);
    assert [] + Only(s, hd) == Only(s, hd);
  }

  /** What handler hd has received or will receive from the cache is in order. */
  predicate InOrder(delivered: seq<Entry>, cached: seq<Entry>, accepted: seq<Entry>, hd: HandlerId) {
    Subsequence(Only(delivered, hd) + Only(cached, hd), Only(accepted, hd))
  }

  ghost predicate CachesFilesOnly(c: Config, s: State) {
    && (forall i :: 0 <= i < |s.cached| ==> s.cached[i].handler in c.files)
    && (!s.suspended ==> s.cached == [])
  }

  lemma {:induction false} OnlyNone(c: Config, s: seq<Entry>, hd: HandlerId)
    requires hd !in c.files && forall i :: 0 <= i < |s| ==> s[i].handler in c.files
    ensures Only(s, hd) == []
  {
    if s != [] {
      OnlyNone(c, s[..|s| - 1], hd);
    }
  }

  lemma RemoveMiddle(a: seq<Entry>, x: Entry, b: seq<Entry>, c: seq<Entry>)
    requires Subsequence(a + ([x] + b), c)
    ensures Subsequence(a + b, c)
  {
    var all := a + ([x] + b);
    SubsequenceRemove(all, c, |a|);
    assert all[..|a|] + all[|a| + 1..] == a + b;
  }

  lemma DropOldestKeepsOrder(delivered: seq<Entry>, cached: seq<Entry>, accepted: seq<Entry>, hd: HandlerId)
    requires InOrder(delivered, cached, accepted, hd) && cached != []
    ensures InOrder(delivered, cached[1..], accepted, hd)
  {
    var first := cached[0];
    assert cached == [first] + cached[1..];
    OnlyCons(first, cached[1..], hd);
    if first.handler == hd {
      RemoveMiddle(Only(delivered, hd), first, Only(cached[1..], hd), Only(accepted, hd));
    }
  }

  lemma SnocBoth(a: seq<Entry>, b: seq<Entry>, c: seq<Entry>, e: Entry)
    requires Subsequence(a + b, c)
    ensures Subsequence(a + (b + [e]), c + [e])
  {
    SubsequenceSnoc(a + b, c, e);
    assert a + b + [e] == a + (b + [e]);
  }

  lemma CacheKeepsOrder(delivered: seq<Entry>, cached: seq<Entry>, accepted: seq<Entry>, e: Entry, hd: HandlerId)
    requires InOrder(delivered, cached, accepted, hd)
    ensures InOrder(delivered, cached + [e], accepted + [e], hd)
  {
    OnlySnoc(cached, e, hd);
    OnlySnoc(accepted, e, hd);
    if e.handler == hd {
      SnocBoth(Only(delivered, hd), Only(cached, hd), Only(accepted, hd), e);
    }
  }

  lemma LoseKeepsOrder(delivered: seq<Entry>, cached: seq<Entry>, accepted: seq<Entry>, e: Entry, hd: HandlerId)
    requires InOrder(delivered, cached, accepted, hd)
    ensures InOrder(delivered, cached, accepted + [e], hd)
  {
    OnlySnoc(accepted, e, hd);
    if e.handler == hd {
      SubsequenceSkip(Only(delivered, hd) + Only(cached, hd), Only(accepted, hd), e);
    }
  }

  lemma DeliverKeepsOrder(delivered: seq<Entry>, cached: seq<Entry>, accepted: seq<Entry>, e: Entry, hd: HandlerId)
    requires InOrder(delivered, cached, accepted, hd) && (e.handler == hd ==> Only(cached, hd) == [])
    ensures InOrder(delivered + [e], cached, accepted + [e], hd)
  {
    OnlySnoc(delivered, e, hd);
    OnlySnoc(accepted, e, hd);
    if e.handler == hd {
      var a := Only(delivered, hd);
      assert a + [] == a && a + [e] + [] == a + [e];
      SubsequenceSnoc(a, Only(accepted, hd), e);
    }
  }

  lemma LogKeepsOrder(c: Config, s: State, accepted: seq<Entry>, e: Entry, hd: HandlerId)
    requires InOrder(s.delivered, s.cached, accepted, hd) && CachesFilesOnly(c, s)
    ensures var t := Log(c, s, e); InOrder(t.delivered, t.cached, accepted + [e], hd)
  {
    if s.suspended && e.handler in c.files {
      if c.cap == 0 {
        LoseKeepsOrder(s.delivered, s.cached, accepted, e, hd);
      } else if |s.cached| < c.cap {
        CacheKeepsOrder(s.delivered, s.cached, accepted, e, hd);
      } else {
        DropOldestKeepsOrder(s.delivered, s.cached, accepted, hd);
        CacheKeepsOrder(s.delivered, s.cached[1..], accepted, e, hd);
      }
    } else {
      if e.handler == hd && hd !in c.files {
        OnlyNone(c, s.cached, hd);
      }
      DeliverKeepsOrder(s.delivered, s.cached, accepted, e, hd);
    }
  }

  lemma StepCachesFilesOnly(c: Config, s: State, e: Event)
    requires CachesFilesOnly(c, s)
    ensures CachesFilesOnly(c, Step(c, s, e))
  {
  }

  /** With the cache empty, delivering what is accepted keeps the order. */
  lemma {:induction false} DeliverAllKeepsOrder(a: seq<Entry>, b: seq<Entry>, notes: seq<Entry>)
    requires Subsequence(a, b)
    ensures Subsequence(a + notes, b + notes)
    decreases |notes|
  {
    if notes == [] {
      assert a + notes == a && b + notes == b;
    } else {
      var n, rest := notes[0], notes[1..];
      SubsequenceSnoc(a, b, n);
      DeliverAllKeepsOrder(a + [n], b + [n], rest);
      assert a + [n] + rest == a + notes && b + [n] + rest == b + notes;
    }
  }

  lemma ResumeKeepsOrder(s: State, accepted: seq<Entry>, notes: seq<Entry>, hd: HandlerId)
    requires InOrder(s.delivered, s.cached, accepted, hd)
    ensures InOrder(s.delivered + s.cached + notes, [], accepted + notes, hd)
  {
    var all := Only(s.delivered, hd) + Only(s.cached, hd);
    OnlyConcat(s.delivered, s.cached, hd);
    OnlyConcat(s.delivered + s.cached, notes, hd);
    OnlyConcat(accepted, notes, hd);
    DeliverAllKeepsOrder(all, Only(accepted, hd), Only(notes, hd));
    assert all + Only(notes, hd) + [] == all + Only(notes, hd);
  }

  lemma {:induction false} OrderInvariant(c: Config, h: seq<Event>, hd: HandlerId)
    ensures InOrder(After(c, h).delivered, After(c, h).cached, Accepted(c, h), hd)
    ensures CachesFilesOnly(c, After(c, h))
  {
    if h != [] {
      var init := h[..|h| - 1];
      var s, e := After(c, init), h[|h| - 1];
      OrderInvariant(c, init, hd);
      StepCachesFilesOnly(c, s, e);
      if e.Accept? {
        LogKeepsOrder(c, s, Accepted(c, init), e.entry, hd);
      } else if e.Resume? {
        ResumeKeepsOrder(s, Accepted(c, init), OwnNotes(s, e), hd);
      } else {
        assert Accepted(c, init) + [] == Accepted(c, init);
      }
    }
  }

  /** Each handler sees a subsequence of the messages accepted for it, in order, at
      every point of every history. */
  lemma HandlerSeesSubsequence(c: Config, h: seq<Event>, hd: HandlerId)
    ensures Subsequence(Only(After(c, h).delivered, hd), Only(Accepted(c, h), hd))
  {
    OrderInvariant(c, h, hd);
    var s := After(c, h);
    PrefixOfSubsequence(Only(s.delivered, hd), Only(s.cached, hd), Only(Accepted(c, h), hd));
  }

  lemma {:induction false} PrefixOfSubsequence(a: seq<Entry>, tail: seq<Entry>, b: seq<Entry>)
    requires Subsequence(a + tail, b)
    ensures Subsequence(a, b)
    decreases |tail|
  {
    if tail == [] {
      assert a + tail == a;
    } else {
      var n := |tail| - 1;
      SubsequenceRemove(a + tail, b, |a| + n);
      assert (a + tail)[..|a| + n] + (a + tail)[|a| + n + 1..] == a + tail[..n];
      PrefixOfSubsequence(a, tail[..n], b);
    }
  }

  lemma StepHoldsBack(c: Config, s: State, e: Event, hd: HandlerId)
    requires s.suspended && hd in c.files && !e.Resume?
    ensures Only(Step(c, s, e).delivered, hd) == Only(s.delivered, hd)
  {
    if e.Accept? {
      OnlySnoc(s.delivered, e.entry, hd);
    }
  }

  ghost predicate NoResume(h: seq<Event>, m: nat) {
    forall j :: m <= j < |h| ==> !h[j].Resume?
  }

  lemma StaysSuspended(h: seq<Event>, m: nat)
    requires m <= |h| && SuspendedBy(h[..m]) && NoResume(h, m)
    ensures SuspendedBy(h)
  {
    var i :| 0 <= i < m && h[..m][i].Suspend? && forall j :: i < j < m ==> !h[..m][j].Resume?;
    forall j | i < j < |h|
      ensures !h[j].Resume?
    {
      assert j < m ==> h[..m][j] == h[j];
    }
    assert h[i].Suspend?;
  }

  /** From a suspend among the first m events to the next resume no file handler sees
      anything. */
  lemma {:induction false} HeldBack(c: Config, h: seq<Event>, m: nat, hd: HandlerId)
    requires m <= |h| && SuspendedBy(h[..m]) && NoResume(h, m) && hd in c.files
    ensures Only(After(c, h).delivered, hd) == Only(After(c, h[..m]).delivered, hd)
    decreases |h|
  {
    if m == |h| {
      assert h[..m] == h;
    } else {
      var init := h[..|h| - 1];
      assert init[..m] == h[..m];
      HeldBack(c, init, m, hd);
      StaysSuspended(init, m);
      SuspendedExactly(c, init);
      StepHoldsBack(c, After(c, init), h[|h| - 1], hd);
    }
  }

  lemma {:induction false} AlwaysFilesOnly(c: Config, h: seq<Event>)
    ensures CachesFilesOnly(c, After(c, h))
  {
    if h != [] {
      AlwaysFilesOnly(c, h[..|h| - 1]);
      StepCachesFilesOnly(c, After(c, h[..|h| - 1]), h[|h| - 1]);
    }
  }

  lemma StepPasses(c: Config, s: State, accepted: seq<Entry>, e: Event, hd: HandlerId)
    requires hd !in c.files && CachesFilesOnly(c, s) && Only(s.delivered, hd) == Only(accepted, hd)
    ensures Only(Step(c, s, e).delivered, hd) == Only(accepted + NewlyAccepted(s, e), hd)
  {
    var new_ := NewlyAccepted(s, e);
    OnlyConcat(accepted, new_, hd);
    OnlyConcat(s.delivered, new_, hd);
    if e.Resume? {
      OnlyNone(c, s.cached, hd);
      OnlyConcat(s.delivered, s.cached, hd);
      OnlyConcat(s.delivered + s.cached, new_, hd);
      assert Only(s.delivered, hd) + [] == Only(s.delivered, hd);
    } else if e.Suspend? {
      assert s.delivered + [] == s.delivered;
    } else {
      OnlySnoc(s.delivered, e.entry, hd);
      OnlySnoc(accepted, e.entry, hd);
    }
  }

  /** A handler that writes no file has seen everything that was accepted for it, suspended
      or not. */
  lemma {:induction false} PassesThrough(c: Config, h: seq<Event>, hd: HandlerId)
    requires hd !in c.files
    ensures Only(After(c, h).delivered, hd) == Only(Accepted(c, h), hd)
  {
    if h != [] {
      var init := h[..|h| - 1];
      PassesThrough(c, init, hd);
      AlwaysFilesOnly(c, init);
      StepPasses(c, After(c, init), Accepted(c, init), h[|h| - 1], hd);
    }
  }

  // ------------------------------------------------------------------ the code

  class Logger {
    const config: Config
    var suspended: bool
    var cached: seq<Entry>
    var dropped: nat
    ghost var delivered: seq<Entry>
    ghost var lost: seq<Entry>

    ghost function Now(): State
      reads this
    {
      State(suspended, cached, dropped, delivered, lost)
    }

    /** VMToolsLog for a message that passed the level filter and is not fatal. */
    method Log(e: Entry)
      modifies this
      ensures Now() == Step(config, old(Now()), Accept(e))
    {
      if suspended && e.handler in config.files {
        if config.cap == 0 {
          lost := lost + [e];
          dropped := (dropped + 1) % TWO32;
          return;
        }
        if |cached| < config.cap {
          cached := cached + [e];
        } else {
          lost := lost + [cached[0]];
          cached := cached[1..];
          dropped := (dropped + 1) % TWO32;
          cached := cached + [e];
        }
      } else {
        delivered := delivered + [e];
      }
    }

    method SuspendIO()
      modifies `suspended
      ensures suspended && Now() == Step(config, old(Now()), Suspend)
    {
      suspended := true;
    }

    method ResumeIO(flushNote: Option<Entry>, dropNote: Option<Entry>)
      modifies this
      ensures Now() == Step(config, old(Now()), Resume(flushNote, dropNote))
    {
      suspended := false;
      for i := 0 to |cached|
        invariant !suspended && cached == old(cached) && dropped == old(dropped) && lost == old(lost)
        invariant delivered == old(delivered) + cached[..i]
      {
        delivered := delivered + [cached[i]];
      }
      assert cached[..|cached|] == cached;
      cached := [];
      if flushNote.Some? {
        Log(flushNote.value);
      }
      if dropped > 0 {
        if dropNote.Some? {
          Log(dropNote.value);
        }
        dropped := 0;
      }
    }
  }
}
