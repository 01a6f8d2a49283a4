/**
  The attribute cache of vmhgfs-fuse.  Two implementations: a list (FreeBSD and
  Solaris) and a hash table (Linux).  Time stamps are 64-bit NT times; the age of
  an entry is narrowed to a signed 32-bit int before it is compared.
*/
module AttrCache {
  import opened Common

  // --------------------------------------------------------------------- time

  const TWO64 := 0x1_0000_0000_0000_0000

  /** NT time of the Unix epoch, in units of 100 ns since 1601. */
  const UNIX_EPOCH := (369 * 365 + 89) * 24 * 3600 * 10_000_000
  const TICKS := 10_000_000

  const CACHE_TIMEOUT := 1
  const CACHE_PURGE_TIME := 10
  const HASH_THRESHOLD_SIZE := 2046 * 4
  const HASH_PURGE_SIZE := HASH_THRESHOLD_SIZE / 2

  /** Unix seconds whose NT time fits 64 bits. */
  const LAST_TIME := (TWO64 - 1 - UNIX_EPOCH) / TICKS

  /** HGFS_GET_TIME with 64-bit wrap-around. */
  function NtTime(unix: nat): (t: nat)
    ensures t < TWO64
  {
    (unix * TICKS + UNIX_EPOCH) % TWO64
  }

  /** Seconds since the stamp as the code computes them. */
  function Age(now: nat, stamp: nat): int
    requires stamp < TWO64
  {
    ToInt32((NtTime(now) + TWO64 - stamp) % TWO64 / TICKS)
  }

  predicate Fresh(now: nat, stamp: nat)
    requires stamp < TWO64
  {
    Age(now, stamp) <= CACHE_TIMEOUT
  }

  /** What the 64-bit subtraction leaves when the clock is d seconds behind the stamp. */
  const WRAP_SECONDS := TWO64 / TICKS

  /** The age, exactly, for every pair of representable times. */
  lemma AgeExact(now: nat, set_: nat)
    requires now <= LAST_TIME && set_ <= LAST_TIME
    ensures NtTime(set_) == set_ * TICKS + UNIX_EPOCH
    ensures set_ <= now ==> Age(now, NtTime(set_)) == ToInt32(now - set_)
    ensures now < set_ ==> WRAP_SECONDS >= set_ - now && Age(now, NtTime(set_)) == ToInt32(WRAP_SECONDS - (set_ - now))
  {
    assert now * TICKS + UNIX_EPOCH < TWO64;
    assert set_ * TICKS + UNIX_EPOCH < TWO64;
    var d := NtTime(now) - NtTime(set_);
    assert d == (now - set_) * TICKS;
    if set_ <= now {
      assert (d + TWO64) % TWO64 == d;
      assert d / TICKS == now - set_;
    } else {
      assert (d + TWO64) % TWO64 == d + TWO64;
      assert (d + TWO64) / TICKS == WRAP_SECONDS - (set_ - now);
    }
  }

  /** Exactly when the narrowed age lets an entry through. */
  lemma FreshExact(now: nat, set_: nat)
    requires now <= LAST_TIME && set_ <= LAST_TIME
    ensures Fresh(now, NtTime(set_)) <==>
            var low := (if set_ <= now then now - set_ else WRAP_SECONDS - (set_ - now)) % TWO32;
            low <= CACHE_TIMEOUT || TWO31 <= low
  {
    AgeExact(now, set_);
  }

  /** Longest backward step of the clock that still makes an entry stale. */
  const MAX_STEP_BACK := 2_133_437_384

  predicate ClockSane(now: nat, set_: nat) {
    && now <= LAST_TIME && set_ <= LAST_TIME
    && (if set_ <= now then now - set_ < TWO31 else set_ - now <= MAX_STEP_BACK)
  }

  lemma BackwardResidue(d: nat)
    requires d <= MAX_STEP_BACK
    ensures WRAP_SECONDS >= d && (WRAP_SECONDS - d) % TWO32 == MAX_STEP_BACK + 2 - d
  {
    var q := WRAP_SECONDS / TWO32;
    assert WRAP_SECONDS == q * TWO32 + (MAX_STEP_BACK + 2);
    assert WRAP_SECONDS - d == q * TWO32 + (MAX_STEP_BACK + 2 - d);
  }

  /** The age by a clock that has moved forward by less than 2^31 seconds. */
  lemma AgeForward(now: nat, set_: nat)
    requires set_ <= now <= LAST_TIME && now - set_ < TWO31
    ensures Age(now, NtTime(set_)) == now - set_
  {
    AgeExact(now, set_);
  }

  /** On sane clocks an entry is fresh iff it was set at most CACHE_TIMEOUT whole
      seconds ago; an entry from the (near) future is stale. */
  lemma FreshIffRecent(now: nat, set_: nat)
    requires ClockSane(now, set_)
    ensures Fresh(now, NtTime(set_)) <==> set_ <= now <= set_ + CACHE_TIMEOUT
  {
    if set_ <= now {
      AgeForward(now, set_);
    } else {
      FreshExact(now, set_);
      BackwardResidue(set_ - now);
    }
  }

  /** One second more of backward step and the narrowing calls the entry fresh. */
  lemma FreshBeyondStepBack(now: nat)
    requires now + MAX_STEP_BACK + 1 <= LAST_TIME
    ensures Fresh(now, NtTime(now + MAX_STEP_BACK + 1))
  {
    AgeExact(now, now + MAX_STEP_BACK + 1);
    assert ToInt32(WRAP_SECONDS - (MAX_STEP_BACK + 1)) == 1;
  }

  /** After 2^31 seconds an old entry is called fresh again. */
  lemma FreshAfterWrap(now: nat)
    requires now + TWO31 <= LAST_TIME
    ensures Fresh(now + TWO31, NtTime(now))
  {
    AgeExact(now + TWO31, now);
    assert ToInt32(TWO31) == -TWO31;
  }

  const WINDOW_START := 1_240_428_290
  const WINDOW_END := 3_387_911_936

  /** Seconds between the NT and the Unix epoch. */
  const EPOCH_SECONDS := 11_644_473_600

  lemma ZeroStampAge(now: nat)
    requires now <= LAST_TIME
    ensures Age(now, 0) == ToInt32(now + EPOCH_SECONDS)
  {
    assert UNIX_EPOCH == EPOCH_SECONDS * TICKS;
    var t := now * TICKS + UNIX_EPOCH;
    assert NtTime(now) == t;
    assert (t + TWO64) % TWO64 == t;
    assert t == (now + EPOCH_SECONDS) * TICKS;
    assert t / TICKS == now + EPOCH_SECONDS;
  }

  /** When an entry stamped 0 by an invalidation is stale, for every representable time. */
  lemma ZeroStampExact(now: nat)
    requires now <= LAST_TIME
    ensures !Fresh(now, 0) <==> CACHE_TIMEOUT < (now + EPOCH_SECONDS) % TWO32 < TWO31
  {
    ZeroStampAge(now);
  }

  /** For 32-bit times: it is stale exactly within the window. */
  lemma ZeroStampStale(now: nat)
    requires now < TWO32
    ensures !Fresh(now, 0) <==> WINDOW_START <= now < WINDOW_END
  {
    ZeroStampExact(now);
    var low := (now + EPOCH_SECONDS) % TWO32;
    var start := WINDOW_START - 2;
    assert now + EPOCH_SECONDS == (if now < start then 2 else 3) * TWO32 +
                                  (if now < start then now + TWO32 - start else now - start);
    assert low == if now < start then now + TWO32 - start else now - start;
  }

  // ---------------------------------------------------- the abstract cache map

  type Path = string
  type Stamp = x: nat | x < TWO64

  datatype Slot<A> = Slot(attr: A, stamp: Stamp)
  type Table<A> = map<Path, Slot<A>>

  function Lookup<A>(m: Table<A>, p: Path, now: nat): Option<A> {
    if p in m && Fresh(now, m[p].stamp) then Some(m[p].attr) else None
  }

  function Store<A>(m: Table<A>, p: Path, a: A, now: nat): Table<A> {
    m[p := Slot(a, NtTime(now))]
  }

  /** Invalidation of the hash table: the entry stays, stamped 0. */
  function StampOut<A>(m: Table<A>, p: Path): Table<A> {
    if p in m then m[p := m[p].(stamp := 0)] else m
  }

  /** The age purge of the list cache. */
  function AgeOut<A>(m: Table<A>, now: nat): Table<A> {
    map p | p in m && Age(now, m[p].stamp) <= CACHE_PURGE_TIME :: m[p]
  }

  // ------------------------------------------------------------ the list cache

  datatype Entry<A> = Entry(path: Path, attr: A, stamp: Stamp)

  predicate NoDuplicates<A>(es: seq<Entry<A>>) {
    forall i, j :: 0 <= i < j < |es| ==> es[i].path != es[j].path
  }

  /** The entry the walk finds for each path. */
  function AsTable<A>(es: seq<Entry<A>>): Table<A> {
    if es == [] then map[] else AsTable(es[1..])[es[0].path := Slot(es[0].attr, es[0].stamp)]
  }

  function Young<A>(es: seq<Entry<A>>, now: nat): seq<Entry<A>> {
    if es == [] then []
    else if Age(now, es[0].stamp) > CACHE_PURGE_TIME then Young(es[1..], now)
    else [es[0]] + Young(es[1..], now)
  }

  lemma {:induction false} AsTableKeys<A>(es: seq<Entry<A>>, p: Path)
    ensures p in AsTable(es) <==> exists i :: 0 <= i < |es| && es[i].path == p
  {
    if es != [] {
      AsTableKeys(es[1..], p);
      assert forall i :: 0 < i < |es| ==> es[i] == es[1..][i - 1];
    }
  }

  lemma {:induction false} AsTableAt<A>(es: seq<Entry<A>>, i: nat)
    requires NoDuplicates(es) && i < |es|
    ensures es[i].path in AsTable(es)
    ensures AsTable(es)[es[i].path] == Slot(es[i].attr, es[i].stamp)
  {
    if i > 0 {
      assert es[i] == es[1..][i - 1];
      AsTableAt(es[1..], i - 1);
    }
  }

  lemma {:induction false} AsTableSet<A>(es: seq<Entry<A>>, i: nat, e: Entry<A>)
    requires NoDuplicates(es) && i < |es| && e.path == es[i].path
    ensures NoDuplicates(es[i := e])
    ensures AsTable(es[i := e]) == AsTable(es)[e.path := Slot(e.attr, e.stamp)]
  {
    if i == 0 {
      assert es[0 := e][1..] == es[1..];
    } else {
      AsTableSet(es[1..], i - 1, e);
      assert es[i := e][1..] == es[1..][i - 1 := e];
    }
  }

  lemma RemoveKeepsDistinct<A>(es: seq<Entry<A>>, i: nat)
    requires NoDuplicates(es) && i < |es|
    ensures NoDuplicates(es[..i] + es[i + 1..])
  {
    var r := es[..i] + es[i + 1..];
    assert forall k :: 0 <= k < |r| ==> r[k] == es[if k < i then k else k + 1];
  }

  lemma {:induction false} AsTableRemove<A>(es: seq<Entry<A>>, i: nat)
    requires NoDuplicates(es) && i < |es|
    ensures AsTable(es[..i] + es[i + 1..]) == AsTable(es) - {es[i].path}
  {
    var p := es[i].path;
    var r := es[..i] + es[i + 1..];
    if i == 0 {
      AsTableKeys(es[1..], p);
      assert r == es[1..];
    } else {
      var t := es[1..];
      AsTableRemove(t, i - 1);
      assert r[1..] == t[..i - 1] + t[i..];
      assert r[0] == es[0] && es[0].path != p;
      assert AsTable(r) == (AsTable(t) - {p})[es[0].path := Slot(es[0].attr, es[0].stamp)];
    }
  }

  lemma {:induction false} YoungMembers<A>(es: seq<Entry<A>>, now: nat)
    ensures forall e :: e in Young(es, now) ==> e in es
  {
    if es != [] {
      YoungMembers(es[1..], now);
    }
  }

  lemma {:induction false} YoungDistinct<A>(es: seq<Entry<A>>, now: nat)
    requires NoDuplicates(es)
    ensures NoDuplicates(Young(es, now))
  {
    if es != [] {
      var t := es[1..];
      YoungDistinct(t, now);
      YoungMembers(t, now);
      var y := Young(t, now);
      forall j | 0 <= j < |y|
        ensures y[j].path != es[0].path
      {
        assert y[j] in t;
      }
    }
  }

  lemma {:induction false} YoungTable<A>(es: seq<Entry<A>>, now: nat)
    requires NoDuplicates(es)
    ensures NoDuplicates(Young(es, now))
    ensures AsTable(Young(es, now)) == AgeOut(AsTable(es), now)
  {
    YoungDistinct(es, now);
    if es != [] {
      var t := es[1..];
      YoungTable(t, now);
      AsTableKeys(t, es[0].path);
      if Age(now, es[0].stamp) <= CACHE_PURGE_TIME {
        assert Young(es, now)[1..] == Young(t, now);
      }
    }
  }

  class ListCache<A> {
    var entries: seq<Entry<A>>

    ghost predicate Valid()
      reads this
    {
      NoDuplicates(entries)
    }

    ghost function Contents(): Table<A>
      reads this
    {
      AsTable(entries)
    }

    constructor ()
      ensures Valid() && Contents() == map[]
    {
      entries := [];
    }

    /** Walk to the entry of a path; |entries| when there is none. */
    method Find(p: Path) returns (i: nat)
      ensures i <= |entries|
      ensures i < |entries| ==> entries[i].path == p
      ensures i == |entries| ==> p !in Contents()
    {
      i := 0;
      while i < |entries| && entries[i].path != p
        invariant 0 <= i <= |entries|
        invariant forall k :: 0 <= k < i ==> entries[k].path != p
      {
        i := i + 1;
      }
      AsTableKeys(entries, p);
    }

    method Get(p: Path, now: nat) returns (r: Option<A>)
      requires Valid()
      ensures r == Lookup(Contents(), p, now)
    {
      var i := Find(p);
      r := None;
      if i < |entries| {
        AsTableAt(entries, i);
        if Age(now, entries[i].stamp) <= CACHE_TIMEOUT {
          r := Some(entries[i].attr);
        }
      }
    }

    method Set(p: Path, a: A, now: nat)
      requires Valid()
      modifies this
      ensures Valid() && Contents() == Store(old(Contents()), p, a, now)
    {
      var i := Find(p);
      var e := Entry(p, a, NtTime(now));
      if i < |entries| {
        AsTableSet(entries, i, e);
        entries := entries[i := e];
      } else {
        AsTableKeys(entries, p);
        ghost var tail := entries;
        entries := [e] + entries;
        assert entries[1..] == tail;
      }
    }

    method Invalidate(p: Path)
      requires Valid()
      modifies this
      ensures Valid() && Contents() == old(Contents()) - {p}
    {
      var i := Find(p);
      if i < |entries| {
        RemoveKeepsDistinct(entries, i);
        AsTableRemove(entries, i);
        entries := entries[..i] + entries[i + 1..];
      }
    }

    /** One round of the purge thread. */
    method Purge(now: nat)
      requires Valid()
      modifies this
      ensures Valid() && Contents() == AgeOut(old(Contents()), now)
    {
      ghost var es := entries;
      var i := 0;
      while i < |entries|
        invariant 0 <= i <= |entries|
        invariant Young(es, now) == entries[..i] + Young(entries[i..], now)
        decreases |entries| - i
      {
        ghost var rest := entries[i..];
        assert rest[0] == entries[i] && rest[1..] == entries[i + 1..];
        if Age(now, entries[i].stamp) > CACHE_PURGE_TIME {
          entries := entries[..i] + entries[i + 1..];
          assert entries[i..] == rest[1..];
        } else {
          assert entries[..i + 1] == entries[..i] + [entries[i]];
          i := i + 1;
        }
      }
      assert entries[..i] == entries && entries[i..] == [];
      assert entries == Young(es, now);
      YoungTable(es, now);
    }
  }

  class HashCache<A> {
    var table: Table<A>

    constructor ()
      ensures table == map[]
    {
      table := map[];
    }

    method Get(p: Path, now: nat) returns (r: Option<A>)
      ensures r == Lookup(table, p, now)
    {
      r := None;
      if p in table {
        var diff := Age(now, table[p].stamp);
        if diff <= CACHE_TIMEOUT {
          r := Some(table[p].attr);
        }
      }
    }

    method Set(p: Path, a: A, now: nat)
      modifies this
      ensures table == Store(old(table), p, a, now)
    {
      table := table[p := Slot(a, NtTime(now))];
    }

    method Invalidate(p: Path)
      modifies this
      ensures table == StampOut(old(table), p)
    {
      if p in table {
        table := table[p := table[p].(stamp := 0)];
      }
    }

    /** One round of the purge thread; the iteration order is the library's. */
    method Purge()
      modifies this
      ensures |old(table)| < HASH_THRESHOLD_SIZE ==> table == old(table)
      ensures |old(table)| >= HASH_THRESHOLD_SIZE ==> |table| == HASH_PURGE_SIZE - 1
      ensures table.Keys <= old(table.Keys)
      ensures forall p :: p in table ==> table[p] == old(table)[p]
    {
      if |table| >= HASH_THRESHOLD_SIZE {
        var unvisited := table.Keys;
        while unvisited != {} && |table| >= HASH_PURGE_SIZE
          invariant unvisited == table.Keys
          invariant |table| >= HASH_PURGE_SIZE - 1
          invariant table.Keys <= old(table.Keys)
          invariant forall p :: p in table ==> table[p] == old(table)[p]
          decreases unvisited
        {
          var p :| p in unvisited;
          unvisited := unvisited - {p};
          ghost var before := table;
          table := table - {p};
          assert table.Keys == before.Keys - {p};
        }
      }
    }
  }

  // --------------------------------------------------------------- every history

  datatype Event<A> =
    | SetAt(path: Path, attr: A, now: nat)
    | Invalidated(path: Path)
    | Purged(now: nat, victims: set<Path>)

  /** The hash table after a history; a purge may have taken any entries. */
  function HashAfter<A>(h: seq<Event<A>>): Table<A> {
    if h == [] then map[]
    else
      var m := HashAfter(h[..|h| - 1]);
      match h[|h| - 1]
      case SetAt(p, a, now) => Store(m, p, a, now)
      case Invalidated(p) => StampOut(m, p)
      case Purged(_, victims) => m - victims
  }

  /** The list after a history, as a table; its purge goes by age. */
  function ListAfter<A>(h: seq<Event<A>>): Table<A> {
    if h == [] then map[]
    else
      var m := ListAfter(h[..|h| - 1]);
      match h[|h| - 1]
      case SetAt(p, a, now) => Store(m, p, a, now)
      case Invalidated(p) => m - {p}
      case Purged(now, _) => AgeOut(m, now)
  }

  /** The reference: the last thing the history says about a path. */
  function LatestSet<A>(h: seq<Event<A>>, p: Path): Option<(A, nat)> {
    if h == [] then None
    else
      var before := LatestSet(h[..|h| - 1], p);
      match h[|h| - 1]
      case SetAt(q, a, now) => if p == q then Some((a, now)) else before
      case Invalidated(q) => if p == q then None else before
      case Purged(_, _) => before
  }

  /** What a cache that answers exactly while entries are recent would say. */
  function Reference<A>(h: seq<Event<A>>, p: Path, now: nat): Option<A> {
    match LatestSet(h, p)
    case None => None
    case Some((a, t)) => if t <= now <= t + CACHE_TIMEOUT then Some(a) else None
  }

  /** The latest set of a path is not out of the narrowed age's range at `now`. */
  predicate SaneFor<A>(h: seq<Event<A>>, p: Path, now: nat) {
    match LatestSet(h, p)
    case None => true
    case Some((_, t)) => ClockSane(now, t)
  }

  lemma {:induction false} HashEntries<A>(h: seq<Event<A>>, p: Path)
    requires p in HashAfter(h)
    ensures var slot := HashAfter(h)[p];
            match LatestSet(h, p)
            case None => slot.stamp == 0
            case Some((a, t)) => slot == Slot(a, NtTime(t))
  {
    var init := h[..|h| - 1];
    if p in HashAfter(init) {
      HashEntries(init, p);
    }
  }

  /** Soundness of the hash cache over every history, as long as the path is not last
      heard of in an invalidation while a zero stamp is fresh: a hit is the value of the
      latest set for that path, at most CACHE_TIMEOUT seconds old and not invalidated
      since. */
  lemma HashHitIsRecent<A>(h: seq<Event<A>>, p: Path, now: nat)
    requires SaneFor(h, p, now) && (LatestSet(h, p).None? ==> !Fresh(now, 0))
    ensures Lookup(HashAfter(h), p, now).Some? ==> Lookup(HashAfter(h), p, now) == Reference(h, p, now)
  {
    if p in HashAfter(h) {
      HashEntries(h, p);
      if LatestSet(h, p).Some? {
        FreshIffRecent(now, LatestSet(h, p).value.1);
      }
    }
  }

  /** Where a zero stamp is fresh, an invalidation is ignored. */
  lemma InvalidationIgnored<A>(p: Path, a: A, t: nat, now: nat)
    requires Fresh(now, 0)
    ensures Lookup(HashAfter([SetAt(p, a, t), Invalidated(p)]), p, now) == Some(a)
  {
    var h := [SetAt(p, a, t), Invalidated(p)];
    assert h[..1] == [SetAt(p, a, t)];
    assert [SetAt(p, a, t)][..0] == [];
    assert HashAfter(h[..1])[p] == Slot(a, NtTime(t));
  }

  lemma {:induction false} ListHolds<A>(h: seq<Event<A>>, p: Path)
    requires p in ListAfter(h)
    ensures LatestSet(h, p).Some?
    ensures var (a, t) := LatestSet(h, p).value; ListAfter(h)[p] == Slot(a, NtTime(t))
  {
    var init := h[..|h| - 1];
    if p in ListAfter(init) {
      ListHolds(init, p);
    }
  }

  /** The same for the list cache, at every time: it never keeps an invalidated entry. */
  lemma ListHitIsRecent<A>(h: seq<Event<A>>, p: Path, now: nat)
    requires SaneFor(h, p, now)
    ensures Lookup(ListAfter(h), p, now).Some? ==> Lookup(ListAfter(h), p, now) == Reference(h, p, now)
  {
    if p in ListAfter(h) {
      ListHolds(h, p);
      FreshIffRecent(now, LatestSet(h, p).value.1);
    }
  }

  /** A purge has taken the path since it was last set. */
  predicate Taken<A>(h: seq<Event<A>>, p: Path) {
    h != [] &&
    match h[|h| - 1]
    case SetAt(q, _, _) => p != q && Taken(h[..|h| - 1], p)
    case Invalidated(_) => Taken(h[..|h| - 1], p)
    case Purged(_, victims) => p in victims || Taken(h[..|h| - 1], p)
  }

  predicate EverSet<A>(h: seq<Event<A>>, p: Path) {
    h != [] && ((h[|h| - 1].SetAt? && h[|h| - 1].path == p) || EverSet(h[..|h| - 1], p))
  }

  /** An entry stays in the table from its first set on, until a purge takes it. */
  lemma {:induction false} HashHoldsLatest<A>(h: seq<Event<A>>, p: Path)
    ensures p in HashAfter(h) <==> EverSet(h, p) && !Taken(h, p)
    ensures LatestSet(h, p).Some? ==> EverSet(h, p)
  {
    if h != [] {
      HashHoldsLatest(h[..|h| - 1], p);
    }
  }

  /** Completeness: the hash cache is the reference, but for paths that a purge has
      taken since their latest set. */
  lemma HashRefinesReference<A>(h: seq<Event<A>>, p: Path, now: nat)
    requires SaneFor(h, p, now) && (LatestSet(h, p).None? ==> !Fresh(now, 0))
    ensures Lookup(HashAfter(h), p, now) == if Taken(h, p) then None else Reference(h, p, now)
  {
    HashHoldsLatest(h, p);
    HashHitIsRecent(h, p, now);
    if LatestSet(h, p).Some? && !Taken(h, p) {
      HashEntries(h, p);
      FreshIffRecent(now, LatestSet(h, p).value.1);
    }
  }

  /** The hash cache gives a wrong answer exactly for a path that was set and then
      invalidated, and not taken by a purge, while a zero stamp is fresh. */
  lemma HashWrongIff<A>(h: seq<Event<A>>, p: Path, now: nat)
    requires SaneFor(h, p, now)
    ensures var hit := Lookup(HashAfter(h), p, now);
            (hit.Some? && hit != Reference(h, p, now)) <==>
            (LatestSet(h, p).None? && EverSet(h, p) && !Taken(h, p) && Fresh(now, 0))
  {
    HashHoldsLatest(h, p);
    if p in HashAfter(h) {
      HashEntries(h, p);
      if LatestSet(h, p).Some? {
        FreshIffRecent(now, LatestSet(h, p).value.1);
      }
    }
  }

  /** Clock readings never decrease and end at or before `now`. */
  ghost predicate Timely<A>(h: seq<Event<A>>, now: nat)
    decreases |h|
  {
    && now <= LAST_TIME
    && (h != [] ==>
          var last := h[|h| - 1];
          if last.Invalidated? then Timely(h[..|h| - 1], now)
          else last.now <= now && Timely(h[..|h| - 1], last.now))
  }

  /** What the list holds, and why an entry it was given may be gone. */
  lemma {:induction false} ListEntries<A>(h: seq<Event<A>>, p: Path, now: nat)
    requires Timely(h, now)
    ensures match LatestSet(h, p)
            case None => p !in ListAfter(h)
            case Some((a, t)) =>
              && t <= now
              && (if p in ListAfter(h) then ListAfter(h)[p] == Slot(a, NtTime(t)) else t + CACHE_PURGE_TIME < now)
    decreases |h|
  {
    if h != [] {
      var init := h[..|h| - 1];
      var last := h[|h| - 1];
      ListEntries(init, p, if last.Invalidated? then now else last.now);
      if last.Purged? && LatestSet(init, p).Some? {
        AgeExact(last.now, LatestSet(init, p).value.1);
      }
    }
  }

  /** The list cache is the reference at every point of every history with a clock that
      is not turned back: its age purge is invisible. */
  lemma ListRefinesReference<A>(h: seq<Event<A>>, p: Path, now: nat)
    requires Timely(h, now) && SaneFor(h, p, now)
    ensures Lookup(ListAfter(h), p, now) == Reference(h, p, now)
  {
    ListEntries(h, p, now);
    match LatestSet(h, p)
    case None =>
    case Some((a, t)) => FreshIffRecent(now, t);
  }

  /** A purge of the list at a time leaves exactly the paths whose latest set is at most
      10 seconds old by then. */
  lemma PurgeKeepsTheYoung<A>(h: seq<Event<A>>, p: Path, now: nat, victims: set<Path>)
    requires Timely(h, now) && SaneFor(h, p, now)
    ensures p in ListAfter(h + [Purged(now, victims)]) <==>
            LatestSet(h, p).Some? && now <= LatestSet(h, p).value.1 + 10
  {
    assert (h + [Purged(now, victims)])[..|h|] == h;
    ListEntries(h, p, now);
    if LatestSet(h, p).Some? {
      AgeForward(now, LatestSet(h, p).value.1);
    }
  }
}
