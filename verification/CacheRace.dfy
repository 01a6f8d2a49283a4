/**
  Getattr against write on one path, from different threads.  A getattr that missed the
  cache fetches from the host and stores afterwards; a write reaches the host and
  invalidates afterwards.  Nothing orders these four steps across threads.
*/
module CacheRace {
  import opened Common

  /** Identity of one getattr or write call. */
  type CallId = nat

  /** `server` counts the writes, so it names the attributes; `fetched` holds what a
      getattr is about to store. */
  datatype State = State(
    server: nat, cache: Option<nat>, begun: set<CallId>, fetched: map<CallId, nat>,
    written: set<CallId>, invalidated: set<CallId>)

  datatype Action =
    | Fetch(c: CallId)
    | Store(c: CallId)
    | Write(c: CallId)
    | Invalidate(c: CallId)
    | Forget              // the copy times out or is purged

  const INITIAL := State(0, None, {}, map[], {}, {})

  predicate Enabled(s: State, a: Action) {
    match a
    case Fetch(c) => c !in s.begun
    case Store(c) => c in s.fetched
    case Write(c) => c !in s.begun
    case Invalidate(c) => c in s.written && c !in s.invalidated
    case Forget => true
  }

  function Apply(s: State, a: Action): State
    requires Enabled(s, a)
  {
    match a
    case Fetch(c) => s.(begun := s.begun + {c}, fetched := s.fetched[c := s.server])
    case Store(c) => s.(cache := Some(s.fetched[c]), fetched := s.fetched - {c})
    case Write(c) => s.(begun := s.begun + {c}, server := s.server + 1, written := s.written + {c})
    case Invalidate(c) => s.(cache := None, invalidated := s.invalidated + {c})
    case Forget => s.(cache := None)
  }

  function Exec(actions: seq<Action>): Option<State> {
    if actions == [] then Some(INITIAL)
    else
      match Exec(actions[..|actions| - 1])
      case None => None
      case Some(s) =>
        var a := actions[|actions| - 1];
        if Enabled(s, a) then Some(Apply(s, a)) else None
  }

  /** How many writes a run holds. */
  function Writes(actions: seq<Action>): nat {
    if actions == [] then 0
    else Writes(actions[..|actions| - 1]) + if actions[|actions| - 1].Write? then 1 else 0
  }

  predicate TouchesCache(a: Action) {
    a.Store? || a.Invalidate? || a.Forget?
  }

  // ------------------------------------------------------------------ every run

  ghost predicate Inv(s: State) {
    && s.invalidated <= s.written <= s.begun && s.fetched.Keys <= s.begun
    && (forall c :: c in s.fetched ==> s.fetched[c] <= s.server)
    && (s.cache.Some? ==> s.cache.value <= s.server)
  }

  /** The server counts the writes, and nothing fetched or cached is newer than it. */
  lemma {:induction false} EveryRunKeepsInv(actions: seq<Action>)
    requires Exec(actions).Some?
    ensures Inv(Exec(actions).value) && Exec(actions).value.server == Writes(actions)
  {
    if actions != [] {
      EveryRunKeepsInv(actions[..|actions| - 1]);
    }
  }

  /** A getattr about to store holds what the server was when it fetched. */
  lemma {:induction false} FetchedAt(actions: seq<Action>, c: CallId) returns (f: nat)
    requires Exec(actions).Some? && c in Exec(actions).value.fetched
    ensures f < |actions| && actions[f] == Fetch(c) && Exec(actions).value.fetched[c] == Writes(actions[..f])
  {
    var n := |actions| - 1;
    if actions[n] == Fetch(c) {
      EveryRunKeepsInv(actions[..n]);
      f := n;
    } else {
      f := FetchedAt(actions[..n], c);
      assert actions[..n][..f] == actions[..f];
    }
  }

  /** A copy was stored, and nothing has touched the cache since. */
  ghost predicate LastStore(actions: seq<Action>, z: nat) {
    z < |actions| && actions[z].Store? && forall i :: z < i < |actions| ==> !TouchesCache(actions[i])
  }

  lemma {:induction false} CopyHasStore(actions: seq<Action>) returns (z: nat)
    requires Exec(actions).Some? && Exec(actions).value.cache.Some?
    ensures LastStore(actions, z)
  {
    var n := |actions| - 1;
    if actions[n].Store? {
      z := n;
    } else {
      z := CopyHasStore(actions[..n]);
      assert forall i :: z < i < n ==> actions[..n][i] == actions[i];
    }
  }

  /** The cached copy is what the server was when the storing getattr fetched. */
  lemma {:induction false} CopyOf(actions: seq<Action>, z: nat) returns (f: nat)
    requires Exec(actions).Some? && LastStore(actions, z)
    ensures f < z && actions[f] == Fetch(actions[z].c)
    ensures Exec(actions).value.cache == Some(Writes(actions[..f]))
  {
    var n := |actions| - 1;
    if z == n {
      f := FetchedAt(actions[..n], actions[n].c);
      assert actions[..n][..f] == actions[..f];
    } else {
      assert !TouchesCache(actions[n]);
      assert forall i :: z < i < n ==> actions[..n][i] == actions[i];
      f := CopyOf(actions[..n], z);
      assert actions[..n][..f] == actions[..f];
    }
  }

  lemma {:induction false} Begun(actions: seq<Action>, i: nat)
    requires Exec(actions).Some? && i < |actions| && (actions[i].Fetch? || actions[i].Write?)
    ensures actions[i].c in Exec(actions).value.begun
  {
    var n := |actions| - 1;
    if i < n {
      Begun(actions[..n], i);
    }
  }

  lemma {:induction false} PrefixRuns(actions: seq<Action>, n: nat)
    requires Exec(actions).Some? && n <= |actions|
    ensures Exec(actions[..n]).Some?
    ensures n < |actions| ==> Enabled(Exec(actions[..n]).value, actions[n])
    decreases |actions|
  {
    if n == |actions| {
      assert actions[..n] == actions;
    } else {
      var m := |actions| - 1;
      if n < m {
        PrefixRuns(actions[..m], n);
        assert actions[..m][..n] == actions[..n];
      }
    }
  }

  /** A call fetches once. */
  lemma FetchesOnce(actions: seq<Action>, f: nat, g: nat)
    requires Exec(actions).Some? && f <= g < |actions| && actions[f].Fetch? && actions[g] == actions[f]
    ensures f == g
  {
    if f < g {
      PrefixRuns(actions, g);
      Begun(actions[..g], f);
    }
  }

  lemma {:induction false} WritesGrow(actions: seq<Action>, m: nat, n: nat)
    requires m <= n <= |actions|
    ensures Writes(actions[..m]) <= Writes(actions[..n])
    decreases n
  {
    if m < n {
      WritesGrow(actions, m, n - 1);
      assert actions[..n][..n - 1] == actions[..n - 1];
    }
  }

  /** More writes by n than by m: one lies between. */
  lemma {:induction false} WriteBetween(actions: seq<Action>, m: nat, n: nat) returns (x: nat)
    requires m <= n <= |actions| && Writes(actions[..m]) < Writes(actions[..n])
    ensures m <= x < n && actions[x].Write?
    decreases n
  {
    if m == n {
      assert false;
    }
    assert actions[..n][..n - 1] == actions[..n - 1];
    if actions[n - 1].Write? {
      x := n - 1;
    } else {
      x := WriteBetween(actions, m, n - 1);
    }
  }

  /** A write that is through was invalidated after it was made. */
  lemma {:induction false} InvalidatedAfter(actions: seq<Action>, x: nat) returns (y: nat)
    requires Exec(actions).Some? && x < |actions| && actions[x].Write?
    requires actions[x].c in Exec(actions).value.invalidated
    ensures x < y < |actions| && actions[y] == Invalidate(actions[x].c)
  {
    var n := |actions| - 1;
    EveryRunKeepsInv(actions[..n]);
    if actions[n] == Invalidate(actions[x].c) {
      y := n;
    } else {
      y := InvalidatedAfter(actions[..n], x);
    }
  }

  // --------------------------------------------------------------- the race

  /** Every writer has invalidated. */
  predicate Quiescent(s: State) {
    s.invalidated == s.written
  }

  ghost predicate Stale(s: State) {
    s.cache.Some? && s.cache.value != s.server
  }

  /** In the run, a getattr fetched at f and stored at z, the last to touch the cache; in
      between, at x, another call wrote and, at y, invalidated. */
  ghost predicate OvertakenAt(actions: seq<Action>, f: nat, x: nat, y: nat, z: nat) {
    && f < x < y < z && LastStore(actions, z)
    && actions[f] == Fetch(actions[z].c)
    && actions[x].Write? && actions[y] == Invalidate(actions[x].c)
  }

  ghost predicate Overtaken(actions: seq<Action>) {
    exists f: nat, x: nat, y: nat, z: nat :: OvertakenAt(actions, f, x, y, z)
  }

  lemma StaleIsOvertaken(actions: seq<Action>)
    requires Exec(actions).Some? && Quiescent(Exec(actions).value) && Stale(Exec(actions).value)
    ensures Overtaken(actions)
  {
    EveryRunKeepsInv(actions);
    var z := CopyHasStore(actions);
    var f := CopyOf(actions, z);
    assert actions[..|actions|] == actions;
    var x := WriteBetween(actions, f, |actions|);
    Written(actions, x);
    var y := InvalidatedAfter(actions, x);
    assert TouchesCache(actions[y]);
    assert OvertakenAt(actions, f, x, y, z);
  }

  lemma {:induction false} Written(actions: seq<Action>, x: nat)
    requires Exec(actions).Some? && x < |actions| && actions[x].Write?
    ensures actions[x].c in Exec(actions).value.written
  {
    var n := |actions| - 1;
    if x < n {
      Written(actions[..n], x);
    }
  }

  lemma OvertakenIsStale(actions: seq<Action>, f: nat, x: nat, y: nat, z: nat)
    requires Exec(actions).Some? && OvertakenAt(actions, f, x, y, z)
    ensures Stale(Exec(actions).value)
  {
    EveryRunKeepsInv(actions);
    var g := CopyOf(actions, z);
    if f <= g {
      FetchesOnce(actions, f, g);
    } else {
      FetchesOnce(actions, g, f);
    }
    assert actions[..|actions|] == actions && actions[..x + 1][..x] == actions[..x];
    WritesGrow(actions, f, x);
    WritesGrow(actions, x + 1, |actions|);
  }

  /** In every interleaving, once all writers are through, the cached copy is stale
      exactly if the run holds a fetch, then a write, then the invalidation of that
      write, then the store of what was fetched, the last to touch the cache. */
  lemma StaleIffOvertaken(actions: seq<Action>)
    requires Exec(actions).Some? && Quiescent(Exec(actions).value)
    ensures Stale(Exec(actions).value) <==> Overtaken(actions)
  {
    if Stale(Exec(actions).value) {
      StaleIsOvertaken(actions);
    }
    if f: nat, x: nat, y: nat, z: nat :| OvertakenAt(actions, f, x, y, z) {
      OvertakenIsStale(actions, f, x, y, z);
    }
  }

  lemma ExecSnoc(actions: seq<Action>, s: State, a: Action)
    requires Exec(actions) == Some(s) && Enabled(s, a)
    ensures Exec(actions + [a]) == Some(Apply(s, a))
  {
    assert (actions + [a])[..|actions|] == actions;
  }

  /** Such an interleaving exists: fetch, write, invalidate, store. */
  lemma RaceLeavesStale()
    ensures var s := Exec([Fetch(0), Write(1), Invalidate(1), Store(0)]);
            s.Some? && Quiescent(s.value) && Stale(s.value)
  {
    var s := INITIAL;
    ExecSnoc([], s, Fetch(0));
    assert [] + [Fetch(0)] == [Fetch(0)];
    s := Apply(s, Fetch(0));
    ExecSnoc([Fetch(0)], s, Write(1));
    s := Apply(s, Write(1));
    ExecSnoc([Fetch(0), Write(1)], s, Invalidate(1));
    s := Apply(s, Invalidate(1));
    assert s.invalidated == {1} == s.written && s.fetched[0] == 0;
    ExecSnoc([Fetch(0), Write(1), Invalidate(1)], s, Store(0));
    assert [Fetch(0)] + [Write(1)] == [Fetch(0), Write(1)];
    assert [Fetch(0), Write(1)] + [Invalidate(1)] == [Fetch(0), Write(1), Invalidate(1)];
    assert [Fetch(0), Write(1), Invalidate(1)] + [Store(0)] == [Fetch(0), Write(1), Invalidate(1), Store(0)];
  }
}
