/**
  The FUSE calls of vmhgfs-fuse that read, fill or invalidate the attribute cache,
  over a server whose attributes only these calls change.
*/
module Coherence {
  import opened Common
  import opened AttrCache

  datatype FileType = Regular | Directory | Symlink

  datatype Attr = Attr(kind: FileType, size: nat, mode: nat, uid: nat, gid: nat, atime: nat, mtime: nat, ctime: nat)

  datatype CacheKind = ListKind | HashKind

  /** The server is keyed by absolute paths, and so is the cache. */
  datatype World = World(kind: CacheKind, base: Path, server: map<Path, Attr>, cache: Table<Attr>, clock: nat)

  function Abs(w: World, p: Path): Path {
    w.base + p
  }

  function Invalidate(kind: CacheKind, m: Table<Attr>, p: Path): Table<Attr> {
    match kind
    case ListKind => m - {p}
    case HashKind => StampOut(m, p)
  }

  /** Calls as they complete; `effect` is what the server then reports for the path. */
  datatype Call =
    | Getattr(path: Path)
    | Access(path: Path)
    | Create(path: Path, effect: Attr)        // create, mkdir, symlink
    | Setattr(path: Path, effect: Attr)       // chmod, chown, truncate
    | Utimens(path: Path, effect: Attr)
    | Write(path: Path, effect: Attr)
    | Unlink(path: Path)                      // unlink, rmdir
    | Rename(path: Path, target: Path, effect: Attr)
    | Tick(now: nat)
    | Purge(victims: set<Path>)
    // calls that change the server and then report a failure
    | SetattrLost(path: Path, effect: Attr)   // set, but the attributes could not be read back
    | WriteFailed(path: Path, effect: Attr)   // some chunks written, a later one refused
    | UnlinkFailed(path: Path, effect: Attr)  // read-only bit handled, delete refused

  predicate Succeeds(c: Call) {
    !(c.SetattrLost? || c.WriteFailed? || c.UnlinkFailed?)
  }

  // ------------------------------------------------------------ renaming on the server

  /** k names something inside the directory a. */
  predicate Below(a: Path, k: Path) {
    |a| < |k| && k[..|a|] == a && k[|a|] == '/'
  }

  /** What a server asks of a rename: distinct places, neither inside the other, nothing
      inside the target, and only directories have anything inside them. */
  ghost predicate RenameOk(server: map<Path, Attr>, a: Path, b: Path) {
    && a in server && a != b && !Below(a, b) && !Below(b, a)
    && (forall k :: k in server ==> !Below(b, k))
    && (!server[a].kind.Directory? ==> forall k :: k in server ==> !Below(a, k))
  }

  /** The server after a rename: what was inside a is now inside b. */
  function Moved(server: map<Path, Attr>, a: Path, b: Path, effect: Attr): map<Path, Attr> {
    var stay := set k | k in server && k != a && !Below(a, k);
    var moved := set k | k in server && Below(a, k) :: b + k[|a|..];
    map k | k in stay + moved + {b} ::
      if k == b then effect
      else if Below(b, k) && a + k[|b|..] in server then server[a + k[|b|..]]
      else if k in server then server[k] else effect
  }

  lemma TreesApart(a: Path, b: Path, k: Path)
    requires Below(a, k) && Below(b, k)
    ensures a == b || Below(a, b) || Below(b, a)
  {
    if |a| < |b| {
      assert b[..|a|] == k[..|b|][..|a|] == a && b[|a|] == k[|a|];
    } else if |b| < |a| {
      assert a[..|b|] == k[..|a|][..|b|] == b && a[|b|] == k[|b|];
    }
  }

  /** A rename leaves every path alone that is neither end nor inside either, empties
      the source, and brings everything inside it, and nothing else, to the target. */
  lemma MovedSpec(server: map<Path, Attr>, a: Path, b: Path, effect: Attr, k: Path)
    requires RenameOk(server, a, b)
    ensures k == a || Below(a, k) ==> k !in Moved(server, a, b, effect)
    ensures k != a && k != b && !Below(a, k) && !Below(b, k) ==>
              (k in Moved(server, a, b, effect) <==> k in server) &&
              (k in server ==> Moved(server, a, b, effect)[k] == server[k])
    ensures b in Moved(server, a, b, effect) && Moved(server, a, b, effect)[b] == effect
    ensures Below(b, k) ==>
              (k in Moved(server, a, b, effect) <==> a + k[|b|..] in server) &&
              (k in Moved(server, a, b, effect) ==> Moved(server, a, b, effect)[k] == server[a + k[|b|..]])
  {
    if Below(a, k) && Below(b, k) {
      TreesApart(a, b, k);
    }
    forall j | j in server && Below(a, j)
      ensures Below(b, b + j[|a|..]) && a + (b + j[|a|..])[|b|..] == j
    {
      assert (b + j[|a|..])[..|b|] == b && (b + j[|a|..])[|b|] == j[|a|];
    }
    if Below(b, k) {
      var j := a + k[|b|..];
      assert j[..|a|] == a && j[|a|] == '/' && b + j[|a|..] == k;
    }
  }

  // ----------------------------------------------------------------------- the calls

  /** The server can complete the call. */
  ghost predicate Possible(w: World, c: Call) {
    match c
    case Getattr(_) => true
    case Access(_) => true
    case Tick(now) => now <= LAST_TIME
    case Purge(_) => true
    case Create(p, _) => Abs(w, p) !in w.server
    case Rename(p, q, _) => RenameOk(w.server, Abs(w, p), Abs(w, q))
    case _ => Abs(w, c.path) in w.server
  }

  /** Fetch the attributes through the cache, as getattr and utimens do. */
  function Fetch(w: World, key: Path): (r: (World, Option<Attr>))
  {
    match Lookup(w.cache, key, w.clock)
    case Some(a) => (w, Some(a))
    case None =>
      if key in w.server
      then (w.(cache := Store(w.cache, key, w.server[key], w.clock)), Some(w.server[key]))
      else (w, None)
  }

  /** hgfs_access consults the cache under the local path but the server, and the
      cache it fills, under the absolute one. */
  function AccessFetch(w: World, p: Path): (r: (World, Option<Attr>)) {
    match Lookup(w.cache, p, w.clock)
    case Some(a) => (w, Some(a))
    case None =>
      if Abs(w, p) in w.server
      then (w.(cache := Store(w.cache, Abs(w, p), w.server[Abs(w, p)], w.clock)), Some(w.server[Abs(w, p)]))
      else (w, None)
  }

  function Refresh(w: World, key: Path, effect: Attr): World {
    w.(server := w.server[key := effect], cache := Store(w.cache, key, effect, w.clock))
  }

  ghost function Step(w: World, c: Call): World
    requires Possible(w, c)
  {
    match c
    case Getattr(p) => Fetch(w, Abs(w, p)).0
    case Access(p) => AccessFetch(w, p).0
    case Create(p, e) => w.(server := w.server[Abs(w, p) := e])
    case Setattr(p, e) => Refresh(w, Abs(w, p), e)
    case Utimens(p, e) =>
      var (f, a) := Fetch(w, Abs(w, p));
      if a.Some? && a.value.kind.Symlink? then f else Refresh(f, Abs(w, p), e)
    case Write(p, e) =>
      w.(server := w.server[Abs(w, p) := e], cache := Invalidate(w.kind, w.cache, Abs(w, p)))
    case Unlink(p) =>
      w.(server := w.server - {Abs(w, p)}, cache := Invalidate(w.kind, w.cache, Abs(w, p)))
    case Rename(p, q, e) =>
      w.(server := Moved(w.server, Abs(w, p), Abs(w, q), e),
         cache := Invalidate(w.kind, Invalidate(w.kind, w.cache, Abs(w, p)), Abs(w, q)))
    case Tick(now) => w.(clock := now)
    case Purge(victims) => w.(cache := w.cache - victims)
    case SetattrLost(p, e) => w.(server := w.server[Abs(w, p) := e])
    case WriteFailed(p, e) => w.(server := w.server[Abs(w, p) := e])
    case UnlinkFailed(p, e) => w.(server := w.server[Abs(w, p) := e])
  }

  ghost function Run(w: World, calls: seq<Call>): Option<World>
    decreases |calls|
  {
    if calls == [] then Some(w)
    else
      var n := |calls| - 1;
      match Run(w, calls[..n])
      case None => None
      case Some(v) => if Possible(v, calls[n]) then Some(Step(v, calls[n])) else None
  }

  // ---------------------------------------------------------------- coherence

  /** Every live copy in the cache is what the server holds; the list keeps no other. */
  ghost predicate Coherent(w: World) {
    && w.clock <= LAST_TIME
    && (forall k :: k in w.cache && w.cache[k].stamp != 0 ==> k in w.server && w.server[k] == w.cache[k].attr)
    && (w.kind.ListKind? ==> forall k :: k in w.cache ==> w.cache[k].stamp != 0)
  }

  /** A copy that was invalidated is not taken for fresh: always so in the list, and in
      the hash table whenever a zero stamp is stale. */
  predicate DropsInvalidated(kind: CacheKind, now: nat) {
    kind.ListKind? || !Fresh(now, 0)
  }

  lemma StampNonZero(now: nat)
    requires now <= LAST_TIME
    ensures NtTime(now) == now * TICKS + UNIX_EPOCH
    ensures NtTime(now) != 0
  {
  }

  /** A hit in a coherent world is the server's value. */
  lemma HitIsServers(w: World, k: Path)
    requires Coherent(w) && DropsInvalidated(w.kind, w.clock)
    ensures Lookup(w.cache, k, w.clock).Some? ==>
              k in w.server && Lookup(w.cache, k, w.clock).value == w.server[k]
  {
  }

  lemma FetchKeepsCoherent(w: World, k: Path)
    requires Coherent(w)
    ensures Coherent(Fetch(w, k).0)
    ensures DropsInvalidated(w.kind, w.clock) ==>
              Fetch(w, k).1 == if k in w.server then Some(w.server[k]) else None
  {
    StampNonZero(w.clock);
    if DropsInvalidated(w.kind, w.clock) {
      HitIsServers(w, k);
    }
  }

  lemma AccessKeepsCoherent(w: World, p: Path)
    requires Coherent(w)
    ensures Coherent(AccessFetch(w, p).0)
  {
    StampNonZero(w.clock);
  }

  /** No live copy of anything inside the directory. */
  ghost predicate NothingCachedBelow(w: World, a: Path) {
    forall k :: k in w.cache && Below(a, k) ==> w.cache[k].stamp == 0
  }

  /** A rename keeps the cache coherent exactly when no live copy of anything inside the
      source is cached: the code invalidates the two ends only. */
  lemma RenameCoherence(w: World, c: Call)
    requires Coherent(w) && Possible(w, c) && c.Rename?
    ensures Coherent(Step(w, c)) <==> NothingCachedBelow(w, Abs(w, c.path))
  {
    var a, b := Abs(w, c.path), Abs(w, c.target);
    var v := Step(w, c);
    forall k
      ensures k in v.cache && v.cache[k].stamp != 0 <==>
              k in w.cache && w.cache[k].stamp != 0 && k != a && k != b
    {
    }
    forall k | k in v.cache && v.cache[k].stamp != 0
      ensures v.cache[k] == w.cache[k] && k in w.server && !Below(b, k)
      ensures (k in v.server && v.server[k] == w.server[k]) <==> !Below(a, k)
    {
      MovedSpec(w.server, a, b, c.effect, k);
    }
    if !NothingCachedBelow(w, a) {
      var k :| k in w.cache && Below(a, k) && w.cache[k].stamp != 0;
      assert k in v.cache && v.cache[k].stamp != 0;
    }
  }

  /** A directory renamed over a cached child: after a getattr of anything inside it and
      the rename, the cache still answers for a path the server no longer has. */
  lemma RenameMissesChild(w: World, child: Path, c: Call)
    requires Coherent(w) && DropsInvalidated(w.kind, w.clock) && Possible(w, c) && c.Rename?
    requires Abs(w, child) in w.server && Below(Abs(w, c.path), Abs(w, child))
    ensures var v := Step(Step(w, Getattr(child)), c);
            && Lookup(v.cache, Abs(w, child), w.clock) == Some(w.server[Abs(w, child)])
            && Abs(w, child) !in v.server && !Coherent(v)
  {
    var k := Abs(w, child);
    FetchKeepsCoherent(w, k);
    FreshIffRecent(w.clock, w.clock);
    MovedSpec(w.server, Abs(w, c.path), Abs(w, c.target), c.effect, k);
    HitIsServers(w, k);
    StampNonZero(w.clock);
    var u := Step(w, Getattr(child));
    assert k in u.cache && u.cache[k].stamp != 0;
    assert Lookup(u.cache, k, w.clock) == Some(w.server[k]);
    assert k in Step(u, c).cache && Step(u, c).cache[k] == u.cache[k];
  }

  /** One such input: /d/f is looked up, then /d is renamed to /e. */
  lemma RenamedParent(kind: CacheKind, clock: nat, dir: Attr, file: Attr)
    requires dir.kind.Directory? && clock <= LAST_TIME && DropsInvalidated(kind, clock)
    ensures var w := World(kind, "", map["/d" := dir, "/d/f" := file], map[], clock);
            var c := Rename("/d", "/e", dir);
            && Coherent(w) && Possible(w, c) && !Coherent(Step(Step(w, Getattr("/d/f")), c))
  {
    var w := World(kind, "", map["/d" := dir, "/d/f" := file], map[], clock);
    var d, e, f := "/d", "/e", "/d/f";
    assert w.base + d == d && w.base + e == e && w.base + f == f;
    assert d[..1] == "/" && d[1] != e[1] && f[1] != e[1];
    assert Below(d, f) && !Below(d, e) && !Below(e, d) && !Below(e, f);
    assert RenameOk(w.server, d, e);
    RenameMissesChild(w, f, Rename(d, e, dir));
  }

  /** Renaming anything but a directory is always harmless. */
  lemma FileRenameHarmless(w: World, c: Call)
    requires Coherent(w) && Possible(w, c) && c.Rename? && !w.server[Abs(w, c.path)].kind.Directory?
    ensures NothingCachedBelow(w, Abs(w, c.path))
  {
  }

  ghost predicate Harmless(w: World, c: Call) {
    Succeeds(c) && (c.Rename? ==> NothingCachedBelow(w, Abs(w, c.path)))
  }

  lemma StepKeepsCoherent(w: World, c: Call)
    requires Coherent(w) && Possible(w, c) && Harmless(w, c)
    ensures Coherent(Step(w, c))
  {
    StampNonZero(w.clock);
    match c
    case Getattr(p) => FetchKeepsCoherent(w, Abs(w, p));
    case Access(p) => AccessKeepsCoherent(w, p);
    case Utimens(p, e) => FetchKeepsCoherent(w, Abs(w, p));
    case Rename(_, _, _) => RenameCoherence(w, c);
    case _ =>
  }

  /** Every call of the run succeeds, and no directory is renamed over live copies. */
  ghost predicate HarmlessRun(w: World, calls: seq<Call>)
    requires Run(w, calls).Some?
    decreases |calls|
  {
    calls != [] ==>
      var n := |calls| - 1;
      HarmlessRun(w, calls[..n]) && Harmless(Run(w, calls[..n]).value, calls[n])
  }

  lemma {:induction false} RunKeepsCoherent(w: World, calls: seq<Call>)
    requires Coherent(w) && Run(w, calls).Some? && HarmlessRun(w, calls)
    ensures Coherent(Run(w, calls).value)
    ensures Run(w, calls).value.base == w.base && Run(w, calls).value.kind == w.kind
    decreases |calls|
  {
    if calls != [] {
      var n := |calls| - 1;
      RunKeepsCoherent(w, calls[..n]);
      StepKeepsCoherent(Run(w, calls[..n]).value, calls[n]);
    }
  }

  /** After every harmless run of calls, clock ticks and purges, from an empty cache: a
      hit on any local path is what the server holds for its absolute path. */
  lemma CacheIsCoherent(kind: CacheKind, base: Path, server: map<Path, Attr>, clock: nat, calls: seq<Call>, p: Path)
    requires clock <= LAST_TIME
    requires Run(World(kind, base, server, map[], clock), calls).Some?
    requires HarmlessRun(World(kind, base, server, map[], clock), calls)
    ensures var w := Run(World(kind, base, server, map[], clock), calls).value;
            var hit := Lookup(w.cache, base + p, w.clock);
            hit.Some? && DropsInvalidated(kind, w.clock) ==>
              base + p in w.server && hit.value == w.server[base + p]
  {
    var w0 := World(kind, base, server, map[], clock);
    RunKeepsCoherent(w0, calls);
    var w := Run(w0, calls).value;
    if DropsInvalidated(kind, w.clock) {
      HitIsServers(w, base + p);
    }
  }

  // --------------------------------------------------- the same without a cache

  function At(server: map<Path, Attr>, k: Path): Option<Attr> {
    if k in server then Some(server[k]) else None
  }

  predicate IsSymlink(a: Option<Attr>) {
    a.Some? && a.value.kind.Symlink?
  }

  /** The attributes of a path after a sequence of calls, by the calls alone: those that
      the last call for the path gave it, and behind a rename those of its old place. */
  function Plain(server: map<Path, Attr>, base: Path, calls: seq<Call>, k: Path): Option<Attr>
    decreases |calls|
  {
    if calls == [] then At(server, k)
    else
      var before := calls[..|calls| - 1];
      match calls[|calls| - 1]
      case Getattr(_) => Plain(server, base, before, k)
      case Access(_) => Plain(server, base, before, k)
      case Tick(_) => Plain(server, base, before, k)
      case Purge(_) => Plain(server, base, before, k)
      case Unlink(p) => if k == base + p then None else Plain(server, base, before, k)
      case Utimens(p, e) =>
        var was := Plain(server, base, before, k);
        if k == base + p && !IsSymlink(was) then Some(e) else was
      case Rename(p, q, e) =>
        var a, b := base + p, base + q;
        if k == b then Some(e)
        else if k == a || Below(a, k) then None
        else if Below(b, k) then Plain(server, base, before, a + k[|b|..])
        else Plain(server, base, before, k)
      case c => if k == base + c.path then Some(c.effect) else Plain(server, base, before, k)
  }

  /** A zero stamp is stale whenever utimens looks a file up. */
  ghost predicate DropsAtUtimens(w: World, calls: seq<Call>)
    requires Run(w, calls).Some?
    decreases |calls|
  {
    calls != [] ==>
      var n := |calls| - 1;
      var v := Run(w, calls[..n]).value;
      DropsAtUtimens(w, calls[..n]) && (calls[n].Utimens? ==> DropsInvalidated(v.kind, v.clock))
  }

  lemma UtimensOnServer(w: World, p: Path, e: Attr, k: Path)
    requires Coherent(w) && DropsInvalidated(w.kind, w.clock) && Abs(w, p) in w.server
    ensures At(Step(w, Utimens(p, e)).server, k) ==
            if k == Abs(w, p) && !IsSymlink(At(w.server, k)) then Some(e) else At(w.server, k)
  {
    FetchKeepsCoherent(w, Abs(w, p));
  }

  lemma RenameOnServer(w: World, c: Call, k: Path)
    requires Possible(w, c) && c.Rename?
    ensures var a, b := Abs(w, c.path), Abs(w, c.target);
            At(Step(w, c).server, k) ==
            if k == b then Some(c.effect)
            else if k == a || Below(a, k) then None
            else if Below(b, k) then At(w.server, a + k[|b|..])
            else At(w.server, k)
  {
    MovedSpec(w.server, Abs(w, c.path), Abs(w, c.target), c.effect, k);
  }

  /** The server holds what the calls alone say. */
  lemma {:induction false} ServerIsPlain(w: World, calls: seq<Call>, k: Path)
    requires Coherent(w) && Run(w, calls).Some? && HarmlessRun(w, calls) && DropsAtUtimens(w, calls)
    ensures At(Run(w, calls).value.server, k) == Plain(w.server, w.base, calls, k)
    decreases |calls|
  {
    if calls != [] {
      var n := |calls| - 1;
      var before, c := calls[..n], calls[n];
      var v := Run(w, before).value;
      RunKeepsCoherent(w, before);
      ServerIsPlain(w, before, k);
      if c.Utimens? {
        UtimensOnServer(v, c.path, c.effect, k);
      } else if c.Rename? {
        RenameOnServer(v, c, k);
        if Below(Abs(v, c.target), k) {
          ServerIsPlain(w, before, Abs(v, c.path) + k[|Abs(v, c.target)|..]);
        }
      }
    }
  }

  /** The cache cannot be seen: after every harmless run from an empty cache, a getattr
      that the host answers reports for every path what the calls alone say. */
  lemma CacheIsInvisible(kind: CacheKind, base: Path, server: map<Path, Attr>, clock: nat, calls: seq<Call>, p: Path)
    requires clock <= LAST_TIME
    requires Run(World(kind, base, server, map[], clock), calls).Some?
    requires HarmlessRun(World(kind, base, server, map[], clock), calls)
    requires DropsAtUtimens(World(kind, base, server, map[], clock), calls)
    requires DropsInvalidated(kind, Run(World(kind, base, server, map[], clock), calls).value.clock)
    ensures Fetch(Run(World(kind, base, server, map[], clock), calls).value, base + p).1 ==
            Plain(server, base, calls, base + p)
  {
    var w0 := World(kind, base, server, map[], clock);
    RunKeepsCoherent(w0, calls);
    ServerIsPlain(w0, calls, base + p);
    FetchKeepsCoherent(Run(w0, calls).value, base + p);
  }

  // ------------------------------------------------------- every run, failures included

  /** The call stores attributes for the key, or gives up the copy it has. */
  predicate Stores(w: World, c: Call, k: Path) {
    match c
    case Getattr(p) => Abs(w, p) == k && Lookup(w.cache, k, w.clock).None? && k in w.server
    case Access(p) => Abs(w, p) == k && Lookup(w.cache, p, w.clock).None? && k in w.server
    case Setattr(p, _) => Abs(w, p) == k
    case Utimens(p, _) =>
      var hit := Lookup(w.cache, k, w.clock);
      Abs(w, p) == k && (hit.None? || !hit.value.kind.Symlink?)
    case _ => false
  }

  predicate Drops(w: World, c: Call, k: Path) {
    match c
    case Write(p, _) => Abs(w, p) == k
    case Unlink(p) => Abs(w, p) == k
    case Rename(p, q, _) => Abs(w, p) == k || Abs(w, q) == k
    case Purge(victims) => k in victims
    case _ => false
  }

  lemma StoreStep(w: World, c: Call, k: Path)
    requires Possible(w, c) && Stores(w, c, k)
    ensures var v := Step(w, c);
            k in v.cache && k in v.server && v.cache[k] == Slot(v.server[k], NtTime(v.clock))
  {
  }

  lemma DropStep(w: World, c: Call, k: Path)
    requires Possible(w, c) && Drops(w, c, k)
    ensures var v := Step(w, c);
            k in v.cache ==> v.kind.HashKind? && v.cache[k].stamp == 0
  {
  }

  lemma OtherStep(w: World, c: Call, k: Path)
    requires Possible(w, c) && !Stores(w, c, k) && !Drops(w, c, k)
    ensures var v := Step(w, c);
            (k in v.cache <==> k in w.cache) && (k in v.cache ==> v.cache[k] == w.cache[k])
  {
  }

  /** How many calls had run when the key was last stored, if nothing dropped it since. */
  ghost function StoredAt(w0: World, calls: seq<Call>, k: Path): (r: Option<nat>)
    requires Run(w0, calls).Some?
    ensures r.Some? ==> r.value <= |calls|
    decreases |calls|
  {
    if calls == [] then None
    else
      var n := |calls| - 1;
      var w := Run(w0, calls[..n]).value;
      if Stores(w, calls[n], k) then Some(|calls|)
      else if Drops(w, calls[n], k) then None
      else StoredAt(w0, calls[..n], k)
  }

  ghost function StateAt(w0: World, calls: seq<Call>, j: nat): World
    requires Run(w0, calls).Some? && j <= |calls|
    decreases |calls|
  {
    if j == |calls| then Run(w0, calls).value else StateAt(w0, calls[..|calls| - 1], j)
  }

  /** What the cache holds for a key after any run from an empty cache: the value the
      server held when the key was last stored, stamped with the time of that; or
      nothing live. */
  lemma {:induction false} CacheEntry(w0: World, calls: seq<Call>, k: Path)
    requires Run(w0, calls).Some? && w0.cache == map[]
    ensures var w := Run(w0, calls).value;
            && w.kind == w0.kind
            && match StoredAt(w0, calls, k)
               case None => k in w.cache ==> w.kind.HashKind? && w.cache[k].stamp == 0
               case Some(j) =>
                 var v := StateAt(w0, calls, j);
                 k in w.cache && k in v.server && w.cache[k] == Slot(v.server[k], NtTime(v.clock))
    decreases |calls|
  {
    if calls != [] {
      var n := |calls| - 1;
      var w := Run(w0, calls[..n]).value;
      CacheEntry(w0, calls[..n], k);
      if Stores(w, calls[n], k) {
        StoreStep(w, calls[n], k);
      } else if Drops(w, calls[n], k) {
        DropStep(w, calls[n], k);
      } else {
        OtherStep(w, calls[n], k);
      }
    }
  }

  /** What a lookup sees after any run, succeeding calls or not: the value the server
      held when the key was last stored, if that is at most CACHE_TIMEOUT seconds ago
      and nothing dropped it since; and nothing otherwise. */
  lemma LookupExactly(w0: World, calls: seq<Call>, k: Path)
    requires Run(w0, calls).Some? && w0.cache == map[]
    requires var w := Run(w0, calls).value;
             match StoredAt(w0, calls, k)
             case None => DropsInvalidated(w.kind, w.clock)
             case Some(j) => ClockSane(w.clock, StateAt(w0, calls, j).clock)
    ensures var w := Run(w0, calls).value;
            Lookup(w.cache, k, w.clock) ==
            match StoredAt(w0, calls, k)
            case None => None
            case Some(j) =>
              var v := StateAt(w0, calls, j);
              if v.clock <= w.clock <= v.clock + CACHE_TIMEOUT && k in v.server then Some(v.server[k]) else None
  {
    CacheEntry(w0, calls, k);
    var w := Run(w0, calls).value;
    if StoredAt(w0, calls, k).Some? {
      FreshIffRecent(w.clock, StateAt(w0, calls, StoredAt(w0, calls, k).value).clock);
    }
  }

  /** Bounded staleness: every hit, after any run, is a value the server held for that
      path at most CACHE_TIMEOUT seconds ago. */
  lemma HitIsNotOld(w0: World, calls: seq<Call>, k: Path)
    requires Run(w0, calls).Some? && w0.cache == map[]
    requires var w := Run(w0, calls).value;
             match StoredAt(w0, calls, k)
             case None => DropsInvalidated(w.kind, w.clock)
             case Some(j) => ClockSane(w.clock, StateAt(w0, calls, j).clock)
    requires Lookup(Run(w0, calls).value.cache, k, Run(w0, calls).value.clock).Some?
    ensures var w := Run(w0, calls).value;
            exists j :: 0 <= j <= |calls| &&
              var v := StateAt(w0, calls, j);
              && k in v.server && v.server[k] == Lookup(w.cache, k, w.clock).value
              && v.clock <= w.clock <= v.clock + CACHE_TIMEOUT
  {
    LookupExactly(w0, calls, k);
    var j := StoredAt(w0, calls, k).value;
    assert k in StateAt(w0, calls, j).server;
  }

  /** The clock is never turned back. */
  ghost predicate Forward(w0: World, calls: seq<Call>)
    requires Run(w0, calls).Some?
    decreases |calls|
  {
    calls != [] ==>
      var n := |calls| - 1;
      Forward(w0, calls[..n]) && (calls[n].Tick? ==> Run(w0, calls[..n]).value.clock <= calls[n].now)
  }

  lemma {:induction false} ForwardClock(w0: World, calls: seq<Call>, j: nat)
    requires Run(w0, calls).Some? && Forward(w0, calls) && j <= |calls| && w0.clock <= LAST_TIME
    ensures w0.clock <= StateAt(w0, calls, j).clock <= Run(w0, calls).value.clock <= LAST_TIME
    decreases |calls|
  {
    if calls != [] {
      var n := |calls| - 1;
      ForwardClock(w0, calls[..n], if j <= n then j else n);
    }
  }

  /** The same said of the clock alone: if it is not turned back and the run spans less
      than 2^31 seconds, every hit is a value the server held at most CACHE_TIMEOUT
      seconds ago, whatever failed in between. */
  lemma BoundedStaleness(w0: World, calls: seq<Call>, k: Path)
    requires Run(w0, calls).Some? && w0.cache == map[] && w0.clock <= LAST_TIME && Forward(w0, calls)
    requires var w := Run(w0, calls).value;
             && w.clock - w0.clock < TWO31 && DropsInvalidated(w.kind, w.clock)
             && Lookup(w.cache, k, w.clock).Some?
    ensures var w := Run(w0, calls).value;
            exists j :: 0 <= j <= |calls| &&
              var v := StateAt(w0, calls, j);
              && k in v.server && v.server[k] == Lookup(w.cache, k, w.clock).value
              && v.clock <= w.clock <= v.clock + CACHE_TIMEOUT
  {
    if StoredAt(w0, calls, k).Some? {
      ForwardClock(w0, calls, StoredAt(w0, calls, k).value);
    }
    HitIsNotOld(w0, calls, k);
  }

  /** A failing call that changed the server is missed for exactly as long as a copy
      stored before it is fresh: a getattr after the call, at any later time, reports
      what the server held when the path was last stored iff that was at most
      CACHE_TIMEOUT seconds ago, and the server's own value otherwise. */
  lemma FailureWindow(w0: World, calls: seq<Call>, c: Call, now: nat)
    requires Run(w0, calls).Some? && w0.cache == map[] && !Succeeds(c)
    requires var w := Run(w0, calls).value;
             Possible(w, c) && now <= LAST_TIME &&
             match StoredAt(w0, calls, Abs(w, c.path))
             case None => DropsInvalidated(w.kind, now)
             case Some(j) => ClockSane(now, StateAt(w0, calls, j).clock)
    ensures var w := Run(w0, calls).value;
            var k := Abs(w, c.path);
            var v := Step(Step(w, c), Tick(now));
            Fetch(v, k).1 ==
            match StoredAt(w0, calls, k)
            case None => Some(c.effect)
            case Some(j) =>
              var u := StateAt(w0, calls, j);
              if u.clock <= now <= u.clock + CACHE_TIMEOUT && k in u.server then Some(u.server[k])
              else Some(c.effect)
  {
    var w := Run(w0, calls).value;
    var k := Abs(w, c.path);
    var v := Step(Step(w, c), Tick(now));
    assert v.cache == w.cache && v.clock == now && v.server == w.server[k := c.effect];
    CacheEntry(w0, calls, k);
    if StoredAt(w0, calls, k).Some? {
      FreshIffRecent(now, StateAt(w0, calls, StoredAt(w0, calls, k).value).clock);
    }
  }

  /** A write that fails after some chunks is missed: a getattr just before it and
      one just after it both report the old attributes. */
  lemma FailedWriteIsMissed(w: World, p: Path, e: Attr)
    requires Coherent(w) && DropsInvalidated(w.kind, w.clock)
    requires Abs(w, p) in w.server && e != w.server[Abs(w, p)]
    ensures var v := Step(Step(w, Getattr(p)), WriteFailed(p, e));
            && Fetch(v, Abs(w, p)).1 == Some(w.server[Abs(w, p)])
            && v.server[Abs(w, p)] == e
  {
    FetchKeepsCoherent(w, Abs(w, p));
    FreshIffRecent(w.clock, w.clock);
  }

  // -------------------------------------------------------------- access(2)

  /** access judges by the right file's attributes when the base path is empty or nothing
      fresh is cached under the bare local path, and otherwise by those of the file whose
      absolute path is the bare one; it goes wrong exactly when the two differ. */
  lemma AccessFetchExact(w: World, p: Path)
    requires Coherent(w) && DropsInvalidated(w.kind, w.clock)
    ensures var hit := Lookup(w.cache, p, w.clock);
            var used := AccessFetch(w, p).1;
            && (w.base == "" || hit.None? ==> used == if Abs(w, p) in w.server then Some(w.server[Abs(w, p)]) else None)
            && (hit.Some? ==> p in w.server && used == Some(w.server[p]))
    ensures var right := if Abs(w, p) in w.server then Some(w.server[Abs(w, p)]) else None;
            AccessFetch(w, p).1 != right <==>
            Lookup(w.cache, p, w.clock).Some? && Some(w.server[p]) != right
    ensures Coherent(AccessFetch(w, p).0)
  {
    AccessKeepsCoherent(w, p);
    HitIsServers(w, p);
    assert w.base == "" ==> Abs(w, p) == p;
  }

  /** Below a non-empty base, right after a getattr of p, access of the local path
      base + p is judged by the attributes of p. */
  lemma AccessUsesOtherFile(w: World, p: Path)
    requires Coherent(w) && DropsInvalidated(w.kind, w.clock) && Abs(w, p) in w.server
    ensures AccessFetch(Step(w, Getattr(p)), w.base + p).1 == Some(w.server[Abs(w, p)])
    ensures w.base != "" ==> Abs(w, w.base + p) != Abs(w, p)
  {
    FetchKeepsCoherent(w, Abs(w, p));
    FreshIffRecent(w.clock, w.clock);
    assert |Abs(w, w.base + p)| == |w.base| + |Abs(w, p)|;
  }

  // ------------------------------------------------------------------ the calls

  /** The file system side of the FUSE calls.  The flags say which of the requests
      the host answers; a refused request changes nothing on the server. */
  class Fuse {
    const kind: CacheKind
    const base: Path
    var server: map<Path, Attr>
    var cache: Table<Attr>
    var clock: nat

    ghost function Now(): World
      reads this
    {
      World(kind, base, server, cache, clock)
    }

    method GetAttrCache(key: Path) returns (r: Option<Attr>)
      ensures r == Lookup(cache, key, clock)
    {
      r := None;
      if key in cache && Age(clock, cache[key].stamp) <= CACHE_TIMEOUT {
        r := Some(cache[key].attr);
      }
    }

    method InvalidateAttrCache(key: Path)
      modifies `cache
      ensures cache == Invalidate(kind, old(cache), key)
    {
      if key in cache {
        cache := if kind.ListKind? then cache - {key} else cache[key := cache[key].(stamp := 0)];
      } else {
        assert cache - {key} == cache;
      }
    }

    /** hgfs_getattr: with a coherent cache the caller sees the server's current
        attributes whenever it sees any. */
    method Getattr(path: Path, answered: bool) returns (r: Option<Attr>)
      modifies `cache
      ensures old(Coherent(Now())) ==> Coherent(Now())
      ensures old(Coherent(Now())) && DropsInvalidated(kind, clock) && r.Some? ==>
                base + path in server && r.value == server[base + path]
      ensures answered ==> Now() == Step(old(Now()), Call.Getattr(path)) && r == Fetch(old(Now()), base + path).1
      ensures !answered ==> cache == old(cache) && r == Lookup(cache, base + path, clock)
    {
      ghost var w := Now();
      if Coherent(w) {
        FetchKeepsCoherent(w, base + path);
        if DropsInvalidated(kind, clock) {
          HitIsServers(w, base + path);
        }
      }
      var key := base + path;
      r := GetAttrCache(key);
      if r.None? && answered && key in server {
        r := Some(server[key]);
        cache := Store(cache, key, server[key], clock);
      }
    }

    /** hgfs_access, up to the permission check: the cache is asked for the local path
        and filled for the absolute one. */
    method AccessAttr(path: Path, answered: bool) returns (r: Option<Attr>)
      modifies `cache
      ensures answered ==> Now() == Step(old(Now()), Access(path)) && r == AccessFetch(old(Now()), path).1
      ensures !answered ==> cache == old(cache) && r == Lookup(cache, path, clock)
      ensures old(Coherent(Now())) ==> Coherent(Now())
    {
      ghost var w := Now();
      if Coherent(w) {
        AccessKeepsCoherent(w, path);
      }
      var key := base + path;
      r := GetAttrCache(path);
      if r.None? && answered && key in server {
        r := Some(server[key]);
        cache := Store(cache, key, server[key], clock);
      }
    }

    /** hgfs_chmod, hgfs_chown, hgfs_truncate: set, read back, cache. */
    method SetattrAndRefresh(path: Path, effect: Attr, set_: bool, readBack: bool) returns (ok: bool)
      modifies `server, `cache
      ensures ok <==> set_ && readBack && base + path in old(server)
      ensures Now() == if !set_ || base + path !in old(server) then old(Now())
                       else if readBack then Step(old(Now()), Setattr(path, effect))
                       else Step(old(Now()), SetattrLost(path, effect))
    {
      var key := base + path;
      if !set_ || key !in server {
        return false;
      }
      server := server[key := effect];
      if !readBack {
        return false;
      }
      cache := Store(cache, key, server[key], clock);
      ok := true;
    }

    /** hgfs_utimens: look the file up first and leave symbolic links alone. */
    method SetTimes(path: Path, effect: Attr, answered: bool, set_: bool, readBack: bool) returns (ok: bool)
      modifies `server, `cache
      ensures var fetched := if answered then Step(old(Now()), Call.Getattr(path)) else old(Now());
              var seen := if answered then Fetch(old(Now()), base + path).1
                          else Lookup(old(cache), base + path, clock);
              && (ok <==> seen.Some? &&
                          (seen.value.kind.Symlink? || (set_ && readBack && base + path in old(server))))
              && Now() == if seen.None? || seen.value.kind.Symlink? || !set_ || base + path !in old(server) then fetched
                          else if readBack then Step(fetched, Setattr(path, effect))
                          else Step(fetched, SetattrLost(path, effect))
      ensures ok && answered && base + path in old(server) ==> Now() == Step(old(Now()), Utimens(path, effect))
      ensures old(Coherent(Now())) && DropsInvalidated(kind, clock) ==>
                && (ok ==> Coherent(Now()) && base + path in old(server))
                && (base + path in old(server) && old(server)[base + path].kind.Symlink? ==>
                      server == old(server) && (answered ==> ok))
                && (base + path in old(server) && answered && set_ && readBack ==> ok)
    {
      ghost var w := Now();
      if Coherent(w) {
        FetchKeepsCoherent(w, base + path);
        StampNonZero(w.clock);
      }
      var a := Getattr(path, answered);
      if a.None? {
        return false;
      }
      if a.value.kind.Symlink? {
        return true;
      }
      ok := SetattrAndRefresh(path, effect, set_, readBack);
    }

    /** hgfs_write: the result is non-negative iff no chunk was refused. */
    method WriteFile(path: Path, effect: Attr, result: int)
      requires base + path in server
      modifies `server, `cache
      ensures Now() == if result >= 0 then Step(old(Now()), Write(path, effect))
                       else Step(old(Now()), WriteFailed(path, effect))
    {
      server := server[base + path := effect];
      if result >= 0 {
        InvalidateAttrCache(base + path);
      }
    }

    /** hgfs_unlink and hgfs_rmdir; a refusal may have changed the permissions. */
    method Remove(path: Path, effect: Attr, deleted: bool) returns (ok: bool)
      modifies `server, `cache
      ensures ok <==> deleted && base + path in old(server)
      ensures Now() == if base + path !in old(server) then old(Now())
                       else if deleted then Step(old(Now()), Unlink(path))
                       else Step(old(Now()), UnlinkFailed(path, effect))
    {
      var key := base + path;
      if key !in server {
        return false;
      }
      ok := deleted;
      if deleted {
        server := server - {key};
        InvalidateAttrCache(key);
      } else {
        server := server[key := effect];
      }
    }

    /** hgfs_create, hgfs_mkdir and hgfs_symlink never touch the cache. */
    method Make(path: Path, effect: Attr, made: bool) returns (ok: bool)
      modifies `server
      ensures ok <==> made && base + path !in old(server)
      ensures Now() == if ok then Step(old(Now()), Create(path, effect)) else old(Now())
    {
      ok := made && base + path !in server;
      if ok {
        server := server[base + path := effect];
      }
    }

    /** hgfs_rename; a refusal may have changed the target's permissions. */
    method Move(path: Path, target: Path, effect: Attr, renamed: bool) returns (ok: bool)
      requires renamed ==> RenameOk(server, base + path, base + target)
      modifies `server, `cache
      ensures ok <==> renamed
      ensures Now() == if ok then Step(old(Now()), Rename(path, target, effect))
                       else if base + target in old(server) then Step(old(Now()), UnlinkFailed(target, effect))
                       else old(Now())
    {
      ok := renamed;
      if ok {
        server := Moved(server, base + path, base + target, effect);
        InvalidateAttrCache(base + path);
        InvalidateAttrCache(base + target);
      } else if base + target in server {
        server := server[base + target := effect];
      }
    }
  }
}
