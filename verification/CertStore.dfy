/**
  The trusted certificate store: files named by a subject hash and a version number,
  kept by the add and remove commands of the certificate tool.
*/
module CertStore {
  type Hash = string
  type Cert = string

  datatype Key = Key(hash: Hash, version: nat)

  type Files = map<Key, Cert>

  /** How copying the certificate into the store ends. */
  datatype Copy = Whole | Unopened | Short(written: nat)

  /** What the file system does during one command: the directory listing, in any
      order, and the failures. */
  datatype Env = Env(listing: seq<nat>, searchFails: bool, unreadable: set<nat>, copy: Copy, renameFails: bool)

  datatype Found = Found(ok: bool, num: int, last: int)

  // ------------------------------------------------------------------ searching

  function Insert(x: nat, s: seq<nat>): seq<nat> {
    if s == [] || x <= s[0] then [x] + s else [s[0]] + Insert(x, s[1..])
  }

  function Sort(s: seq<nat>): seq<nat> {
    if s == [] then [] else Insert(s[0], Sort(s[1..]))
  }

  /** The comparison of the certificate with each listed file; a file that cannot be
      mapped ends it. */
  function Scan(files: Files, hash: Hash, c: Cert, unreadable: set<nat>, l: seq<nat>, last: int): Found {
    if l == [] then Found(true, -1, last)
    else if l[0] in unreadable || Key(hash, l[0]) !in files then Found(false, -1, last)
    else if files[Key(hash, l[0])] == c then Found(true, l[0], last)
    else Scan(files, hash, c, unreadable, l[1..], last)
  }

  function FindCert(files: Files, hash: Hash, c: Cert, env: Env): Found {
    var l := Sort(env.listing);
    if env.searchFails then Found(false, -1, -1)
    else if l == [] then Found(true, -1, -1)
    else Scan(files, hash, c, env.unreadable, l, l[|l| - 1])
  }

  function Copied(c: Cert, copy: Copy): Cert {
    if copy.Short? && copy.written < |c| then c[..copy.written] else c
  }

  function Add(files: Files, hash: Hash, c: Cert, env: Env): (Files, bool)
    requires FindCert(files, hash, c, env).last >= -1
  {
    var f := FindCert(files, hash, c, env);
    if f.ok && f.num >= 0 then (files, false)
    else if env.copy.Unopened? then (files, false)
    else (files[Key(hash, f.last + 1) := Copied(c, env.copy)], Copied(c, env.copy) == c)
  }

  function Remove(files: Files, hash: Hash, c: Cert, env: Env): (Files, bool) {
    var f := FindCert(files, hash, c, env);
    if !f.ok || f.num < 0 || env.renameFails then (files, false)
    else if f.last != f.num then
      if f.last >= 0 && Key(hash, f.last) in files then
        (files[Key(hash, f.num) := files[Key(hash, f.last)]] - {Key(hash, f.last)}, true)
      else (files, false)
    else (files - {Key(hash, f.num)}, true)
  }

  lemma LastIsVersion(files: Files, hash: Hash, c: Cert, env: Env)
    ensures FindCert(files, hash, c, env).last >= -1
  {
    var l := Sort(env.listing);
    if !env.searchFails && l != [] {
      ScanKeepsLast(files, hash, c, env.unreadable, l, l[|l| - 1]);
    }
  }

  lemma {:induction false} ScanKeepsLast(files: Files, hash: Hash, c: Cert, u: set<nat>, l: seq<nat>, last: int)
    ensures Scan(files, hash, c, u, l, last).last == last
  {
    if l != [] {
      ScanKeepsLast(files, hash, c, u, l[1..], last);
    }
  }

  // --------------------------------------------------- dense stores as sequences

  /** The files under a hash are the versions 0, 1, ..., |s| - 1, with contents s. */
  ghost predicate Holds(files: Files, hash: Hash, s: seq<Cert>) {
    && (forall v: nat :: Key(hash, v) in files <==> v < |s|)
    && (forall v: nat :: v < |s| ==> files[Key(hash, v)] == s[v])
  }

  ghost predicate Distinct<T(!new)>(s: seq<T>) {
    forall i, j :: 0 <= i < j < |s| ==> s[i] != s[j]
  }

  /** The listing, if the directory opens at all, names each version under the hash
      once, in any order. */
  ghost predicate Enumerates(env: Env, files: Files, hash: Hash) {
    || env.searchFails
    || (Distinct(env.listing) && forall v: nat :: v in env.listing <==> Key(hash, v) in files)
  }

  function Scanned(s: seq<Cert>, c: Cert, unreadable: set<nat>, i: nat): Found
    requires i <= |s|
    decreases |s| - i
  {
    if i == |s| then Found(true, -1, |s| - 1)
    else if i in unreadable then Found(false, -1, |s| - 1)
    else if s[i] == c then Found(true, i, |s| - 1)
    else Scanned(s, c, unreadable, i + 1)
  }

  function Search(s: seq<Cert>, c: Cert, env: Env): Found {
    if env.searchFails then Found(false, -1, -1) else Scanned(s, c, env.unreadable, 0)
  }

  ghost predicate Ascending(s: seq<nat>) {
    forall i, j :: 0 <= i < j < |s| ==> s[i] < s[j]
  }

  lemma {:induction false} InsertAscending(x: nat, s: seq<nat>)
    requires Ascending(s) && x !in s
    ensures Ascending(Insert(x, s))
    ensures forall y :: y in Insert(x, s) <==> y == x || y in s
  {
    if !(s == [] || x <= s[0]) {
      InsertAscending(x, s[1..]);
      assert s == [s[0]] + s[1..];
      var t := Insert(x, s[1..]);
      forall i | 0 <= i < |t|
        ensures s[0] < t[i]
      {
        assert t[i] in t;
      }
    }
  }

  lemma {:induction false} SortAscending(s: seq<nat>)
    requires Distinct(s)
    ensures Ascending(Sort(s))
    ensures forall y :: y in Sort(s) <==> y in s
  {
    if s != [] {
      SortAscending(s[1..]);
      assert s[0] !in s[1..];
      InsertAscending(s[0], Sort(s[1..]));
      assert s == [s[0]] + s[1..];
    }
  }

  function UpTo(n: nat): seq<nat> {
    seq(n, i => i)
  }

  /** An ascending list of exactly the numbers below n is 0, 1, ..., n - 1. */
  lemma {:induction false} DenseAscending(t: seq<nat>, n: nat)
    requires Ascending(t) && forall v: nat :: v in t <==> v < n
    ensures t == UpTo(n)
    decreases n
  {
    if t == [] {
      assert 0 in t <==> 0 < n;
    } else {
      assert t[|t| - 1] in t;
      assert n - 1 in t;
      var k :| 0 <= k < |t| && t[k] == n - 1;
      assert k == |t| - 1;
      var init := t[..|t| - 1];
      forall v: nat
        ensures v in init <==> v < n - 1
      {
        assert v in t <==> v in init || v == n - 1;
      }
      DenseAscending(init, n - 1);
      assert t == init + [n - 1];
    }
  }

  lemma {:induction false} ScanDense(files: Files, hash: Hash, s: seq<Cert>, c: Cert, u: set<nat>, i: nat)
    requires Holds(files, hash, s) && i <= |s|
    ensures Scan(files, hash, c, u, UpTo(|s|)[i..], |s| - 1) == Scanned(s, c, u, i)
    decreases |s| - i
  {
    if i < |s| {
      ScanDense(files, hash, s, c, u, i + 1);
      assert UpTo(|s|)[i..][1..] == UpTo(|s|)[i + 1..];
    }
  }

  /** On a dense store the search ignores the order of the directory listing: it is
      a left-to-right scan of the contents, and the last version is the count less one. */
  lemma FindOnDense(files: Files, hash: Hash, s: seq<Cert>, c: Cert, env: Env)
    requires Holds(files, hash, s) && Enumerates(env, files, hash)
    ensures FindCert(files, hash, c, env) == Search(s, c, env)
  {
    if !env.searchFails {
      SortAscending(env.listing);
      DenseAscending(Sort(env.listing), |s|);
      ScanDense(files, hash, s, c, env.unreadable, 0);
      assert UpTo(|s|)[0..] == UpTo(|s|);
    }
  }

  lemma {:induction false} ScannedSpec(s: seq<Cert>, c: Cert, u: set<nat>, i: nat)
    requires i <= |s|
    ensures var f := Scanned(s, c, u, i);
            && f.last == |s| - 1
            && (f.num >= 0 ==> f.ok && i <= f.num < |s| && s[f.num] == c)
            && (f.ok && f.num < 0 ==> c !in s[i..])
            && -1 <= f.num
    decreases |s| - i
  {
    if i < |s| && i !in u && s[i] != c {
      ScannedSpec(s, c, u, i + 1);
      assert s[i..] == [s[i]] + s[i + 1..];
    }
  }

  // ------------------------------------------- the two commands on the sequence

  function AddTo(s: seq<Cert>, c: Cert, env: Env): (seq<Cert>, bool) {
    var f := Search(s, c, env);
    if (f.ok && f.num >= 0) || env.copy.Unopened? then (s, false)
    else
      var data := Copied(c, env.copy);
      (if env.searchFails && s != [] then s[0 := data] else s + [data], data == c)
  }

  function RemoveFrom(s: seq<Cert>, c: Cert, env: Env): (seq<Cert>, bool) {
    var f := Search(s, c, env);
    if !f.ok || f.num < 0 || env.renameFails || f.num >= |s| then (s, false)
    else (s[f.num := s[|s| - 1]][..|s| - 1], true)
  }

  ghost predicate OthersKept(a: Files, b: Files, hash: Hash) {
    && (forall k: Key :: k.hash != hash ==> (k in a <==> k in b))
    && (forall k: Key :: k.hash != hash && k in a ==> b[k] == a[k])
  }

  /** Whatever fails, adding leaves the versions under the hash dense, and touches no
      other hash. */
  lemma AddKeepsDense(files: Files, hash: Hash, s: seq<Cert>, c: Cert, env: Env)
    requires Holds(files, hash, s) && Enumerates(env, files, hash)
    ensures FindCert(files, hash, c, env).last >= -1
    ensures Holds(Add(files, hash, c, env).0, hash, AddTo(s, c, env).0)
    ensures Add(files, hash, c, env).1 == AddTo(s, c, env).1
    ensures OthersKept(files, Add(files, hash, c, env).0, hash)
  {
    FindOnDense(files, hash, s, c, env);
    ScannedSpec(s, c, env.unreadable, 0);
  }

  lemma RemoveKeepsDense(files: Files, hash: Hash, s: seq<Cert>, c: Cert, env: Env)
    requires Holds(files, hash, s) && Enumerates(env, files, hash)
    ensures Holds(Remove(files, hash, c, env).0, hash, RemoveFrom(s, c, env).0)
    ensures Remove(files, hash, c, env).1 == RemoveFrom(s, c, env).1
    ensures OthersKept(files, Remove(files, hash, c, env).0, hash)
  {
    FindOnDense(files, hash, s, c, env);
    ScannedSpec(s, c, env.unreadable, 0);
  }

  // ------------------------------------------------------------ the store as a set

  function Contents(s: seq<Cert>): set<Cert> {
    set c | c in s
  }

  /** A successful removal takes out exactly one copy, so the certificate stays
      trusted if it was stored twice; a failed one changes nothing. */
  lemma RemoveTakesOne(s: seq<Cert>, c: Cert, env: Env)
    ensures var r := RemoveFrom(s, c, env);
            if r.1
            then c in s && multiset(r.0) == multiset(s) - multiset{c} && (c in r.0 <==> multiset(s)[c] > 1)
            else r.0 == s
  {
    var f := Search(s, c, env);
    ScannedSpec(s, c, env.unreadable, 0);
    if RemoveFrom(s, c, env).1 {
      SwapRemove(s, f.num);
      var t := RemoveFrom(s, c, env).0;
      assert c in t <==> c in multiset(t);
    }
  }

  lemma Cancel(a: multiset<Cert>, b: multiset<Cert>, x: Cert)
    requires a + multiset{x} == b + multiset{x}
    ensures a == b
  {
    forall y
      ensures a[y] == b[y]
    {
      assert (a + multiset{x})[y] == (b + multiset{x})[y];
    }
  }

  /** Moving the last element over position i drops exactly the element there. */
  lemma SwapRemove(s: seq<Cert>, i: nat)
    requires i < |s|
    ensures multiset(s[i := s[|s| - 1]][..|s| - 1]) == multiset(s) - multiset{s[i]}
  {
    var n := |s| - 1;
    var t := s[i := s[n]];
    assert t == t[..n] + [s[n]];
    assert multiset(t) == multiset(s) - multiset{s[i]} + multiset{s[n]};
    Cancel(multiset(t[..n]), multiset(s) - multiset{s[i]}, s[n]);
  }

  /** On a store without duplicates, removal is removal from the set, whatever fails. */
  lemma RemoveIsSetRemove(s: seq<Cert>, c: Cert, env: Env)
    requires Distinct(s)
    ensures var r := RemoveFrom(s, c, env);
            && Distinct(r.0)
            && Contents(r.0) == (if r.1 then Contents(s) - {c} else Contents(s))
            && (!env.searchFails && env.unreadable == {} && !env.renameFails ==> (r.1 <==> c in s))
  {
    var f := Search(s, c, env);
    var r := RemoveFrom(s, c, env);
    ScannedSpec(s, c, env.unreadable, 0);
    AllReadable(s, c, env.unreadable, 0);
    assert s[0..] == s;
    if r.1 {
      forall x
        ensures x in r.0 <==> x in s && x != c
      {
        if x in s && x != c {
          var i :| 0 <= i < |s| && s[i] == x;
          assert if i == |s| - 1 then r.0[f.num] == x else r.0[i] == x;
        }
      }
    }
  }

  lemma {:induction false} AllReadable(s: seq<Cert>, c: Cert, u: set<nat>, i: nat)
    requires i <= |s|
    ensures u == {} ==> Scanned(s, c, u, i).ok
    decreases |s| - i
  {
    if i < |s| {
      AllReadable(s, c, u, i + 1);
    }
  }

  /** The failures under which adding still acts on the set. */
  predicate AddHarmless(s: seq<Cert>, c: Cert, env: Env) {
    var f := Search(s, c, env);
    var data := Copied(c, env.copy);
    || (f.ok && f.num >= 0)
    || env.copy.Unopened?
    || (env.searchFails && s != [] && s[0] == data)
    || (data == c && (if env.searchFails then s == [] else f.ok || c !in s))
  }

  ghost predicate AddsToSet(s: seq<Cert>, c: Cert, env: Env) {
    var r := AddTo(s, c, env);
    Distinct(r.0) && Contents(r.0) == if r.1 then Contents(s) + {c} else Contents(s)
  }

  lemma AppendDistinct(s: seq<Cert>, x: Cert)
    requires Distinct(s)
    ensures Distinct(s + [x]) <==> x !in s
    ensures Contents(s + [x]) == Contents(s) + {x}
  {
    var t := s + [x];
    if x in s {
      var i :| 0 <= i < |s| && s[i] == x;
      assert t[i] == t[|s|];
    }
    assert forall y :: y in t <==> y in s || y == x;
  }

  lemma ReplaceFirst(s: seq<Cert>, x: Cert)
    requires Distinct(s) && s != []
    ensures s[0] !in Contents(s[0 := x]) <==> x != s[0]
    ensures s[0] in Contents(s)
  {
    var t := s[0 := x];
    assert x == s[0] ==> t[0] == s[0];
  }

  /** Adding acts on the set exactly under the harmless failures: a lost directory
      overwrites version 0, an unreadable file lets in a second copy, and a short
      write leaves a truncated certificate behind. */
  lemma AddIsSetAddExactly(s: seq<Cert>, c: Cert, env: Env)
    requires Distinct(s)
    ensures AddsToSet(s, c, env) <==> AddHarmless(s, c, env)
  {
    var f := Search(s, c, env);
    var data := Copied(c, env.copy);
    ScannedSpec(s, c, env.unreadable, 0);
    assert s[0..] == s;
    if !((f.ok && f.num >= 0) || env.copy.Unopened?) {
      if env.searchFails && s != [] {
        ReplaceFirst(s, data);
        if s[0] == data {
          assert s[0 := data] == s;
        }
      } else {
        AppendDistinct(s, data);
        assert data in Contents(s + [data]);
      }
    }
  }

  /** Without failures an addition succeeds iff the certificate is not there yet, and then
      stores it behind all the others. */
  lemma AddSucceedsIff(s: seq<Cert>, c: Cert, env: Env)
    requires !env.searchFails && env.unreadable == {} && env.copy.Whole?
    ensures AddTo(s, c, env).1 <==> c !in s
    ensures AddTo(s, c, env).0 == if c in s then s else s + [c]
  {
    ScannedSpec(s, c, env.unreadable, 0);
    AllReadable(s, c, env.unreadable, 0);
    assert s[0..] == s;
  }

  /** And so the command itself, on every dense store under every true listing. */
  lemma AddCommandSucceedsIff(files: Files, hash: Hash, s: seq<Cert>, c: Cert, env: Env)
    requires Holds(files, hash, s) && Enumerates(env, files, hash)
    requires !env.searchFails && env.unreadable == {} && env.copy.Whole?
    ensures var r := Apply(files, AddOp(hash, c, env));
            && (r.1 <==> forall v: nat :: Key(hash, v) in files ==> files[Key(hash, v)] != c)
            && Holds(r.0, hash, if c in s then s else s + [c])
  {
    AddKeepsDense(files, hash, s, c, env);
    AddSucceedsIff(s, c, env);
    if c in s {
      var v :| 0 <= v < |s| && s[v] == c;
      assert files[Key(hash, v)] == c;
    }
  }

  /** A directory that cannot be searched: the new certificate replaces version 0. */
  lemma LostDirectory()
    ensures var env := Env([], true, {}, Whole, false);
            AddTo(["a"], "b", env) == (["b"], true) && !AddsToSet(["a"], "b", env)
  {
    AddIsSetAddExactly(["a"], "b", Env([], true, {}, Whole, false));
    assert ["a"][0 := "b"] == ["b"];
  }

  /** An unreadable file: a certificate that is already there is stored again. */
  lemma UnreadableFile()
    ensures var env := Env([0], false, {0}, Whole, false);
            AddTo(["a"], "a", env) == (["a", "a"], true) && !AddsToSet(["a"], "a", env)
  {
    AddIsSetAddExactly(["a"], "a", Env([0], false, {0}, Whole, false));
    assert ["a"][0] == "a" && ["a"] + ["a"] == ["a", "a"];
  }

  /** A short write: the command fails, and a truncated certificate stays behind. */
  lemma ShortWrite()
    ensures var env := Env([], false, {}, Short(1), false);
            AddTo([], "ab", env) == (["a"], false) && !AddsToSet([], "ab", env)
  {
    AddIsSetAddExactly([], "ab", Env([], false, {}, Short(1), false));
    assert "ab"[..1] == "a" && |"a"| != |"ab"| && [] + ["a"] == ["a"];
  }

  // ------------------------------------------------------------------------ runs

  datatype Op = AddOp(hash: Hash, cert: Cert, env: Env) | RemoveOp(hash: Hash, cert: Cert, env: Env)

  function Apply(files: Files, op: Op): (Files, bool) {
    match op
    case AddOp(hash, c, env) =>
      LastIsVersion(files, hash, c, env);
      Add(files, hash, c, env)
    case RemoveOp(hash, c, env) => Remove(files, hash, c, env)
  }

  function After(ops: seq<Op>): Files {
    if ops == [] then map[] else Apply(After(ops[..|ops| - 1]), ops[|ops| - 1]).0
  }

  /** Every command sees a true listing of the directory as it then is. */
  ghost predicate TrueListings(ops: seq<Op>) {
    ops != [] ==>
      var init, op := ops[..|ops| - 1], ops[|ops| - 1];
      TrueListings(init) && Enumerates(op.env, After(init), op.hash)
  }

  function ApplyTo(s: seq<Cert>, op: Op): (seq<Cert>, bool) {
    if op.AddOp? then AddTo(s, op.cert, op.env) else RemoveFrom(s, op.cert, op.env)
  }

  /** The contents under one hash after a run, as a sequence. */
  function ChainAfter(ops: seq<Op>, hash: Hash): seq<Cert> {
    if ops == [] then []
    else
      var s := ChainAfter(ops[..|ops| - 1], hash);
      var op := ops[|ops| - 1];
      if op.hash == hash then ApplyTo(s, op).0 else s
  }

  /** In every run, whatever fails, the versions under every hash are 0, 1, ..., n - 1. */
  lemma {:induction false} EveryRunIsDense(ops: seq<Op>, hash: Hash)
    requires TrueListings(ops)
    ensures Holds(After(ops), hash, ChainAfter(ops, hash))
  {
    if ops != [] {
      var init, op := ops[..|ops| - 1], ops[|ops| - 1];
      EveryRunIsDense(init, hash);
      EveryRunIsDense(init, op.hash);
      var s := ChainAfter(init, op.hash);
      if op.AddOp? {
        AddKeepsDense(After(init), op.hash, s, op.cert, op.env);
      } else {
        RemoveKeepsDense(After(init), op.hash, s, op.cert, op.env);
      }
    }
  }

  ghost predicate Harmless(ops: seq<Op>, hash: Hash) {
    ops != [] ==>
      var init, op := ops[..|ops| - 1], ops[|ops| - 1];
      && Harmless(init, hash)
      && (op.AddOp? && op.hash == hash ==> AddHarmless(ChainAfter(init, hash), op.cert, op.env))
  }

  /** The reference: the set of certificates, changed by the commands that report success. */
  function Trusted(ops: seq<Op>, hash: Hash): set<Cert> {
    if ops == [] then {}
    else
      var init, op := ops[..|ops| - 1], ops[|ops| - 1];
      var before := Trusted(init, hash);
      if op.hash != hash || !ApplyTo(ChainAfter(init, hash), op).1 then before
      else if op.AddOp? then before + {op.cert}
      else before - {op.cert}
  }

  /** In every run whose additions are harmless, the files under a hash are the
      reference set, each certificate once. */
  lemma {:induction false} EveryRunIsTheSet(ops: seq<Op>, hash: Hash)
    requires TrueListings(ops) && Harmless(ops, hash)
    ensures Holds(After(ops), hash, ChainAfter(ops, hash))
    ensures Distinct(ChainAfter(ops, hash)) && Contents(ChainAfter(ops, hash)) == Trusted(ops, hash)
  {
    EveryRunIsDense(ops, hash);
    if ops != [] {
      var init, op := ops[..|ops| - 1], ops[|ops| - 1];
      EveryRunIsTheSet(init, hash);
      if op.hash == hash {
        var s := ChainAfter(init, hash);
        if op.AddOp? {
          AddIsSetAddExactly(s, op.cert, op.env);
        } else {
          RemoveIsSetRemove(s, op.cert, op.env);
        }
      }
    }
  }

  // -------------------------------------------------------------------- the code

  class TrustStore {
    var files: Files

    /** CertUtil_FindCert. */
    method Find(hash: Hash, c: Cert, env: Env) returns (ok: bool, num: int, last: int)
      ensures Found(ok, num, last) == FindCert(files, hash, c, env)
      ensures last >= -1
    {
      num, last := -1, -1;
      if env.searchFails {
        return false, -1, -1;
      }
      var list := Sort(env.listing);
      ok := true;
      if list == [] {
        return;
      }
      last := list[|list| - 1];
      for i := 0 to |list|
        invariant ok && num == -1
        invariant Scan(files, hash, c, env.unreadable, list[i..], last) == FindCert(files, hash, c, env)
      {
        var ext := list[i];
        assert list[i..][1..] == list[i + 1..];
        if ext in env.unreadable || Key(hash, ext) !in files {
          return false, num, last;
        }
        if files[Key(hash, ext)] == c {
          num := ext;
          return;
        }
      }
    }

    method AddTrustCert(hash: Hash, c: Cert, env: Env) returns (ret: bool)
      modifies this
      ensures (files, ret) == Apply(old(files), AddOp(hash, c, env))
    {
      var ok, num, last := Find(hash, c, env);
      if ok && num >= 0 {
        return false;
      }
      if env.copy.Unopened? {
        return false;
      }
      files := files[Key(hash, last + 1) := Copied(c, env.copy)];
      ret := Copied(c, env.copy) == c;
    }

    /** RemoveTrustCert: the last version moves into the gap. */
    method RemoveTrustCert(hash: Hash, c: Cert, env: Env) returns (ret: bool)
      modifies this
      ensures (files, ret) == Apply(old(files), RemoveOp(hash, c, env))
    {
      var ok, num, last := Find(hash, c, env);
      if !ok || num < 0 || env.renameFails {
        return false;
      }
      if last != num {
        if last < 0 || Key(hash, last) !in files {
          return false;
        }
        files := files[Key(hash, num) := files[Key(hash, last)]] - {Key(hash, last)};
      } else {
        files := files - {Key(hash, num)};
      }
      ret := true;
    }
  }
}
