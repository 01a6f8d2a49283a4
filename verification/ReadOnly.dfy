/**
  Deleting or replacing an entry that the host protects as read-only: on a denial
  the client sets the owner's write bit, tries once more, and on a second denial
  clears the bit again.
*/
module ReadOnly {
  import opened Common
  import V = Versions

  type Perm = bv8

  const WRITE: Perm := 2
  const NOT_WRITE: Perm := 0xfd

  /** The permission fields of an attribute mask. */
  datatype Field = Special | Owner | Group | Other

  /** The permissions the host keeps for an entry. */
  datatype Perms = Perms(special: Perm, owner: Perm, group: Perm, other: Perm)

  /** The client's view of them (HgfsAttrInfo), with the effective permissions. */
  datatype Attr = Attr(mask: set<Field>, perms: Perms, effective: Perm)

  /** HgfsUnpackGetattrReply: what getattr yields for an entry on a host that keeps
      the fields in `keeps`; missing group and other bits are filled from the owner's. */
  function Fetched(keeps: set<Field>, p: Perms, effective: Perm): Attr {
    Attr(keeps + {Group, Other},
         Perms(if Special in keeps then p.special else 0, p.owner,
               if Group in keeps then p.group else p.owner,
               if Other in keeps then p.other else p.owner),
         effective)
  }

  /** HgfsClearReadOnly and HgfsRestoreReadOnly on the attributes they send. */
  function WithWrite(a: Attr): Attr {
    a.(perms := a.perms.(owner := a.perms.owner | WRITE))
  }

  function WithoutWrite(a: Attr): Attr {
    a.(perms := a.perms.(owner := a.perms.owner & NOT_WRITE))
  }

  /** The host's entry after a setattr.  Version 3 sends the mask and the fields;
      version 2 sends the fields but leaves the mask empty, so nothing is applied;
      version 1 sends the effective permissions for the owner. */
  function Applied(v: Version, keeps: set<Field>, p: Perms, a: Attr): Perms {
    match v
    case V3 =>
      var sent := a.mask * keeps;
      Perms(if Special in sent then a.perms.special else p.special,
            if Owner in sent then a.perms.owner else p.owner,
            if Group in sent then a.perms.group else p.group,
            if Other in sent then a.perms.other else p.other)
    case V2 => p
    case V1 => if a.mask != {} then p.(owner := a.effective) else p
  }

  function Get(p: Perms, f: Field): Perm {
    match f
    case Special => p.special
    case Owner => p.owner
    case Group => p.group
    case Other => p.other
  }

  /** Field by field, a version 3 setattr writes what is both sent and kept; the older
      versions leave all but the owner's bits alone. */
  lemma AppliedFields(v: Version, keeps: set<Field>, p: Perms, a: Attr, f: Field)
    ensures Get(Applied(v, keeps, p, a), f) ==
            if v.V3? then if f in a.mask && f in keeps then Get(a.perms, f) else Get(p, f)
            else if v.V1? && f.Owner? && a.mask != {} then a.effective
            else Get(p, f)
  {
  }

  /** Field by field: what the host keeps is seen as it is, group and other bits it does
      not keep are seen as the owner's, and count as valid. */
  lemma FetchedFields(keeps: set<Field>, p: Perms, e: Perm, f: Field)
    ensures f in Fetched(keeps, p, e).mask <==> f in keeps || f.Group? || f.Other?
    ensures f in keeps ==> Get(Fetched(keeps, p, e).perms, f) == Get(p, f)
    ensures f !in keeps && (f.Group? || f.Other?) ==> Get(Fetched(keeps, p, e).perms, f) == p.owner
    ensures Fetched(keeps, p, e).effective == e
  {
  }

  /** HgfsClearReadOnly works from the cached attributes if it has any, else from
      those it fetches. */
  function Seen(cached: Option<Attr>, keeps: set<Field>, p: Perms, effective: Perm): Attr {
    if cached.Some? then cached.value else Fetched(keeps, p, effective)
  }

  /** The entry after the clear, and after the restore that follows it, when the client
      saw the attributes a. */
  function Cleared(v: Version, keeps: set<Field>, p: Perms, a: Attr): Perms {
    Applied(v, keeps, p, WithWrite(a))
  }

  function Restored(v: Version, w: Version, keeps: set<Field>, p: Perms, a: Attr): Perms {
    Applied(w, keeps, Cleared(v, keeps, p, a), WithoutWrite(WithWrite(a)))
  }

  lemma WriteBits(o: Perm)
    ensures (o | WRITE) & NOT_WRITE == o & NOT_WRITE
    ensures o & NOT_WRITE == o <==> o & WRITE == 0
    ensures (o | WRITE) & WRITE != 0
  {
  }

  /** With version 3 throughout and the current attributes seen, clear-then-restore
      leaves the original permissions with the owner's write bit off: the identity
      exactly on read-only entries. */
  lemma RestoreUndoesClear(keeps: set<Field>, p: Perms, e: Perm)
    requires Owner in keeps
    ensures var a := Fetched(keeps, p, e);
            && Cleared(V3, keeps, p, a) == p.(owner := p.owner | WRITE)
            && Restored(V3, V3, keeps, p, a) == p.(owner := p.owner & NOT_WRITE)
            && (Restored(V3, V3, keeps, p, a) == p <==> p.owner & WRITE == 0)
  {
    WriteBits(p.owner);
  }

  /** With any attributes seen, for instance an old cached copy: every field that is
      both seen and kept ends up as it was seen, the owner's without write, and every
      other field as it was. */
  lemma RestoreLeavesWhatWasSeen(keeps: set<Field>, p: Perms, a: Attr, f: Field)
    ensures Get(Restored(V3, V3, keeps, p, a), f) ==
            if f !in a.mask || f !in keeps then Get(p, f)
            else if f.Owner? then a.perms.owner & NOT_WRITE
            else Get(a.perms, f)
  {
    WriteBits(a.perms.owner);
    AppliedFields(V3, keeps, p, WithWrite(a), f);
    AppliedFields(V3, keeps, Cleared(V3, keeps, p, a), WithoutWrite(WithWrite(a)), f);
  }

  lemma SamePerms(p: Perms, q: Perms)
    ensures p == q <==> forall f :: Get(p, f) == Get(q, f)
  {
    assert Get(p, Special) == p.special && Get(q, Special) == q.special;
    assert Get(p, Owner) == p.owner && Get(q, Owner) == q.owner;
    assert Get(p, Group) == p.group && Get(q, Group) == q.group;
    assert Get(p, Other) == p.other && Get(q, Other) == q.other;
  }

  /** So a second denial gives the entry back exactly when the fields seen and kept were
      the current ones, the owner's with the write bit off. */
  lemma RestoreIsIdentityIff(keeps: set<Field>, p: Perms, a: Attr)
    ensures Restored(V3, V3, keeps, p, a) == p <==>
            forall f :: f in a.mask && f in keeps ==>
              Get(p, f) == if f.Owner? then a.perms.owner & NOT_WRITE else Get(a.perms, f)
  {
    var r := Restored(V3, V3, keeps, p, a);
    SamePerms(r, p);
    forall f
      ensures Get(r, f) == if f !in a.mask || f !in keeps then Get(p, f)
                           else if f.Owner? then a.perms.owner & NOT_WRITE else Get(a.perms, f)
    {
      RestoreLeavesWhatWasSeen(keeps, p, a, f);
    }
  }

  /** Through every pair of setattr versions, the second not newer than the first, and
      for any attributes seen that include the owner's: where each field ends up. */
  lemma RestoreByVersion(v: Version, w: Version, keeps: set<Field>, p: Perms, a: Attr, f: Field)
    requires Owner in a.mask && Owner in keeps && Rank(w) <= Rank(v)
    ensures Get(Restored(v, w, keeps, p, a), f) ==
            if f.Owner? then
              if w.V1? then a.effective
              else if w.V3? then a.perms.owner & NOT_WRITE
              else if v.V3? then a.perms.owner | WRITE
              else p.owner
            else if v.V3? && f in a.mask && f in keeps then Get(a.perms, f)
            else Get(p, f)
  {
    WriteBits(a.perms.owner);
    AppliedFields(v, keeps, p, WithWrite(a), f);
    AppliedFields(w, keeps, Cleared(v, keeps, p, a), WithoutWrite(WithWrite(a)), f);
  }

  // ------------------------------------------------------------------ the code

  /** The host's side: the entry and which requests about it it will serve. */
  class Host {
    var present: bool
    var perms: Perms
    const keeps: set<Field>
    const effective: Perm

    /** What a setattr leaves behind, field by field. */
    method Setattr(v: Version, a: Attr, served: bool) returns (result: int)
      modifies this`perms
      ensures result == (if served then 0 else -EIO)
      ensures !served || v.V2? ==> perms == old(perms)
      ensures served && v.V3? ==> forall f: Field :: f !in a.mask || f !in keeps ==> Get(perms, f) == Get(old(perms), f)
      ensures served && v.V3? ==> forall f: Field :: f in a.mask && f in keeps ==> Get(perms, f) == Get(a.perms, f)
      ensures served && v.V1? ==> forall f: Field :: !f.Owner? ==> Get(perms, f) == Get(old(perms), f)
      ensures served ==> perms == Applied(v, keeps, old(perms), a)
    {
      if !served {
        return -EIO;
      }
      perms := Applied(v, keeps, perms, a);
      result := 0;
    }
  }

  /** The entry after n requests: as it was until a denial lets the client clear the
      read-only bit, and with the bit restored, if the host does that, after a second. */
  ghost predicate Leaves(keeps: set<Field>, before: Perms, seen: Attr, clearable: bool, v: Option<Version>,
                         w: Option<Version>, host: nat -> V.Answer, n: nat, after: Perms)
    requires clearable ==> v.Some?
    requires n > 0
  {
    after ==
    if !clearable || !V.DeniedBefore(host, n) then before
    else if V.DeniedBefore(host, n - 1) && host(n - 1).Denied? && w.Some?
    then Restored(v.value, w.value, keeps, before, seen)
    else Cleared(v.value, keeps, before, seen)
  }

  /** The retry machine shared by HgfsDelete and HgfsRename (there, for the target).
      `cached` are the attributes the cache has for the entry, `readable` says whether
      others can be fetched; `v` and `w` are the versions in which the two setattr
      requests are accepted, None if they are not.  The answers decide the number of
      requests, the result and what becomes of the entry. */
  method RemoveProtected(h: Host, version0: Version, host: nat -> V.Answer, cached: Option<Attr>,
                         readable: bool, v: Option<Version>, w: Option<Version>)
    returns (result: int, requests: nat, version: Version)
    requires !version0.V2? && h.present
    modifies h
    ensures V.SendsExactly(host, version0.V3?, (cached.Some? || readable) && v.Some?, requests)
    ensures version == if V.RejectedBefore(host, requests - 1) then V1 else version0
    ensures result == 0 <==> !h.present
    ensures result == 0 <==> host(requests - 1).Fine?
    ensures host(requests - 1).Rejected? ==> result == -EPROTO && version.V1?
    ensures host(requests - 1).Denied? ==> result == if V.DeniedBefore(host, requests - 1) then -EACCES else -EIO
    ensures host(requests - 1).Failed? ==>
              result == if host(requests - 1).error < 0 then host(requests - 1).error else -EIO
    ensures Leaves(h.keeps, old(h.perms), Seen(cached, h.keeps, old(h.perms), h.effective),
                   (cached.Some? || readable) && v.Some?, v, w, host, requests, h.perms)
  {
    version := version0;
    requests := 0;
    var cleared := false;
    var attr := Attr({}, h.perms, 0);
    ghost var seen := Seen(cached, h.keeps, h.perms, h.effective);
    ghost var clearable := (cached.Some? || readable) && v.Some?;
    while true
      invariant h.present && version == if V.RejectedBefore(host, requests) then V1 else version0
      invariant V.RetriedSoFar(host, version0.V3?, clearable, requests, cleared)
      invariant !cleared ==> h.perms == old(h.perms)
      invariant cleared ==> h.perms == Cleared(v.value, h.keeps, old(h.perms), seen) && attr == WithWrite(seen)
      decreases version.V3?, !cleared
    {
      V.RetriedOneMore(host, version0.V3?, clearable, requests, cleared);
      V.BeforeNext(host, requests);
      requests := requests + 1;
      match host(requests - 1) {
        case Fine =>
          h.present := false;
          return 0, requests, version;
        case Denied =>
          if cleared {
            attr := WithoutWrite(attr);
            if w.Some? {
              var _ := h.Setattr(w.value, attr, true);
            }
            return -EACCES, requests, version;
          }
          if cached.None? && !readable {
            return -EIO, requests, version;
          }
          attr := WithWrite(Seen(cached, h.keeps, h.perms, h.effective));
          if v.None? {
            return -EIO, requests, version;
          }
          var _ := h.Setattr(v.value, attr, true);
          cleared := true;
        case Rejected =>
          if version.V1? {
            return -EPROTO, requests, version;
          }
          version := V1;
        case Failed(error) =>
          return if error < 0 then error else -EIO, requests, version;
      }
    }
  }

  /** A read-only entry whose deletion is denied once is gone after the second request. */
  method DeniedOnce(h: Host, version0: Version, host: nat -> V.Answer, readable: bool, v: Version)
    returns (result: int, requests: nat)
    requires !version0.V2? && h.present && readable && host(0).Denied? && host(1).Fine?
    modifies h
    ensures result == 0 && requests == 2 && !h.present
  {
    var version;
    result, requests, version := RemoveProtected(h, version0, host, None, readable, Some(v), None);
    V.DeniedThenFine(host, version0.V3?, requests);
  }

  /** One that is denied twice is left as it was, if it was read-only and the setattr
      requests are in version 3. */
  method DeniedTwice(h: Host, host: nat -> V.Answer) returns (result: int, requests: nat)
    requires h.present && Owner in h.keeps && h.perms.owner & WRITE == 0
    requires host(0).Denied? && host(1).Denied?
    modifies h
    ensures result == -EACCES && requests == 2 && h.present && h.perms == old(h.perms)
  {
    var version;
    assert V.SendsExactly(host, true, true, 2);
    result, requests, version := RemoveProtected(h, V3, host, None, true, Some(V3), Some(V3));
    V.SendsOneNumber(host, true, true, 2, requests);
    RestoreUndoesClear(h.keeps, old(h.perms), h.effective);
  }
}
