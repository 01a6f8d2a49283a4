/**
  The chunked read and write loops.  The server holds the file as a sequence of
  bytes and may serve fewer bytes than asked, reject the newer request version or
  fail any request.
*/
module FileIO {
  import opened Common

  type Byte = x: int | 0 <= x < 256

  /** HGFS_LARGE_IO_MAX: the most one request asks for. */
  const LARGE_IO_MAX := 15 * 4096

  /** The host's decision on one request: at most how many bytes it serves, a claim to
      have served more than was asked, a rejection of the version, or another error. */
  datatype Answer = Serve(limit: nat) | Claims(extra: nat) | Rejected | Refused(error: int)

  function Min(a: nat, b: nat): nat {
    if a <= b then a else b
  }

  /** The bytes of the file in a range, cut off at its end. */
  function ReadAt(file: seq<Byte>, offset: nat, count: nat): seq<Byte> {
    if |file| <= offset then [] else file[offset..Min(|file|, offset + count)]
  }

  function Zeros(n: nat): (z: seq<Byte>)
    ensures |z| == n
  {
    seq(n, _ => 0)
  }

  /** The file after writing at an offset; a gap before the offset reads as zeros. */
  function WriteAt(file: seq<Byte>, offset: nat, data: seq<Byte>): seq<Byte> {
    if data == [] then file
    else
      var head := if offset <= |file| then file[..offset] else file + Zeros(offset - |file|);
      var tail := if offset + |data| < |file| then file[offset + |data|..] else [];
      head + data + tail
  }

  // ------------------------------------------------------- laws of the file model

  /** A write changes exactly its range; outside it bytes stay, or are zero if new. */
  lemma WriteAtSpec(file: seq<Byte>, offset: nat, data: seq<Byte>, i: nat)
    requires data != [] && i < |WriteAt(file, offset, data)|
    ensures |WriteAt(file, offset, data)| == if offset + |data| < |file| then |file| else offset + |data|
    ensures WriteAt(file, offset, data)[i] ==
            if offset <= i < offset + |data| then data[i - offset] else if i < |file| then file[i] else 0
  {
  }

  /** Writing two adjacent chunks is writing them at once. */
  lemma WriteAtJoin(file: seq<Byte>, offset: nat, a: seq<Byte>, b: seq<Byte>)
    ensures WriteAt(WriteAt(file, offset, a), offset + |a|, b) == WriteAt(file, offset, a + b)
  {
    if a == [] {
      assert a + b == b;
    } else if b == [] {
      assert a + b == a;
    } else {
      var once := WriteAt(file, offset, a + b);
      var first := WriteAt(file, offset, a);
      var twice := WriteAt(first, offset + |a|, b);
      assert |once| == |twice|;
      forall i | 0 <= i < |once| ensures once[i] == twice[i] {
        WriteAtSpec(file, offset, a + b, i);
        WriteAtSpec(first, offset + |a|, b, i);
        if i < |first| {
          WriteAtSpec(file, offset, a, i);
        }
      }
    }
  }

  /** What was written is read back. */
  lemma ReadAfterWrite(file: seq<Byte>, offset: nat, data: seq<Byte>)
    ensures ReadAt(WriteAt(file, offset, data), offset, |data|) == data
  {
    if data != [] {
      var w := WriteAt(file, offset, data);
      assert forall i :: offset <= i < offset + |data| ==> w[i] == data[i - offset];
    }
  }

  /** Reading two adjacent chunks is reading them at once. */
  lemma ReadAtJoin(file: seq<Byte>, offset: nat, m: nat, n: nat)
    requires |ReadAt(file, offset, m)| == m
    ensures ReadAt(file, offset, m) + ReadAt(file, offset + m, n) == ReadAt(file, offset, m + n)
  {
  }

  lemma ReadExtends(file: seq<Byte>, offset: nat, buf: seq<Byte>, got: nat, more: nat)
    requires got + more <= |buf| && |ReadAt(file, offset, got)| == got && |ReadAt(file, offset + got, more)| == more
    requires buf[..got] == ReadAt(file, offset, got) && buf[got..got + more] == ReadAt(file, offset + got, more)
    ensures |ReadAt(file, offset, got + more)| == got + more
    ensures buf[..got + more] == ReadAt(file, offset, got + more)
  {
    ReadAtJoin(file, offset, got, more);
    assert buf[..got + more] == buf[..got] + buf[got..got + more];
  }

  // ---------------------------------------------------------------- one request

  /** A request goes out once more exactly if it was rejected in version 3; the switch is
      then at version 1. */
  predicate Resent(before: Version, first: Answer, n: nat, n': nat, after: Version) {
    if before.V3? && first.Rejected? then n' == n + 2 && after == V1 else n' == n + 1 && after == before
  }

  /** What is reported for a request that was not served; a rejection is final only in
      the old version. */
  predicate FailsWith(a: Answer, version: Version, result: int) {
    && (a.Rejected? ==> !version.V3?)
    && result == if a.Refused? then if a.error < 0 then a.error else -EIO else -EPROTO
  }

  // ------------------------------------------------------------------ the code

  class Handle {
    /** The global switches hgfsVersionRead and hgfsVersionWrite. */
    var readVersion: Version
    var writeVersion: Version
    /** The file on the server. */
    var file: seq<Byte>

    /** HgfsDoRead: one read request, retried once in the old version. */
    method DoRead(buf: array<Byte>, at: nat, count: nat, offset: nat, host: nat -> Answer, n: nat)
      returns (result: int, n': nat)
      requires at + count <= buf.Length
      modifies this`readVersion, buf
      ensures Resent(old(readVersion), host(n), n, n', readVersion)
      ensures result >= 0 <==> host(n' - 1).Serve?
      ensures result >= 0 ==> result <= count
      ensures result >= 0 ==> result == Min(|ReadAt(file, offset, count)|, host(n' - 1).limit)
      ensures result >= 0 ==> buf[at..at + result] == ReadAt(file, offset, result)
      ensures result < 0 ==> FailsWith(host(n' - 1), readVersion, result)
      ensures forall i :: 0 <= i < buf.Length && !(at <= i < at + result) ==> buf[i] == old(buf[i])
    {
      n' := n;
      while true
        invariant if n' == n then readVersion == old(readVersion)
                  else n' == n + 1 && old(readVersion).V3? && host(n).Rejected? && readVersion == V1
        invariant forall i :: 0 <= i < buf.Length ==> buf[i] == old(buf[i])
        decreases readVersion.V3?
      {
        var used := readVersion;
        n' := n' + 1;
        match host(n' - 1) {
          case Serve(limit) =>
            var actual := Min(|ReadAt(file, offset, count)|, limit);
            forall i | 0 <= i < actual {
              buf[at + i] := file[offset + i];
            }
            return actual, n';
          case Claims(_) =>
            return -EPROTO, n';
          case Refused(error) =>
            return if error < 0 then error else -EIO, n';
          case Rejected =>
            if !used.V3? {
              return -EPROTO, n';
            }
            readVersion := V1;
        }
      }
    }

    /** One round of the read loop, after `got` bytes. */
    method ReadChunk(buf: array<Byte>, got: nat, offset: nat, host: nat -> Answer, n: nat) returns (last: int, n': nat)
      requires got <= buf.Length
      requires |ReadAt(file, offset, got)| == got && buf[..got] == ReadAt(file, offset, got)
      modifies this`readVersion, buf
      ensures n < n' && (last < 0 <==> !host(n' - 1).Serve?)
      ensures last < 0 ==> FailsWith(host(n' - 1), readVersion, last)
      ensures last >= 0 ==>
                && got + last <= buf.Length
                && |ReadAt(file, offset, got + last)| == got + last
                && buf[..got + last] == ReadAt(file, offset, got + last)
      ensures last == 0 ==> got == buf.Length || |file| <= offset + got || host(n' - 1).limit == 0
      ensures forall i :: got + (if last < 0 then 0 else last) <= i < buf.Length ==> buf[i] == old(buf[i])
      ensures last < 0 ==> buf[..got] == old(buf[..got])
    {
      ghost var before := buf[..got];
      var remaining := buf.Length - got;
      var next := if remaining > LARGE_IO_MAX then LARGE_IO_MAX else remaining;
      last, n' := DoRead(buf, got, next, offset + got, host, n);
      assert buf[..got] == before;
      if last >= 0 {
        ReadExtends(file, offset, buf[..], got, last);
        assert buf[..][..got + last] == buf[..got + last];
      }
    }

    /** HgfsRead.  The bytes returned are the file's; without a failed request the
        rest of the buffer is zeroed.  The result is never negative: a failed
        request is reported as the bytes read before it, the rest left alone. */
    method Read(buf: array<Byte>, offset: nat, host: nat -> Answer)
      returns (result: nat, ghost failed: bool, ghost requests: nat)
      modifies this`readVersion, buf
      ensures requests > 0 && (failed <==> !host(requests - 1).Serve?)
      ensures failed ==> host(requests - 1).Rejected? ==> !readVersion.V3?
      ensures result <= buf.Length
      ensures |ReadAt(file, offset, result)| == result && buf[..result] == ReadAt(file, offset, result)
      ensures !failed ==> forall i :: result <= i < buf.Length ==> buf[i] == 0
      ensures failed ==> forall i :: result <= i < buf.Length ==> buf[i] == old(buf[i])
      ensures !failed && result < buf.Length ==> |file| <= offset + result || host(requests - 1).limit == 0
    {
      var last, n := ReadChunk(buf, 0, offset, host, 0);
      result := 0;
      while last > 0 && result + last < buf.Length
        invariant n > 0 && (last < 0 <==> !host(n - 1).Serve?)
        invariant last < 0 ==> host(n - 1).Rejected? ==> !readVersion.V3?
        invariant result <= buf.Length && (last >= 0 ==> result + last <= buf.Length)
        invariant last < 0 ==> |ReadAt(file, offset, result)| == result && buf[..result] == ReadAt(file, offset, result)
        invariant last >= 0 ==> |ReadAt(file, offset, result + last)| == result + last
        invariant last >= 0 ==> buf[..result + last] == ReadAt(file, offset, result + last)
        invariant forall i :: result + (if last < 0 then 0 else last) <= i < buf.Length ==> buf[i] == old(buf[i])
        invariant last == 0 ==> result == buf.Length || |file| <= offset + result || host(n - 1).limit == 0
        decreases buf.Length - result
      {
        result := result + last;
        last, n := ReadChunk(buf, result, offset, host, n);
      }
      requests := n;
      failed := last < 0;
      if last < 0 {
        return;
      }
      result := result + last;
      ghost var got := buf[..result];
      forall i | result <= i < buf.Length {
        buf[i] := 0;
      }
      assert buf[..result] == got;
    }

    /** HgfsDoWrite: one write request, retried once in the old version.  The size that
        the host reports is passed on as it is, narrowed from 32 unsigned bits to an int;
        of the data the host takes `taken` bytes. */
    method DoWrite(data: seq<Byte>, offset: nat, host: nat -> Answer, n: nat)
      returns (result: int, n': nat, ghost taken: nat, ghost claimed: nat)
      requires |data| <= LARGE_IO_MAX
      modifies this`writeVersion, this`file
      ensures Resent(old(writeVersion), host(n), n, n', writeVersion)
      ensures host(n' - 1).Serve? ==> taken == claimed == Min(|data|, host(n' - 1).limit)
      ensures host(n' - 1).Claims? ==> taken == |data| < claimed < TWO32
      ensures Served(host(n' - 1)) ==> result == ToInt32(claimed)
      ensures !Served(host(n' - 1)) ==>
                result < 0 && taken == claimed == 0 && FailsWith(host(n' - 1), writeVersion, result)
      ensures taken <= |data| && file == WriteAt(old(file), offset, data[..taken])
    {
      n' := n;
      while true
        invariant if n' == n then writeVersion == old(writeVersion)
                  else n' == n + 1 && old(writeVersion).V3? && host(n).Rejected? && writeVersion == V1
        invariant file == old(file)
        decreases writeVersion.V3?
      {
        var used := writeVersion;
        n' := n' + 1;
        match host(n' - 1) {
          case Serve(limit) =>
            var actual := Min(|data|, limit);
            file := WriteAt(file, offset, data[..actual]);
            return actual, n', actual, actual;
          case Claims(extra) =>
            var actualSize := Min(|data| + 1 + extra, TWO32 - 1);
            file := WriteAt(file, offset, data[..|data|]);
            return ToInt32(actualSize), n', |data|, actualSize;
          case Refused(error) =>
            return if error < 0 then error else -EIO, n', 0, 0;
          case Rejected =>
            if !used.V3? {
              return -EPROTO, n', 0, 0;
            }
            writeVersion := V1;
        }
      }
    }

    /** The next chunk of the data, no longer than one request may be. */
    method SendChunk(data: seq<Byte>, done: nat, offset: nat, host: nat -> Answer, n: nat)
      returns (last: int, n': nat, ghost taken: nat, ghost claimed: nat)
      requires done <= |data|
      modifies this`writeVersion, this`file
      ensures n < n' <= n + 2
      ensures PieceOk(|data|, done, taken, claimed)
      ensures RoundOk(|data|, host(n' - 1), last, done, taken, claimed)
      ensures !Served(host(n' - 1)) ==> FailsWith(host(n' - 1), writeVersion, last)
      ensures file == WriteAt(old(file), offset + done, data[done..done + taken])
    {
      var remaining := |data| - done;
      var sent := if remaining > LARGE_IO_MAX then LARGE_IO_MAX else remaining;
      last, n', taken, claimed := DoWrite(data[done..done + sent], offset + done, host, n);
      SliceOfSlice(data, done, sent, taken);
    }

    /** One round of the write loop, after pieces that end at `done`. */
    method WriteChunk(data: seq<Byte>, done: nat, offset: nat, host: nat -> Answer, n: nat,
                      ghost f0: seq<Byte>, ghost pieces: Pieces)
      returns (last: int, n': nat, ghost pieces': Pieces)
      requires done == End(pieces) <= |data| && Patched(f0, file, offset, data, pieces)
      modifies this`writeVersion, this`file
      ensures n < n' <= n + 2
      ensures pieces'.Then? && pieces'.before == pieces && pieces'.at == done
      ensures Patched(f0, file, offset, data, pieces')
      ensures RoundOk(|data|, host(n' - 1), last, done, pieces'.taken, pieces'.claimed)
      ensures !Served(host(n' - 1)) ==> FailsWith(host(n' - 1), writeVersion, last)
    {
      ghost var before, taken, claimed := file, 0, 0;
      last, n', taken, claimed := SendChunk(data, done, offset, host, n);
      pieces' := Then(pieces, done, taken, claimed);
      PatchedThen(f0, before, file, offset, data, pieces, done, taken, claimed);
    }

    /** HgfsWrite.  The file ends up patched with the pieces the host took, one behind
        the other by what it claimed; a non-negative result is the end of the last one.
        Without a claim beyond what was sent there are no gaps between them.  A claim
        beyond the whole buffer sends the code on behind it; the model stops there,
        with `wild` set. */
    method Write(data: seq<Byte>, offset: nat, host: nat -> Answer)
      returns (result: int, ghost wild: bool, ghost pieces: Pieces, ghost requests: nat)
      modifies this`writeVersion, this`file
      ensures PiecesOk(|data|, pieces) && Patched(old(file), file, offset, data, pieces)
      ensures 0 < Count(pieces) <= requests <= 2 * Count(pieces)
      ensures (forall i :: 0 <= i < requests ==> !host(i).Claims?) ==> NoGaps(pieces)
      ensures wild <==> result >= 0 && End(pieces) > |data|
      ensures result >= 0 ==> Served(host(requests - 1)) && result == End(pieces)
      ensures result < 0 && Served(host(requests - 1)) ==> host(requests - 1).Claims? && pieces.claimed >= TWO31
      ensures !Served(host(requests - 1)) ==> FailsWith(host(requests - 1), writeVersion, result)
      ensures 0 <= result < |data| ==> host(requests - 1).Serve? && host(requests - 1).limit == 0
    {
      var done: nat := 0;
      var last: int, n: nat;
      last, n, pieces := WriteChunk(data, 0, offset, host, 0, file, NoPiece);
      while last > 0 && done + last < |data|
        invariant done <= |data| && 0 < Count(pieces) <= n <= 2 * Count(pieces)
        invariant PiecesOk(|data|, pieces) && Patched(old(file), file, offset, data, pieces)
        invariant pieces.at == done && RoundOk(|data|, host(n - 1), last, done, pieces.taken, pieces.claimed)
        invariant !Served(host(n - 1)) ==> FailsWith(host(n - 1), writeVersion, last)
        invariant (forall i :: 0 <= i < n ==> !host(i).Claims?) ==> NoGaps(pieces)
        decreases |data| - done
      {
        RoundEnds(|data|, host(n - 1), last, done, pieces.taken, pieces.claimed);
        done := done + last;
        last, n, pieces := WriteChunk(data, done, offset, host, n, old(file), pieces);
      }
      requests := n;
      result := if last < 0 then last else done + last;
      wild := result > |data|;
      RoundEnds(|data|, host(n - 1), last, done, pieces.taken, pieces.claimed);
    }
  }

  // --------------------------------------------------- what a write leaves behind

  /** The host took the request, whatever size it reports. */
  predicate Served(a: Answer) {
    a.Serve? || a.Claims?
  }

  /** The requests of a write: of each, bytes at..at + taken of the data reached the
      file, and the host claimed to have taken `claimed`. */
  datatype Pieces = NoPiece | Then(before: Pieces, at: nat, taken: nat, claimed: nat)

  function Count(p: Pieces): nat {
    if p.NoPiece? then 0 else Count(p.before) + 1
  }

  function End(p: Pieces): nat {
    if p.NoPiece? then 0 else p.at + p.claimed
  }

  /** A piece lies inside the n bytes; if the host claimed more than it took, it took
      everything it was sent. */
  predicate PieceOk(n: nat, at: nat, taken: nat, claimed: nat) {
    && at + taken <= n && taken <= claimed < TWO32
    && (taken < claimed ==> taken == Min(n - at, LARGE_IO_MAX))
  }

  /** Each piece begins where the host claimed the one before it ended. */
  predicate PiecesOk(n: nat, p: Pieces) {
    p.Then? ==> PiecesOk(n, p.before) && p.at == End(p.before) && PieceOk(n, p.at, p.taken, p.claimed)
  }

  predicate NoGaps(p: Pieces) {
    p.Then? ==> NoGaps(p.before) && p.taken == p.claimed
  }

  /** Some piece holds byte i of the data. */
  predicate Covered(p: Pieces, i: int) {
    p.Then? && (Covered(p.before, i) || p.at <= i < p.at + p.taken)
  }

  /** One past the last byte of the data that a piece holds. */
  function Reach(p: Pieces): nat {
    if p.NoPiece? then 0
    else if p.taken > 0 && p.at + p.taken > Reach(p.before) then p.at + p.taken
    else Reach(p.before)
  }

  function ByteAt(f0: seq<Byte>, offset: nat, data: seq<Byte>, p: Pieces, x: nat): Byte {
    if Covered(p, x - offset) && offset <= x < offset + |data| then data[x - offset]
    else if x < |f0| then f0[x] else 0
  }

  /** The file f is f0 with the pieces written into it: what a piece covers is the data,
      everything else is as it was, or zero where the file grew. */
  ghost predicate Patched(f0: seq<Byte>, f: seq<Byte>, offset: nat, data: seq<Byte>, p: Pieces) {
    && PiecesOk(|data|, p)
    && |f| == (if Reach(p) > 0 && offset + Reach(p) > |f0| then offset + Reach(p) else |f0|)
    && forall x: nat :: x < |f| ==> f[x] == ByteAt(f0, offset, data, p, x)
  }

  lemma PatchedThenAt(f0: seq<Byte>, f: seq<Byte>, offset: nat, data: seq<Byte>, p: Pieces, taken: nat, claimed: nat,
                      x: nat)
    requires Patched(f0, f, offset, data, p) && PieceOk(|data|, End(p), taken, claimed) && taken > 0
    requires x < |WriteAt(f, offset + End(p), data[End(p)..End(p) + taken])|
    ensures WriteAt(f, offset + End(p), data[End(p)..End(p) + taken])[x] ==
            ByteAt(f0, offset, data, Then(p, End(p), taken, claimed), x)
  {
    WriteAtSpec(f, offset + End(p), data[End(p)..End(p) + taken], x);
    BeyondReach(p, x - offset);
    if x < |f| {
      assert f[x] == ByteAt(f0, offset, data, p, x);
    }
  }

  lemma PatchedThen(f0: seq<Byte>, f: seq<Byte>, g: seq<Byte>, offset: nat, data: seq<Byte>, p: Pieces, at: nat,
                    taken: nat, claimed: nat)
    requires Patched(f0, f, offset, data, p) && at == End(p) && PieceOk(|data|, at, taken, claimed)
    requires g == WriteAt(f, offset + at, data[at..at + taken])
    ensures Patched(f0, g, offset, data, Then(p, at, taken, claimed))
  {
    if taken > 0 {
      forall x: nat | x < |g|
        ensures g[x] == ByteAt(f0, offset, data, Then(p, at, taken, claimed), x)
      {
        PatchedThenAt(f0, f, offset, data, p, taken, claimed, x);
      }
    }
  }

  lemma {:induction false} BeyondReach(p: Pieces, i: int)
    ensures Covered(p, i) ==> i < Reach(p)
  {
    if p.Then? {
      BeyondReach(p.before, i);
    }
  }

  lemma SliceOfSlice(data: seq<Byte>, at: nat, m: nat, k: nat)
    requires k <= m && at + m <= |data|
    ensures data[at..at + m][..k] == data[at..at + k]
  {
  }

  /** The answer to a round, its result and its piece belong together. */
  ghost predicate RoundOk(n: nat, a: Answer, last: int, at: nat, taken: nat, claimed: nat) {
    && (Served(a) ==> last == ToInt32(claimed))
    && (!Served(a) ==> last < 0)
    && (taken < claimed <==> a.Claims?)
    && (a.Serve? ==> claimed <= LARGE_IO_MAX && (claimed == 0 ==> at == n || a.limit == 0))
  }

  lemma RoundEnds(n: nat, a: Answer, last: int, at: nat, taken: nat, claimed: nat)
    requires PieceOk(n, at, taken, claimed) && RoundOk(n, a, last, at, taken, claimed)
    ensures last >= 0 ==> Served(a) && last == claimed
    ensures last < 0 && Served(a) ==> a.Claims? && claimed >= TWO31
    ensures last == 0 ==> a.Serve? && (a.limit == 0 || at == n)
  {
  }

  lemma {:induction false} NoGapsCovered(n: nat, p: Pieces, i: int)
    requires PiecesOk(n, p) && NoGaps(p)
    ensures Reach(p) == End(p) <= n && (Covered(p, i) <==> 0 <= i < End(p))
  {
    if p.Then? {
      NoGapsCovered(n, p.before, i);
    }
  }

  /** Without gaps the pieces are one write of the data up to their end. */
  lemma NoGapsIsOneWrite(f0: seq<Byte>, f: seq<Byte>, offset: nat, data: seq<Byte>, p: Pieces)
    requires Patched(f0, f, offset, data, p) && NoGaps(p)
    ensures End(p) <= |data| && f == WriteAt(f0, offset, data[..End(p)])
  {
    NoGapsCovered(|data|, p, 0);
    var part := data[..End(p)];
    var g := WriteAt(f0, offset, part);
    if part != [] {
      assert |f| == |g|;
      forall x: nat | x < |f|
        ensures f[x] == g[x]
      {
        WriteAtSpec(f0, offset, part, x);
        NoGapsCovered(|data|, p, x - offset);
      }
    } else {
      forall x: nat | x < |f|
        ensures f[x] == f0[x]
      {
        NoGapsCovered(|data|, p, x - offset);
      }
    }
  }

  /** A host that claims one byte more than it was sent: the write counts as complete,
      and the last byte never went out. */
  lemma ClaimLosesByte(data: seq<Byte>)
    requires |data| == LARGE_IO_MAX + 1
    ensures var p := Then(NoPiece, 0, LARGE_IO_MAX, LARGE_IO_MAX + 1);
            Patched([], data[..LARGE_IO_MAX], 0, data, p) && End(p) == |data|
  {
  }

  /** A full write followed by a read of the same range gives the data back, whatever
      chunks the host serves; it falls short only if a read request failed or was
      served nothing. */
  method WriteThenRead(h: Handle, data: seq<Byte>, offset: nat, w: nat -> Answer, r: nat -> Answer)
    returns (written: int, got: seq<Byte>, ghost gaps: bool, ghost writes: nat, ghost requests: nat)
    modifies h
    ensures requests > 0
    ensures (forall i :: 0 <= i < writes ==> !w(i).Claims?) ==> !gaps
    ensures written == |data| && !gaps ==> got <= data
    ensures written == |data| && !gaps && got != data ==> !r(requests - 1).Serve? || r(requests - 1).limit == 0
  {
    ghost var pieces, wild;
    written, wild, pieces, writes := h.Write(data, offset, w);
    gaps := !NoGaps(pieces);
    var buf := new Byte[|data|](_ => 0);
    var count, failed, n := h.Read(buf, offset, r);
    got, requests := buf[..count], n;
    if written == |data| && !gaps {
      NoGapsIsOneWrite(old(h.file), h.file, offset, data, pieces);
      assert data[..written] == data;
      ReadAfterWrite(old(h.file), offset, data);
      ReadPrefix(h.file, offset, count, |data|);
      assert got <= data;
      assert count == |data| ==> got == data;
    }
  }

  lemma ReadPrefix(file: seq<Byte>, offset: nat, m: nat, n: nat)
    requires m <= n
    ensures ReadAt(file, offset, m) <= ReadAt(file, offset, n)
  {
  }
}
