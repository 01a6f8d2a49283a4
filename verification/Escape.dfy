/**
  Escaping of file name components: characters the local file system cannot hold
  are replaced by a substitute and an escape character, and the escape character
  itself is escaped where the reverse direction would otherwise consume it.
*/
module Escape {
  import opened Memory

  const ESCAPE_CHAR := '%'
  const ESCAPE_SUBSTITUTE := ']'

  /** The illegal characters of a platform and, position by position, their substitutes. */
  datatype Tables = Tables(illegal: string, substitute: string)

  const LINUX := Tables("/", "!")
  const MACOS := Tables("/:", "!&")

  predicate ValidTables(t: Tables) {
    && |t.illegal| == |t.substitute|
    && (forall i, j :: 0 <= i < j < |t.substitute| ==> t.substitute[i] != t.substitute[j])
    && (forall c :: c in t.substitute ==> c !in t.illegal)
    && ESCAPE_CHAR !in t.illegal && ESCAPE_CHAR !in t.substitute
    && ESCAPE_SUBSTITUTE !in t.illegal && ESCAPE_SUBSTITUTE !in t.substitute
  }

  lemma TablesAreValid()
    ensures ValidTables(LINUX) && ValidTables(MACOS)
  {
  }

  /** strchr: position of the first occurrence; the terminator is not searched for. */
  function IndexOf(s: string, c: char): (i: nat)
    requires c in s
    ensures i < |s| && s[i] == c
  {
    if s[0] == c then 0 else 1 + IndexOf(s[1..], c)
  }

  /** HgfsIsEscapeSequence without the Windows special cases. */
  predicate IsSequence(t: Tables, s: string, i: nat)
    requires i < |s|
  {
    && s[i] == ESCAPE_CHAR && i > 0
    && (|| (s[i - 1] == ESCAPE_SUBSTITUTE && i > 1
            && (s[i - 2] == ESCAPE_SUBSTITUTE || s[i - 2] in t.substitute))
        || s[i - 1] in t.substitute)
  }

  /** What one input character becomes. */
  function EscapedChar(t: Tables, s: string, i: nat): string
    requires ValidTables(t) && i < |s|
  {
    if s[i] in t.illegal then [t.substitute[IndexOf(t.illegal, s[i])], ESCAPE_CHAR]
    else if IsSequence(t, s, i) then [ESCAPE_SUBSTITUTE, ESCAPE_CHAR]
    else [s[i]]
  }

  function EscapeUpTo(t: Tables, s: string, n: nat): string
    requires ValidTables(t) && n <= |s|
  {
    if n == 0 then "" else EscapeUpTo(t, s, n - 1) + EscapedChar(t, s, n - 1)
  }

  function Escape(t: Tables, s: string): string
    requires ValidTables(t)
  {
    EscapeUpTo(t, s, |s|)
  }

  /** What an escape character after `c` stands for. */
  function Decoded(t: Tables, c: char): char
    requires ValidTables(t)
  {
    if c in t.substitute then t.illegal[IndexOf(t.substitute, c)]
    else if c == ESCAPE_SUBSTITUTE then ESCAPE_CHAR
    else c
  }

  /** One character of the reverse direction, given what has been produced so far. */
  function UndoStep(t: Tables, out: string, c: char): string
    requires ValidTables(t)
  {
    if IsSequence(t, out + [c], |out|) then out[..|out| - 1] + [Decoded(t, out[|out| - 1])]
    else out + [c]
  }

  function UndoFrom(t: Tables, out: string, rest: string): string
    requires ValidTables(t)
    decreases |rest|
  {
    if rest == "" then out else UndoFrom(t, UndoStep(t, out, rest[0]), rest[1..])
  }

  function Undo(t: Tables, s: string): string
    requires ValidTables(t)
  {
    UndoFrom(t, "", s)
  }

  // --------------------------------------------------------------- round trip

  lemma {:induction false} IndexOfUnique(s: string, i: nat)
    requires i < |s| && forall j, k :: 0 <= j < k < |s| ==> s[j] != s[k]
    ensures IndexOf(s, s[i]) == i
  {
  }

  lemma {:induction false} UndoConcat(t: Tables, out: string, a: string, b: string)
    requires ValidTables(t)
    ensures UndoFrom(t, out, a + b) == UndoFrom(t, UndoFrom(t, out, a), b)
    decreases |a|
  {
    if a == "" {
      assert a + b == b;
    } else {
      assert (a + b)[1..] == a[1..] + b;
      UndoConcat(t, UndoStep(t, out, a[0]), a[1..], b);
    }
  }

  /** With the original prefix already restored, the image of the next character
      restores that character. */
  lemma UndoOneChar(t: Tables, s: string, i: nat)
    requires ValidTables(t) && i < |s|
    ensures UndoFrom(t, s[..i], EscapedChar(t, s, i)) == s[..i + 1]
  {
    var out := s[..i];
    var e := EscapedChar(t, s, i);
    if |e| == 1 {
      assert e == [s[i]];
      assert UndoFrom(t, out, e) == UndoFrom(t, UndoStep(t, out, s[i]), e[1..]);
      assert IsSequence(t, out + [s[i]], i) == IsSequence(t, s, i);
      assert UndoStep(t, out, s[i]) == out + [s[i]];
    } else {
      var mid := UndoStep(t, out, e[0]);
      assert mid == out + [e[0]];
      assert UndoFrom(t, out, e) == UndoFrom(t, mid, e[1..]);
      assert e[1..] == [ESCAPE_CHAR];
      assert UndoFrom(t, mid, [ESCAPE_CHAR]) == UndoStep(t, mid, ESCAPE_CHAR);
      assert IsSequence(t, mid + [ESCAPE_CHAR], |mid|);
      if s[i] in t.illegal {
        IndexOfUnique(t.substitute, IndexOf(t.illegal, s[i]));
      }
      assert Decoded(t, e[0]) == s[i];
    }
  }

  lemma UndoInTurn(t: Tables, a: string, out: string, b: string)
    requires ValidTables(t) && Undo(t, a) == out
    ensures Undo(t, a + b) == UndoFrom(t, out, b)
  {
    UndoConcat(t, "", a, b);
  }

  lemma UndoNextChar(t: Tables, a: string, s: string, i: nat)
    requires ValidTables(t) && i < |s| && Undo(t, a) == s[..i]
    ensures Undo(t, a + EscapedChar(t, s, i)) == s[..i + 1]
  {
    UndoOneChar(t, s, i);
    UndoInTurn(t, a, s[..i], EscapedChar(t, s, i));
  }

  lemma {:induction false} UndoEscapeUpTo(t: Tables, s: string, n: nat)
    requires ValidTables(t) && n <= |s|
    ensures Undo(t, EscapeUpTo(t, s, n)) == s[..n]
  {
    if n > 0 {
      UndoEscapeUpTo(t, s, n - 1);
      UndoNextChar(t, EscapeUpTo(t, s, n - 1), s, n - 1);
    }
  }

  /** Undo reverses Escape on every name. */
  lemma RoundTrip(t: Tables, s: string)
    requires ValidTables(t)
    ensures Undo(t, Escape(t, s)) == s
  {
    UndoEscapeUpTo(t, s, |s|);
    assert s[..|s|] == s;
  }

  /** Different names stay different once escaped. */
  lemma EscapeInjective(t: Tables, a: string, b: string)
    requires ValidTables(t) && Escape(t, a) == Escape(t, b)
    ensures a == b
  {
    RoundTrip(t, a);
    RoundTrip(t, b);
  }

  lemma {:induction false} EscapedIsLegal(t: Tables, s: string, n: nat)
    requires ValidTables(t) && n <= |s|
    ensures forall c :: c in EscapeUpTo(t, s, n) ==> c !in t.illegal
    ensures n <= |EscapeUpTo(t, s, n)| <= 2 * n
  {
    if n > 0 {
      EscapedIsLegal(t, s, n - 1);
    }
  }

  /** A name whose escaped form is no longer than itself is left as it is. */
  lemma {:induction false} NoExtraMeansUnchanged(t: Tables, s: string, n: nat)
    requires ValidTables(t) && n <= |s|
    requires |EscapeUpTo(t, s, n)| == n
    ensures EscapeUpTo(t, s, n) == s[..n]
  {
    if n > 0 {
      var a, e := EscapeUpTo(t, s, n - 1), EscapedChar(t, s, n - 1);
      EscapedIsLegal(t, s, n - 1);
      assert |a| + |e| == n;
      assert |a| == n - 1 && e == [s[n - 1]];
      NoExtraMeansUnchanged(t, s, n - 1);
      assert s[..n] == s[..n - 1] + [s[n - 1]];
    }
  }

  /** Nothing in s reads as an escape sequence: no '%' stands behind a substitute, or
      behind a ']' that itself stands behind a substitute or a ']'. */
  ghost predicate NoSequences(t: Tables, s: string) {
    && (forall i :: 0 < i < |s| && s[i] == '%' ==> s[i - 1] !in t.substitute)
    && (forall i :: 1 < i < |s| && s[i] == '%' && s[i - 1] == ']' ==> s[i - 2] != ']' && s[i - 2] !in t.substitute)
  }

  lemma NoSequencesMeans(t: Tables, s: string)
    ensures NoSequences(t, s) <==> forall i :: 0 <= i < |s| ==> !IsSequence(t, s, i)
  {
    if !NoSequences(t, s) {
      if i :| 0 < i < |s| && s[i] == '%' && s[i - 1] in t.substitute {
        assert IsSequence(t, s, i);
      } else {
        var i :| 1 < i < |s| && s[i] == '%' && s[i - 1] == ']' && !(s[i - 2] != ']' && s[i - 2] !in t.substitute);
        assert IsSequence(t, s, i);
      }
    }
  }

  lemma {:induction false} EscapeLonger(t: Tables, s: string, n: nat)
    requires ValidTables(t) && n <= |s|
    ensures |EscapeUpTo(t, s, n)| >= n
    ensures (exists i :: 0 <= i < n && (s[i] in t.illegal || IsSequence(t, s, i))) ==> |EscapeUpTo(t, s, n)| > n
  {
    if n > 0 {
      EscapeLonger(t, s, n - 1);
    }
  }

  /** A name is escaped only if it has to be: it is left alone exactly if it holds no
      illegal character and nothing that reads as an escape sequence. */
  lemma EscapeUnchangedIff(t: Tables, s: string)
    requires ValidTables(t)
    ensures Escape(t, s) == s <==> NoSequences(t, s) && forall c :: c in s ==> c !in t.illegal
  {
    NoSequencesMeans(t, s);
    EscapeLonger(t, s, |s|);
    if NoSequences(t, s) && forall c :: c in s ==> c !in t.illegal {
      CopyRun(t, s, 0, |s|);
      assert s[0..|s|] == s;
    } else if NoSequences(t, s) {
      var c :| c in s && c in t.illegal;
      var i :| 0 <= i < |s| && s[i] == c;
      assert s[i] in t.illegal;
    }
  }

  lemma {:induction false} UndoShrinks(t: Tables, out: string, rest: string)
    requires ValidTables(t)
    ensures |UndoFrom(t, out, rest)| <= |out| + |rest|
    ensures UndoFrom(t, out, rest) == out + rest <==>
            forall i :: |out| <= i < |out + rest| ==> !IsSequence(t, out + rest, i)
    decreases |rest|
  {
    if rest == "" {
      assert out + rest == out;
    } else {
      var s, n := out + rest, |out|;
      UndoShrinks(t, UndoStep(t, out, rest[0]), rest[1..]);
      SequenceLocal(t, out + [rest[0]], s, n);
      if !IsSequence(t, s, n) {
        assert out + [rest[0]] + rest[1..] == s;
      }
    }
  }

  /** Whether a position closes a sequence is decided by the characters up to it. */
  lemma SequenceLocal(t: Tables, a: string, s: string, i: nat)
    requires a <= s && i < |a|
    ensures IsSequence(t, a, i) <==> IsSequence(t, s, i)
  {
  }

  /** Restoring leaves a name alone exactly if nothing in it reads as an escape sequence. */
  lemma UndoUnchangedIff(t: Tables, s: string)
    requires ValidTables(t)
    ensures Undo(t, s) == s <==> NoSequences(t, s)
  {
    UndoShrinks(t, "", s);
    assert "" + s == s;
    NoSequencesMeans(t, s);
  }

  // ------------------------------------------------------------------ the code

  predicate NeedsEscape(t: Tables, s: string, i: nat)
    requires i < |s|
  {
    s[i] in t.illegal || IsSequence(t, s, i)
  }

  /** HgfsEscapeGetComponentSize: how many characters escaping adds. */
  method GetComponentSize(t: Tables, s: string) returns (extra: nat)
    requires ValidTables(t) && NUL !in s
    ensures |Escape(t, s)| == |s| + extra
    ensures extra == 0 <==> Escape(t, s) == s
  {
    extra := 0;
    for i := 0 to |s|
      invariant |EscapeUpTo(t, s, i)| == i + extra
    {
      if NeedsEscape(t, s, i) {
        extra := extra + 1;
      }
    }
    if extra == 0 {
      NoExtraMeansUnchanged(t, s, |s|);
      assert s[..|s|] == s;
    }
  }

  lemma {:induction false} CopyRun(t: Tables, s: string, lo: nat, hi: nat)
    requires ValidTables(t) && lo <= hi <= |s|
    requires forall k :: lo <= k < hi ==> !NeedsEscape(t, s, k)
    ensures EscapeUpTo(t, s, hi) == EscapeUpTo(t, s, lo) + s[lo..hi]
    decreases hi
  {
    if lo < hi {
      var n := hi - 1;
      CopyRun(t, s, lo, n);
      assert !NeedsEscape(t, s, n);
      assert EscapedChar(t, s, n) == [s[n]];
      assert s[lo..hi] == s[lo..n] + [s[n]];
      assert EscapeUpTo(t, s, lo) + s[lo..n] + [s[n]] == EscapeUpTo(t, s, lo) + (s[lo..n] + [s[n]]);
    }
  }

  /** Longer prefixes escape to longer strings. */
  lemma {:induction false} EscapeGrows(t: Tables, s: string, m: nat, n: nat)
    requires ValidTables(t) && m <= n <= |s|
    ensures EscapeUpTo(t, s, m) <= EscapeUpTo(t, s, n)
    decreases n
  {
    if m < n {
      EscapeGrows(t, s, m, n - 1);
    }
  }

  /** HgfsAddEscapeCharacter: the run since the last place that needed it, then the two
      characters for this one; -1 when they do not fit. */
  method AddEscape(t: Tables, s: string, processed: nat, i: nat, out: array<char>, offset: nat) returns (end: int)
    requires ValidTables(t) && processed <= i < |s| && offset <= out.Length
    requires NeedsEscape(t, s, i) && forall k :: processed <= k < i ==> !NeedsEscape(t, s, k)
    requires out[..offset] == EscapeUpTo(t, s, processed)
    modifies out
    ensures end < 0 ==> out.Length < |EscapeUpTo(t, s, i + 1)|
    ensures end >= 0 ==> end <= out.Length && out[..end] == EscapeUpTo(t, s, i + 1)
  {
    CopyRun(t, s, processed, i);
    if offset + (i - processed) > out.Length {
      return -1;
    }
    end := CopyInto(out, offset, s[processed..i]);
    if out.Length - end < 2 {
      return -1;
    }
    end := CopyInto(out, end, EscapedChar(t, s, i));
  }

  /** The last run and the NUL; -1 when they do not fit. */
  method AddTail(t: Tables, s: string, processed: nat, out: array<char>, offset: nat) returns (end: int)
    requires ValidTables(t) && processed <= |s| && offset <= out.Length
    requires forall k :: processed <= k < |s| ==> !NeedsEscape(t, s, k)
    requires out[..offset] == EscapeUpTo(t, s, processed)
    modifies out
    ensures end < 0 ==> out.Length <= |Escape(t, s)|
    ensures end >= 0 ==> end < out.Length && out[..end] == Escape(t, s) && out[end] == NUL
  {
    CopyRun(t, s, processed, |s|);
    if offset + (|s| - processed) > out.Length {
      return -1;
    }
    end := CopyInto(out, offset, s[processed..|s|]);
    if out.Length - end < 1 {
      return -1;
    }
    out[end] := NUL;
  }

  /** HgfsEscapeDoComponent: copy runs of ordinary characters, insert two characters
      at each place that needs it, and end with a NUL.  It fails exactly when the
      escaped name and its NUL do not fit. */
  method DoComponent(t: Tables, s: string, out: array<char>) returns (r: int)
    requires ValidTables(t) && NUL !in s
    modifies out
    ensures r < 0 <==> s != "" && out.Length <= |Escape(t, s)|
    ensures r >= 0 ==> r == |Escape(t, s)| <= out.Length && out[..r] == Escape(t, s)
    ensures r >= 0 && s != "" ==> r < out.Length && out[r] == NUL
  {
    if s == "" {
      return 0;
    }
    var processed: nat, offset: nat := 0, 0;
    for i := 0 to |s|
      invariant 0 <= processed <= i && offset <= out.Length
      invariant forall k :: processed <= k < i ==> !NeedsEscape(t, s, k)
      invariant out[..offset] == EscapeUpTo(t, s, processed)
    {
      if NeedsEscape(t, s, i) {
        var end := AddEscape(t, s, processed, i, out, offset);
        if end < 0 {
          EscapeGrows(t, s, i + 1, |s|);
          return -1;
        }
        offset, processed := end, i + 1;
      }
    }
    r := AddTail(t, s, processed, out, offset);
  }

  /** memcpy of a run to the output. */
  method CopyInto(out: array<char>, offset: nat, s: string) returns (end: nat)
    requires offset + |s| <= out.Length
    modifies out
    ensures end == offset + |s|
    ensures out[..end] == old(out[..offset]) + s
  {
    forall k | 0 <= k < |s| {
      out[offset + k] := s[k];
    }
    end := offset + |s|;
  }

  /** HgfsEscapeUndoComponent: restore the component of a name that starts at `start`
      and ends at the NUL at `end`, in place, and close the gaps, moving the components
      behind it along.  The whole name takes `length` bytes. */
  method UndoComponent(t: Tables, buf: array<char>, start: nat, end: nat, length: nat)
    returns (newEnd: nat, newLength: nat)
    requires ValidTables(t)
    requires start <= end < length <= buf.Length
    modifies buf
    ensures start <= newEnd < newLength <= length && length - newLength == end - newEnd
    ensures buf[..start] == old(buf[..start])
    ensures buf[start..newEnd] == Undo(t, old(buf[start..end]))
    ensures buf[newEnd..newLength] == old(buf[end..length])
  {
    newEnd, newLength := end, length;
    var at: nat := start;
    ghost var head, result, tail := buf[..start], Undo(t, buf[start..end]), buf[end..length];
    ghost var out, rest := "", buf[start..end];
    while at < newEnd
      invariant start <= at <= newEnd < newLength <= length && length - newLength == end - newEnd
      invariant buf[..at] == head + out && buf[at..newEnd] == rest && buf[newEnd..newLength] == tail
      invariant |head| == start && result == UndoFrom(t, out, rest)
      decreases newEnd - at
    {
      at, newEnd, newLength := UndoAt(t, buf, start, at, newEnd, newLength, head, out, rest, tail);
      out, rest := UndoStep(t, out, rest[0]), rest[1..];
    }
    assert buf[..start] == buf[..at][..start];
    assert buf[start..newEnd] == buf[..at][start..];
  }

  /** One round: the character at `at` closes a sequence or is passed over. */
  method UndoAt(t: Tables, buf: array<char>, start: nat, at: nat, end: nat, length: nat,
                ghost head: string, ghost out: string, ghost rest: string, ghost tail: string)
    returns (at': nat, end': nat, length': nat)
    requires ValidTables(t) && start <= at < end < length <= buf.Length && |head| == start
    requires buf[..at] == head + out && buf[at..end] == rest && buf[end..length] == tail
    modifies buf
    ensures start <= at' <= end' < length' <= length && length - length' == end - end' && end' - at' == end - at - 1
    ensures buf[..at'] == head + UndoStep(t, out, rest[0])
    ensures buf[at'..end'] == rest[1..] && buf[end'..length'] == tail
  {
    ghost var c := buf[at];
    assert rest == [c] + buf[at + 1..end];
    assert out == buf[start..at];
    if IsSequenceAt(t, buf, start, at) {
      Collapse(buf, Decoded(t, buf[at - 1]), at, end, length);
      at', end', length' := at, end - 1, length - 1;
      assert head + (out[..|out| - 1] + [Decoded(t, out[|out| - 1])]) ==
             (head + out)[..at - 1] + [Decoded(t, out[|out| - 1])];
    } else {
      at', end', length' := at + 1, end, length;
      assert buf[..at'] == head + (out + [c]);
    }
  }

  /** The test of the loop; it looks at no more than three characters. */
  predicate IsSequenceAt(t: Tables, buf: array<char>, start: nat, at: nat)
    requires start <= at < buf.Length
    reads buf
    ensures IsSequenceAt(t, buf, start, at) == IsSequence(t, buf[start..at] + [buf[at]], at - start)
  {
    && buf[at] == ESCAPE_CHAR && at > start
    && (|| (buf[at - 1] == ESCAPE_SUBSTITUTE && at > start + 1
            && (buf[at - 2] == ESCAPE_SUBSTITUTE || buf[at - 2] in t.substitute))
        || buf[at - 1] in t.substitute)
  }

  /** Replace the two characters of a sequence by the one they stand for, moving
      everything behind them one place to the left. */
  method Collapse(buf: array<char>, d: char, at: nat, size: nat, length: nat)
    requires 0 < at < size < length <= buf.Length
    modifies buf
    ensures buf[..at] == old(buf[..at - 1] + [d])
    ensures buf[at..size - 1] == old(buf[at + 1..size])
    ensures buf[size - 1..length - 1] == old(buf[size..length])
  {
    buf[at - 1] := d;
    ghost var was := buf[..];
    MoveDown(buf, at, at + 1, length - 1 - at);
    ghost var now := buf[..];
    assert now[..at] == buf[..at] && now[at..length - 1] == buf[at..length - 1];
    assert was[..at] == was[..at - 1] + [d];
    SlicesMove(was, now, at, size, length);
  }

  lemma SlicesMove(was: string, now: string, at: nat, size: nat, length: nat)
    requires at < size < length <= |was| == |now| && now[at..length - 1] == was[at + 1..length]
    ensures now[at..size - 1] == was[at + 1..size] && now[size - 1..length - 1] == was[size..length]
  {
    forall i | at <= i < length - 1
      ensures now[i] == was[i + 1]
    {
      assert now[i] == now[at..length - 1][i - at] && was[i + 1] == was[at + 1..length][i - at];
    }
  }

  // ------------------------------------------------------------------ whole names

  /** A name: components, each followed by a NUL. */
  predicate IsName(s: string) {
    s == "" || s[|s| - 1] == NUL
  }

  /** Escaping and restoring a name component by component. */
  function EscapeName(t: Tables, s: string): string
    requires ValidTables(t)
    decreases |s|
  {
    if s == "" then ""
    else
      var c := CString(s);
      Escape(t, c) + [NUL] + if |c| < |s| then EscapeName(t, s[|c| + 1..]) else ""
  }

  function UndoName(t: Tables, s: string): string
    requires ValidTables(t)
    decreases |s|
  {
    if s == "" then ""
    else
      var c := CString(s);
      Undo(t, c) + [NUL] + if |c| < |s| then UndoName(t, s[|c| + 1..]) else ""
  }

  lemma {:induction false} EscapeHasNoNul(t: Tables, s: string, n: nat)
    requires ValidTables(t) && n <= |s| && NUL !in s && NUL !in t.substitute
    ensures NUL !in EscapeUpTo(t, s, n)
  {
    if n > 0 {
      EscapeHasNoNul(t, s, n - 1);
      assert s[n - 1] in s;
    }
  }

  lemma NameSplits(s: string)
    requires IsName(s) && s != ""
    ensures var c := CString(s); |c| < |s| && s == c + [NUL] + s[|c| + 1..] && IsName(s[|c| + 1..])
  {
    CStringSpec(s);
    assert s[|s| - 1] in s;
    var k := |CString(s)|;
    assert s[..k] == CString(s);
    assert s == s[..k] + [s[k]] + s[k + 1..];
  }

  lemma CStringOfFirst(c: string, rest: string)
    requires NUL !in c
    ensures CString(c + [NUL] + rest) == c && (c + [NUL] + rest)[|c| + 1..] == rest
  {
    CStringAfter(c, [NUL] + rest);
    assert c + [NUL] + rest == c + ([NUL] + rest);
    assert c + [] == c;
  }

  lemma UndoNameSplits(t: Tables, c: string, rest: string)
    requires ValidTables(t) && NUL !in c
    ensures UndoName(t, c + [NUL] + rest) == Undo(t, c) + [NUL] + UndoName(t, rest)
  {
    CStringOfFirst(c, rest);
  }

  /** Restoring reverses escaping on every name of any number of components. */
  lemma {:induction false} NameRoundTrip(t: Tables, s: string)
    requires ValidTables(t) && NUL !in t.substitute && IsName(s)
    ensures UndoName(t, EscapeName(t, s)) == s
    decreases |s|
  {
    if s != "" {
      var c := CString(s);
      CStringSpec(s);
      NameSplits(s);
      var rest := s[|c| + 1..];
      NameRoundTrip(t, rest);
      EscapeHasNoNul(t, c, |c|);
      UndoNameSplits(t, Escape(t, c), EscapeName(t, rest));
      RoundTrip(t, c);
    }
  }

  /** The last component of the name is empty, and not its only one. */
  predicate EndsEmpty(s: string) {
    |s| >= 2 && s[|s| - 2] == NUL
  }

  lemma EndsEmptyStep(c: string, rest: string)
    requires NUL !in c && IsName(rest)
    ensures EndsEmpty(c + [NUL] + rest) == if |rest| > 1 then EndsEmpty(rest) else rest != ""
  {
    var s := c + [NUL] + rest;
    if rest != "" {
      assert |rest| > 1 ==> s[|s| - 2] == rest[|rest| - 2];
    } else if c != "" {
      assert s[|s| - 2] == c[|c| - 1] && c[|c| - 1] in c;
    }
  }

  /** HgfsEscape_Undo: all components in place.  The result is the size without the
      final NUL, and without an empty last component, which the loop does not visit. */
  method UndoWholeName(t: Tables, buf: array<char>, length: nat) returns (size: nat)
    requires ValidTables(t) && 0 < length <= buf.Length && buf[length - 1] == NUL
    modifies buf
    ensures var name := UndoName(t, old(buf[..length]));
            && |name| <= length && buf[..|name|] == name
            && size == |name| - if EndsEmpty(old(buf[..length])) then 2 else 1
  {
    var start: nat, end := 0, length;
    var more := true;
    ghost var done, todo, result := "", buf[..length], UndoName(t, buf[..length]);
    ghost var skipsLast := EndsEmpty(todo);
    assert done + result == result;
    while more
      invariant start <= end <= length && more == (start == 0 || end - start > 1)
      invariant buf[..start] == done && buf[start..end] == todo
      invariant Restoring(t, done, todo, result, skipsLast)
      decreases more, end - start
    {
      ghost var c, rest := RestoringStep(t, done, todo, result, skipsLast);
      start, end := UndoNext(t, buf, start, end, done, c, rest);
      done, todo := done + (Undo(t, c) + [NUL]), rest;
      more := end - start > 1;
    }
    size := start - 1;
    LastPart(t, done, todo, buf[..end]);
  }

  /** `done` is restored, `todo` is not, and together they make the result. */
  ghost predicate Restoring(t: Tables, done: string, todo: string, result: string, skipsLast: bool)
    requires ValidTables(t)
  {
    && IsName(todo) && done + UndoName(t, todo) == result
    && if done == "" || |todo| > 1 then todo != "" && EndsEmpty(todo) == skipsLast
       else todo == if skipsLast then [NUL] else ""
  }

  lemma RestoringStep(t: Tables, done: string, todo: string, result: string, skipsLast: bool)
    returns (c: string, rest: string)
    requires ValidTables(t) && Restoring(t, done, todo, result, skipsLast) && (done == "" || |todo| > 1)
    ensures NUL !in c && todo == c + [NUL] + rest
    ensures Restoring(t, done + (Undo(t, c) + [NUL]), rest, result, skipsLast)
  {
    NameStep(t, done, todo);
    c := CString(todo);
    rest := todo[|c| + 1..];
    EndsEmptyStep(c, rest);
  }

  /** What the loop leaves unvisited is already restored. */
  lemma LastPart(t: Tables, done: string, todo: string, all: string)
    requires ValidTables(t) && (todo == "" || todo == [NUL]) && all == done + todo
    ensures done + UndoName(t, todo) == all
  {
    if todo != "" {
      assert CString(todo) == "" && todo[1..] == "";
      assert UndoName(t, todo) == Undo(t, "") + [NUL] + "";
    }
  }

  lemma NameStep(t: Tables, done: string, todo: string)
    requires ValidTables(t) && IsName(todo) && todo != ""
    ensures var c := CString(todo);
            && |c| < |todo| && NUL !in c && todo == c + [NUL] + todo[|c| + 1..] && IsName(todo[|c| + 1..])
            && done + UndoName(t, todo) == done + (Undo(t, c) + [NUL]) + UndoName(t, todo[|c| + 1..])
  {
    NameSplits(todo);
    CStringSpec(todo);
    var c := CString(todo);
    assert done + (Undo(t, c) + [NUL] + UndoName(t, todo[|c| + 1..])) ==
           done + (Undo(t, c) + [NUL]) + UndoName(t, todo[|c| + 1..]);
  }

  /** One component of the name. */
  method UndoNext(t: Tables, buf: array<char>, start: nat, length: nat,
                  ghost done: string, ghost c: string, ghost rest: string)
    returns (start': nat, length': nat)
    requires ValidTables(t) && start < length <= buf.Length && NUL !in c
    requires buf[..start] == done && buf[start..length] == c + [NUL] + rest
    modifies buf
    ensures start < start' <= length' <= length && length' - start' < length - start
    ensures buf[..start'] == done + (Undo(t, c) + [NUL])
    ensures buf[start'..length'] == rest
  {
    var end := FindNul(buf, start, length, c, rest);
    end, length' := UndoComponent(t, buf, start, end, length);
    NextComponent(buf[..length'], done, Undo(t, c), rest, start, end);
    start' := end + 1;
  }

  /** The parts of the buffer around a component that was just restored. */
  lemma NextComponent(now: string, done: string, u: string, rest: string, start: nat, end: nat)
    requires start <= end < |now| && now[..start] == done && now[start..end] == u && now[end..] == [NUL] + rest
    ensures now[..end + 1] == done + (u + [NUL]) && now[end + 1..] == rest
  {
    assert now[..end + 1] == now[..start] + now[start..end] + [now[end]];
    assert now[end..][0] == now[end];
    assert now[end + 1..] == now[end..][1..];
  }

  /** The parts of the buffer around a component that is about to be restored. */
  lemma Around(now: string, start: nat, c: string, rest: string)
    requires start <= |now| && now[start..] == c + [NUL] + rest && NUL !in c
    ensures start + |c| < |now| && now[start..start + |c|] == c && now[start + |c|] == NUL
    ensures now[start + |c|..] == [NUL] + rest
    ensures forall k :: start <= k < start + |c| ==> now[k] != NUL
  {
    var end := start + |c|;
    assert now[start..][..|c|] == now[start..end];
    assert now[start..][|c|..] == now[end..];
    assert now[start..][|c|] == now[end];
    forall k | start <= k < end
      ensures now[k] != NUL
    {
      assert now[k] == c[k - start] && c[k - start] in c;
    }
  }

  /** strlen of the component that starts at `start`. */
  method FindNul(buf: array<char>, start: nat, length: nat, ghost c: string, ghost rest: string)
    returns (end: nat)
    requires start < length <= buf.Length && NUL !in c && buf[start..length] == c + [NUL] + rest
    ensures end == start + |c| < length && buf[start..end] == c && buf[end..length] == [NUL] + rest
  {
    ghost var now := buf[..length];
    assert now[start..] == buf[start..length];
    Around(now, start, c, rest);
    end := start;
    while buf[end] != NUL
      invariant start <= end <= start + |c|
      decreases start + |c| - end
    {
      assert buf[end] == now[end];
      end := end + 1;
    }
    assert buf[end] == now[end];
    assert buf[start..end] == now[start..end] && buf[end..length] == now[end..];
  }
}
