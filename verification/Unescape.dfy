/** Undoing the escapes of a message catalogue in place. */
module Unescape {
  import opened Memory

  const BACKSLASH := '\\'

  /** What follows a backslash in a known escape, and what the escape stands for. */
  predicate Known(c: char) {
    c == BACKSLASH || c == 'n' || c == 'r' || c == 't'
  }

  function Meaning(c: char): char {
    if c == 'n' then '\n' else if c == 'r' then '\r' else if c == 't' then '\t' else c
  }

  /** The text with its known escapes replaced; an unknown escape and a final
      backslash stay as they are. */
  function Undo(s: string): string {
    if |s| < 2 then s
    else if s[0] != BACKSLASH then [s[0]] + Undo(s[1..])
    else if Known(s[1]) then [Meaning(s[1])] + Undo(s[2..])
    else [s[0], s[1]] + Undo(s[2..])
  }

  // ------------------------------------------------------------------ the printer

  function Quote(c: char): string {
    if c == BACKSLASH then [BACKSLASH, BACKSLASH]
    else if c == '\n' then [BACKSLASH, 'n']
    else if c == '\r' then [BACKSLASH, 'r']
    else if c == '\t' then [BACKSLASH, 't']
    else [c]
  }

  function Print(s: string): string {
    if s == [] then [] else Quote(s[0]) + Print(s[1..])
  }

  lemma UndoQuoted(c: char, rest: string)
    ensures Undo(Quote(c) + rest) == [c] + Undo(rest)
  {
    var s := Quote(c) + rest;
    if |Quote(c)| == 2 {
      assert s[2..] == rest;
    } else {
      assert s[1..] == rest;
      if rest == [] {
        assert s == [c];
      }
    }
  }

  /** Every text comes back from its escaped form. */
  lemma {:induction false} UndoPrint(s: string)
    ensures Undo(Print(s)) == s
  {
    if s != [] {
      UndoPrint(s[1..]);
      UndoQuoted(s[0], Print(s[1..]));
    }
  }

  /** Escaped forms are never confused. */
  lemma PrintInjective(s: string, t: string)
    requires Print(s) == Print(t)
    ensures s == t
  {
    UndoPrint(s);
    UndoPrint(t);
  }

  predicate HasEscape(s: string) {
    |s| >= 2 &&
    if s[0] != BACKSLASH then HasEscape(s[1..]) else Known(s[1]) || HasEscape(s[2..])
  }

  /** The text is left alone exactly when it holds no known escape, and shrinks otherwise. */
  lemma {:induction false} UnchangedIffNoEscape(s: string)
    ensures Undo(s) == s <==> !HasEscape(s)
    ensures HasEscape(s) <==> |Undo(s)| < |s|
    ensures |Undo(s)| <= |s|
  {
    if |s| >= 2 {
      if s[0] != BACKSLASH {
        UnchangedIffNoEscape(s[1..]);
        assert s == [s[0]] + s[1..];
      } else {
        UnchangedIffNoEscape(s[2..]);
        assert s == [s[0], s[1]] + s[2..];
      }
    }
  }

  // --------------------------------------------------------------------- the code

  /** `done` is final, `todo` is still to be undone; together they undo to the result. */
  ghost predicate Pending(done: string, todo: string, text: string) {
    done + Undo(todo) == Undo(text) && (HasEscape(todo) ==> HasEscape(text))
  }

  lemma CopiesOne(done: string, todo: string, text: string)
    requires Pending(done, todo, text) && todo != [] && todo[0] != BACKSLASH
    ensures Pending(done + [todo[0]], todo[1..], text)
  {
    if |todo| == 1 {
      assert todo == [todo[0]] && todo[1..] == [];
    }
    assert Undo(todo) == [todo[0]] + Undo(todo[1..]);
    assert done + [todo[0]] + Undo(todo[1..]) == done + ([todo[0]] + Undo(todo[1..]));
  }

  lemma CopiesTwo(done: string, todo: string, text: string)
    requires Pending(done, todo, text) && |todo| >= 2 && todo[0] == BACKSLASH && !Known(todo[1])
    ensures Pending(done + [todo[0], todo[1]], todo[2..], text)
  {
    var two := [todo[0], todo[1]];
    assert done + two + Undo(todo[2..]) == done + (two + Undo(todo[2..]));
  }

  lemma Replaces(done: string, todo: string, text: string)
    requires Pending(done, todo, text) && |todo| >= 2 && todo[0] == BACKSLASH && Known(todo[1])
    ensures HasEscape(text)
    ensures Pending(done + [Meaning(todo[1])], todo[2..], text)
  {
    assert done + [Meaning(todo[1])] + Undo(todo[2..]) == done + ([Meaning(todo[1])] + Undo(todo[2..]));
  }

  /** One replacement: the meaning goes where the backslash was and the rest moves
      down, together with one byte beyond the terminator. */
  method Replace(buf: array<char>, i: nat, len: nat, ghost n: nat)
    requires len == n - i + 1
    requires 1 <= i < n && IsString(buf, n) && n + 1 < buf.Length && Known(buf[i])
    modifies buf
    ensures IsString(buf, n - 1)
    ensures buf[..i] == old(buf[..i - 1]) + [Meaning(old(buf[i]))]
    ensures buf[i..n - 1] == old(buf[i + 1..n])
    ensures forall k :: n < k < buf.Length ==> buf[k] == old(buf[k])
  {
    buf[i - 1] := Meaning(buf[i]);
    MoveDown(buf, i, i + 1, len);
    assert buf[n - 1] == NUL;
    forall k | 0 <= k < n - 1
      ensures buf[k] != NUL
    {
      if k >= i {
        assert buf[k] == old(buf[k + 1]);
      }
    }
  }

  /** The buffer between two characters: `start` is the first unfinished position,
      one back after a backslash. */
  ghost predicate Scanning(now: string, text: string, c: nat, escaped: bool, n: nat) {
    && c <= n < |now| && (escaped ==> 1 <= c && now[c - 1] == BACKSLASH)
    && var start := if escaped then c - 1 else c;
       Pending(now[..start], now[start..n], text)
  }

  lemma Starts(now: string, text: string)
    requires |text| < |now| && now[..|text|] == text
    ensures Scanning(now, text, 0, false, |text|)
  {
    assert now[0..|text|] == text && now[..0] == [];
    assert [] + Undo(text) == Undo(text);
  }

  lemma MeetsBackslash(now: string, text: string, c: nat, n: nat)
    requires Scanning(now, text, c, false, n) && c < n && now[c] == BACKSLASH
    ensures Scanning(now, text, c + 1, true, n)
  {
  }

  lemma PassesOne(now: string, text: string, c: nat, n: nat)
    requires Scanning(now, text, c, false, n) && c < n && now[c] != BACKSLASH
    ensures Scanning(now, text, c + 1, false, n)
  {
    CopiesOne(now[..c], now[c..n], text);
    assert now[..c] + [now[c]] == now[..c + 1] && now[c..n][1..] == now[c + 1..n];
  }

  lemma PassesTwo(now: string, text: string, c: nat, n: nat)
    requires Scanning(now, text, c, true, n) && c < n && !Known(now[c])
    ensures Scanning(now, text, c + 1, false, n)
  {
    CopiesTwo(now[..c - 1], now[c - 1..n], text);
    assert now[..c - 1] + [now[c - 1], now[c]] == now[..c + 1] && now[c - 1..n][2..] == now[c + 1..n];
  }

  lemma ReplacesTwo(was: string, now: string, text: string, c: nat, n: nat)
    requires Scanning(was, text, c, true, n) && c < n && Known(was[c]) && |now| == |was|
    requires now[..c] == was[..c - 1] + [Meaning(was[c])] && now[c..n - 1] == was[c + 1..n]
    ensures Scanning(now, text, c, false, n - 1)
  {
    Replaces(was[..c - 1], was[c - 1..n], text);
    assert was[c - 1..n][2..] == was[c + 1..n];
  }

  lemma NeedsSpare(now: string, text: string, c: nat, n: nat)
    requires Scanning(now, text, c, true, n) && c < n && Known(now[c])
    ensures HasEscape(text)
  {
    Replaces(now[..c - 1], now[c - 1..n], text);
  }

  lemma Finished(now: string, text: string, escaped: bool, n: nat)
    requires Scanning(now, text, n, escaped, n)
    ensures now[..n] == Undo(text)
  {
    var start := if escaped then n - 1 else n;
    assert Undo(now[start..n]) == now[start..n];
    assert now[..n] == now[..start] + now[start..n];
  }

  method ReplaceAt(buf: array<char>, c: nat, len: nat, ghost n: nat, ghost text: string)
    requires c < n <= |text| && IsString(buf, n) && len == n - c + 1 && Known(buf[c])
    requires Scanning(buf[..], text, c, true, n) && (HasEscape(text) ==> |text| + 1 < buf.Length)
    modifies buf
    ensures IsString(buf, n - 1) && Scanning(buf[..], text, c, false, n - 1)
    ensures forall k :: |text| < k < buf.Length ==> buf[k] == old(buf[k])
  {
    ghost var was := buf[..];
    NeedsSpare(was, text, c, n);
    Replace(buf, c, len, n);
    assert buf[..][..c] == buf[..c] && buf[..][c..n - 1] == buf[c..n - 1];
    ReplacesTwo(was, buf[..], text, c, n);
  }

  /** MsgUnescape.  A replacement copies one byte from beyond the terminator, so a
      text with a known escape needs a buffer that reaches one byte further. */
  method MsgUnescape(buf: array<char>, ghost text: string)
    requires IsString(buf, |text|) && buf[..|text|] == text
    requires HasEscape(text) ==> |text| + 1 < buf.Length
    modifies buf
    ensures IsString(buf, |Undo(text)|) && buf[..|Undo(text)|] == Undo(text)
    ensures forall k :: |text| < k < buf.Length ==> buf[k] == old(buf[k])
  {
    var c := 0;
    var escaped := false;
    var len := StrLen(buf, |text|);
    len := len + 1;
    ghost var n := |text|;
    ghost var now := buf[..];
    Starts(now, text);
    while buf[c] != NUL
      invariant c <= n <= |text| && IsString(buf, n) && len == n - c + 1
      invariant now == buf[..] && Scanning(now, text, c, escaped, n)
      invariant forall k :: |text| < k < buf.Length ==> buf[k] == old(buf[k])
      decreases n - c, escaped
    {
      if escaped {
        if Known(buf[c]) {
          ReplaceAt(buf, c, len, n, text);
          n, len, now := n - 1, len - 1, buf[..];
        } else {
          PassesTwo(now, text, c, n);
          c, len := c + 1, len - 1;
        }
        escaped := false;
      } else if buf[c] == BACKSLASH {
        MeetsBackslash(now, text, c, n);
        escaped := true;
        c, len := c + 1, len - 1;
      } else {
        PassesOne(now, text, c, n);
        c, len := c + 1, len - 1;
      }
    }
    Finished(now, text, escaped, n);
  }
}
