/** The code that splits a command: a token buffer written and cleared in place. */
module CommandSplit {
  import opened Common
  import opened Memory
  import opened CommandLine

  /** Tokens finished, the token being written and the rounds left make up the whole. */
  ghost predicate Pending(out: seq<string>, cur: string, it: Items, whole: seq<string>) {
    out + Glue(cur, Tokens(it)) == whole
  }

  lemma GlueEmpty(ts: seq<string>)
    requires ts != []
    ensures Glue([], ts) == ts
  {
    assert [] + ts[0] == ts[0];
  }

  lemma GlueTwice(x: string, y: string, ts: seq<string>)
    requires ts != []
    ensures Glue(x, Glue(y, ts)) == Glue(x + y, ts)
  {
    assert x + (y + ts[0]) == x + y + ts[0];
  }

  lemma PieceDone(out: seq<string>, cur: string, it: Items, whole: seq<string>)
    requires it.Piece? && Pending(out, cur, it, whole)
    ensures Pending(out, cur + it.text, it.rest, whole)
  {
    GlueTwice(cur, it.text, Tokens(it.rest));
  }

  lemma TokenDone(out: seq<string>, cur: string, it: Items, whole: seq<string>)
    requires it.Split? && Pending(out, cur, it, whole)
    ensures Pending(out + [cur], [], it.rest, whole)
  {
    var ts := Tokens(it.rest);
    GlueEmpty(ts);
    assert cur + [] == cur;
    assert Glue(cur, [[]] + ts) == [cur] + ts;
  }

  lemma AllDone(out: seq<string>, cur: string, whole: seq<string>)
    requires Pending(out, cur, End, whole)
    ensures whole == out + [cur]
  {
    assert cur + [] == cur;
  }

  function Left(command: string, i: nat): string {
    if i <= |command| then command[i..] else []
  }

  /** Copying a backslash and its companion, then stepping over one more. */
  method CopyEscaped(command: string, i: nat, token: array<char>, w: nat) returns (next: nat, w': nat)
    requires i < |command| && command[i] == BACKSLASH && w <= i && token.Length == |command| + 1
    modifies token
    ensures w <= w' <= token.Length && i < next <= |command| + 1 && w' - w <= next - i
    ensures token[w..w'] == Text(command[i..])
    ensures Left(command, next) == command[i..][Used(command[i..])..]
    ensures forall k :: 0 <= k < w || w' <= k < token.Length ==> token[k] == old(token[k])
  {
    next, w' := i, w;
    token[w'] := command[next];
    next, w' := next + 1, w' + 1;
    if next < |command| - 1 {
      token[w'] := command[next];
      next, w' := next + 1, w' + 1;
    }
    assert token[w..w'] == command[i..next];
    next := next + 1;
  }

  lemma QuotedStep(copied: string, rest: string)
    requires rest != [] && rest[0] != QUOTE
    ensures copied + [rest[0]] + UntilQuote(rest[1..]) == copied + UntilQuote(rest)
  {
  }

  /** The loop inside quotes; it stops on the closing quote or at the end. */
  method CopyUntilQuote(command: string, i: nat, token: array<char>, w: nat) returns (next: nat, w': nat)
    requires i <= |command| && w <= i && token.Length == |command| + 1
    modifies token
    ensures i <= next <= |command| && w' - w == next - i
    ensures token[w..w'] == UntilQuote(command[i..])
    ensures forall k :: 0 <= k < w || w' <= k < token.Length ==> token[k] == old(token[k])
  {
    next, w' := i, w;
    ghost var copied, rest := [], command[i..];
    while next < |command| && command[next] != QUOTE
      invariant i <= next <= |command| && w' - w == next - i && rest == command[next..]
      invariant copied + UntilQuote(rest) == UntilQuote(command[i..])
      invariant token[w..w'] == copied
      invariant forall k :: 0 <= k < w || w' <= k < token.Length ==> token[k] == old(token[k])
    {
      QuotedStep(copied, rest);
      copied, rest := copied + [rest[0]], rest[1..];
      token[w'] := command[next];
      w', next := w' + 1, next + 1;
      assert token[w..w'] == token[w..w' - 1] + [token[w' - 1]];
    }
    assert UntilQuote(rest) == [];
    assert copied + [] == copied;
  }

  lemma AfterQuoted(command: string, i: nat)
    requires i < |command| && command[i] == QUOTE
    ensures var u := UntilQuote(command[i + 1..]);
            && Text(command[i..]) == [QUOTE] + u + [QUOTE]
            && Left(command, i + |u| + 2) == command[i..][Used(command[i..])..]
  {
    assert command[i..][1..] == command[i + 1..];
  }

  method CopyQuoted(command: string, i: nat, token: array<char>, w: nat) returns (next: nat, w': nat)
    requires i < |command| && command[i] == QUOTE && w <= i && token.Length == |command| + 1
    modifies token
    ensures w <= w' <= token.Length && i < next <= |command| + 1 && w' - w <= next - i
    ensures token[w..w'] == Text(command[i..])
    ensures Left(command, next) == command[i..][Used(command[i..])..]
    ensures forall k :: 0 <= k < w || w' <= k < token.Length ==> token[k] == old(token[k])
  {
    token[w] := QUOTE;
    next, w' := CopyUntilQuote(command, i + 1, token, w + 1);
    token[w'] := QUOTE;
    w' := w' + 1;
    AfterQuoted(command, i);
    assert token[w..w'] == [token[w]] + token[w + 1..w' - 1] + [token[w' - 1]];
    next := next + 1;
  }

  /** One round of the scan on a character that is not a blank. */
  method CopyPiece(command: string, i: nat, token: array<char>, w: nat) returns (next: nat, w': nat)
    requires i < |command| && !Blank(command[i]) && w <= i && token.Length == |command| + 1
    modifies token
    ensures w <= w' <= token.Length && i < next <= |command| + 1 && w' - w <= next - i
    ensures token[w..w'] == Text(command[i..])
    ensures Left(command, next) == command[i..][Used(command[i..])..]
    ensures forall k :: 0 <= k < w || w' <= k < token.Length ==> token[k] == old(token[k])
  {
    if command[i] == BACKSLASH {
      next, w' := CopyEscaped(command, i, token, w);
    } else if command[i] == QUOTE {
      next, w' := CopyQuoted(command, i, token, w);
    } else {
      next, w' := CopyPlain(command, i, token, w);
    }
  }

  method CopyPlain(command: string, i: nat, token: array<char>, w: nat) returns (next: nat, w': nat)
    requires i < |command| && !Blank(command[i]) && command[i] != BACKSLASH && command[i] != QUOTE
    requires w <= i && token.Length == |command| + 1
    modifies token
    ensures w <= w' <= token.Length && i < next <= |command| + 1 && w' - w <= next - i
    ensures token[w..w'] == Text(command[i..])
    ensures Left(command, next) == command[i..][Used(command[i..])..]
    ensures forall k :: 0 <= k < w || w' <= k < token.Length ==> token[k] == old(token[k])
  {
    token[w] := command[i];
    next, w' := i + 1, w + 1;
    assert token[w..w'] == [command[i]];
  }

  /** memset over the first n bytes. */
  method Clear(token: array<char>, n: nat)
    requires n <= token.Length
    modifies token
    ensures forall k :: 0 <= k < n ==> token[k] == NUL
    ensures forall k :: n <= k < token.Length ==> token[k] == old(token[k])
  {
    for i := 0 to n
      invariant forall k :: 0 <= k < i ==> token[k] == NUL
      invariant forall k :: i <= k < token.Length ==> token[k] == old(token[k])
    {
      token[i] := NUL;
    }
  }

  /** The buffer behind position w: cleared by a split, else as it was found. */
  ghost predicate TailIs(now: string, memory: string, w: nat, split: bool) {
    |now| == |memory| &&
    forall k :: w <= k < |now| ==> now[k] == if split && k < |now| - 1 then NUL else memory[k]
  }

  /** The token buffer between two rounds: `cur` is what it holds so far. */
  ghost predicate Buffered(memory: string, now: string, cur: string, split: bool) {
    |cur| <= |now| && now[..|cur|] == cur && NUL !in cur && TailIs(now, memory, |cur|, split)
  }

  lemma Extends(memory: string, before: string, now: string, cur: string, piece: string, split: bool)
    requires Buffered(memory, before, cur, split) && NUL !in piece && |cur + piece| <= |now| == |before|
    requires now[..|cur|] == cur && now[|cur|..|cur + piece|] == piece
    requires forall k :: |cur + piece| <= k < |now| ==> now[k] == before[k]
    ensures Buffered(memory, now, cur + piece, split)
  {
    assert now[..|cur + piece|] == now[..|cur|] + now[|cur|..|cur + piece|];
  }

  lemma TextHasNoNul(s: string)
    requires s != [] && !Blank(s[0]) && NUL !in s
    ensures NUL !in Text(s)
  {
    if s[0] == QUOTE {
      UntilQuoteSpec(s[1..]);
      var u := UntilQuote(s[1..]);
      assert forall k :: 0 <= k < |u| ==> u[k] == s[k + 1];
    }
  }

  /** The round on a blank. */
  method EndToken(ghost memory: string, ghost cur: string, ghost split: bool, token: array<char>, w: nat)
    returns (data: string)
    requires token.Length > 0 && w == |cur| < token.Length - 1 && Buffered(memory, token[..], cur, split)
    modifies token
    ensures data == cur && Buffered(memory, token[..], [], true)
  {
    token[w] := NUL;
    assert token[..] == cur + token[w..] && token[w] in token[..];
    CStringAfter(cur, token[w..]);
    assert cur + [] == cur;
    var taken := TakeString(token);
    data := taken.value;
    Clear(token, token.Length - 1);
  }

  /** The round on any other character. */
  method ExtendToken(command: string, i: nat, ghost memory: string, ghost cur: string, ghost split: bool,
                     token: array<char>, w: nat)
    returns (next: nat, w': nat)
    requires i < |command| && !Blank(command[i]) && NUL !in command && token.Length == |command| + 1
    requires w == |cur| <= i && Buffered(memory, token[..], cur, split)
    modifies token
    ensures i < next <= |command| + 1 && w' - w <= next - i && w' == |cur + Text(command[i..])|
    ensures Left(command, next) == command[i..][Used(command[i..])..]
    ensures Buffered(memory, token[..], cur + Text(command[i..]), split)
  {
    ghost var before := token[..];
    ghost var piece := Text(command[i..]);
    TextHasNoNul(command[i..]);
    next, w' := CopyPiece(command, i, token, w);
    assert |piece| == w' - w;
    assert token[..w] == cur by {
      assert token[..w] == before[..w];
    }
    assert token[..][w..w'] == piece;
    assert forall k :: w' <= k < |before| ==> token[..][k] == before[k];
    Extends(memory, before, token[..], cur, piece, split);
  }

  lemma ScanAtBlank(command: string, i: nat)
    requires i < |command| && Blank(command[i])
    ensures Scan(Left(command, i)) == Split(command[i], Scan(Left(command, i + 1)))
  {
    assert command[i..][1..] == command[i + 1..];
  }

  lemma ScanAtPiece(command: string, i: nat, next: nat)
    requires i < |command| && !Blank(command[i])
    requires Left(command, next) == command[i..][Used(command[i..])..]
    ensures var it := Scan(Left(command, i));
            it.Piece? && it.text == Text(command[i..]) && it.rest == Scan(Left(command, next))
  {
  }

  lemma ArgumentsFrom(command: string, memory: string, out: seq<string>, cur: string, now: string)
    requires |memory| == |command| + 1 && Tokens(Scan(command)) == out + [cur]
    requires Buffered(memory, now, cur, out != [])
    ensures Arguments(command, memory) == if NUL in now then Some(out + [CString(now)]) else None
  {
    var ts := Tokens(Scan(command));
    assert ts[..|ts| - 1] == out && Last(ts) == cur;
    LastToken(out, cur, memory, now);
  }

  /** The state between two rounds. */
  ghost predicate Scanning(command: string, memory: string, now: string,
                           args: seq<string>, cur: string, i: nat, w: nat) {
    && |memory| == |command| + 1
    && w == |cur| <= i <= |command| + 1 && (args != [] ==> w < i)
    && Buffered(memory, now, cur, args != [])
    && Pending(args, cur, Scan(Left(command, i)), Tokens(Scan(command)))
  }

  lemma BlankRound(command: string, memory: string, before: string, now: string,
                   args: seq<string>, cur: string, i: nat, w: nat)
    requires i < |command| && Blank(command[i]) && Scanning(command, memory, before, args, cur, i, w)
    requires Buffered(memory, now, [], true)
    ensures Scanning(command, memory, now, args + [cur], [], i + 1, 0)
  {
    ScanAtBlank(command, i);
    TokenDone(args, cur, Scan(Left(command, i)), Tokens(Scan(command)));
  }

  lemma PieceRound(command: string, memory: string, before: string, now: string,
                   args: seq<string>, cur: string, i: nat, w: nat, i': nat, w': nat)
    requires i < |command| && !Blank(command[i]) && Scanning(command, memory, before, args, cur, i, w)
    requires i < i' <= |command| + 1 && w' - w <= i' - i && w' == |cur + Text(command[i..])|
    requires Left(command, i') == command[i..][Used(command[i..])..]
    requires Buffered(memory, now, cur + Text(command[i..]), args != [])
    ensures Scanning(command, memory, now, args, cur + Text(command[i..]), i', w')
  {
    ScanAtPiece(command, i, i');
    PieceDone(args, cur, Scan(Left(command, i)), Tokens(Scan(command)));
  }

  method BlankStep(command: string, ghost memory: string, args: seq<string>, ghost cur: string,
                   i: nat, token: array<char>, w: nat)
    returns (args': seq<string>)
    requires i < |command| && Blank(command[i])
    requires Scanning(command, memory, token[..], args, cur, i, w)
    modifies token
    ensures Scanning(command, memory, token[..], args', [], i + 1, 0)
  {
    ghost var before := token[..];
    var data := EndToken(memory, cur, args != [], token, w);
    args' := args + [data];
    BlankRound(command, memory, before, token[..], args, cur, i, w);
  }

  method PieceStep(command: string, ghost memory: string, ghost args: seq<string>, ghost cur: string,
                   i: nat, token: array<char>, w: nat)
    returns (i': nat, w': nat)
    requires i < |command| && !Blank(command[i]) && NUL !in command
    requires Scanning(command, memory, token[..], args, cur, i, w)
    modifies token
    ensures i < i' && Scanning(command, memory, token[..], args, cur + Text(command[i..]), i', w')
  {
    ghost var before := token[..];
    i', w' := ExtendToken(command, i, memory, cur, args != [], token, w);
    PieceRound(command, memory, before, token[..], args, cur, i, w, i', w');
  }

  lemma ScanStarts(command: string, memory: string)
    requires |memory| == |command| + 1
    ensures Scanning(command, memory, memory, [], [], 0, 0)
  {
    GlueEmpty(Tokens(Scan(command)));
    assert Left(command, 0) == command;
  }

  lemma ScanEnds(command: string, memory: string, now: string, args: seq<string>, cur: string, i: nat, w: nat)
    requires Scanning(command, memory, now, args, cur, i, w) && i >= |command|
    ensures Arguments(command, memory) == if NUL in now then Some(args + [CString(now)]) else None
  {
    AllDone(args, cur, Tokens(Scan(command)));
    ArgumentsFrom(command, memory, args, cur, now);
  }

  /** GetFormattedCommandLine, with the uninitialised token buffer as a parameter. */
  method GetFormattedCommandLine(command: string, token: array<char>) returns (r: Option<seq<string>>)
    requires NUL !in command && token.Length == |command| + 1
    modifies token
    ensures r == Arguments(command, old(token[..]))
  {
    ghost var memory := token[..];
    var args := [];
    var i, w := 0, 0;
    ghost var cur := [];
    ScanStarts(command, memory);
    while i < |command|
      invariant Scanning(command, memory, token[..], args, cur, i, w)
      decreases |command| + 1 - i
    {
      if Blank(command[i]) {
        args := BlankStep(command, memory, args, cur, i, token, w);
        cur, i, w := [], i + 1, 0;
      } else {
        ghost var piece := Text(command[i..]);
        i, w := PieceStep(command, memory, args, cur, i, token, w);
        cur := cur + piece;
      }
    }
    ScanEnds(command, memory, token[..], args, cur, i, w);
    var data := TakeString(token);
    r := if data.Some? then Some(args + [data.value]) else None;
  }

  /** AddToList copying the token out of the buffer; None if it has no terminator there. */
  method TakeString(token: array<char>) returns (data: Option<string>)
    ensures data == if NUL in token[..] then Some(CString(token[..])) else None
  {
    var text := [];
    var i := 0;
    ghost var rest := token[..];
    while i < token.Length && token[i] != NUL
      invariant i <= token.Length && rest == token[i..] && NUL !in token[..i]
      invariant text + CString(rest) == CString(token[..])
    {
      assert text + ([rest[0]] + CString(rest[1..])) == text + [rest[0]] + CString(rest[1..]);
      assert token[..i + 1] == token[..i] + [token[i]];
      text := text + [token[i]];
      rest := rest[1..];
      i := i + 1;
    }
    assert CString(rest) == [];
    assert text + [] == text;
    assert token[..] == token[..i] + token[i..];
    if i == token.Length {
      return None;
    }
    assert token[i] in token[..];
    data := Some(text);
  }

  /** The buffer at the end holds the last token and what lies behind it. */
  lemma LastToken(out: seq<string>, cur: string, memory: string, now: string)
    requires memory != [] && Buffered(memory, now, cur, out != [])
    ensures var behind := Behind(cur, out != [], memory);
            CString(now) == cur + CString(behind) && (NUL in now <==> NUL in behind)
  {
    var tail := now[|cur|..];
    var n := |memory| - 1;
    assert now == cur + tail;
    CStringAfter(cur, tail);
    if |cur| <= n {
      if out == [] || |cur| == n {
        assert tail == memory[|cur|..];
      } else {
        assert tail[0] == NUL;
      }
    }
  }
}
