/** Splitting a deployment command into the arguments of a program. */
module CommandLine {
  import opened Common
  import opened Memory

  const SPACE := ' '
  const TAB := '\t'
  const QUOTE := '"'
  const BACKSLASH := '\\'

  predicate Blank(c: char) {
    c == SPACE || c == TAB
  }

  // ------------------------------------------------------------------- the scan

  /** The text up to the next quote, or all of it. */
  function UntilQuote(s: string): (r: string)
    ensures |r| <= |s|
  {
    if s == [] || s[0] == QUOTE then [] else [s[0]] + UntilQuote(s[1..])
  }

  lemma {:induction false} UntilQuoteSpec(s: string)
    ensures UntilQuote(s) <= s && QUOTE !in UntilQuote(s)
    ensures |UntilQuote(s)| < |s| ==> s[|UntilQuote(s)|] == QUOTE
  {
    if !(s == [] || s[0] == QUOTE) {
      UntilQuoteSpec(s[1..]);
    }
  }

  /** What one round of the scan writes into the token, and how much it reads.  A
      backslash takes the next character with it and steps over the one after. */
  function Text(s: string): string
    requires s != [] && !Blank(s[0])
  {
    if s[0] == BACKSLASH then if |s| >= 3 then s[..2] else s[..1]
    else if s[0] == QUOTE then [QUOTE] + UntilQuote(s[1..]) + [QUOTE]
    else s[..1]
  }

  function Used(s: string): (n: nat)
    requires s != [] && !Blank(s[0])
    ensures 1 <= n <= |s|
  {
    if s[0] == BACKSLASH then if |s| >= 3 then 3 else |s|
    else if s[0] == QUOTE then
      var k := |UntilQuote(s[1..])|;
      if k + 2 <= |s| then k + 2 else |s|
    else 1
  }

  /** The rounds of the scan: a blank that ends a token, or a piece of input and the
      text written for it. */
  datatype Items = End | Split(blank: char, rest: Items) | Piece(raw: string, text: string, rest: Items)

  function Scan(s: string): Items
    decreases |s|
  {
    if s == [] then End
    else if Blank(s[0]) then Split(s[0], Scan(s[1..]))
    else Piece(s[..Used(s)], Text(s), Scan(s[Used(s)..]))
  }

  /** Text written before the first of some tokens joins it. */
  function Glue(x: string, ts: seq<string>): (us: seq<string>)
    requires ts != []
    ensures |us| == |ts| && us[0] == x + ts[0]
  {
    [x + ts[0]] + ts[1..]
  }

  /** The tokens: every blank the scan meets ends one. */
  function Tokens(it: Items): (ts: seq<string>)
    ensures ts != []
  {
    match it
    case End => [[]]
    case Split(_, rest) => [[]] + Tokens(rest)
    case Piece(_, text, rest) => Glue(text, Tokens(rest))
  }

  // ------------------------------------------- tokens and blanks put back together

  /** The blanks that end tokens, in order. */
  function Blanks(it: Items): string {
    match it
    case End => []
    case Split(b, rest) => [b] + Blanks(rest)
    case Piece(_, _, rest) => Blanks(rest)
  }

  function Weave(ts: seq<string>, blanks: string): string {
    if ts == [] then []
    else if |ts| == 1 || blanks == [] then ts[0]
    else ts[0] + [blanks[0]] + Weave(ts[1..], blanks[1..])
  }

  /** What the rounds write, and what they read. */
  function Written(it: Items): string {
    match it
    case End => []
    case Split(b, rest) => [b] + Written(rest)
    case Piece(_, text, rest) => text + Written(rest)
  }

  function Raw(it: Items): string {
    match it
    case End => []
    case Split(b, rest) => [b] + Raw(rest)
    case Piece(raw, _, rest) => raw + Raw(rest)
  }

  lemma WeaveGlue(x: string, ts: seq<string>, blanks: string)
    requires ts != []
    ensures Weave(Glue(x, ts), blanks) == x + Weave(ts, blanks)
  {
    var us := Glue(x, ts);
    assert us[1..] == ts[1..];
    if |ts| > 1 && blanks != [] {
      var w := Weave(ts[1..], blanks[1..]);
      assert x + ts[0] + [blanks[0]] + w == x + (ts[0] + [blanks[0]] + w);
    }
  }

  /** There is one token more than blanks, and woven together they are what was written. */
  lemma {:induction false} TokensAndBlanks(it: Items)
    ensures |Tokens(it)| == |Blanks(it)| + 1
    ensures Weave(Tokens(it), Blanks(it)) == Written(it)
  {
    match it
    case End =>
    case Split(b, rest) =>
      TokensAndBlanks(rest);
      assert Tokens(it)[1..] == Tokens(rest) && Blanks(it)[1..] == Blanks(rest);
      assert [] + [b] + Written(rest) == [b] + Written(rest);
    case Piece(_, text, rest) =>
      TokensAndBlanks(rest);
      WeaveGlue(text, Tokens(rest), Blanks(rest));
  }

  lemma {:induction false} RawIsInput(s: string)
    ensures Raw(Scan(s)) == s
    decreases |s|
  {
    if s != [] {
      if Blank(s[0]) {
        RawIsInput(s[1..]);
      } else {
        RawIsInput(s[Used(s)..]);
      }
    }
  }

  /** How the text of a piece relates to its input. */
  predicate IsPiece(raw: string, text: string, rest: Items) {
    && raw != [] && !Blank(raw[0])
    && if raw[0] == BACKSLASH then
         (|raw| == 3 && text == raw[..2]) || (|raw| <= 2 && text == raw[..1] && rest == End)
       else if raw[0] == QUOTE then text == raw || (text == raw + [QUOTE] && rest == End)
       else |raw| == 1 && text == raw
  }

  predicate WellScanned(it: Items) {
    match it
    case End => true
    case Split(b, rest) => Blank(b) && WellScanned(rest)
    case Piece(raw, text, rest) => IsPiece(raw, text, rest) && WellScanned(rest)
  }

  lemma QuotedPiece(s: string)
    requires s != [] && s[0] == QUOTE
    ensures Text(s) == s[..Used(s)] || (Text(s) == s[..Used(s)] + [QUOTE] && Used(s) == |s|)
  {
    var t := s[1..];
    var u := UntilQuote(t);
    UntilQuoteSpec(t);
    var k := |u|;
    assert s == [QUOTE] + t;
    if k + 2 <= |s| {
      assert t[..k] == u && t[k] == QUOTE;
      assert s[..k + 2] == [QUOTE] + t[..k] + [t[k]];
    } else {
      assert u == t;
      assert s[..|s|] == s;
    }
  }

  lemma ScannedPiece(s: string)
    requires s != [] && !Blank(s[0])
    ensures IsPiece(s[..Used(s)], Text(s), Scan(s[Used(s)..]))
  {
    if s[0] == QUOTE {
      QuotedPiece(s);
    } else if s[0] == BACKSLASH {
      assert s[..Used(s)][..1] == s[..1];
      assert |s| >= 3 ==> s[..3][..2] == s[..2];
    }
  }

  lemma {:induction false} ScanIsWell(s: string)
    ensures WellScanned(Scan(s))
    decreases |s|
  {
    if s != [] {
      if Blank(s[0]) {
        ScanIsWell(s[1..]);
      } else {
        ScannedPiece(s);
        ScanIsWell(s[Used(s)..]);
      }
    }
  }

  /** No backslash outside quotes, unless it is the last character. */
  predicate Lossless(it: Items) {
    match it
    case End => true
    case Split(_, rest) => Lossless(rest)
    case Piece(raw, _, rest) => (raw != [] && raw[0] == BACKSLASH ==> |raw| == 1) && Lossless(rest)
  }

  predicate Opens(raw: string, text: string) {
    raw != [] && raw[0] == QUOTE && text != raw
  }

  /** Every quote that opens also closes. */
  predicate Balanced(it: Items) {
    match it
    case End => true
    case Split(_, rest) => Balanced(rest)
    case Piece(raw, text, rest) => !Opens(raw, text) && Balanced(rest)
  }

  /** Without a backslash to lose characters over, the tokens and the blanks spell the
      command, with a closing quote added if the last one stays open. */
  lemma {:induction false} WrittenExactly(it: Items)
    requires WellScanned(it) && Lossless(it)
    ensures Written(it) == Raw(it) + if Balanced(it) then [] else [QUOTE]
  {
    match it
    case End =>
    case Split(b, rest) =>
      WrittenExactly(rest);
    case Piece(raw, text, rest) =>
      WrittenExactly(rest);
      if Opens(raw, text) {
        assert Written(rest) == [] == Raw(rest);
      }
  }

  /** What is written is longer than the command only by an added closing quote, and
      then nothing was lost. */
  lemma {:induction false} WrittenLength(it: Items)
    requires WellScanned(it)
    ensures |Written(it)| <= |Raw(it)| + 1
    ensures |Written(it)| == |Raw(it)| + 1 ==> Lossless(it) && !Balanced(it)
  {
    match it
    case End =>
    case Split(b, rest) =>
      WrittenLength(rest);
    case Piece(raw, text, rest) =>
      WrittenLength(rest);
      if rest == End {
        assert Written(rest) == [] == Raw(rest);
      }
  }

  ghost predicate AllQuotes(s: string) {
    forall i :: 0 <= i < |s| ==> s[i] == QUOTE
  }

  lemma ScanTwoQuotes(s: string)
    requires |s| >= 2 && s[0] == QUOTE == s[1]
    ensures Scan(s) == Piece([QUOTE, QUOTE], [QUOTE, QUOTE], Scan(s[2..]))
  {
    assert UntilQuote(s[1..]) == [];
    assert [QUOTE] + [] + [QUOTE] == [QUOTE, QUOTE] == s[..2];
  }

  lemma ScanOneQuote()
    ensures Scan([QUOTE]) == Piece([QUOTE], [QUOTE, QUOTE], End)
  {
    var s := [QUOTE];
    assert s[1..] == [] && s[..1] == s;
    assert [QUOTE] + [] + [QUOTE] == [QUOTE, QUOTE];
  }

  lemma OneQuote(s: string)
    requires |s| == 1 && AllQuotes(s)
    ensures Lossless(Scan(s)) && !Balanced(Scan(s))
  {
    assert s == [QUOTE];
    ScanOneQuote();
  }

  /** One pair of quotes more changes neither what is lost nor whether quotes pair up. */
  lemma TwoMoreQuotes(s: string)
    requires |s| >= 2 && AllQuotes(s)
    ensures AllQuotes(s[2..])
    ensures Lossless(Scan(s)) <==> Lossless(Scan(s[2..]))
    ensures Balanced(Scan(s)) <==> Balanced(Scan(s[2..]))
  {
    ScanTwoQuotes(s);
  }

  lemma {:induction false} QuotesOnly(s: string)
    requires AllQuotes(s)
    ensures Lossless(Scan(s)) && (Balanced(Scan(s)) <==> |s| % 2 == 0)
    decreases |s|
  {
    if |s| >= 2 {
      TwoMoreQuotes(s);
      QuotesOnly(s[2..]);
    } else if |s| == 1 {
      OneQuote(s);
    }
  }

  lemma {:induction false} ShiftIsConstant(x: char, t: string)
    requires t + [QUOTE] == [x] + t
    ensures x == QUOTE && AllQuotes(t)
  {
    if t != [] {
      var k := |t| - 1;
      assert (t + [QUOTE])[|t|] == ([x] + t)[|t|] == t[k];
      assert t == t[..k] + [QUOTE];
      assert t[..k] + [QUOTE] == [x] + t[..k] by {
        assert (t + [QUOTE])[..|t|] == t;
        assert ([x] + t)[..|t|] == [x] + t[..k];
      }
      ShiftIsConstant(x, t[..k]);
    } else {
      assert (t + [QUOTE])[0] == QUOTE && ([x] + t)[0] == x;
    }
  }

  lemma MadeUpByQuote(x: char, t: string)
    requires Written(Scan(t)) == [x] + t
    ensures x == QUOTE && AllQuotes(t) && |t| % 2 == 1
  {
    var it := Scan(t);
    ScanIsWell(t);
    RawIsInput(t);
    WrittenLength(it);
    WrittenExactly(it);
    ShiftIsConstant(x, t);
    QuotesOnly(t);
  }

  lemma QuotesMakeUp(t: string)
    requires AllQuotes(t) && |t| % 2 == 1
    ensures Written(Scan(t)) == [QUOTE] + t
  {
    ScanIsWell(t);
    RawIsInput(t);
    QuotesOnly(t);
    WrittenExactly(Scan(t));
    assert t + [QUOTE] == [QUOTE] + t;
  }

  /** An added closing quote can make up for a lost character only if everything
      behind the backslash and its companion is quotes, an even number of them. */
  lemma MadeUp(x: char, t: string)
    ensures Written(Scan(t)) == [x] + t <==> x == QUOTE && AllQuotes(t) && |t| % 2 == 1
  {
    if Written(Scan(t)) == [x] + t {
      MadeUpByQuote(x, t);
    } else if AllQuotes(t) && |t| % 2 == 1 {
      QuotesMakeUp(t);
    }
  }

  /** The commands that are spelled back although a character was lost. */
  ghost predicate LostButMadeUp(it: Items) {
    match it
    case End => false
    case Split(_, rest) => LostButMadeUp(rest)
    case Piece(raw, text, rest) =>
      if raw != [] && raw[0] == BACKSLASH then
        |raw| == 3 && raw[2] == QUOTE && AllQuotes(Raw(rest)) && |Raw(rest)| % 2 == 1
      else !Opens(raw, text) && LostButMadeUp(rest)
  }

  lemma SameTail(x: string, a: string, b: string)
    ensures x + a == x + b <==> a == b
  {
    assert (x + a)[|x|..] == a && (x + b)[|x|..] == b;
  }

  lemma LostPiece(raw: string, w: string, r: string)
    requires |raw| == 3
    ensures raw[..2] + w == raw + r <==> w == [raw[2]] + r
  {
    assert raw + r == raw[..2] + ([raw[2]] + r);
    SameTail(raw[..2], w, [raw[2]] + r);
  }

  lemma {:induction false} WrittenIff(s: string)
    ensures Written(Scan(s)) == s <==>
            (Lossless(Scan(s)) && Balanced(Scan(s))) || LostButMadeUp(Scan(s))
    decreases |s|
  {
    ScanIsWell(s);
    RawIsInput(s);
    match Scan(s)
    case End =>
    case Split(b, rest) =>
      WrittenIff(s[1..]);
      RawIsInput(s[1..]);
      SameTail([b], Written(rest), Raw(rest));
    case Piece(raw, text, rest) =>
      var t := s[Used(s)..];
      WrittenIff(t);
      RawIsInput(t);
      if raw[0] == BACKSLASH && |raw| == 3 {
        MadeUp(raw[2], t);
        LostPiece(raw, Written(rest), t);
      } else if text == raw {
        SameTail(raw, Written(rest), Raw(rest));
      } else {
        assert |Written(Scan(s))| != |s|;
      }
  }

  /** Behind a backslash and its companion a character is gone, even a blank: two
      arguments come out as one. */
  lemma BackslashJoinsArguments(x: char, y: char)
    requires !Blank(y) && y != BACKSLASH && y != QUOTE
    ensures Tokens(Scan([BACKSLASH, x, SPACE, y])) == [[BACKSLASH, x, y]]
  {
    var s := [BACKSLASH, x, SPACE, y];
    assert s[3..] == [y] && s[..2] == [BACKSLASH, x];
    assert [y][1..] == [] && [y][..1] == [y];
    assert Scan([y]) == Piece([y], [y], End);
    assert [y] + [] == [y];
    assert Tokens(Scan([y])) == [[y]];
    assert [BACKSLASH, x] + [y] == [BACKSLASH, x, y];
  }

  // ---------------------------------------------------- the same, said of the text

  /** The number of quotes in s is odd. */
  predicate OddQuotes(s: string) {
    s != [] && OddQuotes(s[..|s| - 1]) != (s[|s| - 1] == QUOTE)
  }

  /** A position is quoted if an odd number of quotes stands before it. */
  predicate Quoted(s: string, i: nat)
    requires i <= |s|
  {
    OddQuotes(s[..i])
  }

  /** Every backslash is quoted, or the last character. */
  ghost predicate NoBareBackslash(s: string) {
    forall i :: 0 <= i < |s| - 1 && s[i] == BACKSLASH ==> Quoted(s, i)
  }

  /** The spaces and tabs that are not quoted, in order. */
  function BareBlanks(s: string): string {
    if s == [] then []
    else
      var n := |s| - 1;
      BareBlanks(s[..n]) + if (s[n] == ' ' || s[n] == '\t') && !Quoted(s, n) then [s[n]] else []
  }

  /** Everything from the first bare backslash on, but for its companion, is quotes, and
      an even number of characters. */
  ghost predicate MadeUpAt(s: string, k: nat) {
    && k + 4 <= |s| && s[k] == BACKSLASH && !Quoted(s, k)
    && (forall i :: 0 <= i < k && s[i] == BACKSLASH ==> Quoted(s, i))
    && (|s| - k) % 2 == 0 && AllQuotes(s[k + 2..])
  }

  lemma {:induction false} QuotesConcat(a: string, b: string)
    ensures OddQuotes(a + b) <==> OddQuotes(a) != OddQuotes(b)
    decreases |b|
  {
    if b == [] {
      assert a + b == a;
    } else {
      assert (a + b)[..|a + b| - 1] == a + b[..|b| - 1];
      QuotesConcat(a, b[..|b| - 1]);
    }
  }

  /** What stands behind an even number of quotes is quoted as if it stood alone. */
  lemma QuotedShift(a: string, b: string, i: nat)
    requires !OddQuotes(a) && i <= |b|
    ensures Quoted(a + b, |a| + i) <==> Quoted(b, i)
  {
    assert (a + b)[..|a| + i] == a + b[..i];
    QuotesConcat(a, b[..i]);
  }

  lemma QuotedPrefix(a: string, b: string, i: nat)
    requires i <= |a|
    ensures Quoted(a + b, i) <==> Quoted(a, i)
  {
    assert (a + b)[..i] == a[..i];
  }

  lemma {:induction false} BareBlanksConcat(a: string, b: string)
    requires !OddQuotes(a)
    ensures BareBlanks(a + b) == BareBlanks(a) + BareBlanks(b)
    decreases |b|
  {
    if b == [] {
      assert a + b == a;
    } else {
      var n := |b| - 1;
      assert (a + b)[..|a| + n] == a + b[..n];
      BareBlanksConcat(a, b[..n]);
      QuotedShift(a, b, n);
    }
  }

  /** A piece of text that closes its quotes and holds no bare backslash. */
  ghost predicate Closed(a: string) {
    && !OddQuotes(a)
    && (forall i :: 0 <= i < |a| && a[i] == BACKSLASH ==> Quoted(a, i))
  }

  lemma NoBareShift(a: string, b: string)
    requires Closed(a)
    ensures NoBareBackslash(a + b) <==> NoBareBackslash(b)
  {
    var s := a + b;
    forall i | 0 <= i < |b|
      ensures s[|a| + i] == b[i] && (Quoted(s, |a| + i) <==> Quoted(b, i))
    {
      QuotedShift(a, b, i);
    }
    forall i | 0 <= i < |a| && s[i] == BACKSLASH
      ensures Quoted(s, i)
    {
      QuotedPrefix(a, b, i);
    }
    if NoBareBackslash(s) {
      forall i | 0 <= i < |b| - 1 && b[i] == BACKSLASH
        ensures Quoted(b, i)
      {
        assert s[|a| + i] == BACKSLASH;
      }
    }
    if NoBareBackslash(b) {
      forall i | 0 <= i < |s| - 1 && s[i] == BACKSLASH
        ensures Quoted(s, i)
      {
        if i >= |a| {
          assert s[|a| + (i - |a|)] == b[i - |a|];
        }
      }
    }
  }

  lemma MadeUpShift(a: string, b: string, k: nat)
    requires Closed(a)
    ensures MadeUpAt(a + b, |a| + k) <==> MadeUpAt(b, k)
    ensures k < |a| ==> !MadeUpAt(a + b, k)
  {
    var s := a + b;
    if k <= |b| {
      QuotedShift(a, b, k);
    }
    if k + 2 <= |b| {
      assert s[|a| + k + 2..] == b[k + 2..];
    }
    forall i | 0 <= i < |b|
      ensures s[|a| + i] == b[i] && (Quoted(s, |a| + i) <==> Quoted(b, i))
    {
      QuotedShift(a, b, i);
    }
    forall i | 0 <= i < |a| && s[i] == BACKSLASH
      ensures Quoted(s, i)
    {
      QuotedPrefix(a, b, i);
    }
    if MadeUpAt(s, |a| + k) {
      forall i | 0 <= i < k && b[i] == BACKSLASH
        ensures Quoted(b, i)
      {
        assert s[|a| + i] == BACKSLASH;
      }
    }
    if MadeUpAt(b, k) {
      forall i | 0 <= i < |a| + k && s[i] == BACKSLASH
        ensures Quoted(s, i)
      {
        if i >= |a| {
          assert s[|a| + (i - |a|)] == b[i - |a|];
        }
      }
    }
  }

  lemma {:induction false} InsideQuotes(u: string)
    requires QUOTE !in u
    ensures OddQuotes([QUOTE] + u) && BareBlanks([QUOTE] + u) == []
    ensures forall i :: 1 <= i <= |u| + 1 ==> Quoted([QUOTE] + u, i)
  {
    var s := [QUOTE] + u;
    if u == [] {
      assert s == [QUOTE] && s[..0] == [];
    } else {
      var n := |u| - 1;
      assert u[n] in u;
      InsideQuotes(u[..n]);
      var t := [QUOTE] + u[..n];
      assert s[..|s| - 1] == t;
      forall i | 1 <= i <= |s|
        ensures Quoted(s, i)
      {
        if i <= |t| {
          assert s[..i] == t[..i];
          assert Quoted(t, i);
        } else {
          assert s[..i] == s;
        }
      }
      assert Quoted(t, |t|) && t[..|t|] == t;
    }
  }

  lemma QuotedIsClosed(u: string)
    requires QUOTE !in u
    ensures Closed([QUOTE] + u + [QUOTE]) && BareBlanks([QUOTE] + u + [QUOTE]) == []
  {
    var t := [QUOTE] + u;
    var s := t + [QUOTE];
    InsideQuotes(u);
    assert s[..|t|] == t;
    assert BareBlanks(t) + [] == [];
    forall i | 0 <= i < |s| && s[i] == BACKSLASH
      ensures Quoted(s, i)
    {
      assert 1 <= i < |t|;
      QuotedPrefix(t, [QUOTE], i);
    }
  }

  lemma CharIsClosed(c: char)
    requires c != QUOTE && c != BACKSLASH
    ensures Closed([c]) && BareBlanks([c]) == if Blank(c) then [c] else []
  {
    assert [c][..0] == [];
  }

  /** How the scan takes a piece that is not a backslash: closed, or open to the end. */
  lemma PieceOfText(s: string)
    requires s != [] && !Blank(s[0]) && s[0] != BACKSLASH
    ensures var raw := s[..Used(s)];
            if Opens(raw, Text(s)) then raw == s && QUOTE !in s[1..]
            else Closed(raw) && BareBlanks(raw) == []
  {
    if s[0] == QUOTE {
      var t := s[1..];
      var u := UntilQuote(t);
      UntilQuoteSpec(t);
      assert s == [QUOTE] + t;
      if |u| + 2 <= |s| {
        assert s[..|u| + 2] == [QUOTE] + t[..|u|] + [t[|u|]];
        QuotedIsClosed(u);
      } else {
        assert u == t && s[..|s|] == s;
        assert |Text(s)| == |s| + 1;
      }
    } else {
      assert s[..1] == [s[0]];
      CharIsClosed(s[0]);
    }
  }

  lemma OpenText(s: string)
    requires s != [] && s[0] == QUOTE && QUOTE !in s[1..]
    ensures NoBareBackslash(s) && BareBlanks(s) == [] && OddQuotes(s)
    ensures forall k: nat :: !MadeUpAt(s, k)
  {
    assert s == [QUOTE] + s[1..];
    InsideQuotes(s[1..]);
  }

  lemma ClosedThen(a: string, b: string)
    requires Closed(a)
    ensures NoBareBackslash(a + b) <==> NoBareBackslash(b)
    ensures BareBlanks(a + b) == BareBlanks(a) + BareBlanks(b)
    ensures OddQuotes(a + b) <==> OddQuotes(b)
  {
    NoBareShift(a, b);
    BareBlanksConcat(a, b);
    QuotesConcat(a, b);
  }

  lemma BareAtStart(s: string)
    requires |s| >= 2 && s[0] == BACKSLASH
    ensures !NoBareBackslash(s)
  {
    assert s[..0] == [];
    assert !Quoted(s, 0);
  }

  ghost predicate Meaning(s: string) {
    && (Lossless(Scan(s)) <==> NoBareBackslash(s))
    && (NoBareBackslash(s) ==> Blanks(Scan(s)) == BareBlanks(s) && (Balanced(Scan(s)) <==> !OddQuotes(s)))
  }

  lemma MeaningAtBlank(s: string)
    requires s != [] && Blank(s[0]) && Meaning(s[1..])
    ensures Meaning(s)
  {
    var t := s[1..];
    CharIsClosed(s[0]);
    ClosedThen([s[0]], t);
    assert [s[0]] + t == s;
  }

  lemma MeaningAtBackslash(s: string)
    requires s != [] && s[0] == BACKSLASH
    ensures Meaning(s)
  {
    if |s| >= 2 {
      BareAtStart(s);
    } else {
      assert s == [BACKSLASH] && s[..0] == [] && s[1..] == [];
    }
  }

  /** The two shapes of a piece that is not a backslash, cut off from the scan. */
  lemma ScanAtText(s: string)
    requires s != [] && !Blank(s[0]) && s[0] != BACKSLASH
    ensures var raw, rest := s[..Used(s)], s[Used(s)..];
            && raw + rest == s && raw != [] && raw[0] == s[0]
            && Scan(s) == Piece(raw, Text(s), Scan(rest))
            && (Opens(raw, Text(s)) ==> rest == [] && QUOTE !in s[1..] && s[0] == QUOTE)
            && (!Opens(raw, Text(s)) ==> Closed(raw) && BareBlanks(raw) == [])
  {
    PieceOfText(s);
  }

  lemma MeaningOfOpen(s: string, raw: string, text: string)
    requires Scan(s) == Piece(raw, text, End) && Opens(raw, text) && s != [] && s[0] == QUOTE && QUOTE !in s[1..]
    ensures Meaning(s)
  {
    OpenText(s);
  }

  lemma MeaningOfClosed(raw: string, text: string, rest: string)
    requires Scan(raw + rest) == Piece(raw, text, Scan(rest)) && raw != [] && raw[0] != BACKSLASH
    requires !Opens(raw, text) && Closed(raw) && BareBlanks(raw) == [] && Meaning(rest)
    ensures Meaning(raw + rest)
  {
    ClosedThen(raw, rest);
  }

  lemma MeaningAtPiece(s: string)
    requires s != [] && !Blank(s[0]) && s[0] != BACKSLASH && Meaning(s[Used(s)..])
    ensures Meaning(s)
  {
    ScanAtText(s);
    var raw, text, rest := s[..Used(s)], Text(s), s[Used(s)..];
    if Opens(raw, text) {
      MeaningOfOpen(s, raw, text);
    } else {
      MeaningOfClosed(raw, text, rest);
    }
  }

  /** What the scan finds is what the text says: characters are lost exactly over bare
      backslashes; and if there are none, tokens end exactly at the bare blanks and the
      last quote closes exactly if the quotes pair up. */
  lemma {:induction false} ScanMeaning(s: string)
    ensures Lossless(Scan(s)) <==> NoBareBackslash(s)
    ensures NoBareBackslash(s) ==> Blanks(Scan(s)) == BareBlanks(s) && (Balanced(Scan(s)) <==> !OddQuotes(s))
    decreases |s|
  {
    assert Meaning(s) by {
      if s != [] {
        if s[0] == BACKSLASH {
          MeaningAtBackslash(s);
        } else if Blank(s[0]) {
          ScanMeaning(s[1..]);
          MeaningAtBlank(s);
        } else {
          ScanMeaning(s[Used(s)..]);
          MeaningAtPiece(s);
        }
      }
    }
  }

  lemma ScanAtBackslash(s: string)
    requires s != [] && s[0] == BACKSLASH
    ensures |s| >= 3 ==> Scan(s) == Piece(s[..3], s[..2], Scan(s[3..]))
    ensures |s| < 3 ==> Scan(s) == Piece(s, s[..1], End)
  {
    if |s| < 3 {
      assert s[..|s|] == s;
    }
  }

  lemma TailParity(n: nat)
    requires n >= 3
    ensures (n - 3) % 2 == 1 <==> n >= 4 && n % 2 == 0
  {
  }

  lemma LostAtStart(s: string, it: Items)
    requires |s| >= 3 && s[0] == BACKSLASH && it == Piece(s[..3], s[..2], Scan(s[3..])) && Raw(it.rest) == s[3..]
    ensures LostButMadeUp(it) <==> |s| >= 4 && |s| % 2 == 0 && AllQuotes(s[2..])
  {
    AllQuotesCons(s[2], s[3..]);
    assert [s[2]] + s[3..] == s[2..];
    TailParity(|s|);
  }

  lemma MadeUpAtStart(s: string)
    requires s != [] && s[0] == BACKSLASH
    ensures LostButMadeUp(Scan(s)) <==> MadeUpAt(s, 0)
  {
    assert s[..0] == [];
    ScanAtBackslash(s);
    if |s| >= 3 {
      RawIsInput(s[3..]);
      LostAtStart(s, Scan(s));
    }
  }

  lemma MadeUpOnlyAtStart(s: string, k: nat)
    requires s != [] && s[0] == BACKSLASH && MadeUpAt(s, k)
    ensures k == 0
  {
    assert s[..0] == [];
    assert !Quoted(s, 0);
  }

  lemma AllQuotesCons(x: char, t: string)
    ensures AllQuotes([x] + t) <==> x == QUOTE && AllQuotes(t)
  {
    var s := [x] + t;
    assert s[0] == x;
    assert forall i :: 0 <= i < |t| ==> t[i] == s[i + 1];
  }

  lemma MadeUpThen(a: string, b: string)
    requires Closed(a)
    ensures IsMadeUp(a + b) <==> IsMadeUp(b)
  {
    if k: nat :| MadeUpAt(a + b, k) {
      MadeUpShift(a, b, k);
      MadeUpShift(a, b, k - |a|);
      assert MadeUpAt(b, k - |a|);
    }
    if k: nat :| MadeUpAt(b, k) {
      MadeUpShift(a, b, k);
      assert MadeUpAt(a + b, |a| + k);
    }
  }

  ghost predicate IsMadeUp(s: string) {
    exists k: nat :: MadeUpAt(s, k)
  }

  lemma MadeUpOfClosed(raw: string, text: string, rest: string)
    requires Scan(raw + rest) == Piece(raw, text, Scan(rest)) && raw != [] && raw[0] != BACKSLASH
    requires !Opens(raw, text) && Closed(raw) && (LostButMadeUp(Scan(rest)) <==> IsMadeUp(rest))
    ensures LostButMadeUp(Scan(raw + rest)) <==> IsMadeUp(raw + rest)
  {
    MadeUpThen(raw, rest);
  }

  lemma MadeUpAtPiece(s: string)
    requires s != [] && !Blank(s[0]) && s[0] != BACKSLASH
    requires LostButMadeUp(Scan(s[Used(s)..])) <==> IsMadeUp(s[Used(s)..])
    ensures LostButMadeUp(Scan(s)) <==> IsMadeUp(s)
  {
    ScanAtText(s);
    var raw, text, rest := s[..Used(s)], Text(s), s[Used(s)..];
    if Opens(raw, text) {
      OpenText(s);
    } else {
      MadeUpOfClosed(raw, text, rest);
    }
  }

  lemma {:induction false} MadeUpMeaning(s: string)
    ensures LostButMadeUp(Scan(s)) <==> IsMadeUp(s)
    decreases |s|
  {
    if s != [] {
      if s[0] == BACKSLASH {
        MadeUpAtStart(s);
        if k: nat :| MadeUpAt(s, k) {
          MadeUpOnlyAtStart(s, k);
        }
      } else if Blank(s[0]) {
        MadeUpMeaning(s[1..]);
        CharIsClosed(s[0]);
        MadeUpThen([s[0]], s[1..]);
        assert [s[0]] + s[1..] == s;
      } else {
        MadeUpMeaning(s[Used(s)..]);
        MadeUpAtPiece(s);
      }
    }
  }

  /** The tokens and the blanks between them spell the command exactly when it has no
      bare backslash and its quotes pair up, or when an added closing quote makes up for
      the character lost behind the first bare backslash. */
  lemma SpelledIff(s: string)
    ensures Weave(Tokens(Scan(s)), Blanks(Scan(s))) == s <==>
            (NoBareBackslash(s) && !OddQuotes(s)) || IsMadeUp(s)
  {
    TokensAndBlanks(Scan(s));
    WrittenIff(s);
    ScanMeaning(s);
    MadeUpMeaning(s);
  }

  // ------------------------------------------------------ tokens stand on their own

  lemma {:induction false} UntilQuoteOf(u: string, t: string)
    requires QUOTE !in u
    ensures UntilQuote(u + [QUOTE] + t) == u
  {
    var s := u + [QUOTE] + t;
    if u != [] {
      assert u[0] in u;
      assert QUOTE !in u[1..];
      UntilQuoteOf(u[1..], t);
      assert s[1..] == u[1..] + [QUOTE] + t;
    }
  }

  lemma QuotedThen(u: string, t: string)
    requires QUOTE !in u
    ensures var p := [QUOTE] + u + [QUOTE] + t;
            Text(p) == [QUOTE] + u + [QUOTE] && p[Used(p)..] == t
  {
    var p := [QUOTE] + u + [QUOTE] + t;
    UntilQuoteOf(u, t);
    assert p[1..] == u + [QUOTE] + t;
  }

  /** A piece the scan wrote, put before a token, is scanned as that piece again. */
  lemma PieceThen(s: string, t: string)
    requires s != [] && !Blank(s[0]) && (s[0] == BACKSLASH ==> |s| == 1 && t == [])
    ensures var p := Text(s) + t;
            p != [] && p[0] == s[0] && Text(p) == Text(s) && p[Used(p)..] == t
  {
    if s[0] == QUOTE {
      UntilQuoteSpec(s[1..]);
      QuotedThen(UntilQuote(s[1..]), t);
    }
  }

  predicate StandsAlone(t: string) {
    Tokens(Scan(t)) == [t]
  }

  ghost predicate AllStandAlone(ts: seq<string>) {
    forall i :: 0 <= i < |ts| ==> StandsAlone(ts[i])
  }

  lemma PieceStandsAlone(s: string, t: string)
    requires s != [] && !Blank(s[0]) && (s[0] == BACKSLASH ==> |s| == 1 && t == [])
    requires StandsAlone(t)
    ensures StandsAlone(Text(s) + t)
  {
    PieceThen(s, t);
    var p := Text(s) + t;
    assert Scan(p).rest == Scan(t);
    assert Tokens(Scan(p)) == Glue(Text(s), [t]);
  }

  lemma GlueStandsAlone(s: string, ts: seq<string>)
    requires s != [] && !Blank(s[0]) && ts != [] && AllStandAlone(ts)
    requires s[0] == BACKSLASH ==> |s| == 1 && ts[0] == []
    ensures AllStandAlone(Glue(Text(s), ts))
  {
    var us := Glue(Text(s), ts);
    forall i | 0 <= i < |us|
      ensures StandsAlone(us[i])
    {
      assert StandsAlone(ts[i]);
      if i == 0 {
        PieceStandsAlone(s, ts[0]);
      } else {
        assert us[i] == ts[i];
      }
    }
  }

  lemma {:induction false} ScannedStandAlone(s: string)
    requires Lossless(Scan(s))
    ensures AllStandAlone(Tokens(Scan(s)))
    decreases |s|
  {
    assert StandsAlone([]);
    if s != [] {
      if Blank(s[0]) {
        ScannedStandAlone(s[1..]);
      } else {
        var rest := s[Used(s)..];
        ScannedStandAlone(rest);
        assert s[0] == BACKSLASH ==> rest == [];
        GlueStandsAlone(s, Tokens(Scan(rest)));
      }
    }
  }

  /** Without bare backslashes there is one token more than bare blanks, and each token,
      scanned again, is one token: a quoted blank never splits. */
  lemma TokensStandAlone(s: string)
    requires NoBareBackslash(s)
    ensures |Tokens(Scan(s))| == |BareBlanks(s)| + 1 && AllStandAlone(Tokens(Scan(s)))
  {
    ScanMeaning(s);
    TokensAndBlanks(Scan(s));
    ScannedStandAlone(s);
  }

  // -------------------------------------------------------------- the arguments

  function Last(ts: seq<string>): string
    requires ts != []
  {
    ts[|ts| - 1]
  }

  /** What lies behind the last token in the buffer when it is taken: the memory as the
      caller found it until a split clears all of it but the last byte. */
  function Behind(last: string, split: bool, memory: string): string
    requires memory != []
  {
    var n := |memory| - 1;
    if |last| > n then []
    else if !split || |last| == n then memory[|last|..]
    else [NUL]
  }

  /** The argument vector, given what the token buffer held before; None if the last
      token has no terminator inside the buffer, so that it is read beyond it. */
  function Arguments(command: string, memory: string): Option<seq<string>>
    requires |memory| == |command| + 1
  {
    var ts := Tokens(Scan(command));
    var behind := Behind(Last(ts), |ts| > 1, memory);
    if NUL in behind then Some(ts[..|ts| - 1] + [Last(ts) + CString(behind)]) else None
  }

  /** The last token is terminated inside the buffer exactly if a split cleared the
      buffer and left room behind the token, or a terminator happened to lie there. */
  lemma TerminatedIff(command: string, memory: string)
    requires |memory| == |command| + 1
    ensures var last := Last(Tokens(Scan(command)));
            Arguments(command, memory).Some? <==>
            && |last| <= |command|
            && ((Blanks(Scan(command)) != [] && |last| < |command|) || NUL in memory[|last|..])
  {
    TokensAndBlanks(Scan(command));
  }

  /** A single quote leaves no terminator, whatever the buffer held. */
  lemma QuoteIsNotTerminated(memory: string)
    requires |memory| == 2
    ensures Arguments([QUOTE], memory) == None
  {
    ScanOneQuote();
    assert [QUOTE, QUOTE] + [] == [QUOTE, QUOTE];
    assert Tokens(Scan([QUOTE])) == [[QUOTE, QUOTE]];
  }

  lemma {:induction false} LastLength(it: Items)
    requires WellScanned(it)
    ensures |Last(Tokens(it))| + |Blanks(it)| <= |Raw(it)| + 1
    ensures Balanced(it) ==> |Last(Tokens(it))| + |Blanks(it)| <= |Raw(it)|
  {
    match it
    case End =>
    case Split(b, rest) =>
      LastLength(rest);
      assert Last(Tokens(it)) == Last(Tokens(rest));
    case Piece(raw, text, rest) =>
      LastLength(rest);
      if |Tokens(rest)| > 1 {
        assert Last(Tokens(it)) == Last(Tokens(rest));
      }
  }

  /** With balanced quotes the arguments are the tokens whatever the memory held,
      provided there is a blank to split at; without one, exactly when the memory
      behind the text happened to hold a terminator. */
  lemma ArgumentsAreTokens(command: string, memory: string)
    requires |memory| == |command| + 1 && Balanced(Scan(command))
    ensures |Written(Scan(command))| <= |command|
    ensures Arguments(command, memory) == Some(Tokens(Scan(command))) <==>
            Blanks(Scan(command)) != [] || memory[|Written(Scan(command))|] == NUL
  {
    var it := Scan(command);
    var ts := Tokens(it);
    ScanIsWell(command);
    RawIsInput(command);
    TokensAndBlanks(it);
    LastLength(it);
    WrittenLength(it);
    var behind := Behind(Last(ts), |ts| > 1, memory);
    SameLast(ts, CString(behind));
    if |ts| == 1 {
      assert Written(it) == Last(ts);
      assert behind[0] == memory[|Last(ts)|];
    }
  }

  /** A command whose quotes pair up, with no bare backslash and with a bare blank:
      whatever the memory held, every token is terminated inside the buffer, there is
      one argument more than bare blanks, each stands on its own, and the arguments and
      the bare blanks spell the command. */
  lemma ArgumentsSpellCommand(command: string, memory: string)
    requires |memory| == |command| + 1
    requires !OddQuotes(command) && NoBareBackslash(command) && BareBlanks(command) != []
    ensures var args := Arguments(command, memory);
            && args.Some?
            && |args.value| == |BareBlanks(command)| + 1
            && Weave(args.value, BareBlanks(command)) == command
            && AllStandAlone(args.value)
  {
    ScanMeaning(command);
    ArgumentsAreTokens(command, memory);
    SpelledIff(command);
    TokensStandAlone(command);
  }

  lemma SameLast(ts: seq<string>, x: string)
    requires ts != []
    ensures ts[..|ts| - 1] + [Last(ts) + x] == ts <==> x == []
  {
    var us := ts[..|ts| - 1] + [Last(ts) + x];
    assert us[|ts| - 1] == Last(ts) + x;
    if x == [] {
      assert Last(ts) + x == Last(ts);
    }
  }
}
