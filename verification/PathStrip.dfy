/** Path normalisation for file blocks: repeated and trailing separators go away. */
module PathStrip {
  import opened Memory

  const SEP := '/'
  const PATH_MAX := 4096
  const ADD_FILEBLOCK := 'a'
  const DEL_FILEBLOCK := 'd'

  function Collapse(s: string): string {
    if |s| < 2 then s
    else if s[0] == SEP && s[1] == SEP then Collapse(s[1..])
    else [s[0]] + Collapse(s[1..])
  }

  function Trim(r: string): string {
    if |r| > 1 && r[|r| - 1] == SEP then r[..|r| - 1] else r
  }

  function Strip(s: string): string {
    Trim(Collapse(s))
  }

  // -------------------------------------------------- what a path is made of

  /** The components of a path: its maximal runs without separators. */
  function Components(s: string): (cs: seq<string>)
    ensures s != [] && s[0] != SEP ==> cs != []
  {
    if s == [] then []
    else if s[0] == SEP then Components(s[1..])
    else if |s| == 1 || s[1] == SEP then [[s[0]]] + Components(s[1..])
    else
      var cs := Components(s[1..]);
      [[s[0]] + cs[0]] + cs[1..]
  }

  predicate Absolute(s: string) {
    s != [] && s[0] == SEP
  }

  function Root(absolute: bool): string {
    if absolute then [SEP] else []
  }

  function Join(cs: seq<string>): string {
    if cs == [] then []
    else if |cs| == 1 then cs[0]
    else cs[0] + [SEP] + Join(cs[1..])
  }

  predicate IsComponent(c: string) {
    c != [] && SEP !in c
  }

  ghost predicate AllComponents(cs: seq<string>) {
    forall i :: 0 <= i < |cs| ==> IsComponent(cs[i])
  }

  lemma {:induction false} ComponentsAreComponents(s: string)
    ensures AllComponents(Components(s))
  {
    if s != [] {
      ComponentsAreComponents(s[1..]);
    }
  }

  lemma {:induction false} NoComponents(s: string)
    ensures Components(s) == [] <==> forall i :: 0 <= i < |s| ==> s[i] == SEP
  {
    if s != [] && s[0] == SEP {
      NoComponents(s[1..]);
      assert forall i :: 1 <= i < |s| ==> s[i] == s[1..][i - 1];
    }
  }

  lemma {:induction false} JoinEnds(cs: seq<string>)
    requires AllComponents(cs) && cs != []
    ensures Join(cs) != [] && Join(cs)[0] != SEP && Join(cs)[|Join(cs)| - 1] != SEP
  {
    if |cs| > 1 {
      JoinEnds(cs[1..]);
      assert Join(cs)[|Join(cs)| - 1] == Join(cs[1..])[|Join(cs[1..])| - 1];
    }
  }

  function Trail(s: string): string {
    if Components(s) != [] && s != [] && s[|s| - 1] == SEP then [SEP] else []
  }

  lemma JoinCons(c: string, cs: seq<string>)
    requires cs != []
    ensures Join([c] + cs) == c + [SEP] + Join(cs)
  {
    assert ([c] + cs)[1..] == cs;
  }

  lemma JoinGrow(x: char, cs: seq<string>)
    requires cs != []
    ensures Join([[x] + cs[0]] + cs[1..]) == [x] + Join(cs)
  {
    var ds := [[x] + cs[0]] + cs[1..];
    assert ds[1..] == cs[1..];
    if |cs| > 1 {
      assert [x] + cs[0] + [SEP] + Join(cs[1..]) == [x] + (cs[0] + [SEP] + Join(cs[1..]));
    } else {
      assert ds == [[x] + cs[0]];
    }
  }

  ghost predicate Form(s: string) {
    Collapse(s) == Root(Absolute(s)) + Join(Components(s)) + Trail(s)
  }

  lemma PrependRoot(a: string, b: string)
    ensures [SEP] + (Root(false) + a + b) == Root(true) + a + b
  {
  }

  lemma CollapseAtSeparator(s: string)
    requires s != [] && s[0] == SEP
    ensures Collapse(s) == if Absolute(s[1..]) then Collapse(s[1..]) else [SEP] + Collapse(s[1..])
  {
    assert |s| == 1 ==> s == [SEP];
  }

  lemma FormAtSeparator(s: string)
    requires s != [] && s[0] == SEP && Form(s[1..])
    ensures Form(s)
  {
    var t := s[1..];
    CollapseAtSeparator(s);
    PrependRoot(Join(Components(t)), Trail(t));
    assert Trail(s) == Trail(t) by {
      assert t != [] ==> t[|t| - 1] == s[|s| - 1];
    }
  }

  lemma FormAtLastOfComponent(s: string)
    requires |s| >= 2 && s[0] != SEP && s[1] == SEP && Form(s[1..])
    ensures Form(s)
  {
    var t := s[1..];
    var cs := Components(t);
    assert t[|t| - 1] == s[|s| - 1];
    NoComponents(t);
    if cs == [] {
      assert Trail(s) == [SEP];
    } else {
      JoinCons([s[0]], cs);
      assert [s[0]] + ([SEP] + Join(cs) + Trail(t)) == [s[0]] + [SEP] + Join(cs) + Trail(t);
    }
  }

  lemma FormInComponent(s: string)
    requires |s| >= 2 && s[0] != SEP && s[1] != SEP && Form(s[1..])
    ensures Form(s)
  {
    var t := s[1..];
    var cs := Components(t);
    assert t[|t| - 1] == s[|s| - 1];
    JoinGrow(s[0], cs);
    assert [s[0]] + (Root(false) + Join(cs) + Trail(t)) == Root(false) + ([s[0]] + Join(cs)) + Trail(t);
  }

  /** Collapsing keeps the root, the components and whether the path ends in a separator. */
  lemma {:induction false} CollapseForm(s: string)
    ensures Form(s)
  {
    if s != [] {
      CollapseForm(s[1..]);
      if s[0] == SEP {
        FormAtSeparator(s);
      } else if |s| == 1 {
        assert Collapse(s) == [s[0]] == Join([[s[0]]]);
      } else if s[1] == SEP {
        FormAtLastOfComponent(s);
      } else {
        FormInComponent(s);
      }
    }
  }

  lemma TrimTakesTrail(body: string, trail: string)
    requires trail == [] || (trail == [SEP] && body != [])
    requires |body| <= 1 || body[|body| - 1] != SEP
    ensures Trim(body + trail) == body
  {
    if trail == [SEP] {
      assert (body + trail)[..|body|] == body;
    } else {
      assert body + trail == body;
    }
  }

  /** The stripped path is the root, if the path has one, and its components joined by
      single separators: for every path. */
  lemma StripIsCanonical(s: string)
    ensures Strip(s) == Root(Absolute(s)) + Join(Components(s))
  {
    CollapseForm(s);
    ComponentsAreComponents(s);
    var root, j := Root(Absolute(s)), Join(Components(s));
    if Components(s) != [] {
      JoinEnds(Components(s));
      assert (root + j)[|root + j| - 1] == j[|j| - 1];
    }
    TrimTakesTrail(root + j, Trail(s));
  }

  lemma {:induction false} ComponentThen(c: string, t: string)
    requires IsComponent(c) && (t == [] || t[0] == SEP)
    ensures Components(c + t) == [c] + Components(t)
  {
    var s := c + t;
    assert s[1..] == c[1..] + t;
    if |c| > 1 {
      assert SEP !in c[1..] by {
        forall i | 0 <= i < |c| - 1
          ensures c[1..][i] != SEP
        {
          assert c[1..][i] == c[i + 1];
          assert c[i + 1] in c;
        }
      }
      ComponentThen(c[1..], t);
      assert c[0] in c && c[1] in c;
      assert [c[0]] + c[1..] == c;
      assert ([c[1..]] + Components(t))[1..] == Components(t);
    } else {
      assert c[0] in c;
      assert c == [c[0]] && s[1..] == t;
    }
  }

  lemma {:induction false} ComponentsOfJoin(cs: seq<string>)
    requires AllComponents(cs)
    ensures Components(Join(cs)) == cs
  {
    if |cs| == 1 {
      ComponentThen(cs[0], []);
      assert cs[0] + [] == cs[0] && [cs[0]] + [] == cs;
    } else if |cs| > 1 {
      ComponentsOfJoin(cs[1..]);
      var t := [SEP] + Join(cs[1..]);
      ComponentThen(cs[0], t);
      assert t[1..] == Join(cs[1..]);
      assert Join(cs) == cs[0] + t;
      assert [cs[0]] + cs[1..] == cs;
    }
  }

  /** Stripping keeps the root and the components. */
  lemma StripKeepsPath(s: string)
    ensures Absolute(Strip(s)) == Absolute(s) && Components(Strip(s)) == Components(s)
  {
    StripIsCanonical(s);
    ComponentsAreComponents(s);
    ComponentsOfJoin(Components(s));
    var j := Join(Components(s));
    if Absolute(s) {
      assert Root(true) + j == [SEP] + j;
      assert ([SEP] + j)[1..] == j;
    } else {
      assert Root(false) + j == j;
      if Components(s) != [] {
        JoinEnds(Components(s));
      }
    }
  }

  /** Two paths strip to the same text exactly when they have the same root and the
      same components; stripping again changes nothing. */
  lemma SameIffSamePath(s: string, t: string)
    ensures Strip(s) == Strip(t) <==> Absolute(s) == Absolute(t) && Components(s) == Components(t)
    ensures Strip(Strip(s)) == Strip(s)
  {
    StripKeepsPath(s);
    StripKeepsPath(t);
    StripIsCanonical(s);
    StripIsCanonical(t);
    StripIsCanonical(Strip(s));
  }

  ghost predicate NoDouble(s: string) {
    forall i :: 0 <= i < |s| - 1 ==> !(s[i] == SEP && s[i + 1] == SEP)
  }

  /** No doubled separator, and a trailing one only if it is all there is. */
  ghost predicate Normal(s: string) {
    NoDouble(s) && (|s| > 1 ==> s[|s| - 1] != SEP)
  }

  lemma {:induction false} CollapseNoDouble(s: string)
    ensures NoDouble(Collapse(s))
    ensures s != [] ==> Collapse(s) != [] && Collapse(s)[0] == s[0]
    ensures NoDouble(s) ==> Collapse(s) == s
  {
    if |s| >= 2 {
      var t := s[1..];
      CollapseNoDouble(t);
      if NoDouble(s) {
        forall i | 0 <= i < |t| - 1
          ensures !(t[i] == SEP && t[i + 1] == SEP)
        {
          assert !(s[i + 1] == SEP && s[i + 1 + 1] == SEP);
        }
        assert !(s[0] == SEP && s[0 + 1] == SEP);
        assert s == [s[0]] + t;
      }
    }
  }

  /** Stripping yields a normal path, and leaves exactly the normal paths alone. */
  lemma StripIsNormal(s: string)
    ensures Normal(Strip(s))
    ensures Strip(s) == s <==> Normal(s)
  {
    CollapseNoDouble(s);
    var r := Collapse(s);
    if |r| > 2 {
      var k := |r| - 2;
      assert !(r[k] == SEP && r[k + 1] == SEP);
    }
  }

  // ---------------------------------------------------------------- the write

  /** Behind a control character, an operand is stripped as a path of its own, except
      that an operand of separators only becomes empty. */
  lemma OperandIsStripped(op: char, x: string)
    requires op != SEP
    ensures Strip([op] + x) == [op] + if Components(x) == [] then [] else Strip(x)
  {
    var s := [op] + x;
    assert s[1..] == x;
    CollapseForm(s);
    StripIsCanonical(s);
    StripIsCanonical(x);
    var cs := Components(x);
    if x != [] && x[0] != SEP {
      JoinGrow(op, cs);
    } else if cs != [] {
      JoinCons([op], cs);
      assert [op] + [SEP] + Join(cs) == [op] + (Root(true) + Join(cs));
    } else {
      assert Components(s) == [[op]];
      assert [op] + [] == [op];
    }
  }

  /** Two operands name the same block exactly when they are the same path, or both
      have no components. */
  lemma SameBlock(op: char, x: string, y: string)
    requires op != SEP
    ensures Strip([op] + x) == Strip([op] + y) <==>
            Components(x) == Components(y) && (Components(x) == [] || Absolute(x) == Absolute(y))
  {
    OperandIsStripped(op, x);
    OperandIsStripped(op, y);
    SameIffSamePath(x, y);
    var a, b := Strip([op] + x), Strip([op] + y);
    assert a[1..] == if Components(x) == [] then [] else Strip(x);
    assert b[1..] == if Components(y) == [] then [] else Strip(y);
    StripKeepsPath(x);
    StripKeepsPath(y);
  }

  datatype Command = AddBlock(path: string) | RemoveBlock(path: string) | Invalid | TooLong

  function Parse(buf: string): Command {
    if |buf| > PATH_MAX then TooLong
    else
      var s := Strip(CString(buf));
      if s == [] then Invalid
      else if s[0] == ADD_FILEBLOCK then AddBlock(s[1..])
      else if s[0] == DEL_FILEBLOCK then RemoveBlock(s[1..])
      else Invalid
  }

  /** The path that an operand names: its root and its components joined, empty if it has
      no components. */
  function BlockPath(x: string): string {
    if Components(x) == [] then [] else Root(Absolute(x)) + Join(Components(x))
  }

  /** The buffer of a write after stripping: the operand up to its first NUL is the block. */
  lemma StrippedWrite(op: char, x: string)
    requires op != NUL
    ensures op != SEP ==> Strip(CString([op] + x)) == [op] + BlockPath(CString(x))
    ensures op == SEP ==> Strip(CString([op] + x)) != [] && Strip(CString([op] + x))[0] == SEP
  {
    var operand := CString(x);
    assert ([op] + x)[1..] == x;
    if op == SEP {
      StripIsCanonical([op] + operand);
    } else {
      OperandIsStripped(op, operand);
      StripIsCanonical(operand);
    }
  }

  /** What every write does: the first character chooses, the operand up to its first NUL
      names the block. */
  lemma WriteMeans(op: char, x: string)
    ensures |x| >= PATH_MAX ==> Parse([op] + x) == TooLong
    ensures |x| < PATH_MAX && op == 'a' ==> Parse([op] + x) == AddBlock(BlockPath(CString(x)))
    ensures |x| < PATH_MAX && op == 'd' ==> Parse([op] + x) == RemoveBlock(BlockPath(CString(x)))
    ensures |x| < PATH_MAX && op != 'a' && op != 'd' ==> Parse([op] + x) == Invalid
  {
    if op == NUL {
      assert CString([op] + x) == [];
    } else {
      StrippedWrite(op, x);
      var path := BlockPath(CString(x));
      assert ([op] + path)[1..] == path;
    }
  }

  /** The empty write is invalid. */
  lemma EmptyWrite()
    ensures Parse([]) == Invalid
  {
  }

  /** A write removes the block that another one added exactly when their operands are the
      same path, or both have no components. */
  lemma RemovesWhatWasAdded(x: string, y: string)
    requires |x| < PATH_MAX && |y| < PATH_MAX
    ensures Parse(['a'] + x).AddBlock? && Parse(['d'] + y).RemoveBlock?
    ensures Parse(['a'] + x).path == Parse(['d'] + y).path <==>
            var a, b := CString(x), CString(y);
            Components(a) == Components(b) && (Components(a) == [] || Absolute(a) == Absolute(b))
  {
    WriteMeans('a', x);
    WriteMeans('d', y);
    var a, b := CString(x), CString(y);
    StripIsCanonical(a);
    StripIsCanonical(b);
    SameIffSamePath(a, b);
    StripKeepsPath(a);
    StripKeepsPath(b);
  }

  // ----------------------------------------------------------------- the code

  lemma CollapseOther(s: string)
    requires s != [] && s[0] != SEP
    ensures Collapse(s) == [s[0]] + Collapse(s[1..])
  {
    if |s| == 1 {
      assert s == [s[0]] && s[1..] == [];
    }
  }

  /** `done` is final, `todo` is still to be collapsed. */
  ghost predicate Pending(done: string, todo: string, text: string) {
    done + Collapse(todo) == Collapse(text)
  }

  lemma Passes(done: string, todo: string, text: string)
    requires Pending(done, todo, text) && todo != [] && todo[0] != SEP
    ensures Pending(done + [todo[0]], todo[1..], text)
  {
    CollapseOther(todo);
    assert done + [todo[0]] + Collapse(todo[1..]) == done + ([todo[0]] + Collapse(todo[1..]));
  }

  lemma PassesBoth(done: string, todo: string, text: string)
    requires Pending(done, todo, text) && |todo| >= 2 && todo[0] == SEP && todo[1] != SEP
    ensures Pending(done + [SEP, todo[1]], todo[2..], text)
  {
    CollapseOther(todo[1..]);
    assert todo[1..][1..] == todo[2..];
    assert done + [SEP, todo[1]] + Collapse(todo[2..]) == done + ([SEP] + ([todo[1]] + Collapse(todo[2..])));
  }

  /** Drops the separator before position i. */
  method DropSeparator(buf: array<char>, i: nat, length: nat)
    requires 1 <= i < length && IsString(buf, length)
    modifies buf
    ensures IsString(buf, length - 1)
    ensures buf[..i - 1] == old(buf[..i - 1]) && buf[i - 1..length - 1] == old(buf[i..length])
  {
    MoveDown(buf, i - 1, i, length - i + 1);
    assert buf[length - 1] == NUL;
    forall k | 0 <= k < length - 1
      ensures buf[k] != NUL
    {
      if k >= i - 1 {
        assert buf[k] == old(buf[k + 1]);
      }
    }
  }

  /** The loop of StripExtraPathSeparators, in place. */
  method CollapseSeparators(buf: array<char>, ghost text: string) returns (length: nat)
    requires IsString(buf, |text|) && buf[..|text|] == text
    modifies buf
    ensures length < buf.Length && IsString(buf, length) && buf[..length] == Collapse(text)
  {
    length := StrLen(buf, |text|);
    var i := 0;
    var lastCharWasSep := false;
    ghost var start, done, todo := 0, [], text;
    while i < length
      invariant i <= length && IsString(buf, length)
      invariant start <= length && done == buf[..start] && todo == buf[start..length]
      invariant if lastCharWasSep then start == i - 1 && buf[start] == SEP else start == i
      invariant Pending(done, todo, text)
    {
      if buf[i] == SEP {
        if lastCharWasSep {
          DropSeparator(buf, i, length);
          length := length - 1;
          todo := todo[1..];
        } else {
          lastCharWasSep := true;
          i := i + 1;
        }
      } else {
        if lastCharWasSep {
          PassesBoth(done, todo, text);
          done, todo, start := done + [SEP, todo[1]], todo[2..], i + 1;
        } else {
          Passes(done, todo, text);
          done, todo, start := done + [todo[0]], todo[1..], i + 1;
        }
        lastCharWasSep := false;
        i := i + 1;
      }
    }
    assert Collapse(todo) == todo;
    assert buf[..length] == done + todo;
  }

  /** StripExtraPathSeparators. */
  method StripExtraPathSeparators(buf: array<char>, ghost text: string) returns (length: nat)
    requires IsString(buf, |text|) && buf[..|text|] == text
    modifies buf
    ensures length < buf.Length && IsString(buf, length) && buf[..length] == Strip(text)
  {
    length := CollapseSeparators(buf, text);
    if length > 1 && buf[length - 1] == SEP {
      length := length - 1;
    }
    buf[length] := NUL;
  }

  /** VMBlockWrite up to the change of the block table. */
  method BlockWrite(buf: string) returns (r: Command)
    ensures r == Parse(buf)
  {
    if |buf| > PATH_MAX {
      return TooLong;
    }
    var trimmed := new char[PATH_MAX + 1];
    for i := 0 to |buf|
      invariant trimmed[..i] == buf[..i]
    {
      trimmed[i] := buf[i];
    }
    trimmed[|buf|] := NUL;
    ghost var text := CString(buf);
    CStringSpec(buf);
    assert forall i :: 0 <= i < |buf| ==> trimmed[i] == buf[i];
    assert forall i :: 0 <= i < |text| ==> text[i] == buf[i] && text[i] in text;
    assert trimmed[..|text|] == text;
    var length := StripExtraPathSeparators(trimmed, text);
    if length > 0 && trimmed[0] == ADD_FILEBLOCK {
      return AddBlock(trimmed[1..length]);
    }
    if length > 0 && trimmed[0] == DEL_FILEBLOCK {
      return RemoveBlock(trimmed[1..length]);
    }
    return Invalid;
  }
}
