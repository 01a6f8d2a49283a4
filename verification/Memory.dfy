/** Moving bytes down inside a buffer, as memmove does. */
module Memory {
  const NUL := '\0'

  /** Moves len bytes from src down to dst. */
  method MoveDown(buf: array<char>, dst: nat, src: nat, len: nat)
    requires dst <= src && src + len <= buf.Length
    modifies buf
    ensures forall i :: dst <= i < dst + len ==> buf[i] == old(buf[i + (src - dst)])
    ensures forall i :: 0 <= i < dst || dst + len <= i < buf.Length ==> buf[i] == old(buf[i])
    ensures buf[..dst] == old(buf[..dst]) && buf[dst..dst + len] == old(buf[src..src + len])
  {
    for k := 0 to len
      invariant forall i :: dst <= i < dst + k ==> buf[i] == old(buf[i + (src - dst)])
      invariant forall i :: 0 <= i < dst || dst + k <= i < buf.Length ==> buf[i] == old(buf[i])
    {
      buf[dst + k] := buf[src + k];
    }
  }

  /** The string of length n at the start of the buffer ends at its first NUL. */
  predicate IsString(buf: array<char>, n: nat)
    reads buf
  {
    n < buf.Length && buf[n] == NUL && forall i :: 0 <= i < n ==> buf[i] != NUL
  }

  method StrLen(buf: array<char>, ghost n: nat) returns (len: nat)
    requires IsString(buf, n)
    ensures len == n
  {
    len := 0;
    while buf[len] != NUL
      invariant len <= n
      decreases n - len
    {
      len := len + 1;
    }
  }

  /** The text up to the first NUL, or all of it. */
  function CString(s: string): string {
    if s == [] || s[0] == NUL then [] else [s[0]] + CString(s[1..])
  }

  lemma {:induction false} CStringSpec(s: string)
    ensures CString(s) <= s && NUL !in CString(s)
    ensures |CString(s)| < |s| ==> s[|CString(s)|] == NUL
    ensures |CString(s)| < |s| <==> NUL in s
  {
    if !(s == [] || s[0] == NUL) {
      CStringSpec(s[1..]);
    }
  }

  lemma {:induction false} CStringAfter(a: string, b: string)
    requires NUL !in a
    ensures CString(a + b) == a + CString(b)
  {
    if a == [] {
      assert a + b == b;
    } else {
      var x, rest := a[0], a[1..];
      assert x in a && a == [x] + rest;
      CStringAfter(rest, b);
      assert (a + b)[0] == x && (a + b)[1..] == rest + b;
      assert [x] + (rest + CString(b)) == a + CString(b);
    }
  }
}
