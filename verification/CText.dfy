/** Strings as C keeps them: characters up to the first NUL. The loops of lib.h, with a pointer given as an array and
  * an index into it. */
module CText {

  const NUL: char := 0 as char

  predicate NoNul(s: string) {
    forall i :: 0 <= i < |s| ==> s[i] != NUL
  }

  function CString(a: string): (r: string)
    ensures |r| <= |a| && r == a[..|r|] && NoNul(r) && (|r| < |a| ==> a[|r|] == NUL)
  {
    if a == "" || a[0] == NUL then "" else [a[0]] + CString(a[1..])
  }

  /** These clauses say which string it is. */
  lemma {:induction false} CStringIs(a: string, r: string)
    requires r <= a && NoNul(r) && |r| < |a| && a[|r|] == NUL
    ensures CString(a) == r
  {
    if r != "" {
      CStringIs(a[1..], r[1..]);
    }
  }

  lemma CStringAt(a: string, at: nat, r: string)
    requires NoNul(r) && at + |r| < |a| && a[at..at + |r|] == r && a[at + |r|] == NUL
    ensures CString(a[at..]) == r
  {
    assert a[at..][..|r|] == r;
    CStringIs(a[at..], r);
  }

  predicate Terminated(a: string) {
    |CString(a)| < |a|
  }

  function Overlay(a: string, at: nat, b: string): (r: string)
    requires at + |b| <= |a|
    ensures |r| == |a|
    ensures forall i :: 0 <= i < |a| ==> r[i] == if at <= i < at + |b| then b[i - at] else a[i]
  {
    a[..at] + b + a[at + |b|..]
  }

  /** What strcpy leaves at the destination. */
  lemma CopiedString(a: string, at: nat, s: string)
    requires NoNul(s) && at + |s| < |a|
    ensures CString(Overlay(a, at, s + [NUL])[at..]) == s
  {
    CStringAt(Overlay(a, at, s + [NUL]), at, s);
  }

  method StrLen(a: array<char>, s: nat) returns (n: nat)
    requires s <= a.Length && Terminated(a[s..])
    ensures n == |CString(a[s..])|
  {
    ghost var text := a[s..];
    n := 0;
    while a[s + n] != NUL
      invariant n <= |CString(text)|
      decreases a.Length - s - n
    {
      assert text[n] == a[s + n];
      n := n + 1;
    }
    assert text[n] == NUL && CString(text)[..n] == text[..n];
  }

  /** The source and its terminator must fit the destination and not overlap it. */
  method StrCopy(dest: array<char>, d: nat, src: array<char>, s: nat)
    requires s <= src.Length && Terminated(src[s..])
    requires d + |CString(src[s..])| < dest.Length
    requires dest != src || d + |CString(src[s..])| < s || s + |CString(src[s..])| < d
    modifies dest
    ensures dest[..] == Overlay(old(dest[..]), d, old(CString(src[s..])) + [NUL])
  {
    ghost var was, text, full := dest[..], CString(src[s..]), src[s..];
    var i := 0;
    var c := src[s];
    dest[d] := c;
    assert c == full[0];
    while c != NUL
      invariant i <= |text| && c == full[i]
      invariant forall j :: 0 <= j <= |text| ==> src[s + j] == full[j]
      invariant forall j :: 0 <= j < dest.Length ==> dest[j] == if d <= j <= d + i then full[j - d] else was[j]
      decreases |text| - i
    {
      i := i + 1;
      c := src[s + i];
      dest[d + i] := c;
    }
    OverlayIs(dest[..], was, d, text + [NUL]);
  }

  lemma OverlayIs(now: string, was: string, d: nat, b: string)
    requires d + |b| <= |was| == |now|
    requires forall j :: 0 <= j < |now| ==> now[j] == if d <= j < d + |b| then b[j - d] else was[j]
    ensures now == Overlay(was, d, b)
  {
  }

  // Length of the longest common prefix.
  function Agree(a: string, b: string): (n: nat)
    ensures n <= |a| && n <= |b| && a[..n] == b[..n]
    ensures n < |a| && n < |b| ==> a[n] != b[n]
  {
    if a == "" || b == "" || a[0] != b[0] then 0 else Agree(a[1..], b[1..]) + 1
  }

  function At(s: string, i: nat): int
    requires i <= |s|
  {
    if i < |s| then s[i] as int else 0
  }

  /** The difference of the first two characters that differ, the terminators counting as 0. */
  method StrCmp(a: array<char>, s: nat, b: array<char>, t: nat) returns (r: int)
    requires s <= a.Length && Terminated(a[s..]) && t <= b.Length && Terminated(b[t..])
    ensures var x, y := CString(a[s..]), CString(b[t..]);
            var n := Agree(x, y);
            r == (if n < |x| then x[n] as int else 0) - (if n < |y| then y[n] as int else 0)
    ensures r == 0 <==> CString(a[s..]) == CString(b[t..])
  {
    ghost var fa, fb := a[s..], b[t..];
    ghost var x, y := CString(fa), CString(fb);
    var i := 0;
    while a[s + i] != NUL && a[s + i] == b[t + i]
      invariant i <= |x| && i <= |y| && forall j :: 0 <= j < i ==> x[j] == y[j]
      decreases |x| - i
    {
      assert fa[i] == a[s + i] && fb[i] == b[t + i];
      assert i < |x| && x[i] == fa[i] && i < |y| && y[i] == fb[i];
      i := i + 1;
    }
    assert fa[i] == a[s + i] && fb[i] == b[t + i];
    r := a[s + i] as int - b[t + i] as int;
    assert At(x, i) == fa[i] as int && At(y, i) == fb[i] as int by {
      if i < |x| { assert x[i] == fa[i]; }
      if i < |y| { assert y[i] == fb[i]; }
    }
    assert x[..i] == y[..i];
    AgreeIs(x, y, i);
    if r == 0 {
      assert |x| == i && |y| == i;
    }
  }

  lemma {:induction false} AgreeIs(a: string, b: string, n: nat)
    requires n <= |a| && n <= |b| && a[..n] == b[..n]
    requires n < |a| && n < |b| ==> a[n] != b[n]
    ensures Agree(a, b) == n
  {
    if n > 0 {
      assert a[0] == a[..n][0] && b[0] == b[..n][0];
      assert a[1..][..n - 1] == a[..n][1..] && b[1..][..n - 1] == b[..n][1..];
      AgreeIs(a[1..], b[1..], n - 1);
    }
  }
}
