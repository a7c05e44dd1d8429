/**
 * The `<string.h>` view of a `char` buffer: a string is the characters
 * before the first terminator, and the `str*`/`mem*` routines walk or copy
 * the buffer in place.
 */
module CString {
  import opened Wrappers

  const Nul: char := '\0'

  /** `strlen`: the index of the first terminator. */
  function StrLen(s: seq<char>): (n: nat)
    requires Nul in s
    ensures n < |s| && s[n] == Nul && Nul !in s[..n]
  {
    if s[0] == Nul then 0 else StrLen(s[1..]) + 1
  }

  /** The characters of the string that `s` holds, up to its terminator. */
  function CStr(s: seq<char>): (r: seq<char>)
    requires Nul in s
    ensures Nul !in r && r + [Nul] <= s
  {
    s[..StrLen(s)]
  }

  lemma {:induction false} StrLenOf(s: seq<char>, n: nat)
    requires n < |s| && s[n] == Nul && Nul !in s[..n]
    ensures StrLen(s) == n
  {
    if n > 0 {
      assert s[1..][..n - 1] == s[1..n];
      assert s[0] in s[..n];
      StrLenOf(s[1..], n - 1);
    }
  }

  lemma StrLenAtMost(s: seq<char>, i: nat)
    requires i < |s| && s[i] == Nul
    ensures Nul in s && StrLen(s) <= i
  {
  }

  /** `strlen`, walking the buffer from `i`. */
  method StrLenFrom(buf: array<char>, i: nat) returns (n: nat)
    requires i <= buf.Length && Nul in buf[i..]
    ensures n == StrLen(buf[i..])
  {
    n := 0;
    while buf[i + n] != Nul
      invariant i + n < buf.Length && Nul !in buf[i..i + n]
      invariant n <= StrLen(buf[i..])
      decreases StrLen(buf[i..]) - n
    {
      assert buf[i..][n] == buf[i + n];
      assert buf[i..i + n + 1] == buf[i..i + n] + [buf[i + n]];
      n := n + 1;
    }
    assert buf[i..][..n] == buf[i..i + n];
    StrLenOf(buf[i..], n);
  }

  /** The buffer after `memmove(a + dst, a + src, n)`. */
  function Moved(a: seq<char>, dst: nat, src: nat, n: nat): (r: seq<char>)
    requires dst + n <= |a| && src + n <= |a|
    ensures |r| == |a|
  {
    a[..dst] + a[src..src + n] + a[dst + n..]
  }

  /** Cell by cell: the copied window holds the source range, everything else is as before. */
  lemma MovedAt(a: seq<char>, dst: nat, src: nat, n: nat)
    requires dst + n <= |a| && src + n <= |a|
    ensures forall k :: 0 <= k < dst ==> Moved(a, dst, src, n)[k] == a[k]
    ensures forall k :: dst <= k < dst + n ==> Moved(a, dst, src, n)[k] == a[src + k - dst]
    ensures forall k :: dst + n <= k < |a| ==> Moved(a, dst, src, n)[k] == a[k]
  {
  }

  /** `memmove`: copies `n` characters from `src` to `dst`; the ranges may overlap. */
  method MemMove(buf: array<char>, dst: nat, src: nat, n: nat)
    requires dst + n <= buf.Length && src + n <= buf.Length
    modifies buf
    ensures buf[..] == Moved(old(buf[..]), dst, src, n)
  {
    if dst <= src {
      CopyForward(buf, dst, src, n);
    } else {
      CopyBackward(buf, dst, src, n);
    }
  }

  /** The copy loop of `memmove` when the destination does not lie above the source. */
  method CopyForward(buf: array<char>, dst: nat, src: nat, n: nat)
    requires dst <= src && src + n <= buf.Length
    modifies buf
    ensures buf[..] == Moved(old(buf[..]), dst, src, n)
  {
    ghost var a := buf[..];
    var i: nat := 0;
    while i < n
      invariant i <= n && |a| == buf.Length
      invariant forall k :: 0 <= k < dst ==> buf[k] == a[k]
      invariant forall k :: dst <= k < dst + i ==> buf[k] == a[src + k - dst]
      invariant forall k :: dst + i <= k < buf.Length ==> buf[k] == a[k]
    {
      assert buf[src + i] == a[src + i];
      buf[dst + i] := buf[src + i];
      i := i + 1;
    }
    MovedAt(a, dst, src, n);
    assert buf[..] == Moved(a, dst, src, n);
  }

  /** The copy loop of `memmove` when the destination lies above the source. */
  method CopyBackward(buf: array<char>, dst: nat, src: nat, n: nat)
    requires src < dst && dst + n <= buf.Length
    modifies buf
    ensures buf[..] == Moved(old(buf[..]), dst, src, n)
  {
    ghost var a := buf[..];
    var i: nat := n;
    while i > 0
      invariant i <= n && |a| == buf.Length
      invariant forall k :: 0 <= k < dst + i ==> buf[k] == a[k]
      invariant forall k :: dst + i <= k < dst + n ==> buf[k] == a[src + k - dst]
      invariant forall k :: dst + n <= k < buf.Length ==> buf[k] == a[k]
    {
      assert buf[src + i - 1] == a[src + i - 1];
      buf[dst + i - 1] := buf[src + i - 1];
      i := i - 1;
    }
    MovedAt(a, dst, src, n);
    assert buf[..] == Moved(a, dst, src, n);
  }

  /**
   * `strchr(buf + i, c)`: the first `c` at or after `i`. The string ends at
   * the terminator in `buf[end]`, which takes part in the search.
   */
  method StrChr(buf: array<char>, i: nat, c: char, ghost end: nat) returns (p: Option<nat>)
    requires i <= end < buf.Length && buf[end] == Nul && Nul !in buf[i..end]
    ensures p.Some? ==> i <= p.value <= end && buf[p.value] == c && c !in buf[i..p.value]
    ensures p.None? ==> c !in buf[i..end + 1]
  {
    forall m | i <= m < end
      ensures buf[m] != Nul
    {
      assert buf[i..end][m - i] == buf[m];
    }
    var k := i;
    while buf[k] != c && buf[k] != Nul
      invariant i <= k <= end && c !in buf[i..k]
      decreases end - k
    {
      k := k + 1;
    }
    if buf[k] == c {
      p := Some(k);
    } else {
      assert buf[i..end + 1] == buf[i..k] + [buf[k]];
      p := None;
    }
  }

  /** `memrchr(buf, c, n)`: the last `c` among the first `n` characters. */
  method MemRChr(buf: array<char>, c: char, n: nat) returns (p: Option<nat>)
    requires n <= buf.Length
    ensures p.Some? ==> p.value < n && buf[p.value] == c && c !in buf[p.value + 1..n]
    ensures p.None? ==> c !in buf[..n]
  {
    var k: nat := n;
    while k > 0 && buf[k - 1] != c
      invariant k <= n && c !in buf[k..n]
    {
      assert buf[k - 1..n] == [buf[k - 1]] + buf[k..n];
      k := k - 1;
    }
    if k == 0 {
      p := None;
    } else {
      p := Some(k - 1);
    }
  }

  /** `memcpy(buf + dst, s, |s|)` from a separate source string. */
  method MemCpyIn(buf: array<char>, dst: nat, s: seq<char>)
    requires dst + |s| <= buf.Length
    modifies buf
    ensures buf[..] == old(buf[..dst]) + s + old(buf[dst + |s|..])
  {
    ghost var a := buf[..];
    var i: nat := 0;
    while i < |s|
      invariant i <= |s|
      invariant forall k :: 0 <= k < dst ==> buf[k] == a[k]
      invariant forall k :: dst <= k < dst + i ==> buf[k] == s[k - dst]
      invariant forall k :: dst + i <= k < buf.Length ==> buf[k] == a[k]
    {
      buf[dst + i] := s[i];
      i := i + 1;
    }
    assert buf[..] == a[..dst] + s + a[dst + |s|..];
  }
}
