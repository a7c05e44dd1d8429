/**
 * Whitespace compaction of an expression before evaluation. Every run of
 * whitespace is deleted, except that a run with a digit on both sides is cut
 * down to its first character, so that "12 3" stays two numbers.
 */
module OptExpr {
  import opened Wrappers
  import opened CType
  import opened CString
  import Chore

  /** Length of the whitespace run at the head of `s`. */
  function SpaceRun(s: string): (k: nat)
    ensures k <= |s|
    ensures s != [] && IsSpace(s[0]) ==> k > 0
  {
    if s != [] && IsSpace(s[0]) then 1 + SpaceRun(s[1..]) else 0
  }

  lemma {:induction false} SpaceRunSpans(s: string)
    ensures forall i :: 0 <= i < SpaceRun(s) ==> IsSpace(s[i])
    ensures SpaceRun(s) < |s| ==> !IsSpace(s[SpaceRun(s)])
  {
    if s != [] && IsSpace(s[0]) {
      SpaceRunSpans(s[1..]);
    }
  }

  lemma SpaceRunUnique(s: string, k: nat)
    requires k <= |s| && (forall i :: 0 <= i < k ==> IsSpace(s[i]))
    requires k < |s| ==> !IsSpace(s[k])
    ensures SpaceRun(s) == k
  {
    SpaceRunSpans(s);
  }

  /** The last character already written, if any. */
  function LastOf(out: string): (p: Option<char>)
    ensures p.None? <==> out == []
    ensures p.Some? ==> p.value == out[|out| - 1]
  {
    if out == [] then None else Some(out[|out| - 1])
  }

  /**
   * Whether a whitespace run is kept as one character: a digit was written
   * just before it and a digit follows it.
   */
  predicate KeepsRun(prev: Option<char>, rest: string) {
    prev.Some? && IsDigit(prev.value) && rest != [] && IsDigit(rest[0])
  }

  /**
   * The compacted text of `s`, when `prev` is the character written just
   * before it (`None` at the start of the expression).
   */
  function Compact(prev: Option<char>, s: string): string
    decreases |s|
  {
    if s == [] then []
    else
      var emit := Emits(prev, s);
      (if emit then [s[0]] else []) + Compact(if emit then Some(s[0]) else prev, s[Stride(s)..])
  }

  /**
   * How much of `s` one step of the compaction consumes: a single character,
   * or a whole whitespace run.
   */
  function Stride(s: string): (n: nat)
    requires s != []
    ensures 0 < n <= |s|
  {
    if IsSpace(s[0]) then SpaceRun(s) else 1
  }

  /** Whether that step writes `s[0]`: always for a non-whitespace character. */
  predicate Emits(prev: Option<char>, s: string)
    requires s != []
  {
    !IsSpace(s[0]) || KeepsRun(prev, s[SpaceRun(s)..])
  }

  /** One pass over a whitespace character inside the still-unprocessed text. */
  lemma CompactRun(prev: Option<char>, t: string, k: nat)
    requires t != [] && IsSpace(t[0]) && k == SpaceRun(t)
    ensures k < |t| && KeepsRun(prev, t[k..]) ==>
              Compact(prev, t) == [t[0], t[k]] + Compact(Some(t[k]), t[k + 1..])
    ensures k < |t| && !KeepsRun(prev, t[k..]) ==>
              Compact(prev, t) == [t[k]] + Compact(Some(t[k]), t[k + 1..])
    ensures k == |t| ==> Compact(prev, t) == []
  {
    SpaceRunSpans(t);
    if k < |t| {
      var rest := t[k..];
      assert rest[1..] == t[k + 1..];
      assert Compact(Some(t[0]), rest) == [t[k]] + Compact(Some(t[k]), t[k + 1..]);
      assert Compact(prev, rest) == [t[k]] + Compact(Some(t[k]), t[k + 1..]);
    }
  }

  lemma {:induction false} CompactChars(prev: Option<char>, s: string)
    ensures forall c :: c in Compact(prev, s) ==> c in s
    decreases |s|
  {
    if s != [] {
      var emit := Emits(prev, s);
      CompactChars(if emit then Some(s[0]) else prev, s[Stride(s)..]);
    }
  }

  /** The characters of `s` that are not whitespace, in order. */
  function NonSpace(s: string): string
  {
    if s == [] then [] else (if IsSpace(s[0]) then [] else [s[0]]) + NonSpace(s[1..])
  }

  lemma {:induction false} NonSpaceAppend(a: string, b: string)
    ensures NonSpace(a + b) == NonSpace(a) + NonSpace(b)
  {
    if a != [] {
      assert (a + b)[0] == a[0] && (a + b)[1..] == a[1..] + b;
      var x := if IsSpace(a[0]) then [] else [a[0]];
      calc {
        NonSpace(a + b);
        x + NonSpace(a[1..] + b);
        { NonSpaceAppend(a[1..], b); }
        x + (NonSpace(a[1..]) + NonSpace(b));
        (x + NonSpace(a[1..])) + NonSpace(b);
      }
    } else {
      assert a + b == b;
    }
  }

  lemma {:induction false} NonSpaceSkipsRun(s: string, k: nat)
    requires k <= |s| && forall i :: 0 <= i < k ==> IsSpace(s[i])
    ensures NonSpace(s) == NonSpace(s[k..])
  {
    if k > 0 {
      assert s[1..][k - 1..] == s[k..];
      NonSpaceSkipsRun(s[1..], k - 1);
    }
  }

  /** Compaction deletes whitespace only: every other character survives, in order. */
  lemma {:induction false} CompactKeepsText(prev: Option<char>, s: string)
    ensures NonSpace(Compact(prev, s)) == NonSpace(s)
    decreases |s|
  {
    if s != [] {
      var emit := Emits(prev, s);
      var k := Stride(s);
      var rest := Compact(if emit then Some(s[0]) else prev, s[k..]);
      CompactKeepsText(if emit then Some(s[0]) else prev, s[k..]);
      NonSpaceAppend(if emit then [s[0]] else [], rest);
      if IsSpace(s[0]) {
        SpaceRunSpans(s);
        NonSpaceSkipsRun(s, k);
      }
    }
  }

  /** The compacted text is never longer than the original. */
  lemma {:induction false} CompactShorter(prev: Option<char>, s: string)
    ensures |Compact(prev, s)| <= |s|
    decreases |s|
  {
    if s != [] {
      var emit := Emits(prev, s);
      CompactShorter(if emit then Some(s[0]) else prev, s[Stride(s)..]);
    }
  }

  /**
   * Every whitespace character of `r` is followed by a digit and preceded by
   * one: the character before it in `r`, or `prev` at the very start.
   */
  ghost predicate SpacesSeparate(prev: Option<char>, r: string)
  {
    forall i :: 0 <= i < |r| && IsSpace(r[i]) ==>
      i + 1 < |r| && IsDigit(r[i + 1]) &&
      (if i == 0 then prev.Some? && IsDigit(prev.value) else IsDigit(r[i - 1]))
  }

  /**
   * Every whitespace character left in the compacted text separates two
   * digits: the one written before it (or `prev` at the very start) and the
   * one right after it.
   */
  lemma {:induction false} CompactSpacesSeparateDigits(prev: Option<char>, s: string)
    ensures SpacesSeparate(prev, Compact(prev, s))
    decreases |s|
  {
    var r := Compact(prev, s);
    if s != [] {
      var emit := Emits(prev, s);
      var k := Stride(s);
      var p1 := if emit then Some(s[0]) else prev;
      var rest := Compact(p1, s[k..]);
      CompactSpacesSeparateDigits(p1, s[k..]);
      if !emit {
        assert r == rest;
      } else if !IsSpace(s[0]) {
        assert r == [s[0]] + rest;
        forall i | 1 <= i < |r| && IsSpace(r[i])
          ensures i + 1 < |r| && IsDigit(r[i + 1]) && IsDigit(r[i - 1])
        {
          assert r[i] == rest[i - 1] && r[i + 1] == rest[i];
          assert i >= 2 ==> r[i - 1] == rest[i - 2];
          assert i == 1 ==> r[i - 1] == s[0] == p1.value;
        }
      } else {
        SpaceRunSpans(s);
        assert s[k..][0] == s[k];
        assert rest == [s[k]] + Compact(Some(s[k]), s[k + 1..]) by {
          assert s[k..][1..] == s[k + 1..];
        }
        assert r == [s[0]] + rest;
        assert IsDigit(s[k]) && r[1] == s[k];
        forall i | 1 <= i < |r| && IsSpace(r[i])
          ensures i + 1 < |r| && IsDigit(r[i + 1]) && IsDigit(r[i - 1])
        {
          assert r[i] == rest[i - 1];
          assert i >= 2;
          assert r[i + 1] == rest[i] && r[i - 1] == rest[i - 2];
        }
      }
    }
  }

  /**
   * `skipspcs`, the digit test and the `strlen` of one pass over the
   * whitespace run that starts at `cur`: the run ends at `src`, the tail
   * after it is `n` characters long, and it is to be moved down to `dst`.
   */
  method FindRun(buf: array<char>, cur: nat, ghost b: seq<char>) returns (dst: nat, src: nat, n: nat)
    requires b == buf[..] && cur < |b| && IsSpace(b[cur]) && Nul in b[cur..]
    ensures cur < src <= cur + StrLen(b[cur..]) < |b|
    ensures forall k :: cur <= k < src ==> IsSpace(b[k])
    ensures !IsSpace(b[src])
    ensures dst == if cur != 0 && IsDigit(b[cur - 1]) && IsDigit(b[src]) then cur + 1 else cur
    ensures Nul in b[src..] && n == StrLen(b[src..])
  {
    src := Chore.SkipSpaces(buf, cur);
    dst := cur + if cur != 0 && IsDigit(buf[cur - 1]) && IsDigit(buf[src]) then 1 else 0;
    ghost var m := cur + StrLen(b[cur..]) - src;
    assert b[cur..][StrLen(b[cur..])] == Nul;
    assert b[src..][m] == Nul;
    n := StrLenFrom(buf, src);
  }

  /** The buffer after moving a terminated tail from `src` down to `dst`. */
  lemma MovedTail(b: seq<char>, dst: nat, src: nat, n: nat, L: nat)
    requires dst <= src && src + n <= L < |b| && b[src + n] == Nul && b[L] == Nul
    ensures Moved(b, dst, src, n + 1)[..dst] == b[..dst]
    ensures Moved(b, dst, src, n + 1)[dst..dst + n] == b[src..src + n]
    ensures Moved(b, dst, src, n + 1)[dst + n] == Nul
    ensures Moved(b, dst, src, n + 1)[L] == Nul
  {
    var x, y, z := b[..dst], b[src..src + n + 1], b[dst + n + 1..];
    var b1 := Moved(b, dst, src, n + 1);
    assert b1 == x + y + z;
    assert b1[..dst] == x;
    assert b1[dst..dst + n] == y[..n];
    assert b1[dst + n] == y[n];
    if L < dst + n + 1 {
      assert dst == src && L == src + n;
      assert b1[L] == y[n] == b[src + n];
    } else {
      assert b1[L] == z[L - (dst + n + 1)];
    }
  }

  lemma CompactKeep(pre: string, t: string, k: nat)
    requires t != [] && IsSpace(t[0]) && k == SpaceRun(t) && k < |t|
    requires KeepsRun(LastOf(pre), t[k..])
    ensures pre + Compact(LastOf(pre), t) ==
            (pre + [t[0], t[k]]) + Compact(LastOf(pre + [t[0], t[k]]), t[k + 1..])
  {
    var rest := Compact(Some(t[k]), t[k + 1..]);
    assert Compact(LastOf(pre), t) == [t[0], t[k]] + rest by {
      CompactRun(LastOf(pre), t, k);
    }
    assert LastOf(pre + [t[0], t[k]]) == Some(t[k]);
    assert pre + ([t[0], t[k]] + rest) == (pre + [t[0], t[k]]) + rest;
  }

  lemma CompactDrop(pre: string, t: string, k: nat)
    requires t != [] && IsSpace(t[0]) && k == SpaceRun(t) && k < |t|
    requires !KeepsRun(LastOf(pre), t[k..])
    ensures pre + Compact(LastOf(pre), t) ==
            (pre + [t[k]]) + Compact(LastOf(pre + [t[k]]), t[k + 1..])
  {
    var rest := Compact(Some(t[k]), t[k + 1..]);
    assert Compact(LastOf(pre), t) == [t[k]] + rest by {
      CompactRun(LastOf(pre), t, k);
    }
    assert LastOf(pre + [t[k]]) == Some(t[k]);
    assert pre + ([t[k]] + rest) == (pre + [t[k]]) + rest;
  }

  /**
   * The unprocessed text `s[j..]` and a terminator sit at `cur`, and the
   * original terminator at `|s|` is intact.
   */
  ghost predicate Pending(b: seq<char>, s: string, j: nat, cur: nat)
  {
    |s| < |b| && j <= |s| && cur <= j && b[|s|] == Nul && Nul !in s &&
    b[cur..cur + (|s| - j)] == s[j..] && b[cur + (|s| - j)] == Nul
  }

  /** What was written so far, followed by the compaction of the rest, is the compaction of the whole. */
  ghost predicate OnTrack(out: string, s: string, j: nat, goal: string)
  {
    j <= |s| && goal == out + Compact(LastOf(out), s[j..])
  }

  /**
   * The state of the loop once the compacted string has been terminated at
   * `d`: the cursor wanders over the stale tail before the old terminator.
   */
  ghost predicate Finished(b: seq<char>, goal: string, L: nat, d: nat, cur: nat)
  {
    L < |b| && d < cur <= L && b[L] == Nul && b[..d] == goal && b[d] == Nul
  }

  lemma OnTrackAdvance(out: string, s: string, j: nat, goal: string)
    requires OnTrack(out, s, j, goal) && j < |s| && !IsSpace(s[j])
    ensures OnTrack(out + [s[j]], s, j + 1, goal)
  {
    assert s[j..][1..] == s[j + 1..];
    assert LastOf(out + [s[j]]) == Some(s[j]);
  }

  lemma OnTrackKeep(out: string, s: string, j: nat, k: nat, goal: string, out1: string, j1: nat)
    requires OnTrack(out, s, j, goal) && j < |s| && IsSpace(s[j])
    requires k == SpaceRun(s[j..]) && j + k < |s| && KeepsRun(LastOf(out), s[j + k..])
    requires out1 == out + [s[j], s[j + k]] && j1 == j + k + 1
    ensures OnTrack(out1, s, j1, goal)
  {
    var t := s[j..];
    assert t[k..] == s[j + k..];
    CompactKeep(out, t, k);
    assert t[0] == s[j] && t[k] == s[j + k];
    assert out + [t[0], t[k]] == out1;
    assert t[k + 1..] == s[j1..];
  }

  lemma OnTrackDrop(out: string, s: string, j: nat, k: nat, goal: string, out1: string, j1: nat)
    requires OnTrack(out, s, j, goal) && j < |s| && IsSpace(s[j])
    requires k == SpaceRun(s[j..]) && j + k < |s| && !KeepsRun(LastOf(out), s[j + k..])
    requires out1 == out + [s[j + k]] && j1 == j + k + 1
    ensures OnTrack(out1, s, j1, goal)
  {
    var t := s[j..];
    assert t[k..] == s[j + k..];
    CompactDrop(out, t, k);
    assert t[k] == s[j + k];
    assert out + [t[k]] == out1;
    assert t[k + 1..] == s[j1..];
  }

  lemma OnTrackEnd(out: string, s: string, j: nat, goal: string)
    requires OnTrack(out, s, j, goal) && j < |s| && IsSpace(s[j]) && SpaceRun(s[j..]) == |s| - j
    ensures goal == out
  {
    CompactRun(LastOf(out), s[j..], |s| - j);
  }

  /** What `skipspcs` and `strlen` find at a whitespace character of the unprocessed text. */
  lemma RunFacts(b: seq<char>, s: string, j: nat, cur: nat, src: nat)
    requires Pending(b, s, j, cur) && IsSpace(b[cur])
    requires cur < src <= cur + (|s| - j) && !IsSpace(b[src])
    requires forall k :: cur <= k < src ==> IsSpace(b[k])
    ensures j < |s| && b[cur] == s[j] && SpaceRun(s[j..]) == src - cur
    ensures Nul in b[src..] && StrLen(b[src..]) == |s| - j - (src - cur)
    ensures src < cur + (|s| - j) ==> b[src] == s[j + (src - cur)]
  {
    var L := |s|;
    var t := s[j..];
    var k := src - cur;
    assert t == b[cur..cur + (L - j)];
    assert b[src..][cur + (L - j) - src] == Nul;
    assert b[src..][..cur + (L - j) - src] == t[k..];
    assert Nul !in t;
    StrLenOf(b[src..], cur + (L - j) - src);
    forall i | 0 <= i < k ensures IsSpace(t[i]) {
      assert t[i] == b[cur + i];
    }
    if k < |t| {
      assert t[k] == b[src];
    }
    SpaceRunUnique(t, k);
  }

  /** The buffer after the `memmove` of a whitespace run that was not the last thing in the string. */
  lemma PendingNext(b: seq<char>, b1: seq<char>, s: string, j: nat, cur: nat, src: nat, n: nat, dst: nat, j1: nat)
    requires Pending(b, s, j, cur) && cur < src < cur + (|s| - j)
    requires n == |s| - j - (src - cur) && j1 == j + (src - cur) + 1
    requires dst == cur || dst == cur + 1
    requires b1 == Moved(b, dst, src, n + 1)
    ensures Pending(b1, s, j1, dst + 1)
    ensures b1[..dst] == b[..dst] && b1[dst] == s[j1 - 1]
  {
    var L := |s|;
    assert b[src..src + n] == s[j1 - 1..];
    MovedTail(b, dst, src, n, L);
    assert dst + 1 + (L - j1) == dst + n;
    assert b1[dst..dst + n] == s[j1 - 1..];
    assert b1[dst + 1..dst + n] == b1[dst..dst + n][1..] == s[j1 - 1..][1..];
    assert s[j1 - 1..][1..] == s[j1..];
  }

  /** The buffer after the `memmove` of a trailing whitespace run. */
  lemma PendingEnd(b: seq<char>, b1: seq<char>, s: string, j: nat, cur: nat, src: nat)
    requires Pending(b, s, j, cur) && j < |s| && src == cur + (|s| - j)
    requires b1 == Moved(b, cur, src, 1)
    ensures |s| < |b1| && cur < |s| && b1[..cur] == b[..cur] && b1[cur] == Nul && b1[|s|] == Nul
  {
    MovedTail(b, cur, src, 0, |s|);
  }

  /** Whether the run is kept depends on the last character written and the one after the run. */
  lemma KeepsAt(b: seq<char>, s: string, j: nat, cur: nat, src: nat, k: nat)
    requires cur <= |b| && src < |b| && j + k <= |s| && k == src - cur
    requires j + k < |s| ==> b[src] == s[j + k]
    requires j + k == |s| ==> b[src] == Nul
    ensures (cur != 0 && IsDigit(b[cur - 1]) && IsDigit(b[src])) <==> KeepsRun(LastOf(b[..cur]), s[j + k..])
  {
    if cur != 0 {
      assert b[cur - 1] == b[..cur][cur - 1];
    }
  }

  lemma PrefixGrows(b: seq<char>, b1: seq<char>, cur: nat, dst: nat, c: char)
    requires dst == cur || dst == cur + 1
    requires dst < |b| && dst < |b1| && b1[..dst] == b[..dst] && b1[dst] == c
    ensures dst == cur ==> b1[..dst + 1] == b[..cur] + [c]
    ensures dst == cur + 1 ==> b1[..dst + 1] == b[..cur] + [b[cur], c]
  {
    assert b1[..dst + 1] == b1[..dst] + [c];
    if dst == cur + 1 {
      assert b[..dst] == b[..cur] + [b[cur]];
    }
  }

  /** One pass over a whitespace run of the unprocessed text. */
  lemma SpaceStep(b: seq<char>, b1: seq<char>, s: string, goal: string, j: nat, cur: nat, src: nat, dst: nat, n: nat, j1: nat)
    requires Pending(b, s, j, cur) && OnTrack(b[..cur], s, j, goal) && IsSpace(b[cur])
    requires cur < src <= cur + (|s| - j) && !IsSpace(b[src])
    requires forall k :: cur <= k < src ==> IsSpace(b[k])
    requires dst == if cur != 0 && IsDigit(b[cur - 1]) && IsDigit(b[src]) then cur + 1 else cur
    requires Nul in b[src..] && n == StrLen(b[src..]) && b1 == Moved(b, dst, src, n + 1)
    requires j1 == j + (src - cur) + 1
    ensures dst < |s|
    ensures src == cur + (|s| - j) ==> Finished(b1, goal, |s|, dst, dst + 1)
    ensures src < cur + (|s| - j) ==> Pending(b1, s, j1, dst + 1) && OnTrack(b1[..dst + 1], s, j1, goal)
  {
    RunFacts(b, s, j, cur, src);
    var k := src - cur;
    var out := b[..cur];
    KeepsAt(b, s, j, cur, src, k);
    if src == cur + (|s| - j) {
      OnTrackEnd(out, s, j, goal);
      PendingEnd(b, b1, s, j, cur, src);
    } else {
      PendingNext(b, b1, s, j, cur, src, n, dst, j1);
      PrefixGrows(b, b1, cur, dst, s[j + k]);
      if dst == cur + 1 {
        OnTrackKeep(out, s, j, k, goal, b1[..dst + 1], j1);
      } else {
        OnTrackDrop(out, s, j, k, goal, b1[..dst + 1], j1);
      }
    }
  }

  /** One pass over a character that is not whitespace. */
  lemma OtherStep(b: seq<char>, s: string, goal: string, j: nat, cur: nat)
    requires Pending(b, s, j, cur) && OnTrack(b[..cur], s, j, goal)
    requires b[cur] != Nul && !IsSpace(b[cur])
    ensures Pending(b, s, j + 1, cur + 1) && OnTrack(b[..cur + 1], s, j + 1, goal)
  {
    assert j < |s| ==> b[cur] == b[cur..cur + (|s| - j)][0];
    assert j < |s|;
    OnTrackAdvance(b[..cur], s, j, goal);
    assert b[..cur + 1] == b[..cur] + [s[j]];
    assert b[cur + 1..cur + 1 + (|s| - (j + 1))] == b[cur..cur + (|s| - j)][1..];
  }

  lemma FinishedStep(b: seq<char>, goal: string, L: nat, d: nat, cur: nat, src: nat, dst: nat, n: nat)
    requires Finished(b, goal, L, d, cur)
    requires cur < src < |b| && (forall k :: cur <= k < src ==> IsSpace(b[k]))
    requires cur <= dst <= cur + 1 && (dst == cur + 1 ==> IsDigit(b[src]))
    requires Nul in b[src..] && n == StrLen(b[src..])
    ensures dst < L && Finished(Moved(b, dst, src, n + 1), goal, L, d, dst + 1)
  {
    assert src <= L;
    assert src + n <= L by {
      assert b[src..][L - src] == Nul;
      StrLenAtMost(b[src..], L - src);
    }
    assert b[src + n] == Nul by {
      assert b[src..][n] == Nul;
    }
    MovedTail(b, dst, src, n, L);
    var b1 := Moved(b, dst, src, n + 1);
    assert b1[..d] == b1[..dst][..d];
    assert b1[d] == b1[..dst][d];
  }

  /**
   * The state of the scan: before the original terminator has been reached
   * the unprocessed text is pending at `cur`; afterwards the result is final.
   */
  ghost predicate Scan(b: seq<char>, s: string, goal: string, j: nat, done: bool, d: nat, cur: nat)
  {
    cur <= |s| && Nul !in goal &&
    (!done ==> Pending(b, s, j, cur) && OnTrack(b[..cur], s, j, goal)) &&
    (done ==> Finished(b, goal, |s|, d, cur))
  }

  lemma ScanStart(b: seq<char>) returns (s: string, goal: string)
    requires Nul in b
    ensures s == CStr(b) && goal == Compact(None, s) && Scan(b, s, goal, 0, false, 0, 0)
  {
    s := CStr(b);
    goal := Compact(None, s);
    CompactChars(None, s);
    assert b[|s|] == Nul;
    assert b[0..0 + (|s| - 0)] == s;
    assert b[..0] == [] && s[0..] == s;
  }

  lemma ScanTerminated(b: seq<char>, s: string, goal: string, j: nat, done: bool, d: nat, cur: nat)
    requires Scan(b, s, goal, j, done, d, cur)
    ensures |s| < |b| && cur < |b| && b[|s|] == Nul && Nul in b[cur..]
  {
    assert b[cur..][|s| - cur] == Nul;
  }

  lemma SpacePass(b: seq<char>, b1: seq<char>, s: string, goal: string, j: nat, done: bool, d: nat, cur: nat, src: nat, dst: nat, n: nat)
      returns (j1: nat, done1: bool, d1: nat)
    requires Scan(b, s, goal, j, done, d, cur) && IsSpace(b[cur])
    requires cur < src < |b| && !IsSpace(b[src])
    requires forall k :: cur <= k < src ==> IsSpace(b[k])
    requires dst == if cur != 0 && IsDigit(b[cur - 1]) && IsDigit(b[src]) then cur + 1 else cur
    requires Nul in b[src..] && n == StrLen(b[src..]) && b1 == Moved(b, dst, src, n + 1)
    ensures cur <= dst && Scan(b1, s, goal, j1, done1, d1, dst + 1)
  {
    if done {
      FinishedStep(b, goal, |s|, d, cur, src, dst, n);
      j1, done1, d1 := j, done, d;
    } else {
      assert src <= cur + (|s| - j);
      j1 := j + (src - cur) + 1;
      SpaceStep(b, b1, s, goal, j, cur, src, dst, n, j1);
      if src == cur + (|s| - j) {
        done1, d1 := true, dst;
      } else {
        done1, d1 := false, d;
      }
    }
  }

  lemma OtherPass(b: seq<char>, s: string, goal: string, j: nat, done: bool, d: nat, cur: nat)
      returns (j1: nat)
    requires Scan(b, s, goal, j, done, d, cur) && b[cur] != Nul && !IsSpace(b[cur])
    ensures Scan(b, s, goal, j1, done, d, cur + 1)
  {
    if done {
      assert cur != |s|;
      j1 := j;
    } else {
      j1 := j + 1;
      assert Pending(b, s, j1, cur + 1) && OnTrack(b[..cur + 1], s, j1, goal) by {
        OtherStep(b, s, goal, j, cur);
      }
    }
  }

  lemma ScanEnd(b: seq<char>, s: string, goal: string, j: nat, done: bool, d: nat, cur: nat)
    requires Scan(b, s, goal, j, done, d, cur) && b[cur] == Nul
    ensures Nul in b && CStr(b) == goal
  {
    var e := if done then d else cur;
    StrLenOf(b, e);
  }

  /** `skipspcs`, the digit test and the `memmove` of the `isspace` branch. */
  method DropRun(buf: array<char>, cur: nat, ghost b: seq<char>) returns (dst: nat, src: nat, n: nat)
    requires b == buf[..] && cur < |b| && IsSpace(b[cur]) && Nul in b[cur..]
    modifies buf
    ensures cur < src <= cur + StrLen(b[cur..]) < |b|
    ensures forall k :: cur <= k < src ==> IsSpace(b[k])
    ensures !IsSpace(b[src])
    ensures dst == if cur != 0 && IsDigit(b[cur - 1]) && IsDigit(b[src]) then cur + 1 else cur
    ensures Nul in b[src..] && n == StrLen(b[src..])
    ensures buf[..] == Moved(b, dst, src, n + 1)
  {
    dst, src, n := FindRun(buf, cur, b);
    assert buf[..] == b;
    MemMove(buf, dst, src, n + 1);
  }

  /** One iteration of the loop of `rm_exprspcs`: the character at `cur` is processed and the cursor advances. */
  method Pass(buf: array<char>, cur: nat, ghost s: string, ghost goal: string, ghost j: nat, ghost done: bool, ghost d: nat)
      returns (next: nat, ghost j1: nat, ghost done1: bool, ghost d1: nat)
    requires Scan(buf[..], s, goal, j, done, d, cur) && buf[cur] != Nul
    modifies buf
    ensures cur < next && Scan(buf[..], s, goal, j1, done1, d1, next)
  {
    ghost var b := buf[..];
    ScanTerminated(b, s, goal, j, done, d, cur);
    if IsSpace(buf[cur]) {
      var dst, src, n := DropRun(buf, cur, b);
      j1, done1, d1 := SpacePass(b, buf[..], s, goal, j, done, d, cur, src, dst, n);
      next := dst + 1;
    } else {
      j1 := OtherPass(b, s, goal, j, done, d, cur);
      done1, d1 := done, d;
      next := cur + 1;
    }
  }

  /**
   * `rm_exprspcs`: compacts the string held in `buf` in place. The cursor it
   * leaves behind sits on a terminator; past a trailing run it may have walked
   * into the stale tail of the buffer, which is why only the string up to the
   * first terminator is promised.
   */
  method RmExprSpaces(buf: array<char>) returns (cur: nat)
    requires Nul in buf[..]
    modifies buf
    ensures Nul in buf[..] && CStr(buf[..]) == Compact(None, CStr(old(buf[..])))
    ensures cur <= StrLen(old(buf[..])) && buf[cur] == Nul
  {
    ghost var s, goal := ScanStart(buf[..]);
    ghost var j: nat, done, d: nat := 0, false, 0;
    cur := 0;
    while buf[cur] != Nul
      invariant Scan(buf[..], s, goal, j, done, d, cur)
      decreases |s| - cur
    {
      cur, j, done, d := Pass(buf, cur, s, goal, j, done, d);
    }
    ScanEnd(buf[..], s, goal, j, done, d, cur);
  }

  /** `optexpr`: only the whitespace removal is live; the rest of its body is commented out. */
  method OptimizeExpr(buf: array<char>)
    requires Nul in buf[..]
    modifies buf
    ensures Nul in buf[..] && CStr(buf[..]) == Compact(None, CStr(old(buf[..])))
  {
    var _ := RmExprSpaces(buf);
  }

  /** Worked example: the blank between two digits is kept. */
  lemma CompactKeepsNumbersApart()
    ensures Compact(None, "12 3") == "12 3"
  {
    assert Compact(Some('3'), "") == "";
    assert Compact(Some(' '), "3") == "3";
    assert SpaceRun(" 3") == 1 && " 3"[1..] == "3";
    assert Compact(Some('2'), " 3") == " 3";
    assert "2 3"[1..] == " 3";
    assert Compact(Some('1'), "2 3") == "2 3";
    assert "12 3"[1..] == "2 3";
  }

  /** Worked example: blanks next to an operator, or at either end, are dropped. */
  lemma CompactDropsOtherBlanks()
    ensures Compact(None, " 1 +2 ") == "1+2"
  {
    var t0, t1, t2, t3, t4, t5 := " 1 +2 ", "1 +2 ", " +2 ", "+2 ", "2 ", " ";
    assert t0[1..] == t1 && t1[1..] == t2 && t2[1..] == t3 && t3[1..] == t4 && t4[1..] == t5 && t5[1..] == "";
    assert SpaceRun(t5[1..]) == 0 && SpaceRun(t5) == 1 && Stride(t5) == 1 && !Emits(Some('2'), t5);
    assert Compact(Some('2'), t5) == "";
    assert Stride(t4) == 1 && Emits(Some('+'), t4);
    assert Compact(Some('+'), t4) == "2";
    assert Stride(t3) == 1 && Emits(Some('1'), t3);
    assert Compact(Some('1'), t3) == "+2";
    assert SpaceRun(t3) == 0 && SpaceRun(t2) == 1 && Stride(t2) == 1 && !Emits(Some('1'), t2);
    assert Compact(Some('1'), t2) == "+2";
    assert Stride(t1) == 1 && Emits(None, t1);
    assert Compact(None, t1) == "1+2";
    assert SpaceRun(t1) == 0 && SpaceRun(t0) == 1 && Stride(t0) == 1 && !Emits(None, t0);
  }
}
