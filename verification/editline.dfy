/**
 * The line editor's buffer primitives. The line being edited is `buf[..len]`,
 * terminated by the character at `buf[len]`; a `char *` into the line is an
 * index into `buf`, and a `char **` that a primitive updates is an argument
 * together with a result that holds its new value.
 *
 * The classification tests follow glibc, where `isspace` and `isalnum`
 * return a bit mask rather than 1: in `fwdw` the test
 * `!isspace(c) ^ wasspace` is therefore true whenever the start character
 * was a blank.
 */
module EditLine {
  import opened Wrappers
  import opened CType
  import opened CString
  import Chore

  /** The edited line: `len` characters, none of them a terminator, then the terminator. */
  ghost predicate Line(b: seq<char>, len: nat) {
    len < |b| && b[len] == Nul && Nul !in b[..len]
  }

  /** The text `t` with `s` put in front of position `i`. */
  function Inserted(t: seq<char>, i: nat, s: seq<char>): (r: seq<char>)
    requires i <= |t|
    ensures |r| == |t| + |s|
  {
    t[..i] + s + t[i..]
  }

  /** The text `t` without the range `[begin, end)`. */
  function Removed(t: seq<char>, begin: nat, end: nat): (r: seq<char>)
    requires begin <= end <= |t|
    ensures |r| == |t| - (end - begin)
  {
    t[..begin] + t[end..]
  }

  /** Removing what was just inserted gives the text back. */
  lemma RemoveInserted(t: seq<char>, i: nat, s: seq<char>)
    requires i <= |t|
    ensures Removed(Inserted(t, i, s), i, i + |s|) == t
  {
    var u := Inserted(t, i, s);
    assert u[..i] == t[..i];
    assert u[i + |s|..] == t[i..];
  }

  /** Inserting leaves the text before the insertion point alone and puts `s` right after it. */
  lemma InsertedKeepsPrefix(t: seq<char>, i: nat, s: seq<char>)
    requires i <= |t|
    ensures Inserted(t, i, s)[..i] == t[..i]
    ensures Inserted(t, i, s)[i..i + |s|] == s
  {
    var u := Inserted(t, i, s);
    assert u == t[..i] + s + t[i..];
  }

  // ---------------------------------------------------------------------
  // Cursor movement

  /** `movecur`: moves the cursor by `n`, clamped to the line `[0, len]`. */
  function MoveCur(n: int, cur: nat, len: nat): (r: nat)
    requires cur <= len
    ensures r <= len
    ensures 0 <= cur + n <= len ==> r == cur + n
    ensures cur + n > len ==> r == len
    ensures cur + n < 0 ==> r == 0
  {
    if n > len - cur then len else if -n > cur then 0 else cur + n
  }

  /** The moves of the `movecur` unit test on a 12-character line. */
  lemma MoveCurSteps()
    ensures MoveCur(1, 0, 12) == 1
    ensures MoveCur(3, 1, 12) == 4
    ensures MoveCur(-4, 4, 12) == 0
    ensures MoveCur(-1, 0, 12) == 0
    ensures MoveCur(999, 0, 12) == 12
  {
  }

  // ---------------------------------------------------------------------
  // Character search

  /** Where a forward search for `c` from `cur` leaves the cursor (the terminator is searched too). */
  ghost predicate FoundForward(b: seq<char>, c: char, cur: nat, len: nat, r: nat)
    requires cur <= len < |b|
  {
    if c in b[cur..len + 1] then cur <= r <= len && b[r] == c && c !in b[cur..r] else r == cur
  }

  /** Where a backward search for `c` strictly before `cur` leaves the cursor. */
  ghost predicate FoundBackward(b: seq<char>, c: char, cur: nat, r: nat)
    requires cur <= |b|
  {
    if c in b[..cur] then r < cur && b[r] == c && c !in b[r + 1..cur] else r == cur
  }

  /**
   * `findmove`: moves to the first `c` at or after the cursor when `dir > 0`,
   * otherwise to the last `c` before it; reports whether there was one and
   * leaves the cursor in place when there was not.
   */
  method FindMove(c: char, dir: int, buf: array<char>, cur: nat, ghost len: nat) returns (found: bool, cur': nat)
    requires Line(buf[..], len) && cur <= len
    ensures dir > 0 ==> (found <==> c in buf[cur..len + 1]) && FoundForward(buf[..], c, cur, len, cur')
    ensures dir <= 0 ==> (found <==> c in buf[..cur]) && FoundBackward(buf[..], c, cur, cur')
  {
    var p: Option<nat>;
    if dir > 0 {
      assert buf[cur..len] == buf[..len][cur..];
      p := StrChr(buf, cur, c, len);
      if p.Some? {
        assert buf[cur..len + 1][p.value - cur] == c;
      }
    } else {
      p := MemRChr(buf, c, cur);
      if p.Some? {
        assert buf[..cur][p.value] == c;
      }
    }
    if p.None? {
      found, cur' := false, cur;
    } else {
      found, cur' := true, p.value;
    }
  }

  /** The line of the editor's unit tests, with its terminator. */
  const Sample: seq<char> := "sample text." + [Nul]

  lemma SampleIsLine()
    ensures Line(Sample, 12)
  {
    assert Sample[..12] == "sample text.";
  }

  /** A forward search ends on the first `c` at or after `cur`. */
  lemma FirstForward(b: seq<char>, c: char, cur: nat, len: nat, r: nat, k: nat)
    requires cur <= k <= len < |b| && b[k] == c && c !in b[cur..k]
    requires FoundForward(b, c, cur, len, r)
    ensures r == k
  {
    assert b[cur..len + 1][k - cur] == c;
    forall i | cur <= i < k
      ensures b[i] != c
    {
      assert b[cur..k][i - cur] == b[i];
    }
    forall i | cur <= i < r
      ensures b[i] != c
    {
      assert b[cur..r][i - cur] == b[i];
    }
  }

  /** A backward search ends on the last `c` before `cur`. */
  lemma LastBackward(b: seq<char>, c: char, cur: nat, r: nat, k: nat)
    requires k < cur <= |b| && b[k] == c && c !in b[k + 1..cur]
    requires FoundBackward(b, c, cur, r)
    ensures r == k
  {
    assert b[..cur][k] == c;
    forall i | k < i < cur
      ensures b[i] != c
    {
      assert b[k + 1..cur][i - k - 1] == b[i];
    }
    forall i | r < i < cur
      ensures b[i] != c
    {
      assert b[r + 1..cur][i - r - 1] == b[i];
    }
  }

  /** The forward searches of the `findmove` unit test: ' ' from 0, 'e' from there, '.' from 0. */
  lemma FindMoveForwardSteps(r1: nat, r2: nat, r3: nat)
    requires FoundForward(Sample, ' ', 0, 12, r1)
    requires FoundForward(Sample, 'e', 6, 12, r2)
    requires FoundForward(Sample, '.', 0, 12, r3)
    ensures r1 == 6 && r2 == 8 && r3 == 11
  {
    assert Sample[0..6] == "sample";
    FirstForward(Sample, ' ', 0, 12, r1, 6);
    assert Sample[6..8] == " t";
    FirstForward(Sample, 'e', 6, 12, r2, 8);
    assert Sample[0..11] == "sample text";
    FirstForward(Sample, '.', 0, 12, r3, 11);
  }

  /** The other searches of the `findmove` unit test: 's' backward from 8 reaches 0; there is no 'z'. */
  lemma FindMoveOtherSteps(r1: nat, r2: nat)
    requires FoundBackward(Sample, 's', 8, r1)
    requires FoundForward(Sample, 'z', 0, 12, r2)
    ensures r1 == 0 && r2 == 0
  {
    assert Sample[1..8] == "ample t";
    LastBackward(Sample, 's', 8, r1, 0);
    assert Sample[0..13] == Sample;
  }



  // ---------------------------------------------------------------------
  // Word motions

  /**
   * Whether `fwdw`, leaving `cur`, halts at `k`: at the end of the line; on
   * an alphanumeric character when it started on a blank; otherwise on a
   * non-blank that either changes class (alphanumeric versus punctuation)
   * or follows a blank.
   */
  ghost predicate WordStop(b: seq<char>, cur: nat, len: nat, k: nat)
    requires cur < k <= len < |b|
  {
    k == len ||
    if IsSpace(b[cur]) then IsAlnum(b[k])
    else !IsSpace(b[k]) && (IsAlnum(b[k]) != IsAlnum(b[cur]) || IsSpace(b[k - 1]))
  }

  /** `fwdw`'s destination: no move at or past the end, else the first word stop after `cur`. */
  ghost predicate FwdwResult(b: seq<char>, cur: nat, len: nat, r: nat)
    requires len < |b|
  {
    if cur >= len then r == cur
    else cur < r <= len && WordStop(b, cur, len, r) && forall k :: cur < k < r ==> !WordStop(b, cur, len, k)
  }

  /** `fwdw`: moves the cursor forward to the start of the next word. */
  method Fwdw(buf: array<char>, cur: nat, len: nat) returns (cur': nat)
    requires Line(buf[..], len)
    ensures FwdwResult(buf[..], cur, len, cur')
  {
    if cur >= len {
      return cur;
    }
    var wasalnum := IsAlnum(buf[cur]);
    var wasspace := IsSpace(buf[cur]);
    var m := cur + 1;
    while (!IsSpace(buf[m]) || wasspace) && m != len && IsAlnum(buf[m]) == wasalnum
      invariant cur < m <= len
      invariant forall k :: cur < k < m ==> !WordStop(buf[..], cur, len, k)
      invariant !wasspace ==> forall k :: cur <= k < m ==> !IsSpace(buf[k])
      decreases len - m
    {
      m := m + 1;
    }
    assert buf[m..][len - m] == Nul;
    cur' := Chore.SkipSpaces(buf, m);
    assert !IsSpace(buf[len]);
    assert cur' <= len;
    assert cur' > m ==> IsSpace(buf[cur' - 1]);
  }

  /** The `fwdw` unit test: from 0 to 7 ("text.") and then to 11 ("."). */
  lemma FwdwSteps(r1: nat, r2: nat)
    requires FwdwResult(Sample, 0, 12, r1)
    requires FwdwResult(Sample, r1, 12, r2)
    ensures r1 == 7 && r2 == 11
  {
    assert WordStop(Sample, 0, 12, 7);
    assert forall k :: 0 < k < 7 ==> !WordStop(Sample, 0, 12, k);
    assert r1 == 7;
    assert WordStop(Sample, 7, 12, 11);
    assert forall k :: 7 < k < 11 ==> !WordStop(Sample, 7, 12, k);
  }

  /**
   * `bwdw`'s destination: the last non-blank `last` before `cur` (or the
   * start of the line), then back over the characters of its class.
   */
  ghost predicate BwdwResult(b: seq<char>, cur: nat, r: nat, last: nat)
    requires cur <= |b|
  {
    if cur == 0 then r == 0
    else
      r <= last < cur &&
      (forall k :: last < k < cur ==> IsSpace(b[k])) &&
      (last == 0 || !IsSpace(b[last])) &&
      (forall k :: r <= k < last ==> !IsSpace(b[k]) && IsAlnum(b[k]) == IsAlnum(b[last])) &&
      (r == 0 || IsSpace(b[r - 1]) || IsAlnum(b[r - 1]) != IsAlnum(b[last]))
  }

  /**
   * `bwdw` as it is evidently meant: moves the cursor back to the start of
   * the previous word, never reading before the line. The blank run is not
   * followed below the start of the line, and `cur != buf` is tested before
   * `cur[-1]` is read.
   */
  method Bwdw(buf: array<char>, cur: nat) returns (cur': nat, ghost last: nat)
    requires cur <= buf.Length
    ensures BwdwResult(buf[..], cur, cur', last)
  {
    if cur == 0 {
      return 0, 0;
    }
    var r: nat := cur - 1;
    while 0 < r && IsSpace(buf[r])
      invariant r < cur
      invariant forall k :: r < k < cur ==> IsSpace(buf[k])
    {
      r := r - 1;
    }
    last := r;
    var wasalnum := IsAlnum(buf[r]);
    while r != 0 && !IsSpace(buf[r - 1]) && IsAlnum(buf[r - 1]) == wasalnum
      invariant r <= last
      invariant forall k :: r <= k < last ==> !IsSpace(buf[k]) && IsAlnum(buf[k]) == wasalnum
    {
      r := r - 1;
    }
    cur' := r;
  }

  /** The `bwdw` unit test: from the end (12) to 11 (".") and then to 7 ("text."). */
  lemma BwdwSteps(r1: nat, l1: nat, r2: nat, l2: nat)
    requires BwdwResult(Sample, 12, r1, l1)
    requires r1 <= 13 && BwdwResult(Sample, r1, r2, l2)
    ensures r1 == 11 && r2 == 7
  {
    assert !IsSpace(Sample[11]);
    assert l1 == 11;
    assert IsAlnum(Sample[10]) && !IsAlnum(Sample[11]);
    assert r1 == 11;
    assert !IsSpace(Sample[10]);
    assert l2 == 10;
    assert IsSpace(Sample[6]);
  }

  /** `bwdw`'s blank-skipping loop as written, with no lower bound: `None` is a read before the line. */
  function SkipBackAsWritten(b: seq<char>, k: nat): (r: Option<nat>)
    requires k < |b|
    ensures r.Some? ==> r.value <= k && !IsSpace(b[r.value])
    decreases k
  {
    if !IsSpace(b[k]) then Some(k) else if k == 0 then None else SkipBackAsWritten(b, k - 1)
  }

  /**
   * `bwdw`'s word loop as written: its first test reads `cur[-1]`, before
   * `cur != buf` is checked, so reaching the start of the line is a read
   * before it (`None`).
   */
  function WordBackAsWritten(b: seq<char>, k: nat, wasalnum: bool): (r: Option<nat>)
    requires k <= |b|
    ensures r.Some? ==> 0 < r.value <= k
    decreases k
  {
    if k == 0 then None
    else if IsSpace(b[k - 1]) || IsAlnum(b[k - 1]) != wasalnum then Some(k)
    else WordBackAsWritten(b, k - 1, wasalnum)
  }

  /** `bwdw` as written; `None` when it reads before the line. */
  function BwdwAsWritten(b: seq<char>, cur: nat): (r: Option<nat>)
    requires cur <= |b|
    ensures cur == 0 ==> r == Some(0)
    ensures cur > 0 && r.Some? ==> 0 < r.value < cur
  {
    if cur == 0 then Some(0)
    else match SkipBackAsWritten(b, cur - 1)
      case None => None
      case Some(p) => WordBackAsWritten(b, p, IsAlnum(b[p]))
  }

  /** As written, the word loop reads before the line whenever the word reaches back to its start. */
  lemma {:induction false} WordBackReadsBeforeLine(b: seq<char>, k: nat, wasalnum: bool)
    requires k <= |b|
    requires forall i :: 0 <= i < k ==> !IsSpace(b[i]) && IsAlnum(b[i]) == wasalnum
    ensures WordBackAsWritten(b, k, wasalnum) == None
    decreases k
  {
    if k > 0 {
      WordBackReadsBeforeLine(b, k - 1, wasalnum);
    }
  }

  /**
   * Continuing the `bwdw` unit test one step further, from 7 to the first
   * word, reads `buf[-1]` as written; the corrected `Bwdw` stops at 0.
   */
  lemma BwdwFirstWord(r: nat, l: nat)
    requires BwdwResult(Sample, 7, r, l)
    ensures BwdwAsWritten(Sample, 7) == None
    ensures r == 0
  {
    assert SkipBackAsWritten(Sample, 6) == SkipBackAsWritten(Sample, 5) == Some(5);
    WordBackReadsBeforeLine(Sample, 5, true);
    assert !IsSpace(Sample[5]);
    assert l == 5;
  }

  /** `fwdW`'s destination: to the first blank at or after `cur` (else the end), then past the blank run. */
  ghost predicate FwdWResult(b: seq<char>, cur: nat, len: nat, r: nat, blank: nat)
    requires cur <= len < |b|
  {
    cur <= blank <= r <= len &&
    ' ' !in b[cur..blank] && (blank < len ==> b[blank] == ' ') &&
    (forall k :: blank <= k < r ==> IsSpace(b[k])) && !IsSpace(b[r])
  }

  /** `fwdW`: moves the cursor forward past the next blank run, or to the end of the line. */
  method FwdW(buf: array<char>, cur: nat, len: nat) returns (cur': nat, ghost blank: nat)
    requires Line(buf[..], len) && cur <= len
    ensures FwdWResult(buf[..], cur, len, cur', blank)
  {
    assert buf[cur..len] == buf[..len][cur..];
    var p := StrChr(buf, cur, ' ', len);
    var q := if p.Some? then p.value else len;
    blank := q;
    assert buf[q..][len - q] == Nul;
    cur' := Chore.SkipSpaces(buf, q);
    assert !IsSpace(buf[len]);
  }

  /** The `fwdW` unit test: from 0 to 7 ('t') and then to the terminator at 12. */
  lemma FwdWSteps(r1: nat, q1: nat, r2: nat, q2: nat)
    requires FwdWResult(Sample, 0, 12, r1, q1)
    requires r1 <= 12 && FwdWResult(Sample, r1, 12, r2, q2)
    ensures r1 == 7 && r2 == 12
  {
    assert Sample[0..6] == "sample";
    assert q1 == 6;
    assert IsSpace(Sample[6]) && !IsSpace(Sample[7]);
    assert r1 == 7;
    assert ' ' !in Sample[7..12];
    assert q2 == 12;
  }

  /** `bwdW`'s destination: back over blanks to `last`, then just after the previous ' ' (or to 0). */
  ghost predicate BwdWResult(b: seq<char>, cur: nat, r: nat, last: nat)
    requires cur <= |b|
  {
    if cur == 0 then r == 0
    else
      r <= last < cur &&
      (forall k :: last < k < cur ==> IsSpace(b[k])) &&
      (last == 0 || !IsSpace(b[last])) &&
      ' ' !in b[r..last] && (r == 0 || b[r - 1] == ' ')
  }

  /** `bwdW`: moves the cursor back to the start of the previous blank-delimited WORD. */
  method BwdW(buf: array<char>, cur: nat) returns (cur': nat, ghost last: nat)
    requires cur <= buf.Length
    ensures BwdWResult(buf[..], cur, cur', last)
  {
    if cur == 0 {
      return 0, 0;
    }
    var r: nat := cur - 1;
    while IsSpace(buf[r]) && 0 < r
      invariant r < cur
      invariant forall k :: r < k < cur ==> IsSpace(buf[k])
    {
      r := r - 1;
    }
    last := r;
    var p := MemRChr(buf, ' ', r);
    cur' := if p.Some? then p.value + 1 else 0;
    assert buf[cur'..last] == buf[..last][cur'..];
  }

  /** The `bwdW` unit test: from the end (12) to 7 ('t') and then to 0 ('s'). */
  lemma BwdWSteps(r1: nat, l1: nat, r2: nat, l2: nat)
    requires BwdWResult(Sample, 12, r1, l1)
    requires r1 <= 13 && BwdWResult(Sample, r1, r2, l2)
    ensures r1 == 7 && r2 == 0
  {
    assert !IsSpace(Sample[11]);
    assert l1 == 11;
    assert Sample[6] == ' ' && ' ' !in Sample[7..11];
    assert r1 == 7;
    assert !IsSpace(Sample[5]);
    assert l2 == 5;
    assert ' ' !in Sample[0..5];
  }

  /**
   * `handleTxtObj`: the range `(begin, end)` a text object selects around
   * the cursor, or `None` for an unknown object. 'w' and 'W' run a forward
   * and then a backward word motion; 'b' and ']' search forward for the
   * closer and then backward from there for the opener, and begin just
   * after it.
   */
  method HandleTxtObj(txtobj: char, buf: array<char>, cur: nat, len: nat) returns (range: Option<(nat, nat)>)
    requires Line(buf[..], len) && cur <= len
    ensures range.Some? <==> txtobj in "wWb]"
    ensures txtobj == 'w' ==>
              FwdwResult(buf[..], cur, len, range.value.1) &&
              exists l :: BwdwResult(buf[..], range.value.1, range.value.0, l)
    ensures txtobj == 'W' ==>
              range.value.1 <= len &&
              (exists q :: FwdWResult(buf[..], cur, len, range.value.1, q)) &&
              exists l :: BwdWResult(buf[..], range.value.1, range.value.0, l)
    ensures txtobj == 'b' ==>
              FoundForward(buf[..], ')', cur, len, range.value.1) && range.value.0 > 0 &&
              FoundBackward(buf[..], '(', range.value.1, range.value.0 - 1)
    ensures txtobj == ']' ==>
              FoundForward(buf[..], ']', cur, len, range.value.1) && range.value.0 > 0 &&
              FoundBackward(buf[..], '[', range.value.1, range.value.0 - 1)
  {
    match txtobj
    case 'w' =>
      var end := Fwdw(buf, cur, len);
      var begin, l := Bwdw(buf, end);
      range := Some((begin, end));
    case 'W' =>
      var end, q := FwdW(buf, cur, len);
      var begin, l := BwdW(buf, end);
      range := Some((begin, end));
    case 'b' =>
      var _, end := FindMove(')', 1, buf, cur, len);
      var _, c := FindMove('(', -1, buf, end, len);
      range := Some((c + 1, end));
    case ']' =>
      var _, end := FindMove(']', 1, buf, cur, len);
      var _, c := FindMove('[', -1, buf, end, len);
      range := Some((c + 1, end));
    case _ =>
      range := None;
  }

  // ---------------------------------------------------------------------
  // In-place edits

  /**
   * `memcpy` is defined only for disjoint ranges. `deletes` copies the
   * tail `[end, len)` down to `begin` with `memcpy`; the ranges overlap
   * exactly when the tail is longer than the deleted range.
   */
  predicate DeletesCopyDefined(begin: nat, end: nat, len: nat)
    requires begin <= end <= len
  {
    begin + (len - end) <= end
  }

  lemma DeletesCopyOverlaps(begin: nat, end: nat, len: nat)
    requires begin <= end <= len
    ensures DeletesCopyDefined(begin, end, len) <==> len - end <= end - begin
    ensures !DeletesCopyDefined(0, 1, 3)
  {
  }

  /**
   * `deletes` with the copy done by `memmove`: removes `[begin, end)`,
   * shifts the tail left, shortens the line by `end - begin` and writes the
   * terminator; nothing past the new terminator changes.
   */
  method Deletes(buf: array<char>, begin: nat, end: nat, len: nat) returns (len': nat)
    requires begin <= end <= len < buf.Length
    modifies buf
    ensures len' == len - (end - begin)
    ensures buf[..len'] == Removed(old(buf[..len]), begin, end)
    ensures buf[len'] == Nul
    ensures buf[len' + 1..] == old(buf[len' + 1..])
  {
    ghost var a := buf[..];
    MemMove(buf, begin, end, len - end);
    len' := len - (end - begin);
    ghost var m := buf[..];
    MovedAt(a, begin, end, len - end);
    assert m[..len'] == a[..begin] + a[end..len] by {
      assert m[..len'] == Moved(a, begin, end, len - end)[..len'];
    }
    buf[len'] := Nul;
    assert buf[..len'] == m[..len'];
    assert a[..len][..begin] == a[..begin] && a[..len][end..] == a[end..len];
  }

  /** The `deletes` unit test: "sample text." without its first 7 characters is "text.". */
  lemma DeletesStep()
    ensures Removed("sample text.", 0, 7) == "text."
  {
  }

  /** After `memmove(cur + n, cur, len - cur)` the head is untouched and the tail sits `n` higher. */
  lemma MovedUp(a: seq<char>, cur: nat, len: nat, n: nat)
    requires cur <= len && len + n <= |a|
    ensures Moved(a, cur + n, cur, len - cur)[..cur] == a[..cur]
    ensures Moved(a, cur + n, cur, len - cur)[cur + n..len + n] == a[cur..len]
    ensures Moved(a, cur + n, cur, len - cur)[len + n..] == a[len + n..]
  {
    var m := Moved(a, cur + n, cur, len - cur);
    assert m == a[..cur + n] + a[cur..len] + a[len + n..];
    assert m[..cur] == a[..cur + n][..cur];
  }

  /** The shift both insertions start with: `memmove(cur + n, cur, len - cur)` unless the cursor is at the end. */
  method ShiftUp(buf: array<char>, cur: nat, len: nat, n: nat)
    requires cur <= len && len + n <= buf.Length
    modifies buf
    ensures buf[..cur] == old(buf[..cur])
    ensures buf[cur + n..len + n] == old(buf[cur..len])
    ensures buf[len + n..] == old(buf[len + n..])
  {
    if cur != len {
      ghost var a := buf[..];
      MemMove(buf, cur + n, cur, len - cur);
      MovedUp(a, cur, len, n);
    }
  }

  /**
   * Writing `s` at `cur` over a buffer `m` whose tail was shifted up by
   * `|s|` yields the text of `a` with `s` inserted, and leaves what lies
   * past the new end as it was.
   */
  lemma InsertedFromShift(a: seq<char>, m: seq<char>, cur: nat, len: nat, s: seq<char>)
    requires cur <= len && len + |s| <= |a| == |m|
    requires m[..cur] == a[..cur] && m[cur + |s|..len + |s|] == a[cur..len]
    ensures (m[..cur] + s + m[cur + |s|..])[..len + |s|] == Inserted(a[..len], cur, s)
    ensures (m[..cur] + s + m[cur + |s|..])[len + |s|..] == m[len + |s|..]
  {
    var f := m[..cur] + s + m[cur + |s|..];
    assert m[cur + |s|..] == m[cur + |s|..len + |s|] + m[len + |s|..];
    assert f == a[..cur] + s + a[cur..len] + m[len + |s|..];
    assert a[..len][..cur] == a[..cur] && a[..len][cur..] == a[cur..len];
  }

  /** `insertc`: inserts `c` at the cursor and advances both the cursor and the end by one. */
  method InsertC(c: char, buf: array<char>, cur: nat, len: nat) returns (cur': nat, len': nat)
    requires cur <= len && len + 1 < buf.Length
    modifies buf
    ensures cur' == cur + 1 && len' == len + 1
    ensures buf[..len'] == Inserted(old(buf[..len]), cur, [c])
    ensures buf[len'] == Nul
    ensures buf[len' + 1..] == old(buf[len' + 1..])
  {
    ghost var a := buf[..];
    ShiftUp(buf, cur, len, 1);
    ghost var m := buf[..];
    buf[cur] := c;
    assert buf[..] == m[..cur] + [c] + m[cur + 1..];
    InsertedFromShift(a, m, cur, len, [c]);
    cur' := cur + 1;
    len' := len + 1;
    ghost var f := buf[..];
    buf[len'] := Nul;
    assert buf[..len'] == f[..len'];
  }

  /**
   * The guard of `inserts` as written: it aborts only when `slen > margin`.
   * With `margin` the room left in the buffer, inserting exactly `margin`
   * characters passes the guard and puts the terminator at index
   * `capacity`, one past the end of the buffer.
   */
  predicate InsertsAcceptsAsWritten(slen: nat, margin: nat) {
    !(slen > margin)
  }

  lemma InsertsOverrun(capacity: nat, len: nat)
    requires len < capacity
    ensures InsertsAcceptsAsWritten(capacity - len, capacity - len)
    ensures len + (capacity - len) == capacity
  {
  }

  /**
   * `inserts` with the guard it evidently intends: aborts (changing
   * nothing) unless `s` and the terminator fit into the `margin` characters
   * left; otherwise inserts `s` at the cursor, which does not move, and
   * grows the line by `|s|`.
   */
  method InsertS(s: seq<char>, buf: array<char>, cur: nat, len: nat, margin: nat) returns (aborted: bool, len': nat)
    requires cur <= len < buf.Length && margin <= buf.Length - len
    modifies buf
    ensures aborted <==> |s| >= margin
    ensures aborted ==> len' == len && buf[..] == old(buf[..])
    ensures !aborted ==> len' == len + |s| && buf[..len'] == Inserted(old(buf[..len]), cur, s)
    ensures !aborted ==> buf[len'] == Nul && buf[len' + 1..] == old(buf[len' + 1..])
  {
    if |s| >= margin {
      return true, len;
    }
    aborted := false;
    len' := Splice(s, buf, cur, len);
  }

  /** The insertion proper of `inserts`: shifts the tail up by `|s|`, copies `s` in, terminates the line. */
  method Splice(s: seq<char>, buf: array<char>, cur: nat, len: nat) returns (len': nat)
    requires cur <= len && len + |s| < buf.Length
    modifies buf
    ensures len' == len + |s| && buf[..len'] == Inserted(old(buf[..len]), cur, s)
    ensures buf[len'] == Nul && buf[len' + 1..] == old(buf[len' + 1..])
  {
    ghost var a := buf[..];
    ShiftUp(buf, cur, len, |s|);
    ghost var m := buf[..];
    MemCpyIn(buf, cur, s);
    InsertedFromShift(a, m, cur, len, s);
    len' := len + |s|;
    ghost var f := buf[..];
    buf[len'] := Nul;
    assert buf[..len'] == f[..len'];
  }

  /** The `inserts` unit test: "new string" at 11, then "extra string" at the same cursor. */
  lemma InsertsSteps()
    ensures Inserted("sample text.", 11, "new string") == "sample textnew string."
    ensures Inserted("sample textnew string.", 11, "extra string") == "sample textextra stringnew string."
  {
    assert "sample text."[..11] == "sample text" && "sample text."[11..] == ".";
    assert "sample textnew string."[..11] == "sample text";
    assert "sample textnew string."[11..] == "new string.";
  }

  /**
   * `insbind`: '(' and '[' insert the pair and put the cursor between
   * them; ')' and ']' jump just past the next such closer when there is one
   * and are otherwise inserted like any other character. The buffer's
   * capacity `buf.Length` is the editor's `buf_size`. The pair goes through
   * `inserts` with its guard as written, which aborts only when fewer than
   * 2 cells are left. With exactly 2 left for the pair, or 1 left for a
   * single character, the terminator would land past the buffer
   * (`overrun`, undefined in C; the model then writes nothing).
   */
  method InsBind(c: char, buf: array<char>, cur: nat, len: nat) returns (aborted: bool, overrun: bool, cur': nat, len': nat)
    requires Line(buf[..], len) && cur <= len
    modifies buf
    ensures aborted <==> (c == '(' || c == '[') && !InsertsAcceptsAsWritten(2, buf.Length - len)
    ensures (c == '(' || c == '[') ==> (overrun <==> len + 2 == buf.Length)
    ensures aborted || overrun ==> buf[..] == old(buf[..])
    ensures (c == '(' || c == '[') && !aborted && !overrun ==>
              cur' == cur + 1 && len' == len + 2 &&
              buf[..len'] == Inserted(old(buf[..len]), cur, if c == '(' then "()" else "[]")
    ensures (c == ')' || c == ']') && c in old(buf[cur..len]) ==>
              !overrun && len' == len && buf[..] == old(buf[..]) &&
              cur < cur' <= len && buf[cur' - 1] == c && c !in buf[cur..cur' - 1]
    ensures (c != '(' && c != '[' && c != ')' && c != ']') || ((c == ')' || c == ']') && c !in old(buf[cur..len])) ==>
              (overrun <==> len + 1 == buf.Length) &&
              (!overrun ==> cur' == cur + 1 && len' == len + 1 && buf[..len'] == Inserted(old(buf[..len]), cur, [c]))
  {
    aborted, overrun := false, false;
    if c == '(' || c == '[' {
      var margin := buf.Length - len;
      if !InsertsAcceptsAsWritten(2, margin) {
        return true, false, cur, len;
      }
      if margin == 2 {
        return false, true, cur, len;
      }
      len' := Splice(if c == '(' then "()" else "[]", buf, cur, len);
      cur' := cur + 1;
      return;
    }
    if c == ')' || c == ']' {
      assert buf[cur..len] == buf[..len][cur..];
      var p := StrChr(buf, cur, c, len);
      if p.Some? {
        assert buf[cur..len + 1] == buf[cur..len] + [Nul];
        assert p.value < len;
        assert buf[cur..len][p.value - cur] == c;
        return false, false, p.value + 1, len;
      }
      assert buf[cur..len] <= buf[cur..len + 1];
    }
    if len + 1 == buf.Length {
      return false, true, cur, len;
    }
    cur', len' := InsertC(c, buf, cur, len);
  }
}
