/**
 * Small pointer-walking helpers and the nullable `free`. A `char **` cursor is
 * an index into a `char` array; the string it walks ends at a terminator.
 */
module Chore {
  import opened CType
  import opened CString

  /** `skipspcs`: advances to the first non-whitespace character at or after `i`. */
  method SkipSpaces(buf: array<char>, i: nat) returns (j: nat)
    requires i <= |buf[..]| && Nul in buf[i..]
    ensures i <= j <= i + StrLen(buf[i..])
    ensures !IsSpace(buf[j])
    ensures forall k :: i <= k < j ==> IsSpace(buf[k])
  {
    j := i;
    while IsSpace(buf[j])
      invariant i <= j <= i + StrLen(buf[i..])
      invariant forall k :: i <= k < j ==> IsSpace(buf[k])
      decreases i + StrLen(buf[i..]) - j
    {
      assert buf[i..][j - i] == buf[j];
      j := j + 1;
    }
  }

  /** Where `skip_untilcomma` leaves a cursor at `i`: just past the next ',', or on the terminator. */
  function AfterComma(t: seq<char>, i: nat): nat
    decreases |t| - i
  {
    if i >= |t| || t[i] == Nul then i
    else if t[i] == ',' then i + 1
    else AfterComma(t, i + 1)
  }

  /**
   * `skip_untilcomma`: stops just after the first ',' at or after `i`, or on
   * the terminator when there is none.
   */
  method SkipUntilComma(buf: array<char>, i: nat) returns (j: nat)
    requires i <= |buf[..]| && Nul in buf[i..]
    ensures j == AfterComma(buf[..], i)
    ensures i <= j <= i + StrLen(buf[i..])
    ensures ',' in buf[i..i + StrLen(buf[i..])] ==>
              j > i && buf[j - 1] == ',' && ',' !in buf[i..j - 1]
    ensures ',' !in buf[i..i + StrLen(buf[i..])] ==> j == i + StrLen(buf[i..])
  {
    ghost var n := StrLen(buf[i..]);
    j := i;
    while buf[j] != ',' && buf[j] != Nul
      invariant i <= j <= i + n
      invariant AfterComma(buf[..], j) == AfterComma(buf[..], i)
      invariant ',' !in buf[i..j]
      decreases i + n - j
    {
      assert buf[i..][j - i] == buf[j];
      j := j + 1;
    }
    assert buf[i..][j - i] == buf[j];
    if buf[j] == ',' {
      assert buf[i..i + n][j - i] == ',';
      j := j + 1;
    } else {
      assert j == i + n && buf[i..j] == buf[i..i + n];
    }
  }

  /**
   * The allocator's view of the heap: the set of blocks that `malloc` handed
   * out and that have not been released. Freeing a block outside this set
   * (double free, or free of memory never allocated) is undefined in C, so
   * `Free` demands a live block. The set is an ordinary field so that callers
   * can tell, before they act, whether the C code would release or read a
   * block that is no longer live.
   */
  class Heap {
    var live: set<object>

    constructor ()
      ensures live == {}
    {
      live := {};
    }

    /** Records a freshly allocated block. */
    method Own(p: object)
      modifies this
      requires p !in live
      ensures live == old(live) + {p}
    {
      live := live + {p};
    }

    /** `free`. */
    method Free(p: object)
      modifies this
      requires p in live
      ensures live == old(live) - {p}
    {
      live := live - {p};
    }

    /** `nfree`: a null pointer is ignored, anything else is freed. */
    method NFree(p: object?)
      modifies this
      requires p != null ==> p in live
      ensures p == null ==> live == old(live)
      ensures p != null ==> live == old(live) - {p}
    {
      if p != null {
        Free(p);
      }
    }
  }
}
