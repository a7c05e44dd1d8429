/**
 * `strtod` as both evaluators use it on a literal that starts with a digit:
 * a decimal or hexadecimal mantissa with an optional fraction and exponent,
 * read from a character buffer.  The value is the exact rational the text
 * denotes; the reading stops at the first character that cannot continue the
 * literal.  A literal whose scan would have to look past the end of the buffer
 * has no result (None).
 */
module Strtod {
  import opened Wrappers
  import opened CType

  predicate IsXDigit(c: char) { IsDigit(c) || 'a' <= c <= 'f' || 'A' <= c <= 'F' }

  /** A digit of the given base (10, or 16 when `hex`). */
  predicate IsBaseDigit(c: char, hex: bool) { if hex then IsXDigit(c) else IsDigit(c) }

  function DigitValue(c: char): nat {
    if IsDigit(c) then c as int - '0' as int
    else if 'a' <= c <= 'f' then c as int - 'a' as int + 10
    else if 'A' <= c <= 'F' then c as int - 'A' as int + 10
    else 0
  }

  function Base(hex: bool): nat { if hex then 16 else 10 }

  function Power(b: nat, n: nat): (r: nat)
    requires b > 0
    ensures r > 0
  {
    if n == 0 then 1 else b * Power(b, n - 1)
  }

  /** The first index at or after `i` that holds no digit; None when the digits run to the end of the buffer. */
  function RunEnd(t: seq<char>, i: nat, hex: bool): (r: Option<nat>)
    requires i <= |t|
    ensures r.Some? ==> i <= r.value < |t| && !IsBaseDigit(t[r.value], hex)
    ensures r.Some? ==> forall k :: i <= k < r.value ==> IsBaseDigit(t[k], hex)
    ensures r.None? ==> forall k :: i <= k < |t| ==> IsBaseDigit(t[k], hex)
    decreases |t| - i
  {
    if i == |t| then None
    else if IsBaseDigit(t[i], hex) then RunEnd(t, i + 1, hex)
    else Some(i)
  }

  /** The number the digits `t[i..j]` spell in the given base. */
  function RunValue(t: seq<char>, i: nat, j: nat, hex: bool): nat
    requires i <= j <= |t|
    decreases j - i
  {
    if i == j then 0 else RunValue(t, i, j - 1, hex) * Base(hex) + DigitValue(t[j - 1])
  }

  /**
   * The optional exponent after a mantissa ending at `e`: `e`/`E` and a
   * power of ten for decimal literals, `p`/`P` and a power of two for
   * hexadecimal ones, with an optional sign and at least one decimal digit.
   * Without those digits the literal ends at `e`.
   */
  function Exponent(t: seq<char>, e: nat, mant: real, hex: bool): (r: Option<(real, nat)>)
    requires e < |t|
    ensures r.Some? ==> e <= r.value.1 < |t|
    ensures r.Some? && mant >= 0.0 ==> r.value.0 >= 0.0
  {
    var marks := if hex then "pP" else "eE";
    if t[e] !in marks then Some((mant, e))
    else if e + 1 == |t| then None
    else
      var k := if t[e + 1] == '+' || t[e + 1] == '-' then e + 2 else e + 1;
      if k == |t| then None
      else if !IsDigit(t[k]) then Some((mant, e))
      else match RunEnd(t, k, false)
        case None => None
        case Some(e3) =>
          var scale := Power(if hex then 2 else 10, RunValue(t, k, e3, false)) as real;
          Some((if t[e + 1] == '-' then mant / scale else mant * scale, e3))
  }

  /** The value of `n` fraction digits that read as the whole number `v`: v / base^n. */
  function Fraction(v: nat, n: nat, hex: bool): (r: real)
    ensures 0.0 <= r <= v as real
  {
    var d := Power(Base(hex), n) as real;
    assert d >= 1.0;
    v as real / d
  }

  /** Digits, an optional point and fraction digits from `i`, then the exponent. */
  function Mantissa(t: seq<char>, i: nat, hex: bool): (r: Option<(real, nat)>)
    requires i <= |t|
    ensures r.Some? ==> i <= r.value.1 < |t| && r.value.0 >= 0.0
  {
    match RunEnd(t, i, hex)
    case None => None
    case Some(e1) =>
      var whole := RunValue(t, i, e1, hex) as real;
      if t[e1] != '.' then Exponent(t, e1, whole, hex)
      else match RunEnd(t, e1 + 1, hex)
        case None => None
        case Some(e2) =>
          Exponent(t, e2, whole + Fraction(RunValue(t, e1 + 1, e2, hex), e2 - e1 - 1, hex), hex)
  }

  /**
   * `strtod(t + i, &end)` for a literal whose first character is a digit:
   * the value and the index `end` of the first unread character.  `0x`
   * introduces a hexadecimal literal only when a hex digit (or a point and a
   * hex digit) follows; otherwise the literal is the lone `0`.
   */
  function Parse(t: seq<char>, i: nat): (r: Option<(real, nat)>)
    requires i < |t| && IsDigit(t[i])
    ensures r.Some? ==> i < r.value.1 < |t| && r.value.0 >= 0.0
  {
    if t[i] == '0' && i + 1 < |t| && (t[i + 1] == 'x' || t[i + 1] == 'X') then
      if i + 2 == |t| then None
      else if IsXDigit(t[i + 2]) then Mantissa(t, i + 2, true)
      else if t[i + 2] != '.' then Some((0.0, i + 1))
      else if i + 3 == |t| then None
      else if IsXDigit(t[i + 3]) then Mantissa(t, i + 2, true)
      else Some((0.0, i + 1))
    else Mantissa(t, i, false)
  }

  /** A run of decimal digits ended by a character outside the literal syntax reads as its integer value. */
  lemma {:induction false} WholeNumber(t: seq<char>, i: nat, j: nat)
    requires i < j < |t|
    requires forall k :: i <= k < j ==> IsDigit(t[k])
    requires !IsDigit(t[j]) && t[j] !in ".eExX"
    ensures Parse(t, i) == Some((RunValue(t, i, j, false) as real, j))
  {
    RunEndAt(t, i, j, false);
    assert t[i] == '0' ==> t[i + 1] !in "xX" by {
      if i + 1 < j {
        assert IsDigit(t[i + 1]);
      }
    }
  }

  /** `RunEnd` finds the end of a run ended by a non-digit. */
  lemma {:induction false} RunEndAt(t: seq<char>, i: nat, j: nat, hex: bool)
    requires i <= j < |t|
    requires forall k :: i <= k < j ==> IsBaseDigit(t[k], hex)
    requires !IsBaseDigit(t[j], hex)
    ensures RunEnd(t, i, hex) == Some(j)
    decreases j - i
  {
    if i < j {
      RunEndAt(t, i + 1, j, hex);
    }
  }

  /** `"5 "` reads 5 and stops at the blank. */
  lemma SampleWhole()
    ensures Parse("5 ", 0) == Some((5.0, 1))
  {
    WholeNumber("5 ", 0, 1);
  }

  /** `"2.5e2 "` reads 250 and stops at the blank. */
  lemma SampleScientific()
    ensures Parse("2.5e2 ", 0) == Some((250.0, 5))
  {
    var t := "2.5e2 ";
    RunEndAt(t, 0, 1, false);
    RunEndAt(t, 2, 3, false);
    RunEndAt(t, 4, 5, false);
    assert RunValue(t, 2, 3, false) == 5;
    assert Mantissa(t, 0, false) == Exponent(t, 3, 2.5, false);
  }

  /** `"0x1p4 "` reads 16; `"0x "` reads the lone 0 and stops at the `x`. */
  lemma SampleHex()
    ensures Parse("0x1p4 ", 0) == Some((16.0, 5))
    ensures Parse("0x ", 0) == Some((0.0, 1))
  {
    var t := "0x1p4 ";
    RunEndAt(t, 2, 3, true);
    RunEndAt(t, 4, 5, false);
    assert RunValue(t, 4, 5, false) == 4;
    assert Mantissa(t, 2, true) == Exponent(t, 3, 1.0, true);
  }
}
