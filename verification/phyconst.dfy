/**
 * The physical-constant table read by the `\` operator (src/phyconst.c).
 * The table has one slot per letter: 26 upper-case slots followed by 26
 * lower-case slots.
 */
module PhyConst {
  import opened Wrappers
  import opened CType

  const MathE: real := 2.7182818284590452354
  const MathPi: real := 3.14159265358979323846

  /** The number of slots of `consts`: one per letter of either case. */
  const TableSize := 52

  /** Slot `i` of `consts`: upper-case letters first; unnamed slots hold 0. */
  function Consts(i: int): real
    requires 0 <= i < TableSize
  {
    if i == 2 then 299792458.0                             // C, speed of light
    else if i == 4 then MathE                              // E
    else if i == 5 then 96485.33212331                     // F, Faraday constant
    else if i == 6 then 0.000000000066743015               // G
    else if i == 10 then 0.00000000000000000000001380649   // K, Boltzmann constant
    else if i == 11 then 602214076000000000000000.0        // L, Avogadro constant
    else if i == 15 then MathPi                            // P
    else if i == 17 then 8.3144626181532                   // R, gas constant
    else 0.0
  }

  /** The index `get_const` computes: `c - ('a' - 'Z' - 1)` from 'a' up, `c - 'A'` below. */
  function ConstIndexAsWritten(c: char): (i: int)
    ensures IsUpper(c) ==> i == c as int - 'A' as int
    ensures c >= 'a' ==> i == c as int - 6
  {
    c as int - (if c >= 'a' then 'a' as int - 'Z' as int - 1 else 'A' as int)
  }

  /** `get_const` as written: None where the index leaves the 52-slot table. */
  function GetConstAsWritten(c: char): (r: Option<real>)
    ensures r.Some? <==> 0 <= ConstIndexAsWritten(c) < TableSize
  {
    if 0 <= ConstIndexAsWritten(c) < TableSize then Some(Consts(ConstIndexAsWritten(c))) else None
  }

  /** Every lower-case letter indexes past the end of the table (slot 91 for 'a'). */
  lemma LowerCaseOutOfTable(c: char)
    requires IsLower(c)
    ensures ConstIndexAsWritten(c) >= 91
    ensures GetConstAsWritten(c) == None
  {
  }

  /** The index the lower-case slots call for: 'a' is slot 26, 'z' slot 51. */
  function ConstIndex(c: char): (i: int)
    ensures IsUpper(c) ==> i == c as int - 'A' as int && 0 <= i < 26
    ensures IsLower(c) ==> i == c as int - 'a' as int + 26 && 26 <= i < 52
  {
    c as int - (if c >= 'a' then 'a' as int - 26 else 'A' as int)
  }

  /** The constant for a letter; None for characters outside the table. */
  function GetConst(c: char): (r: Option<real>)
    ensures IsUpper(c) || IsLower(c) ==> r.Some?
    ensures IsUpper(c) ==> r == Some(Consts(c as int - 'A' as int))
    ensures IsLower(c) ==> r == Some(0.0)
    ensures IsUpper(c) ==> r == GetConstAsWritten(c)
  {
    if 0 <= ConstIndex(c) < TableSize then Some(Consts(ConstIndex(c))) else None
  }

  /** The named constants. */
  lemma NamedConstants()
    ensures GetConst('C') == Some(299792458.0)
    ensures GetConst('E') == Some(MathE)
    ensures GetConst('F') == Some(96485.33212331)
    ensures GetConst('P') == Some(MathPi)
    ensures GetConst('R') == Some(8.3144626181532)
  {
  }

  /** Only C, E, F, G, K, L, P and R carry a constant; every other letter yields 0. */
  lemma UnnamedLettersAreZero(c: char)
    requires IsUpper(c) || IsLower(c)
    ensures GetConst(c) == Some(0.0) <==> c !in "CEFGKLPR"
  {
  }
}
