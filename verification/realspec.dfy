/**
 * The real-mode RPN machine of src/evalfn.c as a function of its state.
 *
 * The machine walks the expression buffer one character at a time and
 * dispatches on the character through a table covering ' '..'~'.  The
 * handlers move the cursor and the two stack pointers `rbp` (the base of the
 * innermost group) and `rsp` (the top) over a 100-slot stack of doubles.
 * A group's base slot holds the enclosing base; the source stores that
 * pointer in the double slot, the model uses a `Marker` slot.
 *
 * Undefined behaviour (a dispatch through a missing table entry, a slot
 * outside the stack, reading a marker or an uninitialised slot as a number,
 * an index outside a register or history array, a conversion out of range,
 * a read past the end of the buffer) ends the run with `Stuck`.  `panic`
 * ends it with `Panic(code)`; a user function call (`!`) with `Foreign`.
 */
module RealSpec {
  import opened Wrappers
  import opened CType
  import opened CString
  import ArthFn
  import PhyConst
  import ErrCode
  import Strtod

  const StackSize := 100
  const BufSize := 64
  const RegisterCount := 26
  const ArgCount := 9

  /** A stack slot: a number, a group marker holding the enclosing base, or never written. */
  datatype Slot = Val(x: real) | Marker(base: nat) | Unset

  /**
   * What a run reads and leaves behind: the real-mode runtime store (history,
   * its fill index, the registers `a`..`z` and user-function arguments), and
   * `draws`, how many values the C library's `rand()` has returned so far.
   */
  datatype Store = Store(hist: seq<real>, histi: nat, usrvar: seq<real>, argv: seq<real>, draws: nat)

  predicate StoreOk(s: Store) {
    |s.hist| == BufSize && |s.usrvar| == RegisterCount && |s.argv| == ArgCount
  }

  /**
   * The library functions the handlers call, left uninterpreted: libm,
   * the epsilon comparison `eq` of src/gene.c, what a double division by
   * zero yields, and `rand(n)`, the value `rand() / RAND_MAX` takes on the
   * call that follows `n` earlier ones.
   */
  datatype Libm = Libm(
    sin: real -> real, cos: real -> real, tan: real -> real, tgamma: real -> real,
    asin: real -> real, acos: real -> real, atan: real -> real,
    sinh: real -> real, cosh: real -> real, tanh: real -> real,
    log2: real -> real, log10: real -> real, log: real -> real,
    fmod: (real, real) -> real, pow: (real, real) -> real,
    divByZero: real -> real, eq: (real, real) -> bool, rand: nat -> real)

  /** Double division. */
  function Quot(x: real, y: real, lib: Libm): real {
    if y != 0.0 then x / y else lib.divByZero(x)
  }

  datatype Machine = Machine(stack: seq<Slot>, rbp: nat, rsp: nat, text: seq<char>, pos: nat, info: Store)

  /** The shape every state has; `pos` is the character under the cursor. */
  predicate Valid(m: Machine) {
    |m.stack| == StackSize && m.rbp < StackSize && m.rsp < StackSize && m.pos < |m.text| && StoreOk(m.info)
  }

  /** How a run ends: the REAL-tagged top and the store written back, a panic, undefined behaviour, or a user function. */
  datatype Outcome = Done(value: real, info: Store) | Panic(code: int) | Stuck | Foreign

  /** What a handler leaves: the next state (the cursor on the last character it consumed) or the end of the run. */
  datatype Step = Next(m: Machine) | Halt(out: Outcome)

  /**
   * A handler's successor: same buffer length, shape kept, cursor not moved
   * back, history untouched; a handler never completes the run itself.
   */
  predicate Moves(m: Machine, r: Step) {
    && (r.Next? ==> Valid(r.m) && m.pos <= r.m.pos && |r.m.text| == |m.text|
                    && r.m.info.hist == m.info.hist && r.m.info.histi == m.info.histi)
    && (r.Halt? ==> !r.out.Done?)
  }

  // ---------------------------------------------------------------- folds

  datatype BinOp = Plus | Minus | Times | Over | Mod | Pow

  function Apply(op: BinOp, x: real, y: real, lib: Libm): real {
    match op
    case Plus => x + y
    case Minus => x - y
    case Times => x * y
    case Over => Quot(x, y, lib)
    case Mod => lib.fmod(x, y)
    case Pow => lib.pow(x, y)
  }

  /** The fold loop `for (; rbp + 1 < rsp; rbp[1] op= POP);` from top `rsp`: the stack it leaves, None on a non-number. */
  function FoldFrom(op: BinOp, stack: seq<Slot>, rbp: nat, rsp: nat, lib: Libm): (r: Option<seq<Slot>>)
    requires rsp < |stack|
    ensures r.Some? ==> |r.value| == |stack|
    decreases rsp
  {
    if rbp + 1 < rsp then
      if stack[rbp + 1].Val? && stack[rsp].Val? then
        FoldFrom(op, stack[rbp + 1 := Val(Apply(op, stack[rbp + 1].x, stack[rsp].x, lib))], rbp, rsp - 1, lib)
      else None
    else Some(stack)
  }

  /** `rpx_add`, `rpx_sub`, `rpx_mul`, `rpx_div`, `rpx_mod`, `rpx_pow`. */
  function Fold(op: BinOp, m: Machine, lib: Libm): (r: Step)
    requires Valid(m)
    ensures Moves(m, r)
  {
    match FoldFrom(op, m.stack, m.rbp, m.rsp, lib)
    case None => Halt(Stuck)
    case Some(st) => Next(m.(stack := st, rsp := if m.rbp + 1 < m.rsp then m.rbp + 1 else m.rsp))
  }

  // ---------------------------------------------------------- comparisons

  datatype Rel = Equal | Less | Greater

  function Holds(rel: Rel, x: real, y: real, lib: Libm): bool {
    match rel
    case Equal => lib.eq(x, y)
    case Less => x < y
    case Greater => x > y
  }

  /** The pop loop of `rpx_eql`, `rpx_lt`, `rpx_gt`: the top where it stops, None on a non-number. */
  function CollapseFrom(rel: Rel, stack: seq<Slot>, rbp: nat, rsp: nat, lib: Libm): (r: Option<nat>)
    requires rsp < |stack|
    ensures r.Some? ==> r.value <= rsp
    decreases rsp
  {
    if rbp + 1 < rsp then
      if stack[rsp - 1].Val? && stack[rsp].Val? then
        if Holds(rel, stack[rsp - 1].x, stack[rsp].x, lib) then CollapseFrom(rel, stack, rbp, rsp - 1, lib) else Some(rsp)
      else None
    else Some(rsp)
  }

  /** `rbp[1] = rbp + 1 == rsp; rsp = rbp + 1;` after the pop loop. */
  function Collapse(rel: Rel, m: Machine, lib: Libm): (r: Step)
    requires Valid(m)
    ensures Moves(m, r)
  {
    match CollapseFrom(rel, m.stack, m.rbp, m.rsp, lib)
    case None => Halt(Stuck)
    case Some(top) =>
      if m.rbp + 1 < StackSize then
        Next(m.(stack := m.stack[m.rbp + 1 := Val(if top == m.rbp + 1 then 1.0 else 0.0)], rsp := m.rbp + 1))
      else Halt(Stuck)
  }

  // ------------------------------------------------- one-argument functions

  datatype Fn = Sin | Cos | Tan | Fabs | Tgamma | Ceil | Floor | Round
              | Sinh | Cosh | Tanh | Asin | Acos | Atan | Log2 | Log10 | Ln

  /** `round`: halfway cases away from zero. */
  function RoundHalfAway(x: real): int {
    if x >= 0.0 then (x + 0.5).Floor else -((0.5 - x).Floor)
  }

  function Eval1(f: Fn, x: real, lib: Libm): (r: real)
    ensures f == Fabs ==> r >= 0.0 && (r == x || r == -x)
    ensures f == Floor ==> r.Floor as real == r && r <= x < r + 1.0
    ensures f == Ceil ==> r.Floor as real == r && r - 1.0 < x <= r
    ensures f == Round ==> r.Floor as real == r
    ensures f == Round && x >= 0.0 ==> r - 0.5 <= x < r + 0.5
    ensures f == Round && x < 0.0 ==> r - 0.5 < x <= r + 0.5
  {
    match f
    case Sin => lib.sin(x)
    case Cos => lib.cos(x)
    case Tan => lib.tan(x)
    case Fabs => if x < 0.0 then -x else x
    case Tgamma => lib.tgamma(x)
    case Ceil => -((-x).Floor) as real
    case Floor => x.Floor as real
    case Round => RoundHalfAway(x) as real
    case Sinh => lib.sinh(x)
    case Cosh => lib.cosh(x)
    case Tanh => lib.tanh(x)
    case Asin => lib.asin(x)
    case Acos => lib.acos(x)
    case Atan => lib.atan(x)
    case Log2 => lib.log2(x)
    case Log10 => lib.log10(x)
    case Ln => lib.log(x)
  }

  /** `*rsp = f(*rsp)`. */
  function Overwrite(f: Fn, m: Machine, lib: Libm): (r: Step)
    requires Valid(m)
    ensures Moves(m, r)
  {
    if m.stack[m.rsp].Val? then Next(m.(stack := m.stack[m.rsp := Val(Eval1(f, m.stack[m.rsp].x, lib))]))
    else Halt(Stuck)
  }

  /** `rpx_nagate`, `rpx_torad`, `rpx_todeg`: `*rsp *= factor`. */
  function Scale(k: real, m: Machine): (r: Step)
    requires Valid(m)
    ensures Moves(m, r)
  {
    if m.stack[m.rsp].Val? then Next(m.(stack := m.stack[m.rsp := Val(m.stack[m.rsp].x * k)]))
    else Halt(Stuck)
  }

  datatype Family = Hyp | Arc | Log

  /** The function a two-character name selects; None for a second character the `switch` has no case for. */
  function Member(fam: Family, c: char): Option<Fn> {
    match fam
    case Hyp => if c == 's' then Some(Sinh) else if c == 'c' then Some(Cosh) else if c == 't' then Some(Tanh) else None
    case Arc => if c == 's' then Some(Asin) else if c == 'c' then Some(Acos) else if c == 't' then Some(Atan) else None
    case Log => if c == '2' then Some(Log2) else if c == 'c' then Some(Log10) else if c == 'e' then Some(Ln) else None
  }

  /** `rpx_hyp`, `rpx_arc`, `rpx_log`: read the next character and overwrite the top when it names a function. */
  function TwoChar(fam: Family, m: Machine, lib: Libm): (r: Step)
    requires Valid(m)
    ensures Moves(m, r)
  {
    if m.pos + 1 == |m.text| then Halt(Stuck)
    else
      var m1 := m.(pos := m.pos + 1);
      match Member(fam, m.text[m.pos + 1])
      case None => Next(m1)
      case Some(f) => Overwrite(f, m1, lib)
  }

  // ------------------------------------------------ two-argument functions

  /** `gcd`, `lcm`, `permutation`, `combination`; None when a conversion to `unsigned long` is undefined. */
  function Eval2(c: char, x: real, y: real, lib: Libm): (r: Option<real>)
    requires c in "glpc"
    ensures r.None? <==> (c == 'g' || c == 'l') && !(ArthFn.Convertible(x) && ArthFn.Convertible(y))
    ensures c == 'g' && r.Some? ==> 0.0 <= r.value && r.value.Floor as real == r.value
  {
    if c == 'g' || c == 'l' then
      if ArthFn.Convertible(x) && ArthFn.Convertible(y) then
        if c == 'g' then Some(ArthFn.GcdOf(ArthFn.Trunc(x), ArthFn.Trunc(y)) as real)
        else match ArthFn.Lcm(x, y)
          case Some(v) => Some(v)
          case None => Some(lib.divByZero(x) * y)
      else None
    else if c == 'p' then Some(Quot(lib.tgamma(x + 1.0), lib.tgamma(x - y + 1.0), lib))
    else Some(Quot(Quot(lib.tgamma(x + 1.0), lib.tgamma(y + 1.0), lib), lib.tgamma(x - y + 1.0), lib))
  }

  /**
   * `rpx_intfn` as written: `double x = *rsp; *rsp = f(*rsp, x);` applies
   * the function to the top twice and leaves the operand below in place.
   */
  function IntFnAsWritten(m: Machine, lib: Libm): (r: Step)
    requires Valid(m)
    ensures Moves(m, r)
  {
    if m.pos + 1 == |m.text| then Halt(Stuck)
    else
      var c := m.text[m.pos + 1];
      var m1 := m.(pos := m.pos + 1);
      if c !in "glpc" then Next(m1)
      else if !m.stack[m.rsp].Val? then Halt(Stuck)
      else
        var x := m.stack[m.rsp].x;
        match Eval2(c, x, x, lib)
        case None => Halt(Stuck)
        case Some(v) => Next(m1.(stack := m.stack[m.rsp := Val(v)]))
  }

  /**
   * `rpx_intfn` as intended: `double x = POP; *rsp = f(*rsp, x);` takes the
   * top as the second operand and the value below it as the first.
   */
  function IntFn(m: Machine, lib: Libm): (r: Step)
    requires Valid(m)
    ensures Moves(m, r)
  {
    if m.pos + 1 == |m.text| then Halt(Stuck)
    else
      var c := m.text[m.pos + 1];
      var m1 := m.(pos := m.pos + 1);
      if c !in "glpc" then Next(m1)
      else if m.rsp == 0 || !m.stack[m.rsp].Val? || !m.stack[m.rsp - 1].Val? then Halt(Stuck)
      else
        match Eval2(c, m.stack[m.rsp - 1].x, m.stack[m.rsp].x, lib)
        case None => Halt(Stuck)
        case Some(v) => Next(m1.(stack := m.stack[m.rsp - 1 := Val(v)], rsp := m.rsp - 1))
  }

  // ------------------------------------------------------ pushes and store

  /** `PUSH = v`: `*++rsp = v`. */
  function Push(m: Machine, v: real): (r: Step)
    requires Valid(m)
    ensures Moves(m, r)
  {
    if m.rsp + 1 < StackSize then Next(m.(stack := m.stack[m.rsp + 1 := Val(v)], rsp := m.rsp + 1))
    else Halt(Stuck)
  }

  /** `rpx_parse`: push the literal under the cursor and leave the cursor on its last character. */
  function Number(m: Machine): (r: Step)
    requires Valid(m) && IsDigit(m.text[m.pos])
    ensures Moves(m, r)
  {
    match Strtod.Parse(m.text, m.pos)
    case None => Halt(Stuck)
    case Some(r) => Push(m.(pos := r.1 - 1), r.0)
  }

  /** The first index at or after `i` that holds no white space; None when the blanks run to the end of the buffer. */
  function SkipSpace(t: seq<char>, i: nat): (r: Option<nat>)
    requires i <= |t|
    ensures r.Some? ==> i <= r.value < |t| && !IsSpace(t[r.value])
    ensures r.Some? ==> forall k :: i <= k < r.value ==> IsSpace(t[k])
    decreases |t| - i
  {
    if i == |t| then None else if IsSpace(t[i]) then SkipSpace(t, i + 1) else Some(i)
  }

  /** `rpx_space`: `skipspcs(&expr); expr--;`. */
  function Space(m: Machine): (r: Step)
    requires Valid(m) && IsSpace(m.text[m.pos])
    ensures Moves(m, r)
  {
    match SkipSpace(m.text, m.pos)
    case None => Halt(Stuck)
    case Some(j) => Next(m.(pos := j - 1))
  }

  /** `rpx_const`: push the constant the next character names, read from the table as `get_const` indexes it. */
  function Const(m: Machine): (r: Step)
    requires Valid(m)
    ensures Moves(m, r)
  {
    if m.pos + 1 == |m.text| then Halt(Stuck)
    else match PhyConst.GetConstAsWritten(m.text[m.pos + 1])
      case None => Halt(Stuck)
      case Some(v) => Push(m.(pos := m.pos + 1), v)
  }

  /** `rpx_lvars`: `$1`..`$9` push an argument, `$a`..`$z` a register; anything else panics. */
  function LoadVar(m: Machine): (r: Step)
    requires Valid(m)
    ensures Moves(m, r)
  {
    if m.pos + 1 == |m.text| then Halt(Stuck)
    else
      var c := m.text[m.pos + 1];
      var m1 := m.(pos := m.pos + 1);
      if IsDigit(c) then
        if c == '0' then Halt(Stuck) else Push(m1, m.info.argv[c as int - '1' as int])
      else if IsLower(c) then Push(m1, m.info.usrvar[c as int - 'a' as int])
      else Halt(Panic(ErrCode.CharNotFound))
  }

  /** `rpx_wvars`: copy the top into the register the next character names, without popping. */
  function StoreVar(m: Machine): (r: Step)
    requires Valid(m)
    ensures Moves(m, r)
  {
    if m.pos + 1 == |m.text| then Halt(Stuck)
    else
      var c := m.text[m.pos + 1];
      if !IsLower(c) || !m.stack[m.rsp].Val? then Halt(Stuck)
      else
        var info := m.info.(usrvar := m.info.usrvar[c as int - 'a' as int := m.stack[m.rsp].x]);
        Next(m.(pos := m.pos + 1, info := info))
  }

  /** `rpx_end`: write a terminator just after the `,` or `;`. */
  function End(m: Machine): (r: Step)
    requires Valid(m)
    ensures Moves(m, r)
  {
    if m.pos + 1 == |m.text| then Halt(Stuck)
    else Next(m.(text := m.text[m.pos + 1 := Nul]))
  }

  // ----------------------------------------------------------------- groups

  /** `rpx_grpbgn`: push a marker holding the current base and make it the base. */
  function GroupBegin(m: Machine): (r: Step)
    requires Valid(m)
    ensures Moves(m, r)
  {
    if m.rsp + 1 < StackSize then Next(m.(stack := m.stack[m.rsp + 1 := Marker(m.rbp)], rbp := m.rsp + 1, rsp := m.rsp + 1))
    else Halt(Stuck)
  }

  /** `rpx_grpend`: restore the base from the marker, then move the top down one slot. */
  function GroupEnd(m: Machine): (r: Step)
    requires Valid(m)
    ensures Moves(m, r)
  {
    match m.stack[m.rbp]
    case Marker(b) =>
      if b < StackSize && m.rsp > 0 then
        Next(m.(rbp := b, stack := m.stack[m.rsp - 1 := m.stack[m.rsp]], rsp := m.rsp - 1))
      else Halt(Stuck)
    case _ => Halt(Stuck)
  }

  // ------------------------------------------------------------ system `@`

  /** `(int)x`: truncation toward zero, defined only inside the range of `int`. */
  predicate IntConvertible(x: real) { -2147483649.0 < x < 2147483648.0 }

  function TruncInt(x: real): int {
    if x >= 0.0 then x.Floor else -((-x).Floor)
  }

  /** `rpx_sysfn`: `@a` last answer, `@h` history lookup, `@p` duplicate, `@s` stack pick, `@r` the next `rand()` draw. */
  function SysFn(m: Machine, lib: Libm): (r: Step)
    requires Valid(m)
    ensures Moves(m, r)
  {
    if m.pos + 1 == |m.text| then Halt(Stuck)
    else
      var c := m.text[m.pos + 1];
      var m1 := m.(pos := m.pos + 1);
      var top := m.stack[m.rsp];
      if c == 'a' then
        if 0 < m.info.histi <= BufSize then Push(m1, m.info.hist[m.info.histi - 1]) else Halt(Stuck)
      else if c == 'h' then
        if !top.Val? || !IntConvertible(top.x) then Halt(Stuck)
        else
          var k := m.info.histi - TruncInt(top.x) - 1;
          if 0 <= k < BufSize then Next(m1.(stack := m.stack[m.rsp := Val(m.info.hist[k])])) else Halt(Stuck)
      else if c == 'p' then
        if m.rsp + 1 < StackSize then Next(m1.(stack := m.stack[m.rsp + 1 := top], rsp := m.rsp + 1)) else Halt(Stuck)
      else if c == 's' then
        if !top.Val? || !IntConvertible(top.x) then Halt(Stuck)
        else
          var k := m.rsp - TruncInt(top.x) - 1;
          if 0 <= k < StackSize then Next(m1.(stack := m.stack[m.rsp := m.stack[k]])) else Halt(Stuck)
      else if c == 'r' then
        Next(m1.(stack := m.stack[m.rsp := Val(lib.rand(m.info.draws))], info := m.info.(draws := m.info.draws + 1)))
      else Next(m1)
  }

  // ------------------------------------------------------------------ table

  datatype Handler =
    | SpaceH | CallFnH | LoadVarH | StoreVarH | EndH | GroupBeginH | GroupEndH | ParseH | SysFnH | ConstH | IntFnH
    | FoldH(op: BinOp) | CollapseH(rel: Rel) | OverwriteH(f: Fn) | ScaleH(k: real) | TwoCharH(fam: Family)
    | NullH

  const RadiansPerDegree: real := PhyConst.MathPi / 180.0
  const DegreesPerRadian: real := 180.0 / PhyConst.MathPi

  /** `eval_table` from '!' to '/'; `NullH` for a `nullptr` entry. */
  const Punctuation: seq<Handler> :=
    [CallFnH, NullH, NullH]                                                     // '!' '"' '#'
    + [LoadVarH, FoldH(Mod), StoreVarH, NullH]                                  // '$' '%' '&' '''
    + [GroupBeginH, GroupEndH, FoldH(Times), FoldH(Plus)]                       // '(' ')' '*' '+'
    + [EndH, FoldH(Minus), NullH, FoldH(Over)]                                  // ',' '-' '.' '/'

  /** `eval_table` from '0' to '9': every digit starts a number. */
  const Digits: seq<Handler> := [ParseH, ParseH, ParseH, ParseH, ParseH, ParseH, ParseH, ParseH, ParseH, ParseH]

  /** `eval_table` from ':' to '~'. */
  const Symbols: seq<Handler> :=
    [NullH, EndH]                                                               // ':' ';'
    + [CollapseH(Less), CollapseH(Equal), CollapseH(Greater), NullH]            // '<' '=' '>' '?'
    + [SysFnH, OverwriteH(Fabs), NullH, OverwriteH(Ceil)]                       // '@' 'A' 'B' 'C'
    + [NullH, NullH, OverwriteH(Floor), NullH]                                  // 'D' 'E' 'F' 'G'
    + [NullH, NullH, NullH, NullH]                                              // 'H' 'I' 'J' 'K'
    + [NullH, NullH, NullH, NullH]                                              // 'L' 'M' 'N' 'O'
    + [NullH, NullH, OverwriteH(Round), NullH]                                  // 'P' 'Q' 'R' 'S'
    + [NullH, NullH, NullH, NullH]                                              // 'T' 'U' 'V' 'W'
    + [NullH, NullH, NullH, NullH]                                              // 'X' 'Y' 'Z' '['
    + [ConstH, NullH, FoldH(Pow), NullH]                                        // '\' ']' '^' '_'
    + [NullH, TwoCharH(Arc), NullH, OverwriteH(Cos)]                            // '`' 'a' 'b' 'c'
    + [ScaleH(DegreesPerRadian), NullH, NullH, OverwriteH(Tgamma)]              // 'd' 'e' 'f' 'g'
    + [TwoCharH(Hyp), IntFnH, NullH, NullH]                                     // 'h' 'i' 'j' 'k'
    + [TwoCharH(Log), ScaleH(-1.0), NullH, NullH]                               // 'l' 'm' 'n' 'o'
    + [NullH, NullH, ScaleH(RadiansPerDegree), OverwriteH(Sin)]                 // 'p' 'q' 'r' 's'
    + [OverwriteH(Tan), NullH, NullH, NullH]                                    // 't' 'u' 'v' 'w'
    + [NullH, NullH, NullH, NullH]                                              // 'x' 'y' 'z' '{'
    + [NullH, NullH, NullH]                                                     // '|' '}' '~'

  /** `eval_table`: one entry per character from ' ' to '~', the blank first. */
  const EvalTable: seq<Handler> := [SpaceH] + Punctuation + Digits + Symbols

  /** Neither the number handler nor the blank handler appears among '!' to '/', or among the digits but for the number handler. */
  lemma PunctuationFree()
    ensures |Punctuation| == 15 && |Digits| == 10
    ensures ParseH !in Punctuation && SpaceH !in Punctuation && SpaceH !in Digits
  {
  }

  /** Neither the number handler nor the blank handler appears among ':' to '~'. */
  lemma SymbolsFree()
    ensures |Symbols| == 69 && ParseH !in Symbols && SpaceH !in Symbols
  {
  }

  /** Entry `i` of `eval_table` starts a number exactly for the digits, and skips blanks exactly for ' '. */
  lemma TableSegments(i: nat)
    requires i < 95
    ensures |EvalTable| == 95
    ensures EvalTable[i] == ParseH <==> 16 <= i < 26
    ensures EvalTable[i] == SpaceH <==> i == 0
  {
    PunctuationFree();
    SymbolsFree();
    if i == 0 {
    } else if i < 16 {
      assert EvalTable[i] == Punctuation[i - 1];
    } else if i < 26 {
      assert EvalTable[i] == Digits[i - 16];
    } else {
      assert EvalTable[i] == Symbols[i - 26];
    }
  }

  /** `eval_table[c - ' ']`: digits, and only digits, start a number; only the blank skips blanks. */
  function Table(c: char): (h: Handler)
    requires ' ' <= c <= '~'
    ensures h == ParseH <==> IsDigit(c)
    ensures h == SpaceH <==> c == ' '
  {
    TableSegments(c as int - ' ' as int);
    EvalTable[c as int - ' ' as int]
  }

  /** Run handler `h` on state `m`. */
  function Dispatch(h: Handler, m: Machine, lib: Libm): (r: Step)
    requires Valid(m)
    requires h == ParseH ==> IsDigit(m.text[m.pos])
    requires h == SpaceH ==> IsSpace(m.text[m.pos])
    ensures Moves(m, r)
  {
    match h
    case SpaceH => Space(m)
    case CallFnH => Halt(Foreign)
    case LoadVarH => LoadVar(m)
    case StoreVarH => StoreVar(m)
    case EndH => End(m)
    case GroupBeginH => GroupBegin(m)
    case GroupEndH => GroupEnd(m)
    case ParseH => Number(m)
    case SysFnH => SysFn(m, lib)
    case ConstH => Const(m)
    case IntFnH => IntFnAsWritten(m, lib)
    case FoldH(op) => Fold(op, m, lib)
    case CollapseH(rel) => Collapse(rel, m, lib)
    case OverwriteH(f) => Overwrite(f, m, lib)
    case ScaleH(k) => Scale(k, m)
    case TwoCharH(fam) => TwoChar(fam, m, lib)
    case NullH => Halt(Stuck)
  }

  /** One dispatch: `eval_table[*expr - ' ']()`, undefined outside the table. */
  function Handle(m: Machine, lib: Libm): (r: Step)
    requires Valid(m) && m.text[m.pos] != Nul
    ensures Moves(m, r)
  {
    var c := m.text[m.pos];
    if ' ' <= c <= '~' then Dispatch(Table(c), m, lib) else Halt(Stuck)
  }

  // -------------------------------------------------------------- the loop

  /** The end of `eval_expr_real`: record the top in the history while there is room, and return it. */
  function Finish(m: Machine): (r: Outcome)
    requires Valid(m)
    ensures r.Done? <==> m.stack[m.rsp].Val?
    ensures !r.Done? ==> r == Stuck
    ensures r.Done? ==> r.value == m.stack[m.rsp].x && StoreOk(r.info) && r.info.usrvar == m.info.usrvar
    ensures r.Done? && m.info.histi < BufSize ==>
              r.info.histi == m.info.histi + 1 && r.info.hist == m.info.hist[m.info.histi := r.value]
    ensures r.Done? && m.info.histi >= BufSize ==> r.info == m.info
  {
    match m.stack[m.rsp]
    case Val(x) =>
      var info := if m.info.histi < BufSize then m.info.(hist := m.info.hist[m.info.histi := x], histi := m.info.histi + 1) else m.info;
      Done(x, info)
    case _ => Stuck
  }

  /** `for (; *expr; expr++) eval_table[*expr - ' ']();` from state `m`, then the history update. */
  function Run(m: Machine, lib: Libm): Outcome
    requires Valid(m)
    decreases |m.text| - m.pos, 1
  {
    if m.text[m.pos] == Nul then Finish(m) else Continue(m, Handle(m, lib), lib)
  }

  /** After one handler: stop on a halt, else advance past the character the handler finished on. */
  function Continue(m: Machine, r: Step, lib: Libm): Outcome
    requires Valid(m) && Moves(m, r)
    decreases |m.text| - m.pos, 0
  {
    match r
    case Halt(o) => o
    case Next(m1) => if m1.pos + 1 == |m1.text| then Stuck else Run(m1.(pos := m1.pos + 1), lib)
  }

  /** A fresh call: uninitialised stack, both pointers on slot 0, the cursor on the first character. */
  function Start(text: seq<char>, info: Store): (r: Machine)
    ensures StoreOk(info) && |text| > 0 ==> Valid(r)
    ensures forall k :: 0 <= k < |r.stack| ==> r.stack[k] == Unset
  {
    Machine(seq(StackSize, _ => Unset), 0, 0, text, 0, info)
  }

  /** `eval_expr_real(text)` against the store `info`; an empty buffer has no first character to read. */
  function EvalExprReal(text: seq<char>, info: Store, lib: Libm): Outcome
    requires StoreOk(info)
  {
    if |text| == 0 then Stuck else Run(Start(text, info), lib)
  }
}
