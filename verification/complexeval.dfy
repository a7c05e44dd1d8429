/**
 * The complex-number evaluator `evalExprComplex` of src/main.c. An
 * expression in reverse Polish notation is evaluated on a 64-slot stack of
 * tagged elements (src/elemop.c), with `(` ... `)` groups whose markers
 * remember the enclosing base, fold operators that combine a whole group,
 * registers, and a history of results kept across calls in the runtime
 * information (`rtinfo_t`).
 *
 * What the C code leaves undefined (an index outside its array, a union
 * member read that holds no value of that kind, a buffer that is not live)
 * ends an evaluation with None.
 */
module ComplexEval {
  import opened Wrappers
  import opened CType
  import opened CString
  import opened Cplx
  import opened MatOp
  import opened ElemOp
  import Chore
  import Rand
  import PhyConst
  import Strtod

  /** `buf_size`: the slots of the operand stack and of the history. */
  const BufSize: nat := 64
  /** `mat_init_size`: the entries the buffer of a matrix literal holds. */
  const MatInitSize: nat := 32
  /** One register per lower-case letter. */
  const RegCount: nat := 26
  /** `size_t` arithmetic is modulo 2^64. */
  const WordSize: nat := 0x1_0000_0000_0000_0000

  // ------------------------------------------------------------ runtime state

  /** `rtinfo_t`: the result history, the index of the latest result, the registers. */
  datatype RtInfo = RtInfo(hist: seq<Elem>, histi: nat, reg: seq<Elem>)

  predicate InfoOk(info: RtInfo) {
    && |info.hist| == BufSize && info.histi < WordSize && |info.reg| == RegCount
    && (forall k :: 0 <= k < BufSize ==> Sound(info.hist[k]))
    && (forall k :: 0 <= k < RegCount ==> Sound(info.reg[k]))
  }

  /** The runtime information that `getRuntimeInfo` copies out and `setRuntimeInfo` replaces. */
  class Runtime {
    var info: RtInfo

    /** The initial value: zeroed slots, and `histi = ~0UL`, one before slot 0. */
    constructor ()
      ensures InfoOk(info) && info.histi == WordSize - 1
      ensures forall k :: 0 <= k < BufSize ==> info.hist[k] == Blank
      ensures forall k :: 0 <= k < RegCount ==> info.reg[k] == Blank
    {
      info := RtInfo(seq(BufSize, _ => Blank), WordSize - 1, seq(RegCount, _ => Blank));
    }
  }

  /** The complex functions of `<tgmath.h>` that the evaluator calls. */
  datatype Fn = Sin | Cos | Tan | Asin | Acos | Atan | Sinh | Cosh | Tanh | Log

  /**
   * What the evaluator takes from the C library: what the element operations
   * take (`pow`, division by zero, `eq`), the complex functions, `fabs` of a
   * complex value, the real `log`, and the value of `NAN`.
   */
  datatype Libc = Libc(elem: CLib, apply: (Fn, Complex) -> Complex, cabs: Complex -> real,
                       rlog: real -> real, nan: real)

  /** How a handler ends: go on with the next character, stop at `end:`, or undefined behaviour. */
  datatype Flow = Proceed | Finish | Undef

  // ----------------------------------------------------------- stack registers

  /** The operand stack with the indices of its top (`rsp`) and of the innermost group's base (`rbp`). */
  datatype Regs = Regs(stack: seq<Elem>, rsp: nat, rbp: nat)

  predicate RegsOk(g: Regs) {
    |g.stack| == BufSize && g.rsp < BufSize && g.rbp < BufSize
  }

  /** A push of a whole element: the slot above the top takes it and becomes the top. */
  function Push(g: Regs, e: Elem): (r: Option<Regs>)
    requires RegsOk(g)
    ensures r.Some? <==> g.rsp + 1 < BufSize
    ensures r.Some? ==> RegsOk(r.value)
  {
    if g.rsp + 1 < BufSize then Some(g.(stack := g.stack[g.rsp + 1 := e], rsp := g.rsp + 1)) else None
  }

  /**
   * `(`: the slot above the top records the base's index over its value
   * (the tag stays), and becomes both the top and the new base.
   */
  function Open(g: Regs): (r: Option<Regs>)
    requires RegsOk(g)
    ensures r.Some? <==> g.rsp + 1 < BufSize
    ensures r.Some? ==> RegsOk(r.value)
  {
    var k := g.rsp + 1;
    if k < BufSize then Some(Regs(g.stack[k := Elem(g.stack[k].rtype, Offset(g.rbp))], k, k)) else None
  }

  /**
   * `*(long *)&e.elem.real`: the index a group marker holds; 0 from a
   * number whose real part is zero; a matrix's row count, its first word.
   * None for the other bit patterns of a double, which name no slot.
   */
  function MarkerOffset(e: Elem): Option<nat> {
    match e.val
    case Offset(k) => Some(k)
    case Num(z) => if z.re == 0.0 then Some(0) else None
    case Mat(m) => Some(m.rows)
  }

  /** `)`: the base goes back to the index in the marker, and the top value moves down one slot, onto the marker. */
  function Close(g: Regs): (r: Option<Regs>)
    requires RegsOk(g)
    ensures r.Some? ==> RegsOk(r.value)
  {
    match MarkerOffset(g.stack[g.rbp])
    case None => None
    case Some(k) =>
      if k < BufSize && g.rsp >= 1 then Some(Regs(g.stack[g.rsp - 1 := g.stack[g.rsp]], g.rsp - 1, k)) else None
  }

  /** A group opened on `g`, holding one pushed element, then closed: one element higher, base restored. */
  lemma GroupRoundTrip(g: Regs, e: Elem)
    requires RegsOk(g) && g.rsp + 2 < BufSize
    ensures Open(g).Some? && Push(Open(g).value, e).Some?
    ensures Close(Push(Open(g).value, e).value) ==
            Some(Regs(g.stack[g.rsp + 1 := e][g.rsp + 2 := e], g.rsp + 1, g.rbp))
  {
    var k := g.rsp + 1;
    var inner := Push(Open(g).value, e).value;
    assert inner.stack[inner.rbp] == Elem(g.stack[k].rtype, Offset(g.rbp));
    assert inner.stack[inner.rsp - 1 := inner.stack[inner.rsp]] == g.stack[k := e][k + 1 := e];
  }

  /**
   * `(++rsp)->elem.comp = z`, as the `\` and `@r` operators write it: the
   * value goes in, but the slot keeps whatever tag it had before.
   */
  function PushValueAsWritten(g: Regs, z: Complex): (r: Option<Regs>)
    requires RegsOk(g)
    ensures r.Some? ==> RegsOk(r.value) && r.value.stack[r.value.rsp].val == Num(z)
  {
    if g.rsp + 1 < BufSize then
      Some(g.(stack := g.stack[g.rsp + 1 := Elem(g.stack[g.rsp + 1].rtype, Num(z))], rsp := g.rsp + 1))
    else None
  }

  /**
   * On a fresh stack, `\P` as written leaves pi under the zero tag of an
   * unused slot; `elem_div` then takes that slot for a matrix, so `\P 2 /`
   * does not divide pi by 2 (in the model, the division is undefined).
   */
  lemma ConstantKeepsStaleTag(g: Regs, live: set<object>)
    requires RegsOk(g) && g.rsp == 0 && g.stack[1] == Blank && g.stack[2] == Blank
    ensures var h := PushValueAsWritten(g, FromReal(PhyConst.MathPi)).value;
            && h.stack[1].rtype == NoType
            && !DivOk(live, h.stack[1], Elem(CompT, Num(FromReal(2.0))))
    ensures var h := Push(g, Elem(CompT, Num(FromReal(PhyConst.MathPi)))).value;
            DivOk(live, h.stack[1], Elem(CompT, Num(FromReal(2.0))))
  {
  }

  // ------------------------------------------------------ top-of-stack operators

  /** The operators that overwrite the top value in place. */
  datatype Unary = Fabs | Call(f: Fn) | ToRadian | ToDegree | Negate | TimesI

  function UnaryValue(u: Unary, z: Complex, lib: Libc): Complex {
    match u
    case Fabs => FromReal(lib.cabs(z))
    case Call(f) => lib.apply(f, z)
    case ToRadian => Mul(z, FromReal(PhyConst.MathPi / 180.0))
    case ToDegree => Mul(z, FromReal(180.0 / PhyConst.MathPi))
    case Negate => Mul(z, FromReal(-1.0))
    case TimesI => Mul(z, I)
  }

  /** The top slot's value replaced by `u` of it, its tag kept; None when the top holds no value. */
  function MapTop(g: Regs, u: Unary, lib: Libc): (r: Option<Regs>)
    requires RegsOk(g)
    ensures r.Some? <==> g.stack[g.rsp].val.Num?
    ensures r.Some? ==> RegsOk(r.value) && r.value.rsp == g.rsp && r.value.rbp == g.rbp
  {
    var top := g.stack[g.rsp];
    if top.val.Num? then Some(g.(stack := g.stack[g.rsp := Elem(top.rtype, Num(UnaryValue(u, top.val.z, lib)))]))
    else None
  }

  /** `m` negates, and `i` twice is `m`. */
  lemma NegateAndTimesI(z: Complex, lib: Libc)
    ensures UnaryValue(Negate, z, lib) == Neg(z)
    ensures UnaryValue(TimesI, UnaryValue(TimesI, z, lib), lib) == Neg(z)
  {
  }

  /** `r` then `d` gives the value back: the two factors are reciprocal. */
  lemma RadianDegree(g: Regs, lib: Libc)
    requires RegsOk(g) && g.stack[g.rsp].val.Num?
    ensures MapTop(g, ToRadian, lib).Some?
    ensures MapTop(MapTop(g, ToRadian, lib).value, ToDegree, lib) == Some(g)
  {
    var z := g.stack[g.rsp].val.z;
    var a, b := PhyConst.MathPi / 180.0, 180.0 / PhyConst.MathPi;
    assert a * b == 1.0;
    var w := UnaryValue(ToRadian, z, lib);
    assert w == Complex(z.re * a, z.im * a);
    assert UnaryValue(ToDegree, w, lib) == Complex(z.re * a * b, z.im * a * b);
    assert UnaryValue(ToDegree, w, lib) == z;
    var top := g.stack[g.rsp];
    var g1 := MapTop(g, ToRadian, lib).value;
    assert g1 == g.(stack := g.stack[g.rsp := Elem(top.rtype, Num(w))]);
    assert g1.stack[g1.rsp] == Elem(top.rtype, Num(w));
    assert g.stack[g.rsp := Elem(top.rtype, Num(z))] == g.stack;
    assert MapTop(g1, ToDegree, lib).value.stack == g.stack;
  }

  /** The operators that combine the top with the slot below it. */
  datatype Pair = LogBase | Polar

  /** `L` takes the log of `y` in base `x`'s real part; `p` makes `y` a modulus and `x` an angle. */
  function PairValue(p: Pair, y: Complex, x: Complex, lib: Libc): Complex {
    match p
    case LogBase => Quot(lib.apply(Log, y), FromReal(lib.rlog(x.re)), lib.elem)
    case Polar => Add(Mul(y, lib.apply(Cos, x)), Mul(Mul(I, y), lib.apply(Sin, x)))
  }

  /** The top popped, and the value below it replaced by `p` of the two, its tag kept. */
  function MapPair(g: Regs, p: Pair, lib: Libc): (r: Option<Regs>)
    requires RegsOk(g)
    ensures r.Some? <==> g.rsp >= 1 && g.stack[g.rsp].val.Num? && g.stack[g.rsp - 1].val.Num?
    ensures r.Some? ==> RegsOk(r.value) && r.value.rsp + 1 == g.rsp && r.value.rbp == g.rbp
  {
    if g.rsp >= 1 && g.stack[g.rsp].val.Num? && g.stack[g.rsp - 1].val.Num? then
      var below := g.stack[g.rsp - 1];
      var v := PairValue(p, below.val.z, g.stack[g.rsp].val.z, lib);
      Some(Regs(g.stack[g.rsp - 1 := Elem(below.rtype, Num(v))], g.rsp - 1, g.rbp))
    else None
  }

  // ------------------------------------------------------------ fold operators

  /** The fold operators `+ - * / ^` and the element operation each one applies. */
  datatype FoldOp = Plus | Minus | Star | Slash | Caret

  /** What a fold operator does to two numbers. */
  function Combine(op: FoldOp, a: Complex, b: Complex, lib: CLib): Complex {
    match op
    case Plus => Add(a, b)
    case Minus => Sub(a, b)
    case Star => Mul(a, b)
    case Slash => Quot(a, b, lib)
    case Caret => lib.pow(a, b)
  }

  /** The value a fold leaves at the group's first slot: `acc`, combined with each later value from the top down. */
  function NumFold(op: FoldOp, acc: Complex, vals: seq<Complex>, lib: CLib): Complex
    decreases |vals|
  {
    if vals == [] then acc
    else NumFold(op, Combine(op, acc, vals[|vals| - 1], lib), vals[..|vals| - 1], lib)
  }

  /** The first value of a fold is combined last. */
  lemma {:induction false} NumFoldFirst(op: FoldOp, acc: Complex, x: Complex, rest: seq<Complex>, lib: CLib)
    ensures NumFold(op, acc, [x] + rest, lib) == Combine(op, NumFold(op, acc, rest, lib), x, lib)
    decreases |rest|
  {
    if rest == [] {
      assert [x] + rest == [x];
      assert [x][..0] == [];
    } else {
      var last, init := rest[|rest| - 1], rest[..|rest| - 1];
      assert ([x] + rest)[..|rest|] == [x] + init;
      NumFoldFirst(op, Combine(op, acc, last, lib), x, init, lib);
    }
  }

  /** The sum of some values. */
  function Total(vals: seq<Complex>): Complex
    decreases |vals|
  {
    if vals == [] then Zero else Add(Total(vals[..|vals| - 1]), vals[|vals| - 1])
  }

  /** `+` folds a group into its sum. */
  lemma {:induction false} FoldSum(acc: Complex, vals: seq<Complex>, lib: CLib)
    ensures NumFold(Plus, acc, vals, lib) == Add(acc, Total(vals))
    decreases |vals|
  {
    if vals != [] {
      var last, init := vals[|vals| - 1], vals[..|vals| - 1];
      FoldSum(Add(acc, last), init, lib);
    }
  }

  /** `-` folds a group into its first value minus the sum of the others. */
  lemma {:induction false} FoldDifference(acc: Complex, vals: seq<Complex>, lib: CLib)
    ensures NumFold(Minus, acc, vals, lib) == Sub(acc, Total(vals))
    decreases |vals|
  {
    if vals != [] {
      var last, init := vals[|vals| - 1], vals[..|vals| - 1];
      FoldDifference(Sub(acc, last), init, lib);
    }
  }

  /** Every slot of the innermost group, above its base, holds a COMP number. */
  predicate NumberGroup(g: Regs)
    requires RegsOk(g)
  {
    forall k :: g.rbp < k <= g.rsp ==> g.stack[k].rtype == CompT && g.stack[k].val.Num?
  }

  /** The values of the slots from `lo` up to `hi`, which hold numbers. */
  function Values(s: seq<Elem>, lo: nat, hi: nat): (r: seq<Complex>)
    requires lo <= hi <= |s|
    requires forall k :: lo <= k < hi ==> s[k].val.Num?
    ensures |r| == hi - lo && forall k :: 0 <= k < |r| ==> r[k] == s[lo + k].val.z
  {
    seq(hi - lo, k requires 0 <= k < hi - lo => s[lo + k].val.z)
  }

  /** A fold over a group of numbers: the first slot holds the fold, which becomes the top. */
  function FoldNumbers(g: Regs, op: FoldOp, lib: CLib): (r: Regs)
    requires RegsOk(g) && NumberGroup(g)
    ensures RegsOk(r) && r.rbp == g.rbp
  {
    if g.rbp + 1 < g.rsp then
      var acc := NumFold(op, g.stack[g.rbp + 1].val.z, Values(g.stack, g.rbp + 2, g.rsp + 1), lib);
      Regs(g.stack[g.rbp + 1 := Elem(CompT, Num(acc))], g.rbp + 1, g.rbp)
    else g
  }

  /** The group's first slot and the top both hold COMP numbers. */
  predicate NumberEnds(g: Regs)
    requires RegsOk(g) && g.rbp < g.rsp
  {
    && g.stack[g.rbp + 1].rtype == CompT && g.stack[g.rbp + 1].val.Num?
    && g.stack[g.rsp].rtype == CompT && g.stack[g.rsp].val.Num?
  }

  /** One step of a fold on the registers: the top is combined into the group's first slot and popped. */
  function FoldTop(g: Regs, op: FoldOp, lib: CLib): (r: Regs)
    requires RegsOk(g) && g.rbp + 1 < g.rsp
    requires g.stack[g.rbp + 1].val.Num? && g.stack[g.rsp].val.Num?
    ensures RegsOk(r) && r.rbp == g.rbp && r.rsp + 1 == g.rsp
  {
    var acc := Combine(op, g.stack[g.rbp + 1].val.z, g.stack[g.rsp].val.z, lib);
    Regs(g.stack[g.rbp + 1 := Elem(CompT, Num(acc))], g.rsp - 1, g.rbp)
  }

  /** A fold of a number group stopped with slot `m` on top: the slots above `m` are combined into the first slot. */
  ghost function FoldedTo(g: Regs, op: FoldOp, m: nat, lib: CLib): (r: Regs)
    requires RegsOk(g) && NumberGroup(g) && g.rbp + 1 <= m <= g.rsp
    ensures RegsOk(r) && r.rbp == g.rbp && r.rsp == m && NumberEnds(r)
  {
    var acc := NumFold(op, g.stack[g.rbp + 1].val.z, Values(g.stack, m + 1, g.rsp + 1), lib);
    Regs(g.stack[g.rbp + 1 := Elem(CompT, Num(acc))], m, g.rbp)
  }

  /** Before the first step nothing is folded; after the last the group is its `FoldNumbers`. */
  lemma FoldedToEnds(g: Regs, op: FoldOp, lib: CLib)
    requires RegsOk(g) && NumberGroup(g) && g.rbp + 1 < g.rsp
    ensures FoldedTo(g, op, g.rsp, lib) == g
    ensures FoldedTo(g, op, g.rbp + 1, lib) == FoldNumbers(g, op, lib)
  {
    assert g.stack[g.rbp + 1 := Elem(CompT, Num(g.stack[g.rbp + 1].val.z))] == g.stack;
  }

  /** Each step of the loop moves the fold down by one slot. */
  lemma FoldedToStep(g: Regs, op: FoldOp, m: nat, lib: CLib)
    requires RegsOk(g) && NumberGroup(g) && g.rbp + 1 < m <= g.rsp
    ensures FoldTop(FoldedTo(g, op, m, lib), op, lib) == FoldedTo(g, op, m - 1, lib)
  {
    var z, x, rest := g.stack[g.rbp + 1].val.z, g.stack[m].val.z, Values(g.stack, m + 1, g.rsp + 1);
    assert Values(g.stack, m, g.rsp + 1) == [x] + rest;
    NumFoldFirst(op, z, x, rest, lib);
    var f, acc := FoldedTo(g, op, m, lib), NumFold(op, z, [x] + rest, lib);
    assert f.stack[m] == g.stack[m] && f.stack[g.rbp + 1].val.z == NumFold(op, z, rest, lib);
    assert f.stack[g.rbp + 1 := Elem(CompT, Num(acc))] == g.stack[g.rbp + 1 := Elem(CompT, Num(acc))];
  }

  // -------------------------------------------------------------------- `=`

  /** The buffers that matrix payloads in `s` point at. */
  function SlotBlocks(s: seq<Elem>): set<object> {
    set k, a | 0 <= k < |s| && a in Block(s[k]) :: a
  }

  /** Slots `k - 1` and `k` of `s` are equal under `elem_eq`. */
  predicate PairEqual(live: set<object>, s: seq<Elem>, k: nat, lib: CLib)
    requires 0 < k < |s|
    reads SlotBlocks(s)
  {
    assert Block(s[k - 1]) <= SlotBlocks(s) && Block(s[k]) <= SlotBlocks(s);
    Equal(live, s[k - 1], s[k], lib) == Some(true)
  }

  /**
   * The scan of `=`: neighbouring slots compared from `hi` down to `lo`,
   * stopping at the first unequal pair; Some(true) when every pair is equal.
   */
  function RunEqual(live: set<object>, s: seq<Elem>, lo: nat, hi: nat, lib: CLib): (r: Option<bool>)
    requires hi < |s|
    reads SlotBlocks(s)
    ensures r == Some(true) <==> forall k :: lo < k <= hi ==> PairEqual(live, s, k, lib)
    decreases hi
  {
    if hi <= lo then Some(true)
    else
      assert Block(s[hi - 1]) <= SlotBlocks(s) && Block(s[hi]) <= SlotBlocks(s);
      match Equal(live, s[hi - 1], s[hi], lib)
      case None => assert !PairEqual(live, s, hi, lib); None
      case Some(false) => assert !PairEqual(live, s, hi, lib); Some(false)
      case Some(true) => RunEqual(live, s, lo, hi - 1, lib)
  }

  /** The flag `=` leaves: the scan reached the group's first slot, which exists. */
  function Flag(b: bool): (r: Complex)
    ensures r.im == 0.0 && (r.re == 1.0 <==> b) && (r.re == 0.0 <==> !b)
  {
    FromReal(if b then 1.0 else 0.0)
  }

  /**
   * `(rbp + 1)->elem.real = flag`, as written: only the real part is
   * replaced; the tag and the imaginary part of the slot stay. None when the
   * slot holds no number (the write then lands in another member).
   */
  function FlagAsWritten(slot: Elem, b: bool): (r: Option<Elem>)
    ensures r.Some? <==> slot.val.Num?
    ensures r.Some? ==> r.value.rtype == slot.rtype && r.value.val.Num?
    ensures r.Some? ==> r.value.val.z.im == slot.val.z.im && (r.value.val.z.re == 1.0 <==> b) && (r.value.val.z.re == 0.0 <==> !b)
  {
    if slot.val.Num? then Some(Elem(slot.rtype, Num(Complex(if b then 1.0 else 0.0, slot.val.z.im)))) else None
  }

  /** `2i =`: the group is one slot, so the flag is 1, but as written the slot then holds 1+2i. */
  lemma FlagKeepsImaginaryPart()
    ensures FlagAsWritten(Elem(CompT, Num(Complex(0.0, 2.0))), true) == Some(Elem(CompT, Num(Complex(1.0, 2.0))))
    ensures Elem(CompT, Num(Flag(true))) == Elem(CompT, Num(Complex(1.0, 0.0)))
  {
  }

  /**
   * The `eq` overload for elements (src/main.c:431-445): different tags
   * are unequal; REAL and COMP compare with the `eq` of their value type;
   * MATR calls the matrix overload `eq(matrix_t const *, matrix_t const *)`,
   * whose body is not part of this model, so it is the parameter `meq`.
   * None for LAMB (strings are not modelled) and for a union member that
   * holds no value of its tag's kind.
   */
  function ElemEqual(lhs: Elem, rhs: Elem, req: (real, real) -> bool, ceq: (Complex, Complex) -> bool,
                     meq: (Matrix, Matrix) -> bool): (r: Option<bool>)
    ensures lhs.rtype != rhs.rtype ==> r == Some(false)
    ensures r == Some(true) ==> lhs.rtype == rhs.rtype && lhs.rtype in {RealT, CompT, MatrT}
    ensures lhs.rtype == rhs.rtype && lhs.rtype in {RealT, CompT} ==>
              (r.Some? <==> lhs.val.Num? && rhs.val.Num?)
    ensures lhs.rtype == rhs.rtype == MatrT ==> (r.Some? <==> lhs.val.Mat? && rhs.val.Mat?)
    ensures lhs.rtype == rhs.rtype == MatrT && r.Some? ==> r.value == meq(lhs.val.m, rhs.val.m)
    ensures lhs.rtype == rhs.rtype == LambT ==> r.None?
  {
    if lhs.rtype != rhs.rtype then Some(false)
    else match lhs.rtype
      case RealT => if lhs.val.Num? && rhs.val.Num? then Some(req(lhs.val.z.re, rhs.val.z.re)) else None
      case CompT => if lhs.val.Num? && rhs.val.Num? then Some(ceq(lhs.val.z, rhs.val.z)) else None
      case MatrT => if lhs.val.Mat? && rhs.val.Mat? then Some(meq(lhs.val.m, rhs.val.m)) else None
      case LambT => None
      case NoType => Some(false)
  }

  /**
   * The `eq` overload and `elem_eq` agree on COMP numbers and on
   * different tags. On matrices they agree whenever the matrix overload
   * answers as `meq` does.
   */
  lemma ElemEqualAgreesWithElemEq(live: set<object>, lhs: Elem, rhs: Elem, lib: CLib,
                                  req: (real, real) -> bool, meq: (Matrix, Matrix) -> bool)
    requires lhs.rtype != rhs.rtype || (lhs.rtype == CompT && lhs.val.Num? && rhs.val.Num?)
             || (lhs.rtype == rhs.rtype == MatrT && Owns(live, lhs) && Owns(live, rhs))
    ensures lhs.rtype != rhs.rtype || lhs.rtype == CompT ==> ElemEqual(lhs, rhs, req, lib.eq, meq) == Equal(live, lhs, rhs, lib)
    ensures lhs.rtype == rhs.rtype == MatrT && meq(lhs.val.m, rhs.val.m) == SameEntries(lhs.val.m, rhs.val.m, lib) ==>
              ElemEqual(lhs, rhs, req, lib.eq, meq) == Equal(live, lhs, rhs, lib)
  {
  }

  // ------------------------------------------------------------------ history

  /** The block `elem_set` releases when it overwrites `e`: a matrix's buffer. */
  function Displaced(e: Elem): set<object> {
    if e.rtype == MatrT && e.val.Mat? then {e.val.m.data} else {}
  }

  /** `elem_set` may overwrite `e`: no matrix tag, or a live buffer to release. */
  predicate Overwritable(live: set<object>, e: Elem) {
    e.rtype == MatrT ==> Owns(live, e)
  }

  /** The slot `++histi` names: the one after `histi`, in `size_t` arithmetic. */
  function NextIndex(histi: nat): (r: nat)
    requires histi < WordSize
    ensures r < WordSize && (histi + 1 < WordSize ==> r == histi + 1) && (histi == WordSize - 1 ==> r == 0)
  {
    (histi + 1) % WordSize
  }

  /**
   * The write to the history at `end:`, as intended: the result is
   * appended whole at the slot after `histi`, which `histi` then names,
   * releasing a matrix the slot held; once slot `buf_size - 1` is taken the
   * history is full and nothing more is recorded. The new information and
   * the blocks released; None when the slot's matrix is not live.
   */
  function Record(info: RtInfo, top: Elem, live: set<object>): (r: Option<(RtInfo, set<object>)>)
    requires InfoOk(info)
    ensures NextIndex(info.histi) >= BufSize ==> r == Some((info, {}))
    ensures NextIndex(info.histi) < BufSize ==> (r.None? <==> !Overwritable(live, info.hist[NextIndex(info.histi)]))
    ensures r.Some? ==> Sound(top) ==> InfoOk(r.value.0)
    ensures r.Some? ==> |r.value.0.hist| == BufSize && r.value.0.reg == info.reg
    ensures r.Some? && NextIndex(info.histi) < BufSize ==>
              && r.value.0.histi == NextIndex(info.histi) && r.value.0.hist[r.value.0.histi] == top
              && r.value.1 == Displaced(info.hist[r.value.0.histi])
              && forall k :: 0 <= k < BufSize && k != r.value.0.histi ==> r.value.0.hist[k] == info.hist[k]
  {
    var idx := NextIndex(info.histi);
    if idx >= BufSize then Some((info, {}))
    else
      var prev := info.hist[idx];
      if Overwritable(live, prev) then Some((RtInfo(info.hist[idx := top], idx, info.reg), Displaced(prev)))
      else None
  }

  /**
   * The new information after `end:` as written: a matrix goes whole to
   * `hist[++histi]` with no bound on the index; anything else only when
   * `histi < buf_size`, and then only its complex value, under the slot's
   * old tag; otherwise nothing changes. None when the write lands outside
   * the history or reads a union member that holds no number.
   */
  function WriteBackAsWritten(info: RtInfo, top: Elem): (r: Option<RtInfo>)
    requires InfoOk(info)
    ensures top.rtype != MatrT && info.histi >= BufSize ==> r == Some(info)
    ensures r.Some? ==> |r.value.hist| == BufSize && r.value.reg == info.reg
    ensures r.Some? && Sound(top) ==> InfoOk(r.value)
    ensures r.None? <==>
              if top.rtype == MatrT then NextIndex(info.histi) >= BufSize
              else info.histi < BufSize && (info.histi + 1 >= BufSize || !top.val.Num?)
    ensures r.Some? && r.value != info ==>
              && r.value.histi == NextIndex(info.histi) < BufSize
              && (top.rtype == MatrT ==> r.value.hist[r.value.histi] == top)
              && (top.rtype != MatrT ==> r.value.hist[r.value.histi] == Elem(info.hist[r.value.histi].rtype, top.val))
              && forall k :: 0 <= k < BufSize && k != r.value.histi ==> r.value.hist[k] == info.hist[k]
  {
    if top.rtype == MatrT then
      var idx := NextIndex(info.histi);
      if idx >= BufSize then None else Some(RtInfo(info.hist[idx := top], idx, info.reg))
    else if info.histi < BufSize then
      var idx := info.histi + 1;
      if idx >= BufSize || !top.val.Num? then None
      else Some(RtInfo(info.hist[idx := Elem(info.hist[idx].rtype, Num(top.val.z))], idx, info.reg))
    else Some(info)
  }

  /**
   * The write to the history at `end:` as written, with the blocks it
   * releases: a matrix stored over a slot that held one frees that slot's
   * buffer, which must be live. None where `WriteBackAsWritten` is, or when
   * that buffer is not live.
   */
  function RecordAsWritten(info: RtInfo, top: Elem, live: set<object>): (r: Option<(RtInfo, set<object>)>)
    requires InfoOk(info)
    ensures r.Some? ==> WriteBackAsWritten(info, top) == Some(r.value.0)
    ensures WriteBackAsWritten(info, top).None? ==> r.None?
    ensures top.rtype != MatrT ==> r == (match WriteBackAsWritten(info, top) case None => None case Some(i) => Some((i, {})))
    ensures top.rtype == MatrT && r.Some? ==>
              var prev := info.hist[NextIndex(info.histi)];
              Overwritable(live, prev) && r.value.1 == Displaced(prev)
  {
    match WriteBackAsWritten(info, top)
    case None => None
    case Some(next) =>
      if top.rtype == MatrT then
        var prev := info.hist[next.histi];
        if Overwritable(live, prev) then Some((next, Displaced(prev))) else None
      else Some((next, {}))
  }

  /**
   * From the initial `histi = ~0UL`, a number result is not recorded at all
   * as written, so a following `@a` reads `hist[~0UL]`; the append records
   * it in slot 0.
   */
  lemma FirstResultNotRecorded(info: RtInfo, z: Complex, live: set<object>)
    requires InfoOk(info) && info.histi == WordSize - 1 && info.hist[0] == Blank
    ensures RecordAsWritten(info, Elem(CompT, Num(z)), live) == Some((info, {}))
    ensures Record(info, Elem(CompT, Num(z)), live) ==
            Some((RtInfo(info.hist[0 := Elem(CompT, Num(z))], 0, info.reg), {}))
  {
  }

  /**
   * With `histi == 63`, a number result is written to `hist[64]`, past the
   * array; the append finds the history full and leaves it as it is.
   */
  lemma LastSlotOverrun(info: RtInfo, z: Complex, live: set<object>)
    requires InfoOk(info) && info.histi == BufSize - 1
    ensures RecordAsWritten(info, Elem(CompT, Num(z)), live) == None
    ensures Record(info, Elem(CompT, Num(z)), live) == Some((info, {}))
  {
  }

  // ------------------------------------------------------------ number parsing

  /** The first position at or after `i` that is not white space. */
  function SkipBlank(t: seq<char>, i: nat): (r: nat)
    requires i <= |t|
    ensures i <= r <= |t| && (r < |t| ==> !IsSpace(t[r]))
    decreases |t| - i
  {
    if i < |t| && IsSpace(t[i]) then SkipBlank(t, i + 1) else i
  }

  const LongMin: int := -0x8000_0000_0000_0000
  const LongMax: int := 0x7fff_ffff_ffff_ffff

  /**
   * `strtol(t + i, &end, 10)`: white space skipped, an optional sign, then
   * decimal digits; the value clamped to the range of `long`. Without any
   * digit the value is 0 and the end is `i`.
   */
  function StrToL(t: seq<char>, i: nat): (r: (int, nat))
    requires i < |t|
    ensures i <= r.1 < |t| && LongMin <= r.0 <= LongMax
    ensures r.1 > i ==> !IsDigit(t[r.1])
  {
    var j := SkipBlank(t, i);
    var neg := j < |t| && t[j] == '-';
    var d := if j < |t| && t[j] in "+-" then j + 1 else j;
    match Strtod.RunEnd(t, d, false)
    case None => (0, i)
    case Some(e) =>
      if e == d then (0, i)
      else
        var v := Strtod.RunValue(t, d, e, false);
        var s: int := if neg then -(v as int) else v;
        (if s < LongMin then LongMin else if s > LongMax then LongMax else s, e)
  }

  /** `(size_t)` of a `long`: modulo 2^64. */
  function ToSizeT(v: int): (r: nat)
    requires LongMin <= v <= LongMax
    ensures r < WordSize && (0 <= v ==> r == v)
    ensures v < 0 ==> r == v + WordSize
  {
    if v < 0 then v + WordSize else v
  }

  /** `(size_t)x` of a double: the whole part; None outside (-1, 2^64), where the conversion is undefined. */
  function SizeOfReal(x: real): (r: Option<nat>)
    ensures r.Some? ==> r.value < WordSize && r.value as real <= Abs(x) < r.value as real + 1.0
  {
    if -1.0 < x < WordSize as real then Some(if x < 0.0 then 0 else x.Floor) else None
  }

  /** `(int)x` of a double: truncated toward zero; None outside the range of `int`. */
  function IntOfReal(x: real): (r: Option<int>)
    ensures r.Some? ==> -0x8000_0000 <= r.value < 0x8000_0000
    ensures r.Some? && x >= 0.0 ==> r.value as real <= x < r.value as real + 1.0
    ensures r.Some? && x < 0.0 ==> r.value as real - 1.0 < x <= r.value as real
  {
    if -2147483649.0 < x < 2147483648.0 then Some(if x < 0.0 then -((-x).Floor) else x.Floor) else None
  }

  // ---------------------------------------------------------- matrix literals

  /**
   * The positions where the entries of a matrix literal start, from `i`:
   * each entry runs until just past its ',' (`skip_untilcomma`); the list
   * ends at ']'. At most `n` positions are listed.
   */
  function EntryStarts(t: seq<char>, i: nat, n: nat): (r: seq<nat>)
    ensures |r| <= n
    decreases n
  {
    if n == 0 || i >= |t| || t[i] == ']' then []
    else [i] + EntryStarts(t, Chore.AfterComma(t, i), n - 1)
  }

  /** The text of `[2 1,2,3,4,]`, with its terminator. */
  const SampleLiteral: seq<char> := "[2 1,2,3,4,]\0"

  /** `[2 1,2,3,4,]` declares 2 columns and holds 4 entries, so it is 2 by 2. */
  lemma SampleLiteralShape()
    ensures StrToL(SampleLiteral, 1) == (2, 2)
    ensures EntryStarts(SampleLiteral, 2, MatInitSize + 1) == [2, 5, 7, 9]
    ensures |EntryStarts(SampleLiteral, 2, MatInitSize + 1)| / StrToL(SampleLiteral, 1).0 == 2
  {
    var t := SampleLiteral;
    assert SkipBlank(t, 1) == 1;
    assert Strtod.RunEnd(t, 1, false) == Some(2) by { Strtod.RunEndAt(t, 1, 2, false); }
    assert t[2] == ' ' && t[3] == '1' && t[4] == ',';
    assert Chore.AfterComma(t, 4) == 5;
    assert Chore.AfterComma(t, 3) == 5;
    assert Chore.AfterComma(t, 2) == 5;
    assert Chore.AfterComma(t, 5) == 7;
    assert Chore.AfterComma(t, 7) == 9;
    assert Chore.AfterComma(t, 9) == 11;
  }

  /** The history slot `@h` reads: `histi - (size_t)x` for the top's real part `x`, when that slot exists. */
  function HistoryIndex(info: RtInfo, top: Elem): (r: Option<nat>)
    ensures r.Some? ==> r.value < BufSize
  {
    if !top.val.Num? then None
    else match SizeOfReal(top.val.z.re)
      case None => None
      case Some(n) =>
        var idx := (info.histi - n) % WordSize;
        if idx < BufSize then Some(idx) else None
  }

  /** The stack slot `@s` reads: `rsp - (int)x - 1` for the top's real part `x`, when that slot exists. */
  function StackIndex(g: Regs): (r: Option<nat>)
    requires RegsOk(g)
    ensures r.Some? ==> r.value < BufSize
  {
    var top := g.stack[g.rsp];
    if !top.val.Num? then None
    else match IntOfReal(top.val.z.re)
      case None => None
      case Some(k) =>
        var t := g.rsp - k - 1;
        if 0 <= t < BufSize then Some(t) else None
  }

  /** Right after a result is recorded, `@h` of 0 reads it back, as `@a` does. */
  lemma RecordedThenRead(info: RtInfo, top: Elem, live: set<object>, tag: RType)
    requires InfoOk(info) && NextIndex(info.histi) < BufSize && Record(info, top, live).Some?
    ensures var next := Record(info, top, live).value.0;
            && HistoryIndex(next, Elem(tag, Num(Zero))) == Some(next.histi)
            && next.hist[next.histi] == top
  {
    var next := Record(info, top, live).value.0;
    assert SizeOfReal(0.0) == Some(0);
    assert (next.histi - 0) % WordSize == next.histi;
  }

  /** `@s` of 0 reads the slot just below the top. */
  lemma StackIndexZero(g: Regs, tag: RType)
    requires RegsOk(g) && g.rsp >= 1 && g.stack[g.rsp] == Elem(tag, Num(Zero))
    ensures StackIndex(g) == Some(g.rsp - 1)
  {
    assert IntOfReal(0.0) == Some(0);
  }

  // ----------------------------------------------------------- the dispatch

  /** What one character of the expression does, with the character after it when it selects a function. */
  datatype Action =
    | MatrixLit
    | Space
    | Digits
    | Opening
    | Closing
    | Folding(op: FoldOp)
    | Mapping(u: Unary)
    | Inverting
    | Comparing
    | Pairing(p: Pair)
    | Ending
    | SystemFn(d: char)
    | Const(d: char)
    | Fetch(d: char)
    | Keep(d: char)
    | Ignored(width: nat)
    | Truncated

  /**
   * The switch of `evalExprComplex` on `c`, the character at the cursor;
   * `next` is the one after it, which `a h @ \ $ &` consume. When that one
   * is the terminator, the loop's increment steps past the string.
   */
  function Act(c: char, next: char): (r: Action)
    ensures r.Ignored? ==> r.width == 1 || r.width == 2
    ensures r == Truncated <==> c in "ah@\\$&" && c != '[' && !IsSpace(c) && !IsDigit(c) && next == Nul
    ensures TwoChars(r) ==> c in "ah@\\$&" && next != Nul
    ensures (r == MatrixLit <==> c == '[') && (r == Digits ==> IsDigit(c))
  {
    if c == '[' then MatrixLit
    else if IsSpace(c) then Space
    else if IsDigit(c) then Digits
    else match c
      case '(' => Opening
      case ')' => Closing
      case '+' => Folding(Plus)
      case '-' => Folding(Minus)
      case '*' => Folding(Star)
      case '/' => Folding(Slash)
      case '^' => Folding(Caret)
      case 'A' => Mapping(Fabs)
      case 's' => Mapping(Call(Sin))
      case 'c' => Mapping(Call(Cos))
      case 't' => Mapping(Call(Tan))
      case 'l' => Mapping(Call(Log))
      case 'r' => Mapping(ToRadian)
      case 'd' => Mapping(ToDegree)
      case 'm' => Mapping(Negate)
      case 'i' => Mapping(TimesI)
      case '~' => Inverting
      case '=' => Comparing
      case 'L' => Pairing(LogBase)
      case 'p' => Pairing(Polar)
      case ';' => Ending
      case ',' => Ending
      case _ =>
        if c !in "ah@\\$&" then Ignored(1)
        else if next == Nul then Truncated
        else match c
          case 'a' =>
            if next == 's' then Mapping(Call(Asin))
            else if next == 'c' then Mapping(Call(Acos))
            else if next == 't' then Mapping(Call(Atan))
            else Ignored(2)
          case 'h' =>
            if next == 's' then Mapping(Call(Sinh))
            else if next == 'c' then Mapping(Call(Cosh))
            else if next == 't' then Mapping(Call(Tanh))
            else Ignored(2)
          case '@' => SystemFn(next)
          case '\\' => Const(next)
          case '$' => Fetch(next)
          case _ => Keep(next)
  }

  /** Whether the action reads the character after the cursor: the cursor then moves onto it. */
  predicate TwoChars(a: Action) {
    a.SystemFn? || a.Const? || a.Fetch? || a.Keep? || a == Ignored(2)
    || (a.Mapping? && a.u.Call? && a.u.f in {Asin, Acos, Atan, Sinh, Cosh, Tanh})
  }

  /** The actions that only rearrange the operand stack or map values on it. */
  predicate Local(a: Action) {
    a.Space? || a.Ignored? || a.Opening? || a.Closing? || a.Mapping? || a.Pairing?
  }

  /** The actions that push a value or keep one: a number, `@`, `\\`, `$` and `&`. */
  predicate Loads(a: Action) {
    a.Digits? || a.SystemFn? || a.Const? || a.Fetch? || a.Keep?
  }

  /** The actions that work on a whole group, or build a matrix. */
  predicate Reduces(a: Action) {
    a.MatrixLit? || a.Folding? || a.Inverting? || a.Comparing?
  }

  /** The stack effect of a local action; None where the C code's behaviour is undefined. */
  function Effect(g: Regs, a: Action, lib: Libc): (r: Option<Regs>)
    requires RegsOk(g) && Local(a)
    ensures r.Some? ==> RegsOk(r.value)
    ensures a.Space? || a.Ignored? ==> r == Some(g)
    ensures a.Mapping? ==> (r.Some? <==> g.stack[g.rsp].val.Num?)
    ensures a.Opening? ==> (r.Some? <==> g.rsp + 1 < BufSize)
    ensures a.Mapping? || a.Pairing? ==> r.Some? ==> r.value.rbp == g.rbp
  {
    match a
    case Opening => Open(g)
    case Closing => Close(g)
    case Mapping(u) => MapTop(g, u, lib)
    case Pairing(p) => MapPair(g, p, lib)
    case _ => Some(g)
  }

  // ------------------------------------------------------------ the evaluator

  /** A text that ends with its terminator. */
  predicate Terminated(t: seq<char>) {
    |t| > 0 && t[|t| - 1] == Nul
  }

  /** The arrays among the live blocks: the matrix buffers an evaluation may write. */
  ghost function LiveBuffers(live: set<object>): set<array<Complex>> {
    set a: array<Complex> | a in live
  }

  /**
   * The buffer of `m` starts with the complex values of `results`, in order,
   * and is zero after them.
   */
  ghost predicate Filled(m: Matrix, results: seq<Elem>)
    reads m.data
  {
    && |results| <= m.data.Length
    && (forall k :: 0 <= k < |results| ==> results[k].val.Num? && m.data[k] == results[k].val.z)
    && forall k :: |results| <= k < m.data.Length ==> m.data[k] == Zero
  }

  /**
   * The buffer of a matrix literal: `MAT_INITSIZE` zeroed entries
   * (`zalloc(complex, mat_init_size)`), the entries written from the start,
   * and the shape `rows` by `cols` laid over it.
   */
  method FillMatrix(heap: Chore.Heap, rows: nat, cols: nat, entries: seq<Complex>) returns (m: Matrix)
    requires rows * cols <= |entries| <= MatInitSize
    modifies heap
    ensures Shaped(m) && m.rows == rows && m.cols == cols && fresh(m.data)
    ensures m.data.Length == MatInitSize && m.data[..|entries|] == entries
    ensures forall p :: |entries| <= p < m.data.Length ==> m.data[p] == Zero
    ensures Value(m).cells == entries[..rows * cols]
    ensures heap.live == old(heap.live) + {m.data}
  {
    var data := new Complex[MatInitSize](_ => Zero);
    heap.Own(data);
    var p := 0;
    while p < |entries|
      invariant p <= |entries|
      invariant heap.live == old(heap.live) + {data}
      invariant data[..p] == entries[..p]
      invariant forall q :: p <= q < data.Length ==> data[q] == Zero
    {
      data[p] := entries[p];
      p := p + 1;
    }
    m := Matrix(rows, cols, data);
    assert data[..rows * cols] == data[..p][..rows * cols];
  }

  lemma WholeRows(n: nat, cols: nat)
    requires cols > 0
    ensures 0 <= n / cols && (n / cols) * cols <= n
  {
  }

  /**
   * The operation a fold operator applies to the group's first slot and
   * the top (src/main.c includes src/elemop.c's operations). For two COMP
   * numbers it is `Combine`.
   */
  method Operate(heap: Chore.Heap, op: FoldOp, lhs: Elem, rhs: Elem, lib: CLib) returns (r: Elem, rhs2: Elem, st: Status)
    requires Sound(lhs) && Sound(rhs)
    modifies heap, Buffers(heap.live, lhs), Buffers(heap.live, rhs)
    ensures Sound(r) && Sound(rhs2)
    ensures fresh(heap.live - old(heap.live))
    ensures lhs.rtype == rhs.rtype == CompT && BothNumbers(lhs, rhs) ==>
              st == Done && r == Elem(CompT, Num(Combine(op, lhs.val.z, rhs.val.z, lib))) && rhs2 == rhs
  {
    rhs2 := rhs;
    match op
    case Plus => r, st := ElemAdd(heap, lhs, rhs);
    case Minus => r, st := ElemSub(heap, lhs, rhs);
    case Star =>
      var tag;
      r, tag, st := ElemMul(heap, lhs, rhs);
    case Slash => r, st := ElemDiv(heap, lhs, rhs, lib);
    case Caret =>
      ghost var base, wrapped;
      r, rhs2, st, base, wrapped := ElemPow(heap, lhs, rhs, lib);
  }

  /**
   * One activation of `evalExprComplex`: the expression and its cursor
   * `pos` (`expr`), the operand stack with `rsp` and `rbp`, and `info`
   * (`info_c`), the copy of the runtime information the call works on and
   * writes back at the end.
   */
  class Frame {
    const text: array<char>
    const start: nat
    const stack: array<Elem>
    var rsp: nat
    var rbp: nat
    var pos: nat
    var info: RtInfo
    const rt: Runtime
    const heap: Chore.Heap
    const gen: Rand.Generator
    const lib: Libc

    ghost predicate Valid()
      reads this, stack, text, rt
    {
      && stack.Length == BufSize && rsp < BufSize && rbp < BufSize
      && (forall k :: 0 <= k < BufSize ==> Sound(stack[k]))
      && Terminated(text[..]) && start <= pos < text.Length
      && InfoOk(info) && InfoOk(rt.info)
    }

    /** The stack and its two indices, as a value. */
    ghost function Snap(): Regs
      reads this, stack
    {
      Regs(stack[..], rsp, rbp)
    }

    /** A new activation on `text` from `start`: a zeroed stack, both indices at slot 0, a copy of the runtime information. */
    constructor (text: array<char>, start: nat, rt: Runtime, heap: Chore.Heap, gen: Rand.Generator, lib: Libc)
      requires Terminated(text[..]) && start < text.Length && InfoOk(rt.info)
      ensures Valid() && fresh(stack)
      ensures this.text == text && this.start == start && this.rt == rt && this.heap == heap
      ensures this.gen == gen && this.lib == lib
      ensures pos == start && rsp == 0 && rbp == 0 && info == rt.info
      ensures forall k :: 0 <= k < BufSize ==> stack[k] == Blank
    {
      this.text := text;
      this.start := start;
      this.rt := rt;
      this.heap := heap;
      this.gen := gen;
      this.lib := lib;
      stack := new Elem[BufSize](_ => Blank);
      rsp, rbp := 0, 0;
      pos := start;
      info := rt.info;
    }

    /** A digit: `strtod` reads a number, pushed as COMP; the cursor stops on the number's last character. */
    method PushNumber() returns (flow: Flow)
      requires Valid() && IsDigit(text[pos])
      modifies this, stack
      ensures Valid() && flow != Finish && rbp == old(rbp) && info == old(info)
      ensures var p := Strtod.Parse(text[..], old(pos));
              && (flow == Undef <==> p.None? || old(rsp) + 1 >= BufSize)
              && (flow == Proceed ==>
                    Snap() == Push(old(Snap()), Elem(CompT, Num(FromReal(p.value.0)))).value && pos + 1 == p.value.1)
      ensures flow != Proceed ==> pos == old(pos)
    {
      var p := Strtod.Parse(text[..], pos);
      if p.None? || rsp + 1 >= BufSize {
        return Undef;
      }
      rsp := rsp + 1;
      stack[rsp] := Elem(CompT, Num(FromReal(p.value.0)));
      pos := p.value.1 - 1;
      return Proceed;
    }

    /** `(`. */
    method OpenGroup() returns (flow: Flow)
      requires Valid()
      modifies this, stack
      ensures Valid() && flow != Finish && pos == old(pos) && info == old(info)
      ensures flow == Undef <==> Open(old(Snap())).None?
      ensures flow == Proceed ==> Snap() == Open(old(Snap())).value
    {
      if rsp + 1 >= BufSize {
        return Undef;
      }
      rsp := rsp + 1;
      stack[rsp] := Elem(stack[rsp].rtype, Offset(rbp));
      rbp := rsp;
      return Proceed;
    }

    /** `)`. */
    method CloseGroup() returns (flow: Flow)
      requires Valid()
      modifies this, stack
      ensures Valid() && flow != Finish && pos == old(pos) && info == old(info)
      ensures flow == Undef <==> Close(old(Snap())).None?
      ensures flow == Proceed ==> Snap() == Close(old(Snap())).value
    {
      var k := MarkerOffset(stack[rbp]);
      if k.None? || k.value >= BufSize || rsp < 1 {
        return Undef;
      }
      rbp := k.value;
      rsp := rsp - 1;
      stack[rsp] := stack[rsp + 1];
      return Proceed;
    }

    /** `A s c t l r d m i` and the `a`, `h` families: the top value is overwritten. */
    method Overwrite(u: Unary) returns (flow: Flow)
      requires Valid()
      modifies stack
      ensures Valid() && flow != Finish
      ensures flow == Undef <==> MapTop(old(Snap()), u, lib).None?
      ensures flow == Proceed ==> Snap() == MapTop(old(Snap()), u, lib).value
    {
      var top := stack[rsp];
      if !top.val.Num? {
        return Undef;
      }
      stack[rsp] := Elem(top.rtype, Num(UnaryValue(u, top.val.z, lib)));
      return Proceed;
    }

    /** `L` and `p`: the top is popped into the value below. */
    method Pairwise(p: Pair) returns (flow: Flow)
      requires Valid()
      modifies this, stack
      ensures Valid() && flow != Finish && pos == old(pos) && info == old(info)
      ensures flow == Undef <==> MapPair(old(Snap()), p, lib).None?
      ensures flow == Proceed ==> Snap() == MapPair(old(Snap()), p, lib).value
    {
      if rsp < 1 || !stack[rsp].val.Num? || !stack[rsp - 1].val.Num? {
        return Undef;
      }
      var x := stack[rsp].val.z;
      rsp := rsp - 1;
      stack[rsp] := Elem(stack[rsp].rtype, Num(PairValue(p, stack[rsp].val.z, x, lib)));
      return Proceed;
    }

    /**
     * One step of a fold: the top is combined into the group's first slot,
     * then popped. On a group `g0` of numbers, a fold stopped at the top
     * moves down by one slot.
     */
    method FoldStep(op: FoldOp, ghost g0: Regs) returns (ok: bool)
      requires Valid() && rbp + 1 < rsp
      requires RegsOk(g0) && g0.rbp == rbp && rsp <= g0.rsp
      requires NumberGroup(g0) ==> Snap() == FoldedTo(g0, op, rsp, lib.elem)
      modifies this, stack, heap, LiveBuffers(heap.live)
      ensures Valid() && pos == old(pos) && info == old(info) && rbp == old(rbp)
      ensures fresh(heap.live - old(heap.live))
      ensures ok ==> rsp + 1 == old(rsp)
      ensures ok ==> forall k :: 0 <= k <= rbp ==> stack[k] == old(stack[k])
      ensures NumberGroup(g0) ==> ok && Snap() == FoldedTo(g0, op, rsp, lib.elem)
    {
      if NumberGroup(g0) {
        FoldedToStep(g0, op, rsp, lib.elem);
      }
      var r, rhs2, st := Operate(heap, op, stack[rbp + 1], stack[rsp], lib.elem);
      if st == Undefined {
        return false;
      }
      stack[rbp + 1] := r;
      stack[rsp] := rhs2;
      rsp := rsp - 1;
      return true;
    }

    /** The loop of a fold, from a group `g0` of more than one slot: on numbers it leaves `FoldedTo` the group's first slot. */
    method FoldLoop(op: FoldOp, ghost g0: Regs) returns (flow: Flow)
      requires Valid() && Snap() == g0 && rbp + 1 < rsp
      modifies this, stack, heap, LiveBuffers(heap.live)
      ensures Valid() && flow != Finish && pos == old(pos) && info == old(info) && rbp == old(rbp)
      ensures fresh(heap.live - old(heap.live))
      ensures flow == Proceed ==> rsp == old(rbp) + 1
      ensures flow == Proceed ==> forall k :: 0 <= k <= old(rbp) ==> stack[k] == old(stack[k])
      ensures NumberGroup(g0) ==> flow == Proceed
      ensures NumberGroup(g0) ==> Snap() == FoldedTo(g0, op, g0.rbp + 1, lib.elem)
    {
      if NumberGroup(g0) {
        FoldedToEnds(g0, op, lib.elem);
      }
      while rbp + 1 < rsp
        invariant Valid() && pos == old(pos) && info == old(info) && rbp == g0.rbp
        invariant g0.rbp + 1 <= rsp <= g0.rsp
        invariant fresh(heap.live - old(heap.live))
        invariant forall k :: 0 <= k <= rbp ==> stack[k] == g0.stack[k]
        invariant NumberGroup(g0) ==> Snap() == FoldedTo(g0, op, rsp, lib.elem)
      {
        var ok := FoldStep(op, g0);
        if !ok {
          return Undef;
        }
      }
      return Proceed;
    }

    /**
     * `+ - * / ^`: while the group holds more than one slot above its base,
     * the top is combined into the group's first slot and popped. A group of
     * COMP numbers becomes its `FoldNumbers`.
     */
    method Fold(op: FoldOp) returns (flow: Flow)
      requires Valid()
      modifies this, stack, heap, LiveBuffers(heap.live)
      ensures Valid() && flow != Finish && pos == old(pos) && info == old(info) && rbp == old(rbp)
      ensures fresh(heap.live - old(heap.live))
      ensures flow == Proceed ==> rsp == (if old(rbp) + 1 < old(rsp) then old(rbp) + 1 else old(rsp))
      ensures flow == Proceed ==> forall k :: 0 <= k <= old(rbp) ==> stack[k] == old(stack[k])
      ensures NumberGroup(old(Snap())) ==> flow == Proceed
      ensures NumberGroup(old(Snap())) ==> Snap() == FoldNumbers(old(Snap()), op, lib.elem)
    {
      if rbp + 1 >= rsp {
        return Proceed;
      }
      ghost var g0 := Snap();
      if NumberGroup(g0) {
        FoldedToEnds(g0, op, lib.elem);
      }
      flow := FoldLoop(op, g0);
    }

    /**
     * `=`: the top is popped while it equals the slot below it, down to the
     * group's first slot; that slot becomes the top, and its real part is
     * set to 1 when the scan reached it and to 0 otherwise, as
     * `FlagAsWritten` states: the tag and the imaginary part stay.
     */
    method Collapse() returns (flow: Flow)
      requires Valid()
      modifies this, stack
      ensures Valid() && flow != Finish && pos == old(pos) && info == old(info) && rbp == old(rbp)
      ensures flow == Undef <==>
                || old(RunEqual(heap.live, stack[..], rbp + 1, rsp, lib.elem)).None?
                || old(rbp) + 1 >= BufSize || !old(stack[rbp + 1].val.Num?)
      ensures flow == Proceed ==>
                && rsp == old(rbp) + 1
                && stack[..] == old(stack[..])[rsp := FlagAsWritten(old(stack[rbp + 1]),
                     old(rbp) + 1 <= old(rsp) && old(RunEqual(heap.live, stack[..], rbp + 1, rsp, lib.elem)) == Some(true)).value]
    {
      ghost var s0 := stack[..];
      ghost var whole := RunEqual(heap.live, s0, rbp + 1, rsp, lib.elem);
      var hi: nat := rsp;
      while rbp + 1 < hi
        invariant Valid() && rsp == old(rsp) && rbp == old(rbp) && pos == old(pos) && info == old(info)
        invariant hi <= old(rsp) && (rbp + 1 <= old(rsp) ==> rbp + 1 <= hi)
        invariant stack[..] == s0
        invariant whole == RunEqual(heap.live, s0, rbp + 1, hi, lib.elem)
        decreases hi
      {
        var e := Equal(heap.live, stack[hi - 1], stack[hi], lib.elem);
        if e.None? {
          return Undef;
        }
        if !e.value {
          break;
        }
        hi := hi - 1;
      }
      if rbp + 1 >= BufSize {
        return Undef;
      }
      var flagged := FlagAsWritten(stack[rbp + 1], hi == rbp + 1);
      if flagged.None? {
        return Undef;
      }
      stack[rbp + 1] := flagged.value;
      rsp := rbp + 1;
      return Proceed;
    }

    /**
     * `~`: the top's matrix is replaced by its inverse; the tag stays. The
     * old buffer is released in every case (`_ drop`), so a failed inversion
     * leaves the top holding a buffer that is no longer live.
     */
    method InvertTop() returns (flow: Flow, ghost wrapped: bool)
      requires Valid()
      modifies stack, heap, LiveBuffers(heap.live)
      ensures Valid() && flow != Finish
      ensures fresh(heap.live - old(heap.live))
      ensures flow == Undef <==> !old(stack[rsp].val.Mat? && stack[rsp].val.m.data in heap.live)
      ensures flow == Proceed ==>
                var m := old(stack[rsp].val.m);
                && (forall k :: 0 <= k < BufSize && k != rsp ==> stack[k] == old(stack[k]))
                && stack[rsp].rtype == old(stack[rsp].rtype) && stack[rsp].val.Mat?
                && stack[rsp].val.m.rows == m.rows && stack[rsp].val.m.cols == m.cols
                && m.data !in heap.live
                && (m.rows != m.cols ==> stack[rsp] == old(stack[rsp]) && heap.live == old(heap.live) - {m.data})
                && (m.rows == m.cols && !wrapped ==>
                      && heap.live == old(heap.live) - {m.data} + {stack[rsp].val.m.data}
                      && IsInverse(Value(stack[rsp].val.m), old(Value(m)), m.rows))
    {
      wrapped := false;
      var top := stack[rsp];
      if !(top.val.Mat? && top.val.m.data in heap.live) {
        return Undef, wrapped;
      }
      var r, status;
      r, status, wrapped := InvertAsWritten(heap, top.val.m);
      stack[rsp] := Elem(top.rtype, Mat(r));
      return Proceed, wrapped;
    }

    /** `elem_set` onto slot `k`: the slot takes `src` whole, releasing a matrix it held. */
    method SetSlot(k: nat, src: Elem) returns (ok: bool)
      requires Valid() && k < BufSize && Sound(src)
      modifies stack, heap
      ensures Valid()
      ensures ok <==> Overwritable(old(heap.live), old(stack[k]))
      ensures ok ==> stack[..] == old(stack[..])[k := src] && heap.live == old(heap.live) - Displaced(old(stack[k]))
      ensures !ok ==> stack[..] == old(stack[..]) && heap.live == old(heap.live)
    {
      var r, st := ElemSet(heap, stack[k], src);
      if st == Undefined {
        return false;
      }
      stack[k] := r;
      return true;
    }

    /** `elem_set(++rsp, src)`. */
    method PushCopy(src: Elem) returns (flow: Flow)
      requires Valid() && Sound(src)
      modifies this, stack, heap
      ensures Valid() && flow != Finish && pos == old(pos) && info == old(info)
      ensures flow == Undef <==> !old(rsp + 1 < BufSize && Overwritable(heap.live, stack[rsp + 1]))
      ensures flow == Proceed ==>
                Snap() == Push(old(Snap()), src).value && heap.live == old(heap.live - Displaced(stack[rsp + 1]))
      ensures flow == Undef ==> Snap() == old(Snap()) && heap.live == old(heap.live)
    {
      if rsp + 1 >= BufSize {
        return Undef;
      }
      var ok := SetSlot(rsp + 1, src);
      if !ok {
        return Undef;
      }
      rsp := rsp + 1;
      return Proceed;
    }

    /** `@a`: the latest result is pushed. */
    method Ans() returns (flow: Flow)
      requires Valid()
      modifies this, stack, heap
      ensures Valid() && flow != Finish && pos == old(pos) && info == old(info)
      ensures flow == Undef <==>
                old(info.histi >= BufSize || !(rsp + 1 < BufSize && Overwritable(heap.live, stack[rsp + 1])))
      ensures flow == Proceed ==> Snap() == Push(old(Snap()), info.hist[info.histi]).value
      ensures heap.live <= old(heap.live)
    {
      if info.histi >= BufSize {
        return Undef;
      }
      flow := PushCopy(info.hist[info.histi]);
    }

    /** `@h`: the top is replaced by the result `x` places before the latest, `x` being its real part. */
    method HistoryAt() returns (flow: Flow)
      requires Valid()
      modifies stack, heap
      ensures Valid() && flow != Finish
      ensures flow == Undef <==>
                old(HistoryIndex(info, stack[rsp]).None? || !Overwritable(heap.live, stack[rsp]))
      ensures flow == Proceed ==> stack[..] == old(stack[..][rsp := info.hist[HistoryIndex(info, stack[rsp]).value]])
      ensures heap.live <= old(heap.live)
    {
      var idx := HistoryIndex(info, stack[rsp]);
      if idx.None? {
        return Undef;
      }
      var ok := SetSlot(rsp, info.hist[idx.value]);
      return if ok then Proceed else Undef;
    }

    /** `@s`: the top is replaced by the slot `x + 1` below it, `x` being its real part. */
    method StackAt() returns (flow: Flow)
      requires Valid()
      modifies stack, heap
      ensures Valid() && flow != Finish
      ensures flow == Undef <==> old(StackIndex(Snap()).None? || !Overwritable(heap.live, stack[rsp]))
      ensures flow == Proceed ==> stack[..] == old(stack[..][rsp := stack[StackIndex(Snap()).value]])
      ensures heap.live <= old(heap.live)
    {
      var idx := StackIndex(Regs(stack[..], rsp, rbp));
      if idx.None? {
        return Undef;
      }
      var ok := SetSlot(rsp, stack[idx.value]);
      return if ok then Proceed else Undef;
    }

    /** `@r`: a value drawn by `xorsh_0_1` is pushed; as `PushValueAsWritten` states, the slot keeps its old tag. */
    method Random() returns (flow: Flow)
      requires Valid()
      modifies this, stack, gen
      ensures Valid() && flow != Finish && pos == old(pos) && info == old(info)
      ensures flow == Undef <==> old(rsp) + 1 >= BufSize
      ensures flow == Proceed ==>
                && gen.state == Rand.XorShift(old(gen.state))
                && Snap() == PushValueAsWritten(old(Snap()), FromReal(Rand.Unit(gen.state))).value
    {
      if rsp + 1 >= BufSize {
        return Undef;
      }
      var x := gen.NextUnit();
      rsp := rsp + 1;
      stack[rsp] := Elem(stack[rsp].rtype, Num(FromReal(x)));
      return Proceed;
    }

    /** `@` followed by `d`: `a` latest result, `h` history, `n` NaN, `p` copy of the top, `r` random, `s` stack slot. */
    method System(d: char) returns (flow: Flow)
      requires Valid()
      modifies this, stack, heap, gen
      ensures Valid() && flow != Finish && pos == old(pos) && info == old(info)
      ensures heap.live <= old(heap.live)
      ensures d == 'n' && flow == Proceed ==> old(rsp) + 1 < BufSize && Snap() == Push(old(Snap()), Elem(CompT, Num(Complex(lib.nan, 0.0)))).value
      ensures d == 'p' && flow == Proceed ==> old(rsp) + 1 < BufSize && Snap() == Push(old(Snap()), old(stack[rsp])).value
      ensures d !in "ahnprs" ==> flow == Proceed && Snap() == old(Snap())
    {
      match d
      case 'a' => flow := Ans();
      case 'h' => flow := HistoryAt();
      case 'n' => flow := PushCopy(Elem(CompT, Num(Complex(lib.nan, 0.0))));
      case 'p' => flow := PushCopy(stack[rsp]);
      case 'r' => flow := Random();
      case 's' => flow := StackAt();
      case _ => flow := Proceed;
    }

    /**
     * `\` followed by `d`: the constant `get_const` finds for `d` is pushed;
     * as `PushValueAsWritten` states, the slot keeps its old tag. A letter
     * outside the table is undefined.
     */
    method Constant(d: char) returns (flow: Flow)
      requires Valid()
      modifies this, stack
      ensures Valid() && flow != Finish && pos == old(pos) && info == old(info)
      ensures flow == Undef <==> PhyConst.GetConstAsWritten(d).None? || old(rsp) + 1 >= BufSize
      ensures flow == Proceed ==>
                Snap() == PushValueAsWritten(old(Snap()), FromReal(PhyConst.GetConstAsWritten(d).value)).value
    {
      var v := PhyConst.GetConstAsWritten(d);
      if v.None? || rsp + 1 >= BufSize {
        return Undef;
      }
      rsp := rsp + 1;
      stack[rsp] := Elem(stack[rsp].rtype, Num(FromReal(v.value)));
      return Proceed;
    }

    /** `$` followed by `d`: a lower-case letter pushes that register; anything else is ignored. */
    method Load(d: char) returns (flow: Flow)
      requires Valid()
      modifies this, stack, heap
      ensures Valid() && flow != Finish && pos == old(pos) && info == old(info)
      ensures !IsLower(d) ==> flow == Proceed && Snap() == old(Snap()) && heap.live == old(heap.live)
      ensures IsLower(d) ==> (flow == Undef <==> !old(rsp + 1 < BufSize && Overwritable(heap.live, stack[rsp + 1])))
      ensures IsLower(d) && flow == Proceed ==> Snap() == Push(old(Snap()), info.reg[d as int - 'a' as int]).value
      ensures heap.live <= old(heap.live)
    {
      if !IsLower(d) {
        return Proceed;
      }
      flow := PushCopy(info.reg[d as int - 'a' as int]);
    }

    /** `&` followed by `d`: the register of letter `d` takes the top. */
    method Store(d: char) returns (flow: Flow)
      requires Valid()
      modifies this, heap
      ensures Valid() && flow != Finish && pos == old(pos) && Snap() == old(Snap()) && heap.live <= old(heap.live)
      ensures info.hist == old(info.hist) && info.histi == old(info.histi)
      ensures flow == Undef <==> !('a' <= d <= 'z' && Overwritable(old(heap.live), old(info.reg[d as int - 'a' as int])))
      ensures flow == Proceed ==> info == old(info.(reg := info.reg[d as int - 'a' as int := stack[rsp]]))
      ensures flow == Proceed ==> heap.live == old(heap.live - Displaced(info.reg[d as int - 'a' as int]))
    {
      if !('a' <= d <= 'z') {
        return Undef;
      }
      var k := d as int - 'a' as int;
      var r, st := ElemSet(heap, info.reg[k], stack[rsp]);
      if st == Undefined {
        return Undef;
      }
      info := info.(reg := info.reg[k := r]);
      return Proceed;
    }

    /** The action at the cursor. */
    ghost function Next(): Action
      reads this, text
      requires pos + 1 < text.Length
    {
      Act(text[pos], text[pos + 1])
    }

    /** A fresh `rows` by `cols` matrix of the first entries, each the value of its result in `results`, pushed. */
    method PushMatrix(rows: nat, cols: nat, entries: seq<Complex>, ghost results: seq<Elem>)
      requires Valid() && rsp + 1 < BufSize && rows * cols <= |entries| <= MatInitSize
      requires |results| == |entries|
      requires forall k :: 0 <= k < |entries| ==> results[k].val.Num? && entries[k] == results[k].val.z
      modifies this, stack, heap
      ensures Valid() && rbp == old(rbp) && info == old(info) && pos == old(pos)
      ensures rsp == old(rsp) + 1 && stack[rsp].rtype == MatrT && stack[rsp].val.Mat?
      ensures heap.live == old(heap.live) + {stack[rsp].val.m.data}
      ensures stack[rsp].val.m.rows == rows && stack[rsp].val.m.cols == cols
      ensures stack[rsp].val.m.data.Length == MatInitSize && fresh(stack[rsp].val.m.data)
      ensures Value(stack[rsp].val.m).cells == entries[..rows * cols]
      ensures forall k :: 0 <= k < BufSize && k != rsp ==> stack[k] == old(stack[k])
      ensures Filled(stack[rsp].val.m, results)
    {
      var m := FillMatrix(heap, rows, cols, entries);
      rsp := rsp + 1;
      stack[rsp] := Elem(MatrT, Mat(m));
    }

    /**
     * `[`: a matrix literal. After the bracket, `strtol` reads the column
     * count; the entries follow (`Entries`), each the complex value of a
     * nested evaluation's result in `results`. The rows are the entries
     * divided by the columns; the matrix holds the first rows times columns
     * entries, row by row, and is pushed.
     */
    method Literal() returns (flow: Flow, ghost results: seq<Elem>)
      requires Valid() && text[pos] == '['
      modifies this, stack, rt, heap, gen, LiveBuffers(heap.live)
      decreases text.Length - start, 2
      ensures Valid() && flow != Finish && rbp == old(rbp) && info == old(info)
      ensures fresh(heap.live - old(heap.live))
      ensures old(rsp) + 1 >= BufSize ==> flow == Undef
      ensures flow == Proceed ==>
                var (c, e) := StrToL(text[..], old(pos) + 1);
                var n := |EntryStarts(text[..], e, MatInitSize + 1)|;
                && old(pos) < pos && text[pos] == ']'
                && n <= MatInitSize && ToSizeT(c) > 0
                && rsp == old(rsp) + 1 && stack[rsp].rtype == MatrT && stack[rsp].val.Mat?
                && stack[rsp].val.m.cols == ToSizeT(c) && stack[rsp].val.m.rows == n / ToSizeT(c)
                && stack[rsp].val.m.data in heap.live && fresh(stack[rsp].val.m.data)
                && stack[rsp].val.m.data.Length == MatInitSize
                && (forall k :: 0 <= k < BufSize && k != rsp ==> stack[k] == old(stack[k]))
                && |results| == n && Filled(stack[rsp].val.m, results)
    {
      results := [];
      if rsp + 1 >= BufSize {
        return Undef, results;
      }
      ghost var t := text[..];
      var (c, e) := StrToL(text[..], pos + 1);
      var entries, end, ok;
      entries, end, ok, results := Entries(text, e, rt, heap, gen, lib);
      assert text[..] == t;
      var cols := ToSizeT(c);
      if !ok || cols == 0 {
        return Undef, results;
      }
      WholeRows(|entries|, cols);
      pos := end;
      PushMatrix(|entries| / cols, cols, entries, results);
      flow := Proceed;
    }

    /** A local action: the stack changes as `Effect` states, nothing else does. */
    method Rearrange(a: Action) returns (flow: Flow)
      requires Valid() && Local(a)
      modifies this, stack
      ensures Valid() && flow != Finish && pos == old(pos) && info == old(info)
      ensures flow == Undef <==> Effect(old(Snap()), a, lib).None?
      ensures flow == Proceed ==> Snap() == Effect(old(Snap()), a, lib).value
    {
      match a
      case Opening => flow := OpenGroup();
      case Closing => flow := CloseGroup();
      case Mapping(u) => flow := Overwrite(u);
      case Pairing(p) => flow := Pairwise(p);
      case _ => flow := Proceed;
    }

    /** An action that pushes a value or keeps one; the cursor stays on a character before the terminator. */
    method Produce(a: Action) returns (flow: Flow)
      requires Valid() && Loads(a) && text[pos] != Nul && (a.Digits? ==> IsDigit(text[pos]))
      modifies this, stack, heap, gen
      ensures Valid() && flow != Finish && heap.live <= old(heap.live)
      ensures info.hist == old(info.hist) && info.histi == old(info.histi)
      ensures flow == Proceed ==> old(pos) <= pos < text.Length - 1
    {
      match a
      case Digits => flow := PushNumber();
      case SystemFn(d) => flow := System(d);
      case Const(d) => flow := Constant(d);
      case Fetch(d) => flow := Load(d);
      case Keep(d) => flow := Store(d);
    }

    /** An action on a whole group, or a matrix literal. */
    method Reduce(a: Action) returns (flow: Flow)
      requires Valid() && Reduces(a) && text[pos] != Nul && (a.MatrixLit? ==> text[pos] == '[')
      modifies this, stack, rt, heap, gen, LiveBuffers(heap.live)
      decreases text.Length - start, 3
      ensures Valid() && flow != Finish && fresh(heap.live - old(heap.live)) && info == old(info)
      ensures flow == Proceed ==> old(pos) <= pos < text.Length - 1
      ensures a.Folding? && NumberGroup(old(Snap())) ==>
                flow == Proceed && Snap() == FoldNumbers(old(Snap()), a.op, lib.elem)
    {
      match a
      case MatrixLit =>
        ghost var results;
        flow, results := Literal();
      case Folding(op) => flow := Fold(op);
      case Inverting =>
        ghost var wrapped;
        flow, wrapped := InvertTop();
      case Comparing => flow := Collapse();
    }

    /**
     * One turn of the loop of `evalExprComplex`: the character at the
     * cursor is dispatched as `Act` classifies it. The cursor ends on the
     * last character the action read.
     */
    method Step() returns (flow: Flow)
      requires Valid() && text[pos] != Nul
      modifies this, stack, rt, heap, gen, LiveBuffers(heap.live)
      decreases text.Length - start, 4
      ensures Valid() && fresh(heap.live - old(heap.live))
      ensures info.hist == old(info.hist) && info.histi == old(info.histi)
      ensures flow == Proceed ==> old(pos) <= pos < text.Length - 1
      ensures flow == Finish <==> old(Next()) == Ending
      ensures old(Next()) == Truncated ==> flow == Undef
      ensures Local(old(Next())) ==>
                && (flow == Undef <==> Effect(old(Snap()), old(Next()), lib).None?)
                && (flow == Proceed ==> Snap() == Effect(old(Snap()), old(Next()), lib).value)
      ensures old(Next()).Folding? && NumberGroup(old(Snap())) ==>
                flow == Proceed && Snap() == FoldNumbers(old(Snap()), old(Next()).op, lib.elem)
    {
      var a := Act(text[pos], text[pos + 1]);
      if TwoChars(a) {
        pos := pos + 1;
      }
      if a == Ending {
        flow := Finish;
      } else if a == Truncated {
        flow := Undef;
      } else if Local(a) {
        flow := Rearrange(a);
      } else if Loads(a) {
        flow := Produce(a);
      } else {
        flow := Reduce(a);
      }
    }

    /**
     * The loop of `evalExprComplex`, from the cursor to the terminator or to
     * `;` or `,`; then the result is recorded by `End`. Only `&` changes the
     * copy of the runtime information on the way, and only its registers;
     * the result is then written back as `WriteBackAsWritten` states.
     */
    method Run() returns (r: Option<Elem>)
      requires Valid()
      modifies this, stack, rt, heap, gen, LiveBuffers(heap.live)
      decreases text.Length - start, 5
      ensures InfoOk(rt.info) && InfoOk(info) && fresh(heap.live - old(heap.live))
      ensures info.hist == old(info.hist) && info.histi == old(info.histi)
      ensures r.Some? ==> Sound(r.value) && WriteBackAsWritten(info, r.value) == Some(rt.info)
    {
      while text[pos] != Nul
        invariant Valid() && fresh(heap.live - old(heap.live))
        invariant start <= old(pos) <= pos
        invariant info.hist == old(info.hist) && info.histi == old(info.histi)
        decreases text.Length - pos
      {
        var flow := Step();
        if flow == Undef {
          return None;
        }
        if flow == Finish {
          break;
        }
        pos := pos + 1;
      }
      r := End();
    }

    /**
     * `end:`: the top is recorded in the history, as `RecordAsWritten`
     * states, and the information is written back with `setRuntimeInfo`;
     * the top is the result.
     */
    method End() returns (r: Option<Elem>)
      requires Valid()
      modifies rt, heap
      ensures InfoOk(rt.info) && heap.live <= old(heap.live)
      ensures var rec := RecordAsWritten(info, stack[rsp], old(heap.live));
              && (r.None? <==> rec.None?)
              && (r.Some? ==>
                    && r.value == stack[rsp] && rt.info == rec.value.0
                    && heap.live == old(heap.live) - rec.value.1)
    {
      var top := stack[rsp];
      if top.rtype == MatrT {
        var idx := NextIndex(info.histi);
        if idx >= BufSize {
          return None;
        }
        var prev := info.hist[idx];
        if prev.rtype == MatrT {
          if !Owns(heap.live, prev) {
            return None;
          }
          heap.Free(prev.val.m.data);
        }
        rt.info := RtInfo(info.hist[idx := top], idx, info.reg);
      } else if info.histi < BufSize {
        var idx := info.histi + 1;
        if idx >= BufSize || !top.val.Num? {
          return None;
        }
        rt.info := RtInfo(info.hist[idx := Elem(info.hist[idx].rtype, Num(top.val.z))], idx, info.reg);
      } else {
        rt.info := info;
      }
      return Some(top);
    }
  }

  /**
   * One entry of a matrix literal, at `at`: a nested `evalExprComplex`
   * from there, whose result is `v`, then `skip_untilcomma` to the start of
   * the next entry. The entry is the complex value of `v`; None unless `v`
   * holds a number.
   */
  method Entry(text: array<char>, at: nat, rt: Runtime, heap: Chore.Heap, gen: Rand.Generator, lib: Libc)
    returns (z: Option<Complex>, next: nat, ghost v: Option<Elem>)
    requires Terminated(text[..]) && at < text.Length && InfoOk(rt.info)
    modifies rt, heap, gen, LiveBuffers(heap.live)
    decreases text.Length - at + 1, 0
    ensures InfoOk(rt.info) && fresh(heap.live - old(heap.live))
    ensures at <= next < text.Length && next == Chore.AfterComma(text[..], at)
    ensures v.Some? ==> Sound(v.value) && WriteBackAsWritten(old(rt.info).(reg := rt.info.reg), v.value) == Some(rt.info)
    ensures z.Some? <==> v.Some? && v.value.val.Num?
    ensures z.Some? ==> z.value == v.value.val.z
  {
    var w := EvalExprComplex(text, at, rt, heap, gen, lib);
    v := w;
    assert text[at..][text.Length - 1 - at] == Nul;
    next := Chore.SkipUntilComma(text, at);
    z := if w.Some? && w.value.val.Num? then Some(w.value.val.z) else None;
  }

  /**
   * The entries of a matrix literal, from `from`, until a `]`: each is the
   * complex value of the nested evaluation's result in `results`, in the
   * order of the text. The buffer holds `MatInitSize` entries, so one more
   * is undefined.
   */
  method Entries(text: array<char>, from: nat, rt: Runtime, heap: Chore.Heap, gen: Rand.Generator, lib: Libc)
    returns (entries: seq<Complex>, end: nat, ok: bool, ghost results: seq<Elem>)
    requires Terminated(text[..]) && from < text.Length && InfoOk(rt.info)
    modifies rt, heap, gen, LiveBuffers(heap.live)
    decreases text.Length - from + 1, 1
    ensures InfoOk(rt.info) && fresh(heap.live - old(heap.live))
    ensures |results| == |entries|
    ensures forall k :: 0 <= k < |entries| ==> Sound(results[k]) && results[k].val.Num? && entries[k] == results[k].val.z
    ensures |EntryStarts(text[..], from, MatInitSize + 1)| > MatInitSize ==> !ok
    ensures ok ==>
              && from <= end < text.Length && text[end] == ']'
              && |entries| == |EntryStarts(text[..], from, MatInitSize + 1)| <= MatInitSize
  {
    ghost var t := text[..];
    entries, end, results := [], from, [];
    assert MatInitSize + 1 - |entries| == MatInitSize + 1;
    while text[end] != ']'
      invariant InfoOk(rt.info) && fresh(heap.live - old(heap.live))
      invariant |results| == |entries|
      invariant forall k :: 0 <= k < |entries| ==> Sound(results[k]) && results[k].val.Num? && entries[k] == results[k].val.z
      invariant from <= end < text.Length && |entries| <= MatInitSize && text[..] == t
      invariant |entries| + |EntryStarts(t, end, MatInitSize + 1 - |entries|)| == |EntryStarts(t, from, MatInitSize + 1)|
      decreases MatInitSize - |entries|
    {
      if |entries| == MatInitSize {
        return entries, end, false, results;
      }
      var z, next, v := Entry(text, end, rt, heap, gen, lib);
      if z.None? {
        return entries, end, false, results;
      }
      results := results + [v.value];
      ghost var k := MatInitSize - |entries|;
      assert |EntryStarts(t, end, k + 1)| == 1 + |EntryStarts(t, next, k)|;
      entries := entries + [z.value];
      end := next;
      assert MatInitSize + 1 - |entries| == k;
    }
    ok := true;
  }

  /**
   * `evalExprComplex(expr)` with `expr` at `start` in `text`: a fresh
   * operand stack and a copy of the runtime information; None where the C
   * code's behaviour is undefined.
   */
  method EvalExprComplex(text: array<char>, start: nat, rt: Runtime, heap: Chore.Heap, gen: Rand.Generator, lib: Libc)
    returns (r: Option<Elem>)
    requires Terminated(text[..]) && start < text.Length && InfoOk(rt.info)
    modifies rt, heap, gen, LiveBuffers(heap.live)
    decreases text.Length - start, 6
    ensures InfoOk(rt.info) && fresh(heap.live - old(heap.live))
    ensures r.Some? ==> Sound(r.value) && WriteBackAsWritten(old(rt.info).(reg := rt.info.reg), r.value) == Some(rt.info)
  {
    var frame := new Frame(text, start, rt, heap, gen, lib);
    r := frame.Run();
    assert frame.info == old(rt.info).(reg := frame.info.reg);
  }
}
