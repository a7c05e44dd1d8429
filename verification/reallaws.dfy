/**
 * What the real-mode machine promises: folds, comparisons, groups, the
 * registers, `@p`/`@s`, the `,`/`;` cut, the history bound, and the
 * sample runs of src/evalfn.c.
 */
module RealLaws {
  import opened Wrappers
  import opened CType
  import opened CString
  import opened RealSpec
  import ArthFn
  import ErrCode
  import PhyConst

  /** Every slot from `lo` to `hi` inclusive holds a number. */
  ghost predicate Numbers(stack: seq<Slot>, lo: nat, hi: nat)
    requires hi < |stack|
  {
    forall k :: lo <= k <= hi ==> stack[k].Val?
  }

  /** The numbers in slots `lo` .. `hi - 1`, bottom first. */
  function Reals(stack: seq<Slot>, lo: nat, hi: nat): (r: seq<real>)
    requires lo <= hi <= |stack|
    requires forall k :: lo <= k < hi ==> stack[k].Val?
    ensures |r| == hi - lo
    decreases hi - lo
  {
    if lo == hi then [] else Reals(stack, lo, hi - 1) + [stack[hi - 1].x]
  }

  /** Combine `acc` with the last value first and then downwards, as the fold loop pops. */
  function FoldDown(op: BinOp, acc: real, xs: seq<real>, lib: Libm): real
    decreases |xs|
  {
    if xs == [] then acc else FoldDown(op, Apply(op, acc, xs[|xs| - 1], lib), xs[..|xs| - 1], lib)
  }

  function Sum(xs: seq<real>): real
    decreases |xs|
  {
    if xs == [] then 0.0 else Sum(xs[..|xs| - 1]) + xs[|xs| - 1]
  }

  /** A slot written outside `lo .. hi - 1` does not change the numbers read there. */
  lemma {:induction false} RealsUnchanged(stack: seq<Slot>, lo: nat, hi: nat, j: nat, s: Slot)
    requires lo <= hi <= |stack| && j < |stack| && (j < lo || hi <= j)
    requires forall k :: lo <= k < hi ==> stack[k].Val?
    ensures Reals(stack[j := s], lo, hi) == Reals(stack, lo, hi)
    decreases hi - lo
  {
    if lo < hi {
      RealsUnchanged(stack, lo, hi - 1, j, s);
    }
  }

  /** The fold loop over a group of numbers leaves the folded value in `rbp[1]` and nothing else changed. */
  lemma {:induction false} FoldFromValues(op: BinOp, stack: seq<Slot>, rbp: nat, rsp: nat, lib: Libm)
    requires rbp < rsp < |stack|
    requires Numbers(stack, rbp + 1, rsp)
    ensures FoldFrom(op, stack, rbp, rsp, lib)
         == Some(stack[rbp + 1 := Val(FoldDown(op, stack[rbp + 1].x, Reals(stack, rbp + 2, rsp + 1), lib))])
    decreases rsp
  {
    var a := stack[rbp + 1].x;
    if rbp + 1 == rsp {
      assert stack[rbp + 1 := Val(a)] == stack;
    } else {
      var v := Apply(op, a, stack[rsp].x, lib);
      var s1 := stack[rbp + 1 := Val(v)];
      FoldFromValues(op, s1, rbp, rsp - 1, lib);
      RealsUnchanged(stack, rbp + 2, rsp, rbp + 1, Val(v));
      var xs := Reals(stack, rbp + 2, rsp + 1);
      assert xs[..|xs| - 1] == Reals(stack, rbp + 2, rsp);
      var w := FoldDown(op, v, Reals(stack, rbp + 2, rsp), lib);
      assert FoldDown(op, a, xs, lib) == w;
      assert s1[rbp + 1 := Val(w)] == stack[rbp + 1 := Val(w)];
    }
  }

  /**
   * A fold operator over a group holding at least one number combines
   * `rbp[1]` with the top first and then downwards, ends with
   * `rsp == rbp + 1`, and changes no slot other than `rbp[1]`.
   */
  lemma FoldGroup(op: BinOp, m: Machine, lib: Libm)
    requires Valid(m) && m.rbp < m.rsp && Numbers(m.stack, m.rbp + 1, m.rsp)
    ensures Fold(op, m, lib) == Next(m.(
      stack := m.stack[m.rbp + 1 := Val(FoldDown(op, m.stack[m.rbp + 1].x, Reals(m.stack, m.rbp + 2, m.rsp + 1), lib))],
      rsp := m.rbp + 1))
  {
    FoldFromValues(op, m.stack, m.rbp, m.rsp, lib);
  }

  /** Folding with `+` adds the values up. */
  lemma {:induction false} FoldDownPlus(acc: real, xs: seq<real>, lib: Libm)
    ensures FoldDown(Plus, acc, xs, lib) == acc + Sum(xs)
    decreases |xs|
  {
    if xs != [] {
      FoldDownPlus(acc + xs[|xs| - 1], xs[..|xs| - 1], lib);
    }
  }

  /** `+` leaves the group sum in `rbp[1]`, the top; slots at or below `rbp` keep their contents. */
  lemma PlusSumsGroup(m: Machine, lib: Libm)
    requires Valid(m) && m.rbp < m.rsp && Numbers(m.stack, m.rbp + 1, m.rsp)
    ensures Fold(Plus, m, lib).Next?
    ensures Fold(Plus, m, lib).m.rsp == m.rbp + 1
    ensures Fold(Plus, m, lib).m.stack[m.rbp + 1] == Val(Sum(Reals(m.stack, m.rbp + 1, m.rsp + 1)))
    ensures Fold(Plus, m, lib).m.stack[..m.rbp + 1] == m.stack[..m.rbp + 1]
  {
    FoldGroup(Plus, m, lib);
    var a := m.stack[m.rbp + 1].x;
    var xs := Reals(m.stack, m.rbp + 2, m.rsp + 1);
    FoldDownPlus(a, xs, lib);
    SumCons(m.stack, m.rbp + 1, m.rsp + 1);
    var st := m.stack[m.rbp + 1 := Val(FoldDown(Plus, a, xs, lib))];
    assert st[..m.rbp + 1] == m.stack[..m.rbp + 1];
  }

  /** The sum of a run is its first value plus the sum of the rest. */
  lemma {:induction false} SumCons(stack: seq<Slot>, lo: nat, hi: nat)
    requires lo < hi <= |stack|
    requires forall k :: lo <= k < hi ==> stack[k].Val?
    ensures Sum(Reals(stack, lo, hi)) == stack[lo].x + Sum(Reals(stack, lo + 1, hi))
    decreases hi - lo
  {
    if lo + 1 < hi {
      SumCons(stack, lo, hi - 1);
    }
  }

  // ------------------------------------------------------------ comparisons

  /** Every adjacent pair from slot `lo` up to slot `hi` satisfies the relation. */
  ghost predicate Chain(rel: Rel, stack: seq<Slot>, lo: nat, hi: nat, lib: Libm)
    requires hi < |stack| && Numbers(stack, lo, hi)
  {
    forall k :: lo < k <= hi ==> Holds(rel, stack[k - 1].x, stack[k].x, lib)
  }

  /** The pop loop reaches `rbp + 1` exactly when the whole group is a chain. */
  lemma {:induction false} CollapseFromValues(rel: Rel, stack: seq<Slot>, rbp: nat, rsp: nat, lib: Libm)
    requires rbp < rsp < |stack| && Numbers(stack, rbp + 1, rsp)
    ensures CollapseFrom(rel, stack, rbp, rsp, lib).Some?
    ensures CollapseFrom(rel, stack, rbp, rsp, lib).value == rbp + 1 <==> Chain(rel, stack, rbp + 1, rsp, lib)
    decreases rsp
  {
    if rbp + 1 < rsp {
      if Holds(rel, stack[rsp - 1].x, stack[rsp].x, lib) {
        CollapseFromValues(rel, stack, rbp, rsp - 1, lib);
      } else {
        assert !Chain(rel, stack, rbp + 1, rsp, lib);
      }
    }
  }

  /**
   * `<`, `>` and `=` collapse a group of numbers into one slot that holds 1
   * iff every adjacent pair from the bottom up satisfies the relation.
   */
  lemma CompareGroup(rel: Rel, m: Machine, lib: Libm)
    requires Valid(m) && m.rbp < m.rsp && Numbers(m.stack, m.rbp + 1, m.rsp)
    ensures Collapse(rel, m, lib).Next?
    ensures Collapse(rel, m, lib).m.rsp == m.rbp + 1
    ensures Collapse(rel, m, lib).m.stack[m.rbp + 1] == Val(1.0) <==> Chain(rel, m.stack, m.rbp + 1, m.rsp, lib)
    ensures Collapse(rel, m, lib).m.stack[m.rbp + 1] == Val(0.0) <==> !Chain(rel, m.stack, m.rbp + 1, m.rsp, lib)
    ensures Collapse(rel, m, lib).m.stack[..m.rbp + 1] == m.stack[..m.rbp + 1]
  {
    CollapseFromValues(rel, m.stack, m.rbp, m.rsp, lib);
  }

  /** A comparison in an empty group pushes 0. */
  lemma CompareEmptyGroup(rel: Rel, m: Machine, lib: Libm)
    requires Valid(m) && m.rsp == m.rbp && m.rbp + 1 < StackSize
    ensures Collapse(rel, m, lib) == Next(m.(stack := m.stack[m.rbp + 1 := Val(0.0)], rsp := m.rbp + 1))
  {
  }

  // ------------------------------------------------------------ scaling

  /**
   * `r` then `d`, or `d` then `r`, gives the top back, and so does `m`
   * twice: the factors of each pair multiply to 1.
   */
  lemma ScaleRoundTrip(m: Machine, k: real, k': real)
    requires Valid(m) && m.stack[m.rsp].Val?
    requires (k, k') in {(RadiansPerDegree, DegreesPerRadian), (DegreesPerRadian, RadiansPerDegree), (-1.0, -1.0)}
    ensures Scale(k, m).Next? && Scale(k', Scale(k, m).m).Next?
    ensures Scale(k', Scale(k, m).m).m == m
  {
    assert RadiansPerDegree * DegreesPerRadian == 1.0;
    assert k * k' == 1.0;
    var x := m.stack[m.rsp].x;
    var m1 := Scale(k, m).m;
    assert m1 == m.(stack := m.stack[m.rsp := Val(x * k)]);
    assert x * k * k' == x * (k * k') == x;
    assert Scale(k', m1).m == m.(stack := m.stack[m.rsp := Val(x)]);
    assert m.stack[m.rsp := Val(x)] == m.stack;
  }

  // ----------------------------------------------------------------- groups

  /**
   * `(`, one pushed value, `)`: the marker records and restores the base,
   * the value lands in the marker's slot, and the height grows by one.
   */
  lemma GroupRoundTrip(m: Machine, v: real)
    requires Valid(m) && m.rsp + 2 < StackSize
    ensures GroupBegin(m).Next?
    ensures GroupBegin(m).m.stack[m.rsp + 1] == Marker(m.rbp) && GroupBegin(m).m.rbp == m.rsp + 1
    ensures Push(GroupBegin(m).m, v).Next?
    ensures var after := GroupEnd(Push(GroupBegin(m).m, v).m);
      after.Next? && after.m.rbp == m.rbp && after.m.rsp == m.rsp + 1
      && after.m.stack[m.rsp + 1] == Val(v) && after.m.stack[..m.rsp + 1] == m.stack[..m.rsp + 1]
  {
  }

  // -------------------------------------------------------------- registers

  /** `&c` copies the top into register `c` without popping; a later `$c` pushes it back. */
  lemma RegisterRoundTrip(m: Machine, later: Machine)
    requires Valid(m) && m.pos + 1 < |m.text| && IsLower(m.text[m.pos + 1]) && m.stack[m.rsp].Val?
    requires Valid(later) && later.pos + 1 < |later.text| && later.text[later.pos + 1] == m.text[m.pos + 1]
    requires later.rsp + 1 < StackSize && later.info.usrvar == StoreVar(m).m.info.usrvar
    ensures StoreVar(m).Next?
    ensures StoreVar(m).m.stack == m.stack && StoreVar(m).m.rsp == m.rsp
    ensures LoadVar(later).Next?
    ensures LoadVar(later).m.rsp == later.rsp + 1 && LoadVar(later).m.stack[later.rsp + 1] == m.stack[m.rsp]
  {
  }

  /** `$` followed by neither a digit nor a lower-case letter panics with `ERR_CHAR_NOT_FOUND`. */
  lemma LoadVarPanics(m: Machine, lib: Libm)
    requires Valid(m) && m.text[m.pos] == '$' && m.pos + 1 < |m.text|
    requires !IsDigit(m.text[m.pos + 1]) && !IsLower(m.text[m.pos + 1])
    ensures Run(m, lib) == Panic(ErrCode.CharNotFound)
  {
    TableEntries();
    assert Handle(m, lib) == LoadVar(m);
  }

  // --------------------------------------------------------------- `@p` `@s`

  /** `@p` pushes a copy of the top. */
  lemma DuplicateTop(m: Machine, lib: Libm)
    requires Valid(m) && m.pos + 1 < |m.text| && m.text[m.pos + 1] == 'p' && m.rsp + 1 < StackSize
    ensures SysFn(m, lib).Next?
    ensures SysFn(m, lib).m.rsp == m.rsp + 1
    ensures SysFn(m, lib).m.stack == m.stack[m.rsp + 1 := m.stack[m.rsp]]
  {
  }

  /** `@s` replaces a whole top value `n` by the slot `n + 1` below it. */
  lemma PickSlot(m: Machine, lib: Libm, n: nat)
    requires Valid(m) && m.pos + 1 < |m.text| && m.text[m.pos + 1] == 's'
    requires m.stack[m.rsp] == Val(n as real) && n < m.rsp
    ensures SysFn(m, lib).Next?
    ensures SysFn(m, lib).m.rsp == m.rsp
    ensures SysFn(m, lib).m.stack == m.stack[m.rsp := m.stack[m.rsp - n - 1]]
  {
    assert TruncInt(n as real) == n;
  }

  /**
   * `@r` writes the next `rand()` draw over the top and counts it: the
   * `n`-th draw of the process is `rand(n)`, so two `@r` in turn read two
   * successive draws.
   */
  lemma RandomDraws(m: Machine, lib: Libm)
    requires Valid(m) && m.pos + 1 < |m.text| && m.text[m.pos + 1] == 'r'
    ensures SysFn(m, lib).Next? && SysFn(m, lib).m.rsp == m.rsp
    ensures SysFn(m, lib).m.stack == m.stack[m.rsp := Val(lib.rand(m.info.draws))]
    ensures SysFn(m, lib).m.info == m.info.(draws := m.info.draws + 1)
  {
  }

  // ------------------------------------------------------------ constants

  /** `\` followed by a lower-case letter reads outside the constant table, so the run is undefined. */
  lemma ConstLowerCaseStuck(m: Machine, lib: Libm)
    requires Valid(m) && m.text[m.pos] == '\\' && m.pos + 1 < |m.text| && IsLower(m.text[m.pos + 1])
    ensures Handle(m, lib) == Halt(Stuck)
    ensures Run(m, lib) == Stuck
  {
    assert Table('\\') == Symbols[34];
    PhyConst.LowerCaseOutOfTable(m.text[m.pos + 1]);
    assert Handle(m, lib) == Const(m);
    assert Run(m, lib) == Continue(m, Handle(m, lib), lib);
  }

  // ------------------------------------------------------------- the cut

  /** `,` or `;` cuts the input after itself, so the run ends at the next step. */
  lemma CutEndsRun(m: Machine, lib: Libm)
    requires Valid(m) && m.text[m.pos] in ",;" && m.pos + 1 < |m.text|
    ensures Run(m, lib) == Finish(m)
  {
    TableEntries();
    var m1 := m.(text := m.text[m.pos + 1 := Nul]);
    assert Handle(m, lib) == Next(m1) by {
      assert Handle(m, lib) == End(m);
    }
    RunNext(m, lib);
    var m2 := m1.(pos := m.pos + 1);
    assert m2.text[m2.pos] == Nul;
    assert Run(m2, lib) == Finish(m2);
    assert Finish(m2) == Finish(m);
  }


  // ---------------------------------------------------------------- history

  /**
   * A finished run appends its result to the history exactly when there is
   * room: `histi` rises by one and the new entry is the result; otherwise
   * the history is as it was.
   */
  lemma {:induction false} RunHistory(m: Machine, lib: Libm)
    requires Valid(m)
    ensures var o := Run(m, lib);
      o.Done? ==> Recorded(m.info, o)
    decreases |m.text| - m.pos, 1
  {
    if m.text[m.pos] == Nul {
      assert Run(m, lib) == Finish(m);
    } else {
      assert Run(m, lib) == Continue(m, Handle(m, lib), lib);
      ContinueHistory(m, Handle(m, lib), lib);
    }
  }

  /** The history half of `RunHistory` after one handler. */
  lemma {:induction false} ContinueHistory(m: Machine, r: Step, lib: Libm)
    requires Valid(m) && Moves(m, r)
    ensures var o := Continue(m, r, lib);
      o.Done? ==> Recorded(m.info, o)
    decreases |m.text| - m.pos, 0
  {
    if r.Next? && r.m.pos + 1 < |r.m.text| {
      RunHistory(r.m.(pos := r.m.pos + 1), lib);
    }
  }


  /** The result `o` of a run that started with store `info` was appended to the history iff there was room. */
  ghost predicate Recorded(info: Store, o: Outcome)
    requires StoreOk(info) && o.Done?
  {
    StoreOk(o.info)
    && (info.histi < BufSize ==> o.info.histi == info.histi + 1 && o.info.hist == info.hist[info.histi := o.value])
    && (info.histi >= BufSize ==> o.info.histi == info.histi && o.info.hist == info.hist)
  }

  // ----------------------------------------------------------------- intfn

  /** The two operands of a gcd as the corrected `i` handler takes them: the value below the top, and the top. */
  lemma GcdOfTwo(m: Machine, lib: Libm)
    requires Valid(m) && m.pos + 1 < |m.text| && m.text[m.pos + 1] == 'g' && m.rsp > 0
    requires m.stack[m.rsp - 1].Val? && m.stack[m.rsp].Val?
    requires ArthFn.Convertible(m.stack[m.rsp - 1].x) && ArthFn.Convertible(m.stack[m.rsp].x)
    ensures IntFn(m, lib).Next? && IntFn(m, lib).m.rsp == m.rsp - 1
    ensures IntFn(m, lib).m.stack[m.rsp - 1]
         == Val(ArthFn.GcdOf(ArthFn.Trunc(m.stack[m.rsp - 1].x), ArthFn.Trunc(m.stack[m.rsp].x)) as real)
  {
  }

  /** Euclid's recurrence on equal arguments returns the argument. */
  lemma GcdSame(n: nat)
    ensures ArthFn.GcdOf(n, n) == n
  {
    if n > 0 {
      assert n % n == 0;
      assert ArthFn.GcdOf(n, n) == ArthFn.GcdOf(n, 0);
    }
  }

  /** As written, `ig` replaces the top `x` by `gcd(x, x)`, its truncation, and ignores the value below. */
  lemma GcdAsWrittenIgnoresOperand(m: Machine, lib: Libm)
    requires Valid(m) && m.pos + 1 < |m.text| && m.text[m.pos + 1] == 'g'
    requires m.stack[m.rsp].Val? && ArthFn.Convertible(m.stack[m.rsp].x)
    ensures IntFnAsWritten(m, lib).Next? && IntFnAsWritten(m, lib).m.rsp == m.rsp
    ensures IntFnAsWritten(m, lib).m.stack == m.stack[m.rsp := Val(ArthFn.Trunc(m.stack[m.rsp].x) as real)]
  {
    GcdSame(ArthFn.Trunc(m.stack[m.rsp].x));
  }

  /** With 12 and 18 on the stack, `ig` leaves 18 on top as written, where the gcd is 6. */
  lemma GcdCounterexample(m: Machine, lib: Libm)
    requires Valid(m) && m.pos + 1 < |m.text| && m.text[m.pos + 1] == 'g' && m.rsp > 0
    requires m.stack[m.rsp - 1] == Val(12.0) && m.stack[m.rsp] == Val(18.0)
    ensures IntFnAsWritten(m, lib).m.stack[m.rsp] == Val(18.0)
    ensures IntFn(m, lib).m.stack[m.rsp - 1] == Val(6.0)
  {
    GcdAsWrittenIgnoresOperand(m, lib);
    GcdOfTwo(m, lib);
    ArthFn.TruncWhole(18);
    ArthFn.TruncWhole(12);
    assert ArthFn.GcdOf(12, 18) == 6;
  }

  /** The machine dispatches `i` to `rpx_intfn` as written: with 12 below 18, `ig` leaves 18 on top and 12 below it. */
  lemma HandleGcdAsWritten(m: Machine, lib: Libm)
    requires Valid(m) && m.text[m.pos] == 'i' && m.pos + 1 < |m.text| && m.text[m.pos + 1] == 'g' && m.rsp > 0
    requires m.stack[m.rsp - 1] == Val(12.0) && m.stack[m.rsp] == Val(18.0)
    ensures Handle(m, lib).Next? && Handle(m, lib).m.rsp == m.rsp
    ensures Handle(m, lib).m.stack[m.rsp] == Val(18.0) && Handle(m, lib).m.stack[m.rsp - 1] == Val(12.0)
  {
    assert Table('i') == Symbols[47];
    assert Handle(m, lib) == IntFnAsWritten(m, lib);
    GcdCounterexample(m, lib);
  }

  // ------------------------------------------------------------ sample runs

  /** A handler that leaves a next state continues the run one character further on. */
  lemma RunNext(m: Machine, lib: Libm)
    requires Valid(m) && m.text[m.pos] != Nul && Handle(m, lib).Next?
    requires Handle(m, lib).m.pos + 1 < |m.text|
    ensures Run(m, lib) == Run(Handle(m, lib).m.(pos := Handle(m, lib).m.pos + 1), lib)
  {
    assert Run(m, lib) == Continue(m, Handle(m, lib), lib);
  }

  /** The entries of `eval_table` the lemmas below dispatch through. */
  lemma TableEntries()
    ensures Table('+') == FoldH(Plus) && Table('*') == FoldH(Times)
    ensures Table('$') == LoadVarH && Table('&') == StoreVarH
    ensures Table(',') == EndH && Table(';') == EndH
  {
    PunctuationEntries();
    assert Table(';') == Symbols[1];
  }

  /** The entries among '!' to '/' that the lemmas below use. */
  lemma PunctuationEntries()
    ensures Table('+') == FoldH(Plus) && Table('*') == FoldH(Times)
    ensures Table('$') == LoadVarH && Table('&') == StoreVarH && Table(',') == EndH
  {
    assert Table('+') == Punctuation[10];
    assert Table('*') == Punctuation[9];
    assert Table('$') == Punctuation[3];
    assert Table('&') == Punctuation[5];
    assert Table(',') == Punctuation[11];
  }

  /** A single digit followed by a blank pushes its value. */
  lemma StepDigit(m: Machine, lib: Libm)
    requires Valid(m) && IsDigit(m.text[m.pos]) && m.pos + 1 < |m.text| && m.text[m.pos + 1] == ' '
    requires m.rsp + 1 < StackSize
    ensures Run(m, lib) == Run(m.(stack := m.stack[m.rsp + 1 := Val(Strtod.DigitValue(m.text[m.pos]) as real)],
                                  rsp := m.rsp + 1, pos := m.pos + 1), lib)
  {
    var m1 := m.(stack := m.stack[m.rsp + 1 := Val(Strtod.DigitValue(m.text[m.pos]) as real)], rsp := m.rsp + 1);
    HandleDigit(m, lib);
    assert Handle(m, lib).m == m1;
    RunNext(m, lib);
  }

  /** The handler step of `StepDigit`. */
  lemma HandleDigit(m: Machine, lib: Libm)
    requires Valid(m) && IsDigit(m.text[m.pos]) && m.pos + 1 < |m.text| && m.text[m.pos + 1] == ' '
    requires m.rsp + 1 < StackSize
    ensures Handle(m, lib) == Next(m.(stack := m.stack[m.rsp + 1 := Val(Strtod.DigitValue(m.text[m.pos]) as real)], rsp := m.rsp + 1))
  {
    Strtod.WholeNumber(m.text, m.pos, m.pos + 1);
    assert Handle(m, lib) == Number(m);
  }


  /** A blank followed by a character that is not white space is skipped. */
  lemma StepBlank(m: Machine, lib: Libm)
    requires Valid(m) && m.text[m.pos] == ' ' && m.pos + 1 < |m.text| && !IsSpace(m.text[m.pos + 1])
    ensures Run(m, lib) == Run(m.(pos := m.pos + 1), lib)
  {
    assert SkipSpace(m.text, m.pos + 1) == Some(m.pos + 1);
    assert Handle(m, lib) == Next(m) by {
      assert Handle(m, lib) == Space(m);
    }
    RunNext(m, lib);
  }

  /** A fold operator over a group of numbers. */
  lemma StepFold(m: Machine, lib: Libm, op: BinOp)
    requires Valid(m) && ' ' <= m.text[m.pos] <= '~' && Table(m.text[m.pos]) == FoldH(op) && m.pos + 1 < |m.text|
    requires m.rbp < m.rsp && Numbers(m.stack, m.rbp + 1, m.rsp)
    ensures Run(m, lib) == Run(m.(
      stack := m.stack[m.rbp + 1 := Val(FoldDown(op, m.stack[m.rbp + 1].x, Reals(m.stack, m.rbp + 2, m.rsp + 1), lib))],
      rsp := m.rbp + 1, pos := m.pos + 1), lib)
  {
    var st := m.stack[m.rbp + 1 := Val(FoldDown(op, m.stack[m.rbp + 1].x, Reals(m.stack, m.rbp + 2, m.rsp + 1), lib))];
    var m1 := m.(stack := st, rsp := m.rbp + 1);
    assert Handle(m, lib) == Next(m1) by {
      assert Handle(m, lib) == Dispatch(FoldH(op), m, lib);
      FoldGroup(op, m, lib);
    }
    RunNext(m, lib);
    assert m1.(pos := m1.pos + 1) == m.(stack := st, rsp := m.rbp + 1, pos := m.pos + 1);
  }

  /** `&c` stores the top in register `c`. */
  lemma StepStore(m: Machine, lib: Libm)
    requires Valid(m) && m.text[m.pos] == '&' && m.pos + 2 < |m.text|
    requires IsLower(m.text[m.pos + 1]) && m.stack[m.rsp].Val?
    ensures Run(m, lib) == Run(m.(
      info := m.info.(usrvar := m.info.usrvar[m.text[m.pos + 1] as int - 'a' as int := m.stack[m.rsp].x]),
      pos := m.pos + 2), lib)
  {
    HandleStore(m, lib);
    RunNext(m, lib);
  }

  /** The handler step of `StepStore`. */
  lemma HandleStore(m: Machine, lib: Libm)
    requires Valid(m) && m.text[m.pos] == '&' && m.pos + 2 < |m.text|
    requires IsLower(m.text[m.pos + 1]) && m.stack[m.rsp].Val?
    ensures Handle(m, lib) == Next(m.(
      info := m.info.(usrvar := m.info.usrvar[m.text[m.pos + 1] as int - 'a' as int := m.stack[m.rsp].x]),
      pos := m.pos + 1))
  {
    TableEntries();
    assert Handle(m, lib) == StoreVar(m);
  }

  /** `$c` pushes register `c`. */
  lemma StepLoad(m: Machine, lib: Libm)
    requires Valid(m) && m.text[m.pos] == '$' && m.pos + 2 < |m.text|
    requires IsLower(m.text[m.pos + 1]) && m.rsp + 1 < StackSize
    ensures Run(m, lib) == Run(m.(
      stack := m.stack[m.rsp + 1 := Val(m.info.usrvar[m.text[m.pos + 1] as int - 'a' as int])],
      rsp := m.rsp + 1, pos := m.pos + 2), lib)
  {
    HandleLoad(m, lib);
    RunNext(m, lib);
  }

  /** The handler step of `StepLoad`. */
  lemma HandleLoad(m: Machine, lib: Libm)
    requires Valid(m) && m.text[m.pos] == '$' && m.pos + 2 < |m.text|
    requires IsLower(m.text[m.pos + 1]) && m.rsp + 1 < StackSize
    ensures Handle(m, lib) == Next(m.(
      stack := m.stack[m.rsp + 1 := Val(m.info.usrvar[m.text[m.pos + 1] as int - 'a' as int])],
      rsp := m.rsp + 1, pos := m.pos + 1))
  {
    TableEntries();
    assert Handle(m, lib) == LoadVar(m);
  }

  /** The buffer `"5 6 + &x"`, character by character. */
  ghost predicate StoreText(t: seq<char>) {
    |t| == 9 && t[0] == '5' && t[1] == ' ' && t[2] == '6' && t[3] == ' ' && t[4] == '+'
    && t[5] == ' ' && t[6] == '&' && t[7] == 'x' && t[8] == Nul
  }

  /** `"5 6 "` pushes 5 and 6. */
  lemma StorePushes(t: seq<char>, info: Store, lib: Libm)
    requires StoreOk(info) && StoreText(t)
    ensures var s0: seq<Slot> := seq(StackSize, _ => Unset);
      Run(Start(t, info), lib) == Run(Machine(s0[1 := Val(5.0)][2 := Val(6.0)], 0, 2, t, 4, info), lib)
  {
    var s0: seq<Slot> := seq(StackSize, _ => Unset);
    var s1 := s0[1 := Val(5.0)];
    var s2 := s1[2 := Val(6.0)];
    StepDigit(Start(t, info), lib);
    StepBlank(Machine(s1, 0, 1, t, 1, info), lib);
    StepDigit(Machine(s1, 0, 1, t, 2, info), lib);
    StepBlank(Machine(s2, 0, 2, t, 3, info), lib);
  }

  /** `" &x"` after the sum: 11 goes into register `x` and the run ends with it. */
  lemma StoreTail(t: seq<char>, s3: seq<Slot>, info: Store, lib: Libm)
    requires StoreOk(info) && StoreText(t) && |s3| == StackSize && s3[1] == Val(11.0)
    ensures var o := Run(Machine(s3, 0, 1, t, 5, info), lib);
      o.Done? && o.value == 11.0 && o.info.usrvar == info.usrvar[23 := 11.0]
  {
    var info1 := info.(usrvar := info.usrvar[23 := 11.0]);
    StepBlank(Machine(s3, 0, 1, t, 5, info), lib);
    StepStore(Machine(s3, 0, 1, t, 6, info), lib);
    assert Run(Machine(s3, 0, 1, t, 8, info1), lib) == Finish(Machine(s3, 0, 1, t, 8, info1));
  }

  /** The steps of `"5 6 + &x"`: the pushes, the sum, then the store into `x`. */
  lemma StoreRun(t: seq<char>, info: Store, lib: Libm)
    requires StoreOk(info) && StoreText(t)
    ensures var o := Run(Start(t, info), lib);
      o.Done? && o.value == 11.0 && o.info.usrvar == info.usrvar[23 := 11.0]
  {
    var s0: seq<Slot> := seq(StackSize, _ => Unset);
    var s2 := s0[1 := Val(5.0)][2 := Val(6.0)];
    var s3 := s2[1 := Val(11.0)];
    StorePushes(t, info, lib);
    TableEntries();
    StepFold(Machine(s2, 0, 2, t, 4, info), lib, Plus);
    assert FoldDown(Plus, 5.0, Reals(s2, 2, 3), lib) == 11.0;
    StoreTail(t, s3, info, lib);
  }

  /** `"5 6 + &x"` evaluates to 11 and leaves 11 in register `x`. */
  lemma SampleStore(info: Store, lib: Libm)
    requires StoreOk(info)
    ensures var o := EvalExprReal("5 6 + &x\0", info, lib);
      o.Done? && o.value == 11.0 && o.info.usrvar == info.usrvar[23 := 11.0]
  {
    assert StoreText("5 6 + &x\0");
    StoreRun("5 6 + &x\0", info, lib);
  }

  /** The buffer `"$x 2 *"`, character by character. */
  ghost predicate LoadText(t: seq<char>) {
    |t| == 7 && t[0] == '$' && t[1] == 'x' && t[2] == ' ' && t[3] == '2' && t[4] == ' ' && t[5] == '*' && t[6] == Nul
  }

  /** `"$x 2 "` pushes register `x` and 2. */
  lemma LoadPushes(t: seq<char>, info: Store, lib: Libm)
    requires StoreOk(info) && LoadText(t)
    ensures var s0: seq<Slot> := seq(StackSize, _ => Unset);
      Run(Start(t, info), lib) == Run(Machine(s0[1 := Val(info.usrvar[23])][2 := Val(2.0)], 0, 2, t, 5, info), lib)
  {
    var s0: seq<Slot> := seq(StackSize, _ => Unset);
    var s1 := s0[1 := Val(info.usrvar[23])];
    var s2 := s1[2 := Val(2.0)];
    StepLoad(Start(t, info), lib);
    StepBlank(Machine(s1, 0, 1, t, 2, info), lib);
    StepDigit(Machine(s1, 0, 1, t, 3, info), lib);
    StepBlank(Machine(s2, 0, 2, t, 4, info), lib);
  }

  /** The steps of `"$x 2 *"`: the pushes, then the product. */
  lemma LoadRun(t: seq<char>, info: Store, lib: Libm)
    requires StoreOk(info) && info.usrvar[23] == 11.0 && LoadText(t)
    ensures var o := Run(Start(t, info), lib);
      o.Done? && o.value == 22.0
  {
    var s0: seq<Slot> := seq(StackSize, _ => Unset);
    var s2 := s0[1 := Val(11.0)][2 := Val(2.0)];
    var s3 := s2[1 := Val(22.0)];
    LoadPushes(t, info, lib);
    TableEntries();
    StepFold(Machine(s2, 0, 2, t, 5, info), lib, Times);
    assert FoldDown(Times, 11.0, Reals(s2, 2, 3), lib) == 22.0;
    assert Run(Machine(s3, 0, 1, t, 6, info), lib) == Finish(Machine(s3, 0, 1, t, 6, info));
  }

  /** With 11 in register `x`, `"$x 2 *"` evaluates to 22. */
  lemma SampleLoad(info: Store, lib: Libm)
    requires StoreOk(info) && info.usrvar[23] == 11.0
    ensures var o := EvalExprReal("$x 2 *\0", info, lib);
      o.Done? && o.value == 22.0
  {
    assert LoadText("$x 2 *\0");
    LoadRun("$x 2 *\0", info, lib);
  }

  /** The two runs in sequence, against any store with room in the history: 11, then 22. */
  lemma SampleSession(info: Store, lib: Libm)
    requires StoreOk(info)
    ensures var o1 := EvalExprReal("5 6 + &x\0", info, lib);
      o1.Done? && o1.value == 11.0 && StoreOk(o1.info)
      && var o2 := EvalExprReal("$x 2 *\0", o1.info, lib);
      o2.Done? && o2.value == 22.0
  {
    SampleStore(info, lib);
    var o1 := EvalExprReal("5 6 + &x\0", info, lib);
    RunHistory(Start("5 6 + &x\0", info), lib);
    SampleLoad(o1.info, lib);
  }
}
