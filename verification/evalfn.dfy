/**
 * The real-mode evaluator of src/evalfn.c as the imperative machine it is:
 * the globals `expr`, `rbp`, `rsp` and `info` become fields, `stack[100]`
 * and the expression buffer become arrays written in place, and each
 * `rpx_*` handler becomes a method.  Every method is proved to leave the
 * state that the matching function of `RealSpec` computes from the state it
 * started in; `Eval` is the `for (; *expr; expr++)` loop of
 * `eval_expr_real` and computes `RealSpec.Run`.
 *
 * A handler that reaches undefined behaviour, panics or calls a user
 * function stops with `Some(outcome)`; otherwise it returns `None` and the
 * state has moved on.
 */
module EvalFn {
  import opened Wrappers
  import opened CType
  import opened CString
  import opened RealSpec
  import PhyConst
  import ErrCode
  import Strtod

  class RealEvaluator {
    const stack: array<Slot>
    var rbp: nat
    var rsp: nat
    const text: array<char>
    var pos: nat
    var info: Store
    const lib: Libm

    /** The machine state the fields and arrays hold. */
    ghost function Snap(): Machine
      reads this, stack, text
    {
      Machine(stack[..], rbp, rsp, text[..], pos, info)
    }

    ghost predicate Valid()
      reads this, stack, text
    {
      RealSpec.Valid(Snap())
    }

    /** The handler just run ended as step `r` says: with the state `r` names, or with its outcome. */
    ghost predicate Became(halt: Option<Outcome>, r: Step)
      reads this, stack, text
    {
      match r
      case Next(m) => halt.None? && Snap() == m
      case Halt(o) => halt == Some(o)
    }

    /** `eval_expr_real`'s set-up: the buffer, an uninitialised stack, both pointers on slot 0. */
    constructor (t: seq<char>, store: Store, l: Libm)
      requires |t| > 0 && StoreOk(store)
      ensures Snap() == Start(t, store) && lib == l && Valid()
      ensures fresh(stack) && fresh(text)
    {
      stack := new Slot[StackSize](_ => Unset);
      text := new char[|t|](i requires 0 <= i < |t| => t[i]);
      rbp := 0;
      rsp := 0;
      pos := 0;
      info := store;
      lib := l;
      new;
      assert stack[..] == seq(StackSize, _ => Unset);
      assert text[..] == t;
    }

    /** `PUSH = v`. */
    method Push(v: real) returns (halt: Option<Outcome>)
      requires Valid()
      modifies this, stack
      ensures Became(halt, RealSpec.Push(old(Snap()), v))
    {
      if rsp + 1 < StackSize {
        rsp := rsp + 1;
        stack[rsp] := Val(v);
        halt := None;
      } else {
        halt := Some(Stuck);
      }
    }

    /** `rbp[1] op= POP`, once: the fold from the top one slot lower is the same fold. */
    method FoldOnce(op: BinOp) returns (ok: bool)
      requires Valid() && rbp + 1 < rsp
      modifies this, stack
      ensures Valid() && rbp == old(rbp) && pos == old(pos) && info == old(info)
      ensures ok <==> old(stack[rbp + 1].Val? && stack[rsp].Val?)
      ensures !ok ==> FoldFrom(op, old(stack[..]), rbp, old(rsp), lib) == None
      ensures ok ==> rsp + 1 == old(rsp)
      ensures ok ==> FoldFrom(op, stack[..], rbp, rsp, lib) == FoldFrom(op, old(stack[..]), rbp, old(rsp), lib)
    {
      if !stack[rbp + 1].Val? || !stack[rsp].Val? {
        return false;
      }
      ghost var before := stack[..];
      stack[rbp + 1] := Val(Apply(op, stack[rbp + 1].x, stack[rsp].x, lib));
      assert stack[..] == before[rbp + 1 := stack[rbp + 1]];
      rsp := rsp - 1;
      return true;
    }

    /** `rpx_add` .. `rpx_pow`: `for (; rbp + 1 < rsp; rbp[1] op= POP);`. */
    method Fold(op: BinOp) returns (halt: Option<Outcome>)
      requires Valid()
      modifies this, stack
      ensures Became(halt, RealSpec.Fold(op, old(Snap()), lib))
    {
      ghost var m := Snap();
      while rbp + 1 < rsp
        invariant Valid() && rbp == m.rbp && pos == m.pos && info == m.info
        invariant rsp <= m.rsp && (m.rbp + 1 < m.rsp ==> rbp + 1 <= rsp) && (m.rbp + 1 >= m.rsp ==> rsp == m.rsp)
        invariant FoldFrom(op, stack[..], rbp, rsp, lib) == FoldFrom(op, m.stack, m.rbp, m.rsp, lib)
        decreases rsp
      {
        var ok := FoldOnce(op);
        if !ok {
          return Some(Stuck);
        }
      }
      assert FoldFrom(op, m.stack, m.rbp, m.rsp, lib) == Some(stack[..]);
      halt := None;
    }

    /** `rpx_eql`, `rpx_lt`, `rpx_gt`: pop while the relation holds, then collapse the group to 1 or 0. */
    method Collapse(rel: Rel) returns (halt: Option<Outcome>)
      requires Valid()
      modifies this, stack
      ensures Became(halt, RealSpec.Collapse(rel, old(Snap()), lib))
    {
      ghost var m := Snap();
      while rbp + 1 < rsp
        invariant Valid() && rbp == m.rbp && pos == m.pos && info == m.info && text[..] == m.text
        invariant stack[..] == m.stack && rsp <= m.rsp
        invariant CollapseFrom(rel, stack[..], rbp, rsp, lib) == CollapseFrom(rel, m.stack, m.rbp, m.rsp, lib)
        decreases rsp
      {
        if !stack[rsp - 1].Val? || !stack[rsp].Val? {
          return Some(Stuck);
        }
        if !Holds(rel, stack[rsp - 1].x, stack[rsp].x, lib) {
          break;
        }
        rsp := rsp - 1;
      }
      if rbp + 1 >= StackSize {
        return Some(Stuck);
      }
      stack[rbp + 1] := Val(if rbp + 1 == rsp then 1.0 else 0.0);
      rsp := rbp + 1;
      halt := None;
    }

    /** `*rsp = f(*rsp)`. */
    method Overwrite(f: Fn) returns (halt: Option<Outcome>)
      requires Valid()
      modifies stack
      ensures Became(halt, RealSpec.Overwrite(f, old(Snap()), lib))
    {
      if !stack[rsp].Val? {
        return Some(Stuck);
      }
      stack[rsp] := Val(Eval1(f, stack[rsp].x, lib));
      halt := None;
    }

    /** `*rsp *= factor`. */
    method Scale(k: real) returns (halt: Option<Outcome>)
      requires Valid()
      modifies stack
      ensures Became(halt, RealSpec.Scale(k, old(Snap())))
    {
      if !stack[rsp].Val? {
        return Some(Stuck);
      }
      ghost var m := Snap();
      var x := stack[rsp].x * k;
      stack[rsp] := Val(x);
      halt := None;
      assert RealSpec.Scale(k, m).m.stack[m.rsp] == Val(x);
      assert RealSpec.Scale(k, m).m.stack == stack[..];
    }

    /** `rpx_hyp`, `rpx_arc`, `rpx_log`: `switch (*++expr)`. */
    method TwoChar(fam: Family) returns (halt: Option<Outcome>)
      requires Valid()
      modifies this, stack
      ensures Became(halt, RealSpec.TwoChar(fam, old(Snap()), lib))
    {
      if pos + 1 == text.Length {
        return Some(Stuck);
      }
      pos := pos + 1;
      match Member(fam, text[pos])
      case None =>
        halt := None;
      case Some(f) =>
        halt := Overwrite(f);
    }

    /** `rpx_intfn`: `double x = *rsp; *rsp = f(*rsp, x);`, the top taken as both operands. */
    method IntFn() returns (halt: Option<Outcome>)
      requires Valid()
      modifies this, stack
      ensures Became(halt, RealSpec.IntFnAsWritten(old(Snap()), lib))
    {
      if pos + 1 == text.Length {
        return Some(Stuck);
      }
      pos := pos + 1;
      var c := text[pos];
      if c !in "glpc" {
        return None;
      }
      if !stack[rsp].Val? {
        return Some(Stuck);
      }
      var x := stack[rsp].x;
      match Eval2(c, stack[rsp].x, x, lib)
      case None =>
        halt := Some(Stuck);
      case Some(v) =>
        stack[rsp] := Val(v);
        halt := None;
    }

    /** `rpx_parse`: `PUSH = strtod(expr, &expr); expr--;`. */
    method Number() returns (halt: Option<Outcome>)
      requires Valid() && IsDigit(text[pos])
      modifies this, stack
      ensures Became(halt, RealSpec.Number(old(Snap())))
    {
      match Strtod.Parse(text[..], pos)
      case None =>
        halt := Some(Stuck);
      case Some(r) =>
        pos := r.1 - 1;
        halt := Push(r.0);
    }

    /** `rpx_space`: `skipspcs(&expr); expr--;`. */
    method Space() returns (halt: Option<Outcome>)
      requires Valid() && IsSpace(text[pos])
      modifies this
      ensures Became(halt, RealSpec.Space(old(Snap())))
    {
      var j := pos;
      while j < text.Length && IsSpace(text[j])
        invariant pos <= j <= text.Length
        invariant SkipSpace(text[..], j) == SkipSpace(text[..], pos)
        decreases text.Length - j
      {
        j := j + 1;
      }
      if j == text.Length {
        return Some(Stuck);
      }
      pos := j - 1;
      halt := None;
    }

    /** `rpx_const`: `PUSH = get_const(*++expr)`. */
    method Const() returns (halt: Option<Outcome>)
      requires Valid()
      modifies this, stack
      ensures Became(halt, RealSpec.Const(old(Snap())))
    {
      if pos + 1 == text.Length {
        return Some(Stuck);
      }
      pos := pos + 1;
      match PhyConst.GetConstAsWritten(text[pos])
      case None =>
        halt := Some(Stuck);
      case Some(v) =>
        halt := Push(v);
    }

    /** `rpx_lvars`: push an argument or a register, or panic. */
    method LoadVar() returns (halt: Option<Outcome>)
      requires Valid()
      modifies this, stack
      ensures Became(halt, RealSpec.LoadVar(old(Snap())))
    {
      if pos + 1 == text.Length {
        return Some(Stuck);
      }
      pos := pos + 1;
      var c := text[pos];
      if IsDigit(c) {
        if c == '0' {
          return Some(Stuck);
        }
        halt := Push(info.argv[c as int - '1' as int]);
      } else if IsLower(c) {
        halt := Push(info.usrvar[c as int - 'a' as int]);
      } else {
        halt := Some(Panic(ErrCode.CharNotFound));
      }
    }

    /** `rpx_wvars`: `info.usrvar[*++expr - 'a'] = *rsp`. */
    method StoreVar() returns (halt: Option<Outcome>)
      requires Valid()
      modifies this
      ensures Became(halt, RealSpec.StoreVar(old(Snap())))
    {
      if pos + 1 == text.Length {
        return Some(Stuck);
      }
      var c := text[pos + 1];
      if !IsLower(c) || !stack[rsp].Val? {
        return Some(Stuck);
      }
      pos := pos + 1;
      info := info.(usrvar := info.usrvar[c as int - 'a' as int := stack[rsp].x]);
      halt := None;
    }

    /** `rpx_end`: `expr[1] = '\0'`. */
    method End() returns (halt: Option<Outcome>)
      requires Valid()
      modifies text
      ensures Became(halt, RealSpec.End(old(Snap())))
    {
      if pos + 1 == text.Length {
        return Some(Stuck);
      }
      text[pos + 1] := Nul;
      halt := None;
    }

    /** `rpx_grpbgn`: `*++rsp = rbp; rbp = rsp;`. */
    method GroupBegin() returns (halt: Option<Outcome>)
      requires Valid()
      modifies this, stack
      ensures Became(halt, RealSpec.GroupBegin(old(Snap())))
    {
      if rsp + 1 >= StackSize {
        return Some(Stuck);
      }
      rsp := rsp + 1;
      stack[rsp] := Marker(rbp);
      rbp := rsp;
      halt := None;
    }

    /** `rpx_grpend`: `rbp = *rbp; rsp--; *rsp = rsp[1];`. */
    method GroupEnd() returns (halt: Option<Outcome>)
      requires Valid()
      modifies this, stack
      ensures Became(halt, RealSpec.GroupEnd(old(Snap())))
    {
      match stack[rbp]
      case Marker(b) =>
        if b >= StackSize || rsp == 0 {
          return Some(Stuck);
        }
        rbp := b;
        rsp := rsp - 1;
        stack[rsp] := stack[rsp + 1];
        halt := None;
      case _ =>
        halt := Some(Stuck);
    }

    /** `rpx_sysfn`: `switch (*++expr)` over `a`, `h`, `p`, `s`, `r`. */
    method SysFn() returns (halt: Option<Outcome>)
      requires Valid()
      modifies this, stack
      ensures Became(halt, RealSpec.SysFn(old(Snap()), lib))
    {
      if pos + 1 == text.Length {
        return Some(Stuck);
      }
      pos := pos + 1;
      var c := text[pos];
      var top := stack[rsp];
      if c == 'a' {
        if 0 < info.histi <= BufSize {
          halt := Push(info.hist[info.histi - 1]);
        } else {
          halt := Some(Stuck);
        }
      } else if c == 'h' {
        if !top.Val? || !IntConvertible(top.x) {
          return Some(Stuck);
        }
        var k := info.histi - TruncInt(top.x) - 1;
        if 0 <= k < BufSize {
          stack[rsp] := Val(info.hist[k]);
          halt := None;
        } else {
          halt := Some(Stuck);
        }
      } else if c == 'p' {
        if rsp + 1 < StackSize {
          stack[rsp + 1] := top;
          rsp := rsp + 1;
          halt := None;
        } else {
          halt := Some(Stuck);
        }
      } else if c == 's' {
        if !top.Val? || !IntConvertible(top.x) {
          return Some(Stuck);
        }
        var k := rsp - TruncInt(top.x) - 1;
        if 0 <= k < StackSize {
          stack[rsp] := stack[k];
          halt := None;
        } else {
          halt := Some(Stuck);
        }
      } else if c == 'r' {
        stack[rsp] := Val(lib.rand(info.draws));
        info := info.(draws := info.draws + 1);
        halt := None;
      } else {
        halt := None;
      }
    }

    /** `eval_table[*expr - ' ']()`. */
    method Step() returns (halt: Option<Outcome>)
      requires Valid() && text[pos] != Nul
      modifies this, stack, text
      ensures Became(halt, Handle(old(Snap()), lib))
    {
      var c := text[pos];
      if !(' ' <= c <= '~') {
        return Some(Stuck);
      }
      match Table(c)
      case SpaceH => halt := Space();
      case CallFnH => halt := Some(Foreign);
      case LoadVarH => halt := LoadVar();
      case StoreVarH => halt := StoreVar();
      case EndH => halt := End();
      case GroupBeginH => halt := GroupBegin();
      case GroupEndH => halt := GroupEnd();
      case ParseH => halt := Number();
      case SysFnH => halt := SysFn();
      case ConstH => halt := Const();
      case IntFnH => halt := IntFn();
      case FoldH(op) => halt := Fold(op);
      case CollapseH(rel) => halt := Collapse(rel);
      case OverwriteH(f) => halt := Overwrite(f);
      case ScaleH(k) => halt := Scale(k);
      case TwoCharH(fam) => halt := TwoChar(fam);
      case NullH => halt := Some(Stuck);
    }

    /** The end of `eval_expr_real`: record the top in the history while there is room, and return it. */
    method Finish() returns (o: Outcome)
      requires Valid()
      modifies this
      ensures o == RealSpec.Finish(old(Snap()))
    {
      match stack[rsp]
      case Val(x) =>
        if info.histi < BufSize {
          info := info.(hist := info.hist[info.histi := x], histi := info.histi + 1);
        }
        o := Done(x, info);
      case _ =>
        o := Stuck;
    }

    /**
     * One turn of the main loop: run the handler of the current character,
     * then `++expr`.  Either the run ends here with the outcome `Run`
     * gives, or it goes on from a later position with the same outcome ahead.
     */
    method Advance() returns (halt: Option<Outcome>)
      requires Valid() && text[pos] != Nul
      modifies this, stack, text
      ensures halt.Some? ==> halt.value == Run(old(Snap()), lib)
      ensures halt.None? ==> Valid() && pos > old(pos) && Run(Snap(), lib) == Run(old(Snap()), lib)
    {
      ghost var m := Snap();
      ghost var r := Handle(m, lib);
      assert Run(m, lib) == Continue(m, r, lib);
      halt := Step();
      if halt.Some? {
        return;
      }
      ghost var m1 := Snap();
      assert r == Next(m1);
      if pos + 1 == text.Length {
        return Some(Stuck);
      }
      assert Run(m, lib) == Run(m1.(pos := m1.pos + 1), lib);
      pos := pos + 1;
      assert Snap() == m1.(pos := m1.pos + 1);
    }

    /** The loop of `eval_expr_real`: handle characters until the terminator, then report the result. */
    method Eval() returns (o: Outcome)
      requires Valid()
      modifies this, stack, text
      ensures o == Run(old(Snap()), lib)
    {
      while true
        invariant Valid() && Run(Snap(), lib) == Run(old(Snap()), lib)
        decreases text.Length - pos
      {
        if text[pos] == Nul {
          assert Run(Snap(), lib) == RealSpec.Finish(Snap());
          o := Finish();
          return;
        }
        var halt := Advance();
        if halt.Some? {
          return halt.value;
        }
      }
    }
  }

  /** `eval_expr_real(text)` against the store `info`: the outcome `RealSpec.EvalExprReal` describes. */
  method EvalExprReal(text: seq<char>, info: Store, lib: Libm) returns (o: Outcome)
    requires StoreOk(info)
    ensures o == RealSpec.EvalExprReal(text, info, lib)
  {
    if |text| == 0 {
      return Stuck;
    }
    var e := new RealEvaluator(text, info, lib);
    o := e.Eval();
  }
}
