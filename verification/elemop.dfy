/**
 * The element layer of the complex evaluator (src/elemop.c): operations on
 * the tagged union `elem_t` that dispatch on the tags of their operands, and
 * the matrix buffers they allocate and release, recorded in `Chore.Heap`.
 *
 * An `elem_t *` operand is modelled by value: an operation takes the old
 * values and returns the new ones. Where the C code has no defined meaning
 * (releasing a block that is not live, reading a released buffer, reading
 * past the end of a buffer, or reading one member of the union through
 * another) the operation ends with `Undefined`.
 */
module ElemOp {
  import opened Wrappers
  import opened Cplx
  import opened MatOp
  import Chore
  import ErrCode

  /** `rtype_t`. `NoType` is the tag 0 of a zero-initialised `elem_t`; no enumerator names it. */
  datatype RType = NoType | RealT | CompT | MatrT | LambT

  /**
   * The member of the union `result_t` that was written last: a complex
   * number, a matrix, or the integer the evaluator stores over `real` to mark
   * a group.
   */
  datatype Payload = Num(z: Complex) | Mat(m: Matrix) | Offset(k: nat)

  /** `elem_t`: the tag and the union, which the C code does not keep in step. */
  datatype Elem = Elem(rtype: RType, val: Payload)

  /** A slot of a zero-initialised array of `elem_t`. */
  const Blank := Elem(NoType, Num(Zero))

  /** Every matrix an element holds has a buffer of exactly `rows * cols` entries. */
  predicate Sound(e: Elem) {
    e.val.Mat? ==> Shaped(e.val.m)
  }

  /** The element holds a matrix whose buffer is live. */
  predicate Owns(live: set<object>, e: Elem) {
    e.val.Mat? && e.val.m.data in live
  }

  /** The live heap block an element refers to: the only memory an operation on it may write. */
  function Buffers(live: set<object>, e: Elem): set<object> {
    if Owns(live, e) then {e.val.m.data} else {}
  }

  /**
   * The complex-valued library functions the layer calls, left uninterpreted:
   * `cpow`, what a division by zero yields (an infinity or NaN, which the
   * model does not represent) and the epsilon comparison `eq` of src/gene.c.
   */
  datatype CLib = CLib(pow: (Complex, Complex) -> Complex, divByZero: Complex -> Complex, eq: (Complex, Complex) -> bool)

  /** Complex division. */
  function Quot(a: Complex, b: Complex, lib: CLib): Complex {
    if b != Zero then Div(a, b) else lib.divByZero(a)
  }

  /**
   * How an operation ended: normally, with a diagnostic printed and the
   * operands left alone, with an exception thrown (the other snapshot of
   * this layer), or in behaviour C leaves undefined.
   */
  datatype Status = Done | Reported(code: int) | Thrown(code: int) | Undefined

  // ------------------------------------------------------------- elem_set

  /**
   * `elem_set`: a MATR destination's buffer is released, then the
   * destination becomes the source. Releasing a buffer that is not live is
   * undefined.
   */
  method ElemSet(heap: Chore.Heap, lhs: Elem, rhs: Elem) returns (r: Elem, st: Status)
    modifies heap
    ensures st == Undefined <==> lhs.rtype == MatrT && !Owns(old(heap.live), lhs)
    ensures st != Undefined ==> st == Done && r == rhs
    ensures st == Undefined ==> r == lhs && heap.live == old(heap.live)
    ensures st == Done && lhs.rtype == MatrT ==> heap.live == old(heap.live) - {lhs.val.m.data}
    ensures st == Done && lhs.rtype != MatrT ==> heap.live == old(heap.live)
  {
    if lhs.rtype == MatrT {
      if !(lhs.val.Mat? && lhs.val.m.data in heap.live) {
        return lhs, Undefined;
      }
      heap.Free(lhs.val.m.data);
    }
    return rhs, Done;
  }

  // -------------------------------------------------------------- elem_eq

  /** Every pair of entries of two equally shaped matrices is equal under `eq`. */
  predicate SameEntries(a: Matrix, b: Matrix, lib: CLib)
    reads a.data, b.data
  {
    MCheckDim(a, b) &&
    forall p :: 0 <= p < a.rows * a.cols && p < a.data.Length && p < b.data.Length ==> lib.eq(a.data[p], b.data[p])
  }

  /**
   * `elem_eq` reads a union member that does not hold a value, or an entry
   * of a released buffer. `meq` reads entries only when the shapes agree
   * and there is at least one entry.
   */
  predicate EqUndefined(live: set<object>, lhs: Elem, rhs: Elem) {
    lhs.rtype == rhs.rtype &&
    ((lhs.rtype == CompT && !(lhs.val.Num? && rhs.val.Num?)) ||
     (lhs.rtype == MatrT &&
      (!(lhs.val.Mat? && rhs.val.Mat?) ||
       (MCheckDim(lhs.val.m, rhs.val.m) && lhs.val.m.rows * lhs.val.m.cols > 0 && !(Owns(live, lhs) && Owns(live, rhs))))))
  }

  /** The buffer a matrix payload points at, live or not. */
  function Block(e: Elem): set<object> {
    if e.val.Mat? then {e.val.m.data} else {}
  }

  /** The answer `elem_eq` gives, as a function of the operands; None where it is undefined. */
  function Equal(live: set<object>, lhs: Elem, rhs: Elem, lib: CLib): (r: Option<bool>)
    reads Block(lhs), Block(rhs)
    ensures r.None? <==> EqUndefined(live, lhs, rhs)
    ensures r == Some(true) ==> lhs.rtype == rhs.rtype && lhs.rtype in {CompT, MatrT}
    ensures lhs.rtype == rhs.rtype == MatrT && lhs.val.Mat? && rhs.val.Mat? && !MCheckDim(lhs.val.m, rhs.val.m) ==>
              r == Some(false)
  {
    if lhs.rtype != rhs.rtype then Some(false)
    else if EqUndefined(live, lhs, rhs) then None
    else if lhs.rtype == CompT then Some(lib.eq(lhs.val.z, rhs.val.z))
    else if lhs.rtype == MatrT then Some(SameEntries(lhs.val.m, rhs.val.m, lib))
    else Some(false)
  }

  /**
   * Two matrices of different shapes compare unequal even when their buffers
   * were released: `meq` answers from the shapes before it reads an entry.
   */
  lemma ShapeMismatchIsDefined(lhs: Elem, rhs: Elem, lib: CLib)
    requires lhs.rtype == rhs.rtype == MatrT && lhs.val.Mat? && rhs.val.Mat?
    requires lhs.val.m.rows != rhs.val.m.rows
    ensures Equal({}, lhs, rhs, lib) == Some(false)
  {
  }

  /**
   * `elem_eq`: different tags are unequal; COMP values compare with `eq`,
   * MATR values with `meq`; every other tag, REAL and LAMB included, is
   * unequal to itself. None when the comparison reads what C leaves undefined.
   */
  method ElemEq(heap: Chore.Heap, lhs: Elem, rhs: Elem, lib: CLib) returns (r: Option<bool>)
    requires Sound(lhs) && Sound(rhs)
    ensures r == Equal(heap.live, lhs, rhs, lib)
    ensures r.None? <==> EqUndefined(heap.live, lhs, rhs)
    ensures lhs.rtype != rhs.rtype ==> r == Some(false)
    ensures lhs.rtype == rhs.rtype == CompT && r.Some? ==> (r.value <==> lib.eq(lhs.val.z, rhs.val.z))
    ensures lhs.rtype == rhs.rtype == MatrT && r.Some? ==> (r.value <==> SameEntries(lhs.val.m, rhs.val.m, lib))
    ensures lhs.rtype == rhs.rtype && lhs.rtype !in {CompT, MatrT} ==> r == Some(false)
  {
    if lhs.rtype != rhs.rtype {
      return Some(false);
    }
    if lhs.rtype == CompT {
      if !(lhs.val.Num? && rhs.val.Num?) {
        return None;
      }
      return Some(lib.eq(lhs.val.z, rhs.val.z));
    }
    if lhs.rtype == MatrT {
      if !(lhs.val.Mat? && rhs.val.Mat?) {
        return None;
      }
      if MCheckDim(lhs.val.m, rhs.val.m) && lhs.val.m.rows * lhs.val.m.cols > 0
         && !(lhs.val.m.data in heap.live && rhs.val.m.data in heap.live) {
        return None;
      }
      var same := MEq(lhs.val.m, rhs.val.m, lib.eq);
      return Some(same);
    }
    return Some(false);
  }

  // ----------------------------------------------------- elem_add, elem_sub

  /**
   * The matrix branch of `elem_add` and `elem_sub` has a defined meaning:
   * both operands hold live buffers, and lhs's entries do not outnumber rhs's
   * (the entrywise loop runs over lhs's shape). When `rhsReleased`, rhs's
   * buffer is released as well as lhs's, so the two must differ.
   */
  predicate EntrywiseOk(live: set<object>, lhs: Elem, rhs: Elem, rhsReleased: bool) {
    Owns(live, lhs) && Owns(live, rhs) && lhs.val.m.rows * lhs.val.m.cols <= rhs.val.m.data.Length &&
    (rhsReleased ==> lhs.val.m.data != rhs.val.m.data)
  }

  /** The complex branch reads `comp` from both operands. */
  predicate BothNumbers(lhs: Elem, rhs: Elem) {
    lhs.val.Num? && rhs.val.Num?
  }

  /**
   * `elem_add`: different tags are reported and leave lhs alone. Two
   * matrices give lhs a fresh buffer holding `madd`, and both old buffers
   * are released; any other pair adds the complex values.
   */
  method ElemAdd(heap: Chore.Heap, lhs: Elem, rhs: Elem) returns (r: Elem, st: Status)
    requires Sound(lhs) && Sound(rhs)
    modifies heap
    ensures Sound(r)
    ensures st == Undefined ==> r == lhs && heap.live == old(heap.live)
    ensures lhs.rtype != rhs.rtype ==>
              st == Reported(ErrCode.TypeMismatch) && r == lhs && heap.live == old(heap.live)
    ensures lhs.rtype == rhs.rtype == MatrT ==> (st == Undefined <==> !EntrywiseOk(old(heap.live), lhs, rhs, true))
    ensures lhs.rtype == rhs.rtype == MatrT && st != Undefined ==>
              && st == Done && r.rtype == MatrT && r.val.Mat? && fresh(r.val.m.data)
              && r.val.m.rows == lhs.val.m.rows && r.val.m.cols == lhs.val.m.cols
              && Exact(r.val.m) && (forall p :: 0 <= p < r.val.m.data.Length ==>
                    r.val.m.data[p] == Add(lhs.val.m.data[p], rhs.val.m.data[p]))
              && heap.live == old(heap.live) - {lhs.val.m.data, rhs.val.m.data} + {r.val.m.data}
    ensures lhs.rtype == rhs.rtype != MatrT ==>
              && (st == Undefined <==> !BothNumbers(lhs, rhs)) && heap.live == old(heap.live)
              && (st != Undefined ==> st == Done && r == Elem(lhs.rtype, Num(Add(lhs.val.z, rhs.val.z))))
  {
    if lhs.rtype != rhs.rtype {
      return lhs, Reported(ErrCode.TypeMismatch);
    }
    if rhs.rtype == MatrT {
      if !(lhs.val.Mat? && rhs.val.Mat? && lhs.val.m.data in heap.live && rhs.val.m.data in heap.live &&
           lhs.val.m.rows * lhs.val.m.cols <= rhs.val.m.data.Length && lhs.val.m.data != rhs.val.m.data) {
        return lhs, Undefined;
      }
      var sum, _ := MAdd(heap, lhs.val.m, rhs.val.m);
      heap.Free(rhs.val.m.data);
      heap.Free(lhs.val.m.data);
      return Elem(MatrT, Mat(sum)), Done;
    }
    if !BothNumbers(lhs, rhs) {
      return lhs, Undefined;
    }
    return Elem(lhs.rtype, Num(Add(lhs.val.z, rhs.val.z))), Done;
  }

  /**
   * `elem_sub`: as `elem_add` with `msub`, except that only lhs's old buffer
   * is released; rhs's buffer stays live although nothing the operation
   * returns refers to it.
   */
  method ElemSub(heap: Chore.Heap, lhs: Elem, rhs: Elem) returns (r: Elem, st: Status)
    requires Sound(lhs) && Sound(rhs)
    modifies heap
    ensures Sound(r)
    ensures st == Undefined ==> r == lhs && heap.live == old(heap.live)
    ensures lhs.rtype != rhs.rtype ==>
              st == Reported(ErrCode.TypeMismatch) && r == lhs && heap.live == old(heap.live)
    ensures lhs.rtype == rhs.rtype == MatrT ==> (st == Undefined <==> !EntrywiseOk(old(heap.live), lhs, rhs, false))
    ensures lhs.rtype == rhs.rtype == MatrT && st != Undefined ==>
              && st == Done && r.rtype == MatrT && r.val.Mat? && fresh(r.val.m.data)
              && r.val.m.rows == lhs.val.m.rows && r.val.m.cols == lhs.val.m.cols
              && Exact(r.val.m) && (forall p :: 0 <= p < r.val.m.data.Length ==>
                    r.val.m.data[p] == Sub(lhs.val.m.data[p], rhs.val.m.data[p]))
              && heap.live == old(heap.live) - {lhs.val.m.data} + {r.val.m.data}
              && (rhs.val.m.data != lhs.val.m.data ==> rhs.val.m.data in heap.live)
    ensures lhs.rtype == rhs.rtype != MatrT ==>
              && (st == Undefined <==> !BothNumbers(lhs, rhs)) && heap.live == old(heap.live)
              && (st != Undefined ==> st == Done && r == Elem(lhs.rtype, Num(Sub(lhs.val.z, rhs.val.z))))
  {
    if lhs.rtype != rhs.rtype {
      return lhs, Reported(ErrCode.TypeMismatch);
    }
    if rhs.rtype == MatrT {
      if !(lhs.val.Mat? && rhs.val.Mat? && lhs.val.m.data in heap.live && rhs.val.m.data in heap.live &&
           lhs.val.m.rows * lhs.val.m.cols <= rhs.val.m.data.Length) {
        return lhs, Undefined;
      }
      var difference, _ := MSub(heap, lhs.val.m, rhs.val.m);
      heap.Free(lhs.val.m.data);
      return Elem(MatrT, Mat(difference)), Done;
    }
    if !BothNumbers(lhs, rhs) {
      return lhs, Undefined;
    }
    return Elem(lhs.rtype, Num(Sub(lhs.val.z, rhs.val.z))), Done;
  }

  // ------------------------------------------------------------- elem_mul

  /** The branch `elem_mul` takes for a pair of tags. */
  datatype MulCase = MatMat | MatComp | CompMat | CompComp

  function MulCaseOf(lhs: Elem, rhs: Elem): MulCase {
    if lhs.rtype == MatrT && rhs.rtype == MatrT then MatMat
    else if lhs.rtype == MatrT && rhs.rtype == CompT then MatComp
    else if lhs.rtype == CompT && rhs.rtype == MatrT then CompMat
    else CompComp
  }

  /** The branch chosen has a defined meaning: the buffers it reads are live and the product stays inside rhs. */
  predicate MulOk(live: set<object>, lhs: Elem, rhs: Elem) {
    match MulCaseOf(lhs, rhs)
    case MatMat => Owns(live, lhs) && Owns(live, rhs) && MulFits(lhs.val.m, rhs.val.m)
    case MatComp => Owns(live, lhs) && rhs.val.Num?
    case CompMat => lhs.val.Num? && Owns(live, rhs)
    case CompComp => BothNumbers(lhs, rhs)
  }

  /**
   * `elem_mul`: two matrices give lhs a fresh buffer holding `mmul` and
   * release lhs's old one (rhs's buffer stays live); a matrix times a number
   * scales lhs's buffer in place; a number times a matrix scales rhs's buffer
   * in place and lhs becomes rhs; any other pair multiplies the complex
   * values. The returned tag is MATR in the first three branches and COMP in
   * the last, where lhs keeps its own tag.
   */
  method ElemMul(heap: Chore.Heap, lhs: Elem, rhs: Elem) returns (r: Elem, tag: RType, st: Status)
    requires Sound(lhs) && Sound(rhs)
    modifies heap, Buffers(heap.live, lhs), Buffers(heap.live, rhs)
    ensures Sound(r)
    ensures st == Undefined <==> !MulOk(old(heap.live), lhs, rhs)
    ensures st != Undefined ==> st == Done
    ensures st == Undefined ==> r == lhs && heap.live == old(heap.live) && unchanged(Buffers(old(heap.live), lhs), Buffers(old(heap.live), rhs))
    ensures st == Done ==> (tag == MatrT <==> MulCaseOf(lhs, rhs) != CompComp)
    ensures st == Done && tag == MatrT ==> r.rtype == MatrT && r.val.Mat?
    ensures st == Done && MulCaseOf(lhs, rhs) == MatMat ==>
              && fresh(r.val.m.data) && r.val.m.rows == lhs.val.m.rows && r.val.m.cols == rhs.val.m.cols
              && Shaped(lhs.val.m) && MulFits(lhs.val.m, rhs.val.m)
              && ProductOf(Value(r.val.m), old(Value(lhs.val.m)), old(rhs.val.m.data[..]), rhs.val.m.cols)
              && (lhs.val.m.cols <= rhs.val.m.rows ==> IsProduct(Value(r.val.m), old(Value(lhs.val.m)), old(Value(rhs.val.m))))
              && heap.live == old(heap.live) - {lhs.val.m.data} + {r.val.m.data}
    ensures st == Done && MulCaseOf(lhs, rhs) == MatComp ==>
              && r == lhs && heap.live == old(heap.live)
              && (forall p :: 0 <= p < lhs.val.m.rows * lhs.val.m.cols ==> lhs.val.m.data[p] == Mul(old(lhs.val.m.data[p]), rhs.val.z))
              && forall p :: lhs.val.m.rows * lhs.val.m.cols <= p < lhs.val.m.data.Length ==> lhs.val.m.data[p] == old(lhs.val.m.data[p])
    ensures st == Done && MulCaseOf(lhs, rhs) == CompMat ==>
              && r == rhs && heap.live == old(heap.live)
              && (forall p :: 0 <= p < rhs.val.m.rows * rhs.val.m.cols ==> rhs.val.m.data[p] == Mul(old(rhs.val.m.data[p]), lhs.val.z))
              && forall p :: rhs.val.m.rows * rhs.val.m.cols <= p < rhs.val.m.data.Length ==> rhs.val.m.data[p] == old(rhs.val.m.data[p])
    ensures st == Done && MulCaseOf(lhs, rhs) == CompComp ==>
              r == Elem(lhs.rtype, Num(Mul(lhs.val.z, rhs.val.z))) && heap.live == old(heap.live)
  {
    match MulCaseOf(lhs, rhs)
    case MatMat =>
      if !(lhs.val.Mat? && rhs.val.Mat? && lhs.val.m.data in heap.live && rhs.val.m.data in heap.live &&
           MulFits(lhs.val.m, rhs.val.m)) {
        return lhs, MatrT, Undefined;
      }
      var product, _ := MMul(heap, lhs.val.m, rhs.val.m);
      assert rhs.val.m.data[..] == old(rhs.val.m.data[..]) && Value(lhs.val.m) == old(Value(lhs.val.m));
      heap.Free(lhs.val.m.data);
      return Elem(MatrT, Mat(product)), MatrT, Done;
    case MatComp =>
      if !(lhs.val.Mat? && lhs.val.m.data in heap.live && rhs.val.Num?) {
        return lhs, MatrT, Undefined;
      }
      SMul(lhs.val.m, rhs.val.z);
      return lhs, MatrT, Done;
    case CompMat =>
      if !(lhs.val.Num? && rhs.val.Mat? && rhs.val.m.data in heap.live) {
        return lhs, MatrT, Undefined;
      }
      SMul(rhs.val.m, lhs.val.z);
      return rhs, MatrT, Done;
    case CompComp =>
      if !BothNumbers(lhs, rhs) {
        return lhs, CompT, Undefined;
      }
      return Elem(lhs.rtype, Num(Mul(lhs.val.z, rhs.val.z))), CompT, Done;
  }

  // ------------------------------------------------------------- elem_div

  /** The branch `elem_div` takes has a defined meaning. */
  predicate DivOk(live: set<object>, lhs: Elem, rhs: Elem) {
    if lhs.rtype == CompT then BothNumbers(lhs, rhs) else Owns(live, lhs) && rhs.val.Num?
  }

  /**
   * `elem_div`: a COMP lhs is divided by rhs's complex value, whatever rhs's
   * tag; any other lhs is taken to be a matrix and scaled in place by
   * `1 / rhs`.
   */
  method ElemDiv(heap: Chore.Heap, lhs: Elem, rhs: Elem, lib: CLib) returns (r: Elem, st: Status)
    requires Sound(lhs) && Sound(rhs)
    modifies Buffers(heap.live, lhs)
    ensures Sound(r)
    ensures st == Undefined <==> !DivOk(heap.live, lhs, rhs)
    ensures st != Undefined ==> st == Done
    ensures st == Undefined ==> r == lhs && unchanged(Buffers(old(heap.live), lhs))
    ensures st == Done && lhs.rtype == CompT ==> r == Elem(CompT, Num(Quot(lhs.val.z, rhs.val.z, lib)))
    ensures st == Done && lhs.rtype != CompT ==>
              && r == lhs
              && (forall p :: 0 <= p < lhs.val.m.rows * lhs.val.m.cols ==>
                    lhs.val.m.data[p] == Mul(old(lhs.val.m.data[p]), Quot(One, rhs.val.z, lib)))
              && forall p :: lhs.val.m.rows * lhs.val.m.cols <= p < lhs.val.m.data.Length ==> lhs.val.m.data[p] == old(lhs.val.m.data[p])
  {
    if lhs.rtype == CompT {
      if !BothNumbers(lhs, rhs) {
        return lhs, Undefined;
      }
      return Elem(CompT, Num(Quot(lhs.val.z, rhs.val.z, lib))), Done;
    }
    if !(lhs.val.Mat? && lhs.val.m.data in heap.live && rhs.val.Num?) {
      return lhs, Undefined;
    }
    SMul(lhs.val.m, Quot(One, rhs.val.z, lib));
    return lhs, Done;
  }

  // ------------------------------------------------------- inverse in place

  /**
   * `drop = m.matrix; m = inverse_matrix(&m);` followed by the release of
   * `drop`, as the `~` operator (src/main.c:195-198) and elem_pow write it.
   * When the inversion fails, `inverse_matrix` hands back the same buffer, so
   * the element is left referring to a released block.
   */
  method InvertAsWritten(heap: Chore.Heap, m: Matrix) returns (r: Matrix, status: Inversion, ghost wrapped: bool)
    requires Shaped(m) && m.data in heap.live
    modifies heap, m.data
    ensures status == NonSquare <==> m.rows != m.cols
    ensures status == Inverted ==>
              && Square(r) && r.rows == m.rows && fresh(r.data)
              && heap.live == old(heap.live) - {m.data} + {r.data}
    ensures status == Inverted && !wrapped ==> IsInverse(Value(r), old(Value(m)), m.rows)
    ensures m.rows == m.cols && !wrapped ==> status == Inverted
    ensures status != Inverted ==> r == m && r.data !in heap.live && heap.live == old(heap.live) - {m.data}
  {
    var drop := m.data;
    r, status, wrapped := InverseMatrix(heap, m);
    heap.Free(drop);
  }

  /**
   * The inversion as the callers evidently intend it: the old buffer is
   * released only when a new one came back, so a failed inversion leaves
   * the element holding its own, still live, buffer.
   */
  method Invert(heap: Chore.Heap, m: Matrix) returns (r: Matrix, status: Inversion, ghost wrapped: bool)
    requires Shaped(m) && m.data in heap.live
    modifies heap, m.data
    ensures status == NonSquare <==> m.rows != m.cols
    ensures status == Inverted ==>
              && Square(r) && r.rows == m.rows && fresh(r.data)
              && heap.live == old(heap.live) - {m.data} + {r.data}
    ensures status == Inverted && !wrapped ==> IsInverse(Value(r), old(Value(m)), m.rows)
    ensures m.rows == m.cols && !wrapped ==> status == Inverted
    ensures status != Inverted ==> r == m && r.data in heap.live && heap.live == old(heap.live)
  {
    r, status, wrapped := InverseMatrix(heap, m);
    if status == Inverted {
      heap.Free(m.data);
    }
  }

  /** `new_matrix` followed by a `memcpy` of every entry: a fresh buffer with the same value. */
  method CopyMatrix(heap: Chore.Heap, m: Matrix) returns (a: Matrix)
    requires Shaped(m)
    modifies heap
    ensures Exact(a) && Shaped(a) && fresh(a.data) && Value(a) == Value(m)
    ensures heap.live == old(heap.live) + {a.data}
  {
    a := NewMatrix(heap, m.rows, m.cols);
    var p := 0;
    while p < m.rows * m.cols
      invariant p <= m.rows * m.cols
      invariant forall q :: 0 <= q < p ==> a.data[q] == m.data[q]
      invariant heap.live == old(heap.live) + {a.data}
    {
      a.data[p] := m.data[p];
      p := p + 1;
    }
    assert a.data[..] == m.data[..m.rows * m.cols];
  }

  // ------------------------------------------------------------- elem_pow

  /** The value of the matrix product a·b: entry (i, j) is the sum over k < a.cols of a(i, k)·b(k, j). */
  function Times(a: Grid, b: Grid): (r: Grid)
    requires WellFormed(a) && WellFormed(b) && a.cols <= b.rows
    ensures WellFormed(r) && r.rows == a.rows && r.cols == b.cols
  {
    Grid(a.rows, b.cols, seq(a.rows * b.cols, p requires 0 <= p < a.rows * b.cols => ProductCell(a, b, p)))
  }

  /** Entry `p`, counted row by row, of the product a·b. */
  function ProductCell(a: Grid, b: Grid, p: nat): Complex
    requires WellFormed(a) && WellFormed(b) && a.cols <= b.rows && p < a.rows * b.cols
  {
    RowOfCell(p, a.rows, b.cols);
    Dot(a, p / b.cols, b, p % b.cols, a.cols)
  }

  /** Cell `p` of a row-major `rows×cols` buffer lies in row p / cols, column p % cols. */
  lemma RowOfCell(p: nat, rows: nat, cols: nat)
    requires p < rows * cols
    ensures cols > 0 && p / cols < rows && p % cols < cols && p == (p / cols) * cols + p % cols
  {
    if cols == 0 {
      assert false;
    } else if p / cols >= rows {
      MulMono(rows, p / cols, cols);
      assert false;
    }
  }

  /** The row and column of cell `p` of a row-major `rows×cols` buffer. */
  lemma CellPosition(p: nat, rows: nat, cols: nat) returns (i: nat, j: nat)
    requires p < rows * cols
    ensures i == p / cols && j == p % cols
    ensures i < rows && j < cols && p == i * cols + j
  {
    RowOfCell(p, rows, cols);
    i, j := p / cols, p % cols;
  }

  /** A matrix whose every entry is the product's entry is the product. */
  lemma ProductValue(r: Grid, a: Grid, b: Grid)
    requires WellFormed(r) && WellFormed(a) && WellFormed(b) && a.cols <= b.rows
    requires r.rows == a.rows && r.cols == b.cols
    requires forall i, j :: 0 <= i < r.rows && 0 <= j < r.cols ==> Get(r, i, j) == Dot(a, i, b, j, a.cols)
    ensures r == Times(a, b)
  {
    var t := Times(a, b);
    forall p | 0 <= p < |r.cells|
      ensures r.cells[p] == t.cells[p]
    {
      var i, j := CellPosition(p, r.rows, r.cols);
      assert Get(r, i, j) == r.cells[p];
      assert t.cells[p] == ProductCell(a, b, p);
    }
    assert r.cells == t.cells;
  }

  /**
   * The value `elem_pow` computes from a matrix `a` and an exponent `n`:
   * n - 1 products by `a`, so exponents 0 and 1 leave `a` as it is.
   */
  function MatPower(a: Grid, n: nat): (r: Grid)
    requires WellFormed(a) && (n >= 2 ==> a.cols <= a.rows)
    ensures WellFormed(r) && r.rows == a.rows && r.cols == a.cols
  {
    if n <= 1 then a else Times(MatPower(a, n - 1), a)
  }

  /** 2^64: `(unsigned long long)x` is undefined from here up. */
  const WordLimit: real := 18446744073709551616.0

  function Abs(x: real): real {
    if x < 0.0 then -x else x
  }

  /** The repetition count of the matrix branch: the whole part of the exponent after a negative one was negated. */
  function Repetitions(x: real): nat {
    Abs(x).Floor
  }

  /**
   * The matrix branch of `elem_pow` gets as far as the inversion or the
   * products: lhs holds a live buffer and rhs a number whose magnitude
   * converts to a 64-bit count.
   */
  predicate PowReady(live: set<object>, lhs: Elem, rhs: Elem) {
    Owns(live, lhs) && rhs.val.Num? && Abs(rhs.val.z.re) < WordLimit
  }

  /**
   * The matrix branch of `elem_pow` has a defined meaning: it gets started,
   * a negative exponent inverts a square matrix (a non-square one comes back
   * on the buffer the `_ drop` released, which the `memcpy` then reads), and
   * when a product is taken, lhs's rows are long enough for its columns.
   */
  predicate PowOk(live: set<object>, lhs: Elem, rhs: Elem) {
    PowReady(live, lhs, rhs) &&
    (rhs.val.z.re < 0.0 ==> lhs.val.m.rows == lhs.val.m.cols) &&
    (Repetitions(rhs.val.z.re) >= 2 ==> lhs.val.m.cols <= lhs.val.m.rows)
  }

  /** One product of the `elem_pow` loop: `mmul` of two conformable matrices, in a fresh buffer. */
  method Product(heap: Chore.Heap, lhs: Matrix, rhs: Matrix) returns (result: Matrix)
    requires Shaped(lhs) && Shaped(rhs) && lhs.cols <= rhs.rows
    modifies heap
    ensures Shaped(result) && result.rows == lhs.rows && result.cols == rhs.cols && fresh(result.data)
    ensures Value(result) == Times(Value(lhs), Value(rhs))
    ensures heap.live == old(heap.live) + {result.data}
  {
    ConformableFits(lhs, rhs);
    var mismatch;
    result, mismatch := MMul(heap, lhs, rhs);
    ProductValue(Value(result), Value(lhs), Value(rhs));
  }

  /**
   * The tail of `elem_pow`: `m` is copied into `A`, then replaced n - 1
   * times by the product of itself and `A`, each product's predecessor
   * released; `A` is released at the end.
   */
  method Power(heap: Chore.Heap, m: Matrix, n: nat) returns (r: Matrix)
    requires Shaped(m) && m.data in heap.live
    requires n >= 2 ==> m.cols <= m.rows
    modifies heap
    ensures Shaped(r) && r.rows == m.rows && r.cols == m.cols
    ensures Value(r) == MatPower(old(Value(m)), n)
    ensures r.data == m.data || fresh(r.data)
    ensures heap.live == old(heap.live) - {m.data} + {r.data}
  {
    ghost var base := Value(m);
    assert base.rows == m.rows && base.cols == m.cols;
    ghost var rest := heap.live - {m.data};
    var a := CopyMatrix(heap, m);
    r := m;
    var i := 1;
    while i < n
      invariant 1 <= i && (i == 1 || i <= n)
      invariant n >= 2 ==> base.cols <= base.rows
      invariant Shaped(r) && r.rows == m.rows && r.cols == m.cols
      invariant Value(r) == MatPower(base, i)
      invariant r.data == m.data || fresh(r.data)
      invariant Value(a) == base && fresh(a.data) && a.data != r.data
      invariant r.data !in rest && a.data !in rest
      invariant heap.live == rest + {r.data, a.data}
    {
      var next := Product(heap, r, a);
      heap.Free(r.data);
      r := next;
      i := i + 1;
    }
    heap.Free(a.data);
  }

  /**
   * `elem_pow`, as written: a COMP lhs becomes `cpow(lhs, rhs)`. Any other
   * lhs is taken to be a matrix: a negative exponent first replaces it by
   * `inverse_matrix` of it, releasing the old buffer through `_ drop` even
   * when the inversion fails and hands that buffer back, and negates rhs;
   * then, for the whole part `n` of the exponent, lhs is copied and
   * multiplied n - 1 times by the copy, each product in a fresh buffer that
   * replaces the previous one. After a failed inversion the copy reads the
   * released buffer, so the outcome is undefined. `base` is the matrix being
   * raised: lhs's value, or its inverse; `wrapped` is the inversion's.
   */
  method ElemPow(heap: Chore.Heap, lhs: Elem, rhs: Elem, lib: CLib) returns (r: Elem, rhs2: Elem, st: Status, ghost base: Grid, ghost wrapped: bool)
    requires Sound(lhs) && Sound(rhs)
    modifies heap, Buffers(heap.live, lhs)
    ensures Sound(r)
    ensures lhs.rtype == CompT ==>
              && rhs2 == rhs && heap.live == old(heap.live)
              && (st == Undefined <==> !BothNumbers(lhs, rhs))
              && (st != Undefined ==> st == Done && r == Elem(CompT, Num(lib.pow(lhs.val.z, rhs.val.z))))
    ensures lhs.rtype != CompT && !PowOk(old(heap.live), lhs, rhs) ==> st == Undefined
    ensures lhs.rtype != CompT && PowOk(old(heap.live), lhs, rhs) && (rhs.val.z.re >= 0.0 || !wrapped) ==> st == Done
    ensures st == Undefined ==> r == lhs && rhs2 == rhs
    ensures st == Undefined && !(lhs.rtype != CompT && PowReady(old(heap.live), lhs, rhs) && rhs.val.z.re < 0.0) ==>
              heap.live == old(heap.live) && unchanged(Buffers(old(heap.live), lhs))
    ensures st == Undefined && lhs.rtype != CompT && PowReady(old(heap.live), lhs, rhs) && rhs.val.z.re < 0.0 ==>
              heap.live == old(heap.live) - {lhs.val.m.data}
    ensures lhs.rtype != CompT && st != Undefined ==>
              && st == Done && PowOk(old(heap.live), lhs, rhs) && r.rtype == lhs.rtype && r.val.Mat?
              && r.val.m.rows == lhs.val.m.rows && r.val.m.cols == lhs.val.m.cols
              && rhs2 == (if rhs.val.z.re < 0.0 then Elem(rhs.rtype, Num(Neg(rhs.val.z))) else rhs)
              && WellFormed(base) && base.rows == lhs.val.m.rows && base.cols == lhs.val.m.cols
              && Value(r.val.m) == MatPower(base, Repetitions(rhs.val.z.re))
              && (rhs.val.z.re >= 0.0 ==> base == old(Value(lhs.val.m)))
              && (rhs.val.z.re < 0.0 && !wrapped ==> IsInverse(base, old(Value(lhs.val.m)), lhs.val.m.rows))
              && (r.val.m.data == lhs.val.m.data || fresh(r.val.m.data))
              && heap.live == old(heap.live) - {lhs.val.m.data} + {r.val.m.data}
  {
    base, wrapped := Grid(0, 0, []), false;
    if lhs.rtype == CompT {
      if !BothNumbers(lhs, rhs) {
        return lhs, rhs, Undefined, base, wrapped;
      }
      return Elem(CompT, Num(lib.pow(lhs.val.z, rhs.val.z))), rhs, Done, base, wrapped;
    }
    if !(lhs.val.Mat? && lhs.val.m.data in heap.live && rhs.val.Num? && Abs(rhs.val.z.re) < WordLimit) {
      return lhs, rhs, Undefined, base, wrapped;
    }
    var n := Repetitions(rhs.val.z.re);
    var m := lhs.val.m;
    rhs2 := rhs;
    if rhs.val.z.re < 0.0 {
      var status;
      m, status, wrapped := InvertAsWritten(heap, m);
      if status != Inverted {
        // the `memcpy` into the copy reads the buffer `_ drop` released
        return lhs, rhs, Undefined, base, wrapped;
      }
      rhs2 := Elem(rhs.rtype, Num(Neg(rhs.val.z)));
    } else if n >= 2 && m.cols > m.rows {
      return lhs, rhs, Undefined, base, wrapped;
    }
    base := Value(m);
    var power := Power(heap, m, n);
    return Elem(lhs.rtype, Mat(power)), rhs2, Done, base, wrapped;
  }
}
