/**
 * The other snapshot of the element layer (src/elem_operations.c). Its
 * `elem_set`, `elem_div` and `elem_pow` are those of src/elemop.c; `elem_add`,
 * `elem_sub` and `elem_mul` differ: a type mismatch throws instead of being
 * reported, and a matrix operation releases the buffers of both operands.
 */
module ElemOperations {
  import opened Cplx
  import opened MatOp
  import opened ElemOp
  import Chore
  import ErrCode

  /**
   * `elem_add`: different tags throw `ERR_TYPE_MISMATCH` before anything
   * changes. Two matrices give lhs a fresh buffer holding `madd`, and both
   * old buffers are released; any other pair adds the complex values.
   */
  method ElemAdd(heap: Chore.Heap, lhs: Elem, rhs: Elem) returns (r: Elem, st: Status)
    requires Sound(lhs) && Sound(rhs)
    modifies heap
    ensures Sound(r)
    ensures st == Undefined ==> r == lhs && heap.live == old(heap.live)
    ensures lhs.rtype != rhs.rtype ==>
              st == Thrown(ErrCode.TypeMismatch) && r == lhs && heap.live == old(heap.live)
    ensures lhs.rtype == rhs.rtype == MatrT ==> (st == Undefined <==> !EntrywiseOk(old(heap.live), lhs, rhs, true))
    ensures lhs.rtype == rhs.rtype == MatrT && st != Undefined ==>
              && st == Done && r.rtype == MatrT && r.val.Mat? && fresh(r.val.m.data)
              && r.val.m.rows == lhs.val.m.rows && r.val.m.cols == lhs.val.m.cols
              && Exact(r.val.m) && (forall p :: 0 <= p < r.val.m.data.Length ==>
                    r.val.m.data[p] == Add(lhs.val.m.data[p], rhs.val.m.data[p]))
              && heap.live == old(heap.live) - {lhs.val.m.data, rhs.val.m.data} + {r.val.m.data}
    ensures lhs.rtype == rhs.rtype != MatrT ==>
              && (st == Undefined <==> !BothNumbers(lhs, rhs)) && heap.live == old(heap.live)
              && (st != Undefined ==> st == Done && r == Elem(lhs.rtype, Num(Add(lhs.val.z, rhs.val.z))))
  {
    if lhs.rtype != rhs.rtype {
      return lhs, Thrown(ErrCode.TypeMismatch);
    }
    if rhs.rtype == MatrT {
      if !(EntrywiseOk(heap.live, lhs, rhs, true)) {
        return lhs, Undefined;
      }
      var sum, _ := MAdd(heap, lhs.val.m, rhs.val.m);
      heap.NFree(lhs.val.m.data);
      heap.NFree(rhs.val.m.data);
      return Elem(MatrT, Mat(sum)), Done;
    }
    if !BothNumbers(lhs, rhs) {
      return lhs, Undefined;
    }
    return Elem(lhs.rtype, Num(Add(lhs.val.z, rhs.val.z))), Done;
  }

  /** `elem_sub`: `elem_add` with `msub` and subtraction; rhs's buffer is released too, unlike in src/elemop.c. */
  method ElemSub(heap: Chore.Heap, lhs: Elem, rhs: Elem) returns (r: Elem, st: Status)
    requires Sound(lhs) && Sound(rhs)
    modifies heap
    ensures Sound(r)
    ensures st == Undefined ==> r == lhs && heap.live == old(heap.live)
    ensures lhs.rtype != rhs.rtype ==>
              st == Thrown(ErrCode.TypeMismatch) && r == lhs && heap.live == old(heap.live)
    ensures lhs.rtype == rhs.rtype == MatrT ==> (st == Undefined <==> !EntrywiseOk(old(heap.live), lhs, rhs, true))
    ensures lhs.rtype == rhs.rtype == MatrT && st != Undefined ==>
              && st == Done && r.rtype == MatrT && r.val.Mat? && fresh(r.val.m.data)
              && r.val.m.rows == lhs.val.m.rows && r.val.m.cols == lhs.val.m.cols
              && Exact(r.val.m) && (forall p :: 0 <= p < r.val.m.data.Length ==>
                    r.val.m.data[p] == Sub(lhs.val.m.data[p], rhs.val.m.data[p]))
              && heap.live == old(heap.live) - {lhs.val.m.data, rhs.val.m.data} + {r.val.m.data}
    ensures lhs.rtype == rhs.rtype != MatrT ==>
              && (st == Undefined <==> !BothNumbers(lhs, rhs)) && heap.live == old(heap.live)
              && (st != Undefined ==> st == Done && r == Elem(lhs.rtype, Num(Sub(lhs.val.z, rhs.val.z))))
  {
    if lhs.rtype != rhs.rtype {
      return lhs, Thrown(ErrCode.TypeMismatch);
    }
    if rhs.rtype == MatrT {
      if !(EntrywiseOk(heap.live, lhs, rhs, true)) {
        return lhs, Undefined;
      }
      var difference, _ := MSub(heap, lhs.val.m, rhs.val.m);
      heap.NFree(lhs.val.m.data);
      heap.NFree(rhs.val.m.data);
      return Elem(MatrT, Mat(difference)), Done;
    }
    if !BothNumbers(lhs, rhs) {
      return lhs, Undefined;
    }
    return Elem(lhs.rtype, Num(Sub(lhs.val.z, rhs.val.z))), Done;
  }

  /** The branch `elem_mul` takes has a defined meaning; two matrices must also have distinct buffers, both being released. */
  predicate ReleasingMulOk(live: set<object>, lhs: Elem, rhs: Elem) {
    MulOk(live, lhs, rhs) && (MulCaseOf(lhs, rhs) == MatMat ==> lhs.val.m.data != rhs.val.m.data)
  }

  /**
   * `elem_mul`: as in src/elemop.c, except that the product of two matrices
   * releases rhs's buffer as well as lhs's old one.
   */
  method ElemMul(heap: Chore.Heap, lhs: Elem, rhs: Elem) returns (r: Elem, tag: RType, st: Status)
    requires Sound(lhs) && Sound(rhs)
    modifies heap, Buffers(heap.live, lhs), Buffers(heap.live, rhs)
    ensures Sound(r)
    ensures st == Undefined <==> !ReleasingMulOk(old(heap.live), lhs, rhs)
    ensures st != Undefined ==> st == Done
    ensures st == Undefined ==> r == lhs && heap.live == old(heap.live) && unchanged(Buffers(old(heap.live), lhs), Buffers(old(heap.live), rhs))
    ensures st == Done ==> (tag == MatrT <==> MulCaseOf(lhs, rhs) != CompComp)
    ensures st == Done && tag == MatrT ==> r.rtype == MatrT && r.val.Mat?
    ensures st == Done && MulCaseOf(lhs, rhs) == MatMat ==>
              && fresh(r.val.m.data) && r.val.m.rows == lhs.val.m.rows && r.val.m.cols == rhs.val.m.cols
              && Shaped(lhs.val.m) && MulFits(lhs.val.m, rhs.val.m)
              && ProductOf(Value(r.val.m), old(Value(lhs.val.m)), old(rhs.val.m.data[..]), rhs.val.m.cols)
              && (lhs.val.m.cols <= rhs.val.m.rows ==> IsProduct(Value(r.val.m), old(Value(lhs.val.m)), old(Value(rhs.val.m))))
              && heap.live == old(heap.live) - {lhs.val.m.data, rhs.val.m.data} + {r.val.m.data}
    ensures st == Done && MulCaseOf(lhs, rhs) == MatComp ==>
              && r == lhs && heap.live == old(heap.live)
              && (forall p :: 0 <= p < lhs.val.m.rows * lhs.val.m.cols ==> lhs.val.m.data[p] == Mul(old(lhs.val.m.data[p]), rhs.val.z))
              && forall p :: lhs.val.m.rows * lhs.val.m.cols <= p < lhs.val.m.data.Length ==> lhs.val.m.data[p] == old(lhs.val.m.data[p])
    ensures st == Done && MulCaseOf(lhs, rhs) == CompMat ==>
              && r == rhs && heap.live == old(heap.live)
              && (forall p :: 0 <= p < rhs.val.m.rows * rhs.val.m.cols ==> rhs.val.m.data[p] == Mul(old(rhs.val.m.data[p]), lhs.val.z))
              && forall p :: rhs.val.m.rows * rhs.val.m.cols <= p < rhs.val.m.data.Length ==> rhs.val.m.data[p] == old(rhs.val.m.data[p])
    ensures st == Done && MulCaseOf(lhs, rhs) == CompComp ==>
              r == Elem(lhs.rtype, Num(Mul(lhs.val.z, rhs.val.z))) && heap.live == old(heap.live)
  {
    if MulCaseOf(lhs, rhs) == MatMat {
      if !ReleasingMulOk(heap.live, lhs, rhs) {
        return lhs, MatrT, Undefined;
      }
      var product, _ := MMul(heap, lhs.val.m, rhs.val.m);
      assert rhs.val.m.data[..] == old(rhs.val.m.data[..]) && Value(lhs.val.m) == old(Value(lhs.val.m));
      heap.NFree(lhs.val.m.data);
      heap.NFree(rhs.val.m.data);
      return Elem(MatrT, Mat(product)), MatrT, Done;
    }
    r, tag, st := ElemOp.ElemMul(heap, lhs, rhs);
  }
}
