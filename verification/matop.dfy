/**
 * The matrix engine (src/matop.c): `rows×cols` matrices of complex entries
 * stored row by row in a heap buffer; entrywise addition and subtraction, the
 * triple-loop product, in-place scaling and Gauss-Jordan inversion.
 *
 * Buffers are tracked in the ghost live set of `Chore.Heap`: a fresh matrix
 * is added to it, a freed one leaves it.
 */
module MatOp {
  import opened Cplx
  import Chore

  /** `matrix_t`: the shape and the buffer holding the entries row by row. */
  datatype Matrix = Matrix(rows: nat, cols: nat, data: array<Complex>)

  /**
   * The buffer holds at least `rows * cols` entries: exactly that many when
   * `new_matrix` made it, `MAT_INITSIZE` when it holds a matrix literal.
   */
  predicate Shaped(m: Matrix) {
    m.rows * m.cols <= m.data.Length
  }

  /** The buffer `new_matrix` allocates: exactly `rows * cols` entries. */
  predicate Exact(m: Matrix) {
    m.data.Length == m.rows * m.cols
  }

  /** The value of a matrix: its shape and its first `rows * cols` entries, row by row. */
  datatype Grid = Grid(rows: nat, cols: nat, cells: seq<Complex>)

  predicate WellFormed(g: Grid) {
    |g.cells| == g.rows * g.cols
  }

  function Value(m: Matrix): Grid
    requires Shaped(m)
    reads m.data
  {
    Grid(m.rows, m.cols, m.data[..m.rows * m.cols])
  }

  /** Multiplication by a natural number is monotonic. */
  lemma MulMono(a: nat, b: nat, n: nat)
    requires a <= b
    ensures a * n <= b * n
  {
    var d: nat := b - a;
    assert b * n == a * n + d * n;
  }

  /** Block k of width w, in a run of n blocks, starts at k·w and ends where block k + 1 starts. */
  lemma RowSpan(k: nat, n: nat, w: nat)
    requires k < n
    ensures 0 <= k * w && k * w + w == (k + 1) * w <= n * w
  {
    assert (k + 1) * w == k * w + w;
    MulMono(k + 1, n, w);
  }

  /** Row-major cell (r, c) of a `rows×cols` buffer lies inside it. */
  lemma CellInside(r: nat, c: nat, rows: nat, cols: nat)
    requires r < rows && c < cols
    ensures 0 <= r * cols && r * cols + c < rows * cols
  {
    RowSpan(r, rows, cols);
  }

  /** Entry (r, c) of a matrix value. */
  function Get(g: Grid, r: nat, c: nat): Complex
    requires WellFormed(g) && r < g.rows && c < g.cols
  {
    CellInside(r, c, g.rows, g.cols);
    g.cells[r * g.cols + c]
  }

  /** Entry (r, c) of a matrix is entry `r * cols + c` of its buffer. */
  lemma EntryAt(m: Matrix, r: nat, c: nat)
    requires Shaped(m) && r < m.rows && c < m.cols
    ensures r * m.cols + c < m.rows * m.cols
    ensures Get(Value(m), r, c) == m.data[r * m.cols + c]
  {
    CellInside(r, c, m.rows, m.cols);
  }

  /** The sum over k < n of a(i, k)·b(k, j), accumulated from k = 0 upward. */
  function Dot(a: Grid, i: nat, b: Grid, j: nat, n: nat): Complex
    requires WellFormed(a) && WellFormed(b)
    requires i < a.rows && j < b.cols && n <= a.cols && n <= b.rows
  {
    if n == 0 then Zero else Add(Dot(a, i, b, j, n - 1), Mul(Get(a, i, n - 1), Get(b, n - 1, j)))
  }

  /**
   * What the `k` loop of `mmul` sums for entry (i, j), with rhs read straight
   * from its buffer `b` of row width `bc`: the sum over k < n of
   * a(i, k)·b[bc·k + j], from k = 0 upward. Unlike `Dot` it asks only that
   * the reads stay inside the buffer, not inside rhs's rows.
   */
  function DotBuffer(a: Grid, i: nat, b: seq<Complex>, bc: nat, j: nat, n: nat): Complex
    requires WellFormed(a) && i < a.rows && n <= a.cols
    requires j < bc && n * bc <= |b|
  {
    if n == 0 then Zero
    else
      RowSpan(n - 1, n, bc);
      Add(DotBuffer(a, i, b, bc, j, n - 1), Mul(Get(a, i, n - 1), b[(n - 1) * bc + j]))
  }

  /** Within rhs's rows, the sum read from the buffer is the product's `Dot`. */
  lemma {:induction false} DotBufferIsDot(a: Grid, i: nat, b: Grid, buffer: seq<Complex>, j: nat, n: nat)
    requires WellFormed(a) && WellFormed(b) && b.cells <= buffer
    requires i < a.rows && j < b.cols && n <= a.cols && n <= b.rows && n * b.cols <= |buffer|
    ensures DotBuffer(a, i, buffer, b.cols, j, n) == Dot(a, i, b, j, n)
  {
    if n > 0 {
      RowSpan(n - 1, n, b.cols);
      DotBufferIsDot(a, i, b, buffer, j, n - 1);
      CellInside(n - 1, j, b.rows, b.cols);
      assert Get(b, n - 1, j) == buffer[(n - 1) * b.cols + j];
    }
  }

  /**
   * `result` is what `mmul` computes from `a` and the buffer `b` of a matrix
   * with `bc` columns: entry (i, j) is `DotBuffer` of row i and column j.
   */
  ghost predicate ProductOf(result: Grid, a: Grid, b: seq<Complex>, bc: nat) {
    && WellFormed(result) && WellFormed(a) && result.rows == a.rows && result.cols == bc
    && (a.rows == 0 || a.cols * bc <= |b|)
    && forall i, j :: 0 <= i < a.rows && 0 <= j < bc ==> Get(result, i, j) == DotBuffer(a, i, b, bc, j, a.cols)
  }

  /** The products accumulated onto a zero matrix are the product. */
  lemma ProductFromZero(zero: Grid, after: Grid, a: Grid, b: seq<Complex>, bc: nat)
    requires WellFormed(zero) && WellFormed(after) && WellFormed(a)
    requires zero.rows == after.rows == a.rows && zero.cols == after.cols == bc
    requires forall q :: 0 <= q < |zero.cells| ==> zero.cells[q] == Zero
    requires a.rows == 0 || a.cols * bc <= |b|
    requires forall r, c :: 0 <= r < after.rows && 0 <= c < after.cols ==>
               Get(after, r, c) == Add(Get(zero, r, c), DotBuffer(a, r, b, bc, c, a.cols))
    ensures ProductOf(after, a, b, bc)
  {
    forall i, j | 0 <= i < a.rows && 0 <= j < bc
      ensures Get(after, i, j) == DotBuffer(a, i, b, bc, j, a.cols)
    {
      CellInside(i, j, zero.rows, zero.cols);
      var d := DotBuffer(a, i, b, bc, j, a.cols);
      assert Get(zero, i, j) == Zero;
      assert Add(Zero, d) == d;
    }
  }

  /** `result` is the product a·b: each entry (i, j) is `Dot` of row i of a and column j of b. */
  ghost predicate IsProduct(result: Grid, a: Grid, b: Grid) {
    && WellFormed(result) && WellFormed(a) && WellFormed(b) && a.cols <= b.rows
    && result.rows == a.rows && result.cols == b.cols
    && forall i, j :: 0 <= i < a.rows && 0 <= j < b.cols ==> Get(result, i, j) == Dot(a, i, b, j, a.cols)
  }

  /** Entry by entry, a product read from rhs's buffer within rhs's rows is `Dot`. */
  lemma ProductIsDot(result: Grid, a: Grid, b: Grid, buffer: seq<Complex>)
    requires WellFormed(b) && b.cells <= buffer && a.cols <= b.rows
    requires ProductOf(result, a, buffer, b.cols)
    ensures IsProduct(result, a, b)
  {
    forall i, j | 0 <= i < a.rows && 0 <= j < b.cols
      ensures Get(result, i, j) == Dot(a, i, b, j, a.cols)
    {
      DotBufferIsDot(a, i, b, buffer, j, a.cols);
    }
  }

  /** The reads `mmul` makes of rhs stay inside its buffer. */
  predicate MulFits(lhs: Matrix, rhs: Matrix) {
    lhs.rows == 0 || lhs.cols * rhs.cols <= rhs.data.Length
  }

  /** A product defined by the shapes reads rhs within its buffer. */
  lemma ConformableFits(lhs: Matrix, rhs: Matrix)
    requires Shaped(rhs) && lhs.cols <= rhs.rows
    ensures MulFits(lhs, rhs)
  {
    MulMono(lhs.cols, rhs.rows, rhs.cols);
  }

  /** `new_matrix`: a fresh `rows×cols` buffer, taken to be zero-filled. */
  method NewMatrix(heap: Chore.Heap, rows: nat, cols: nat) returns (m: Matrix)
    modifies heap
    ensures m.rows == rows && m.cols == cols && Exact(m) && Shaped(m) && fresh(m.data)
    ensures forall p :: 0 <= p < m.data.Length ==> m.data[p] == Zero
    ensures heap.live == old(heap.live) + {m.data}
  {
    var data := new Complex[rows * cols](_ => Zero);
    heap.Own(data);
    m := Matrix(rows, cols, data);
  }

  /** `new_matrix` as written: `malloc` leaves the entries unspecified. */
  method NewMatrixAsWritten(heap: Chore.Heap, rows: nat, cols: nat) returns (m: Matrix)
    modifies heap
    ensures m.rows == rows && m.cols == cols && Exact(m) && Shaped(m) && fresh(m.data)
    ensures heap.live == old(heap.live) + {m.data}
  {
    var data := new Complex[rows * cols];
    heap.Own(data);
    m := Matrix(rows, cols, data);
  }

  /** `mcheckdim`: both matrices have the same shape. */
  predicate MCheckDim(lhs: Matrix, rhs: Matrix) {
    lhs.rows == rhs.rows && lhs.cols == rhs.cols
  }

  /** `meq`: same shape and every pair of entries equal under the comparator `eq`. */
  method MEq(lhs: Matrix, rhs: Matrix, eq: (Complex, Complex) -> bool) returns (r: bool)
    requires Shaped(lhs) && Shaped(rhs)
    ensures r <==> MCheckDim(lhs, rhs) &&
                   forall p :: 0 <= p < lhs.rows * lhs.cols ==> eq(lhs.data[p], rhs.data[p])
  {
    if !MCheckDim(lhs, rhs) {
      return false;
    }
    var p := 0;
    while p < lhs.cols * lhs.rows
      invariant p <= lhs.rows * lhs.cols
      invariant forall q :: 0 <= q < p ==> eq(lhs.data[q], rhs.data[q])
    {
      if !eq(lhs.data[p], rhs.data[p]) {
        return false;
      }
      p := p + 1;
    }
    return true;
  }

  /** Entry `p` of the entrywise sum or difference. */
  function Entrywise(subtract: bool, a: Complex, b: Complex): Complex {
    if subtract then Sub(a, b) else Add(a, b)
  }

  /**
   * The body of the `MOPS` macro: a fresh matrix of lhs's shape whose entry
   * `p` is `lhs[p] ± rhs[p]`; a shape mismatch is reported but the loop runs.
   */
  method MOps(heap: Chore.Heap, lhs: Matrix, rhs: Matrix, subtract: bool) returns (result: Matrix, mismatch: bool)
    requires Shaped(lhs) && lhs.rows * lhs.cols <= rhs.data.Length
    modifies heap
    ensures mismatch <==> !MCheckDim(lhs, rhs)
    ensures result.rows == lhs.rows && result.cols == lhs.cols && Exact(result) && Shaped(result) && fresh(result.data)
    ensures forall p :: 0 <= p < result.data.Length ==>
              result.data[p] == Entrywise(subtract, lhs.data[p], rhs.data[p])
    ensures heap.live == old(heap.live) + {result.data}
  {
    mismatch := !MCheckDim(lhs, rhs);
    result := NewMatrix(heap, lhs.rows, lhs.cols);
    var p := 0;
    while p < lhs.rows * lhs.cols
      invariant p <= result.data.Length && heap.live == old(heap.live) + {result.data}
      invariant forall q :: 0 <= q < p ==> result.data[q] == Entrywise(subtract, lhs.data[q], rhs.data[q])
    {
      result.data[p] := Entrywise(subtract, lhs.data[p], rhs.data[p]);
      p := p + 1;
    }
  }

  /** `madd` */
  method MAdd(heap: Chore.Heap, lhs: Matrix, rhs: Matrix) returns (result: Matrix, mismatch: bool)
    requires Shaped(lhs) && lhs.rows * lhs.cols <= rhs.data.Length
    modifies heap
    ensures mismatch <==> !MCheckDim(lhs, rhs)
    ensures result.rows == lhs.rows && result.cols == lhs.cols && Exact(result) && Shaped(result) && fresh(result.data)
    ensures forall p :: 0 <= p < result.data.Length ==> result.data[p] == Add(lhs.data[p], rhs.data[p])
    ensures heap.live == old(heap.live) + {result.data}
  {
    result, mismatch := MOps(heap, lhs, rhs, false);
  }

  /** `msub` */
  method MSub(heap: Chore.Heap, lhs: Matrix, rhs: Matrix) returns (result: Matrix, mismatch: bool)
    requires Shaped(lhs) && lhs.rows * lhs.cols <= rhs.data.Length
    modifies heap
    ensures mismatch <==> !MCheckDim(lhs, rhs)
    ensures result.rows == lhs.rows && result.cols == lhs.cols && Exact(result) && Shaped(result) && fresh(result.data)
    ensures forall p :: 0 <= p < result.data.Length ==> result.data[p] == Sub(lhs.data[p], rhs.data[p])
    ensures heap.live == old(heap.live) + {result.data}
  {
    result, mismatch := MOps(heap, lhs, rhs, true);
  }

  /** The shapes a product `lhs·rhs` is defined for. */
  predicate Conformable(lhs: Matrix, rhs: Matrix) {
    lhs.cols == rhs.rows
  }

  /** The dimension check of `mmul` as written: both inequalities must hold. */
  predicate MMulReportsAsWritten(lhs: Matrix, rhs: Matrix) {
    lhs.rows != rhs.cols && lhs.cols != rhs.rows
  }

  /**
   * A 2×3 by 2×2 product passes the check as written although it is not
   * defined: its inner loop runs to k = 2, a row that rhs does not have.
   */
  lemma MMulCheckMisses(lhs: Matrix, rhs: Matrix)
    requires lhs.rows == 2 && lhs.cols == 3 && rhs.rows == 2 && rhs.cols == 2
    ensures !MMulReportsAsWritten(lhs, rhs) && !Conformable(lhs, rhs)
    ensures lhs.cols > rhs.rows
  {
  }

  /** Every shape the written check lets through has one of the two equalities. */
  lemma MMulCheckWeaker(lhs: Matrix, rhs: Matrix)
    ensures MMulReportsAsWritten(lhs, rhs) ==> !Conformable(lhs, rhs)
    ensures !MMulReportsAsWritten(lhs, rhs) <==> Conformable(lhs, rhs) || lhs.rows == rhs.cols
  {
  }

  /** The `k` loop of `mmul`: adds row `i` of lhs times column `j` of rhs onto entry (i, j). */
  method AccumulateCell(lhs: Matrix, rhs: Matrix, result: Matrix, i: nat, j: nat)
    requires Shaped(lhs) && Shaped(rhs) && Exact(result) && MulFits(lhs, rhs)
    requires result.rows == lhs.rows && result.cols == rhs.cols
    requires result.data != lhs.data && result.data != rhs.data
    requires i < lhs.rows && j < rhs.cols
    modifies result.data
    ensures i * rhs.cols + j < result.data.Length
    ensures result.data[..] == old(result.data[..])[i * rhs.cols + j :=
              Add(old(result.data[i * rhs.cols + j]), DotBuffer(Value(lhs), i, rhs.data[..], rhs.cols, j, lhs.cols))]
  {
    CellInside(i, j, result.rows, result.cols);
    var cell := i * rhs.cols + j;
    ghost var start := result.data[cell];
    ghost var a, b := Value(lhs), rhs.data[..];
    var k := 0;
    while k < lhs.cols
      invariant k <= lhs.cols && k * rhs.cols <= |b|
      invariant result.data[..] == old(result.data[..])[cell := Add(start, DotBuffer(a, i, b, rhs.cols, j, k))]
    {
      EntryAt(lhs, i, k);
      RowSpan(k, lhs.cols, rhs.cols);
      var x, y := lhs.data[i * lhs.cols + k], rhs.data[k * rhs.cols + j];
      assert x == Get(a, i, k) && y == b[k * rhs.cols + j];
      result.data[cell] := Add(result.data[cell], Mul(x, y));
      k := k + 1;
    }
  }

  /** Cells of rows other than `i` lie wholly before or wholly after row `i`. */
  lemma RowBlock(r: nat, c: nat, i: nat, cols: nat)
    requires c < cols
    ensures r < i ==> r * cols + c < i * cols
    ensures r > i ==> r * cols + c >= i * cols + cols
  {
    if r < i {
      MulMono(r + 1, i, cols);
    } else if r > i {
      MulMono(i + 1, r, cols);
    }
  }

  /** The `j` loop of `mmul`: adds row `i` of the product onto row `i` of `result`. */
  method AccumulateRow(lhs: Matrix, rhs: Matrix, result: Matrix, i: nat)
    requires Shaped(lhs) && Shaped(rhs) && Exact(result) && MulFits(lhs, rhs)
    requires result.rows == lhs.rows && result.cols == rhs.cols
    requires result.data != lhs.data && result.data != rhs.data
    requires i < lhs.rows
    modifies result.data
    ensures forall r, c :: 0 <= r < result.rows && 0 <= c < result.cols ==>
              Get(Value(result), r, c) ==
                if r == i then Add(Get(old(Value(result)), r, c), DotBuffer(Value(lhs), r, rhs.data[..], rhs.cols, c, lhs.cols))
                else Get(old(Value(result)), r, c)
  {
    ghost var before := result.data[..];
    var j := 0;
    while j < rhs.cols
      invariant j <= rhs.cols && |before| == result.data.Length
      invariant forall p :: 0 <= p < result.data.Length ==>
                  result.data[p] == if i * rhs.cols <= p < i * rhs.cols + j
                                    then Add(before[p], DotBuffer(Value(lhs), i, rhs.data[..], rhs.cols, p - i * rhs.cols, lhs.cols))
                                    else before[p]
    {
      AccumulateCell(lhs, rhs, result, i, j);
      j := j + 1;
    }
    assert result.data[..] == Value(result).cells;
    assert before == old(Value(result)).cells;
    RowAccumulated(old(Value(result)), Value(result), Value(lhs), rhs.data[..], rhs.cols, i);
  }

  /** The flat description of a row of `mmul` added onto `before`, read entry by entry. */
  lemma RowAccumulated(before: Grid, after: Grid, lhs: Grid, rhs: seq<Complex>, bc: nat, i: nat)
    requires WellFormed(before) && WellFormed(after) && WellFormed(lhs)
    requires after.rows == before.rows == lhs.rows && after.cols == before.cols == bc
    requires lhs.cols * bc <= |rhs| && i < lhs.rows
    requires forall p :: 0 <= p < |after.cells| ==>
               after.cells[p] == if i * bc <= p < i * bc + bc
                                 then Add(before.cells[p], DotBuffer(lhs, i, rhs, bc, p - i * bc, lhs.cols))
                                 else before.cells[p]
    ensures forall r, c :: 0 <= r < after.rows && 0 <= c < after.cols ==>
              Get(after, r, c) ==
                if r == i then Add(Get(before, r, c), DotBuffer(lhs, r, rhs, bc, c, lhs.cols))
                else Get(before, r, c)
  {
    forall r, c | 0 <= r < after.rows && 0 <= c < after.cols
      ensures Get(after, r, c) ==
                if r == i then Add(Get(before, r, c), DotBuffer(lhs, r, rhs, bc, c, lhs.cols))
                else Get(before, r, c)
    {
      CellInside(r, c, after.rows, after.cols);
      var idx := r * after.cols + c;
      assert Get(after, r, c) == after.cells[idx] && Get(before, r, c) == before.cells[idx];
      if r == i {
        assert idx - i * bc == c;
      } else {
        RowBlock(r, c, i, after.cols);
        assert !(i * bc <= idx < i * bc + bc);
      }
    }
  }

  /** The triple loop of `mmul`: adds lhs·rhs onto whatever `result` holds. */
  method Accumulate(lhs: Matrix, rhs: Matrix, result: Matrix)
    requires Shaped(lhs) && Shaped(rhs) && Exact(result) && MulFits(lhs, rhs)
    requires result.rows == lhs.rows && result.cols == rhs.cols
    requires result.data != lhs.data && result.data != rhs.data
    modifies result.data
    ensures forall r, c :: 0 <= r < result.rows && 0 <= c < result.cols ==>
              Get(Value(result), r, c) == Add(Get(old(Value(result)), r, c), DotBuffer(Value(lhs), r, rhs.data[..], rhs.cols, c, lhs.cols))
  {
    ghost var start, a, b := Value(result), Value(lhs), rhs.data[..];
    var i := 0;
    while i < lhs.rows
      invariant i <= lhs.rows
      invariant forall r, c :: 0 <= r < result.rows && 0 <= c < result.cols ==>
                  Get(Value(result), r, c) ==
                    if r < i then Add(Get(start, r, c), DotBuffer(a, r, b, rhs.cols, c, lhs.cols))
                    else Get(start, r, c)
    {
      AccumulateRow(lhs, rhs, result, i);
      i := i + 1;
    }
  }

  /**
   * `mmul` with a zero-filled result buffer: the `lhs.rows × rhs.cols`
   * matrix whose entry (i, j) is the sum over k < lhs.cols of
   * lhs(i, k)·rhs[rhs.cols·k + j], read from rhs's buffer; within rhs's rows
   * that is the product lhs·rhs. The dimension check reports exactly the
   * shapes the product is not defined for.
   */
  method MMul(heap: Chore.Heap, lhs: Matrix, rhs: Matrix) returns (result: Matrix, mismatch: bool)
    requires Shaped(lhs) && Shaped(rhs) && MulFits(lhs, rhs)
    modifies heap
    ensures mismatch <==> !Conformable(lhs, rhs)
    ensures result.rows == lhs.rows && result.cols == rhs.cols && Exact(result) && Shaped(result) && fresh(result.data)
    ensures ProductOf(Value(result), Value(lhs), rhs.data[..], rhs.cols)
    ensures lhs.cols <= rhs.rows ==> IsProduct(Value(result), Value(lhs), Value(rhs))
    ensures heap.live == old(heap.live) + {result.data}
  {
    mismatch := !Conformable(lhs, rhs);
    result := NewMatrix(heap, lhs.rows, rhs.cols);
    ghost var zero := Value(result);
    assert forall q :: 0 <= q < |zero.cells| ==> zero.cells[q] == Zero;
    Accumulate(lhs, rhs, result);
    ProductFromZero(zero, Value(result), Value(lhs), rhs.data[..], rhs.cols);
    if lhs.cols <= rhs.rows {
      ProductIsDot(Value(result), Value(lhs), Value(rhs), rhs.data[..]);
    }
  }

  /**
   * `mmul` as written: the check of both inequalities, and the product added
   * onto the unspecified contents `junk` of the `malloc`ed buffer.
   */
  method MMulAsWritten(heap: Chore.Heap, lhs: Matrix, rhs: Matrix) returns (result: Matrix, reported: bool, ghost junk: Grid)
    requires Shaped(lhs) && Shaped(rhs) && MulFits(lhs, rhs)
    modifies heap
    ensures reported <==> MMulReportsAsWritten(lhs, rhs)
    ensures result.rows == lhs.rows && result.cols == rhs.cols && Exact(result) && Shaped(result) && fresh(result.data)
    ensures WellFormed(junk) && junk.rows == lhs.rows && junk.cols == rhs.cols
    ensures forall i, j :: 0 <= i < lhs.rows && 0 <= j < rhs.cols ==>
              Get(Value(result), i, j) == Add(Get(junk, i, j), DotBuffer(Value(lhs), i, rhs.data[..], rhs.cols, j, lhs.cols))
    ensures heap.live == old(heap.live) + {result.data}
  {
    reported := MMulReportsAsWritten(lhs, rhs);
    result := NewMatrixAsWritten(heap, lhs.rows, rhs.cols);
    junk := Value(result);
    Accumulate(lhs, rhs, result);
  }

  /** Whatever non-zero value the buffer held shows through in the entry `mmul` computes. */
  lemma JunkShowsThrough(junk: Complex, product: Complex)
    requires junk != Zero
    ensures Add(junk, product) != product
  {
    assert Add(junk, product).re - product.re == junk.re;
  }

  /** `smul`: every one of the `rows*cols` entries is multiplied by `s` in place; the rest of the buffer stays. */
  method SMul(m: Matrix, s: Complex)
    requires Shaped(m)
    modifies m.data
    ensures forall p :: 0 <= p < m.rows * m.cols ==> m.data[p] == Mul(old(m.data[p]), s)
    ensures forall p :: m.rows * m.cols <= p < m.data.Length ==> m.data[p] == old(m.data[p])
  {
    var p := 0;
    while p < m.rows * m.cols
      invariant p <= m.rows * m.cols
      invariant forall q :: 0 <= q < p ==> m.data[q] == Mul(old(m.data[q]), s)
      invariant forall q :: p <= q < m.data.Length ==> m.data[q] == old(m.data[q])
    {
      m.data[p] := Mul(m.data[p], s);
      p := p + 1;
    }
  }

  // ---------------------------------------------------------------------
  // Gauss-Jordan inversion (`inverse_matrix`)
  // ---------------------------------------------------------------------

  /** A square matrix whose buffer has `rows * rows` entries. */
  predicate Square(m: Matrix) {
    m.rows == m.cols && Shaped(m)
  }

  predicate SquareOf(g: Grid, dim: nat) {
    g.rows == dim && g.cols == dim && WellFormed(g)
  }

  /** `r·a0 == a`, entry by entry. */
  ghost predicate ProductIs(r: Grid, a0: Grid, a: Grid, dim: nat)
    requires SquareOf(r, dim) && SquareOf(a0, dim) && SquareOf(a, dim)
  {
    forall p, c :: 0 <= p < dim && 0 <= c < dim ==> Dot(r, p, a0, c, dim) == Get(a, p, c)
  }

  /** `r·a0` is the identity: `r` is the inverse of `a0`. */
  ghost predicate IsInverse(r: Grid, a0: Grid, dim: nat)
    requires SquareOf(r, dim) && SquareOf(a0, dim)
  {
    forall p, c :: 0 <= p < dim && 0 <= c < dim ==> Dot(r, p, a0, c, dim) == if p == c then One else Zero
  }

  ghost predicate IsIdentity(g: Grid, dim: nat)
    requires SquareOf(g, dim)
  {
    forall p, c :: 0 <= p < dim && 0 <= c < dim ==> Get(g, p, c) == if p == c then One else Zero
  }

  /** `g2` is `g` with row i replaced by row j and row j by the negated row i. */
  ghost predicate SwappedNeg(g: Grid, g2: Grid, dim: nat, i: nat, j: nat)
    requires SquareOf(g, dim) && SquareOf(g2, dim) && i < dim && j < dim
  {
    forall p, c :: 0 <= p < dim && 0 <= c < dim ==>
      Get(g2, p, c) == if p == i then Get(g, j, c) else if p == j then Neg(Get(g, i, c)) else Get(g, p, c)
  }

  /** The multiple of pivot row `i` that clears entry (p, i) of `a`. */
  function Coef(a: Grid, p: nat, i: nat): Complex
    requires WellFormed(a) && p < a.rows && i < a.rows && i < a.cols && Get(a, i, i) != Zero
  {
    Div(Get(a, p, i), Get(a, i, i))
  }

  /**
   * `g2` is `g` with every row p other than the pivot row i reduced by
   * `Coef(a, p, i)` times row i of `g`.
   */
  ghost predicate EliminatedBy(g: Grid, g2: Grid, a: Grid, dim: nat, i: nat)
    requires SquareOf(g, dim) && SquareOf(g2, dim) && SquareOf(a, dim) && i < dim && Get(a, i, i) != Zero
  {
    forall p, c :: 0 <= p < dim && 0 <= c < dim ==>
      Get(g2, p, c) == if p == i then Get(g, p, c) else Sub(Get(g, p, c), Mul(Coef(a, p, i), Get(g, i, c)))
  }

  /** Columns below `i` are cleared: non-zero on the diagonal, zero elsewhere. */
  ghost predicate Reduced(g: Grid, dim: nat, i: nat)
    requires SquareOf(g, dim) && i <= dim
  {
    (forall c :: 0 <= c < i ==> Get(g, c, c) != Zero) &&
    (forall p, c :: 0 <= p < dim && 0 <= c < i && p != c ==> Get(g, p, c) == Zero)
  }

  /** Every row of `g2` is the row of `g` scaled by the inverse of the diagonal entry of `a`. */
  ghost predicate RowsDivided(g: Grid, g2: Grid, a: Grid, dim: nat)
    requires SquareOf(g, dim) && SquareOf(g2, dim) && SquareOf(a, dim)
    requires forall c :: 0 <= c < dim ==> Get(a, c, c) != Zero
  {
    forall p, c :: 0 <= p < dim && 0 <= c < dim ==> Get(g2, p, c) == Div(Get(g, p, c), Get(a, p, p))
  }

  lemma SubMulZero(x: Complex, k: Complex)
    ensures Sub(x, Mul(k, Zero)) == x
  {
  }

  /** Subtracting `Coef` times the pivot clears the entry. */
  lemma Cancel(x: Complex, d: Complex)
    requires d != Zero
    ensures Sub(x, Mul(Div(x, d), d)) == Zero
  {
    calc {
      Mul(Div(x, d), d);
    ==
      Mul(Mul(x, Inv(d)), d);
    == { MulAssoc(x, Inv(d), d); }
      Mul(x, Mul(Inv(d), d));
    == { InvMul(d); MulOne(x); }
      x;
    }
  }

  lemma DivSelf(d: Complex)
    requires d != Zero
    ensures Div(d, d) == One && Div(Zero, d) == Zero
  {
    InvMul(d);
    MulZero(Inv(d));
  }

  /** The ring identity behind one step of `DotSubRow`. */
  lemma SubRowStep(d1: Complex, d2: Complex, s: Complex, x: Complex, y: Complex, b: Complex)
    ensures Add(Sub(d1, Mul(s, d2)), Mul(Sub(x, Mul(s, y)), b)) ==
            Sub(Add(d1, Mul(x, b)), Mul(s, Add(d2, Mul(y, b))))
  {
    MulSubDistr(b, x, Mul(s, y));
    MulAssoc(s, y, b);
    MulAddDistr(s, d2, Mul(y, b));
  }

  /** The ring identity behind one step of `DotNegRow`. */
  lemma NegRowStep(d: Complex, x: Complex, b: Complex)
    ensures Add(Neg(d), Mul(Neg(x), b)) == Neg(Add(d, Mul(x, b)))
  {
    assert Mul(Neg(x), b) == Neg(Mul(x, b));
  }

  /** The ring identity behind one step of `DotScaleRow`. */
  lemma ScaleRowStep(d: Complex, v: Complex, x: Complex, b: Complex)
    ensures Add(Mul(d, v), Mul(Mul(x, v), b)) == Mul(Add(d, Mul(x, b)), v)
  {
    MulAssoc(x, v, b);
    MulComm(v, b);
    MulAssoc(x, b, v);
    MulAddDistr(v, d, Mul(x, b));
  }

  /** A row equal to another row has the same products with every column. */
  lemma {:induction false} DotCopyRow(g: Grid, p: nat, g2: Grid, q: nat, b: Grid, c: nat, n: nat)
    requires WellFormed(g) && WellFormed(g2) && WellFormed(b) && g.cols == g2.cols
    requires p < g.rows && q < g2.rows && c < b.cols && n <= g.cols && n <= b.rows
    requires forall k :: 0 <= k < g.cols ==> Get(g2, q, k) == Get(g, p, k)
    ensures Dot(g2, q, b, c, n) == Dot(g, p, b, c, n)
  {
    if n > 0 {
      DotCopyRow(g, p, g2, q, b, c, n - 1);
    }
  }

  /** A negated row has negated products. */
  lemma {:induction false} DotNegRow(g: Grid, p: nat, g2: Grid, q: nat, b: Grid, c: nat, n: nat)
    requires WellFormed(g) && WellFormed(g2) && WellFormed(b) && g.cols == g2.cols
    requires p < g.rows && q < g2.rows && c < b.cols && n <= g.cols && n <= b.rows
    requires forall k :: 0 <= k < g.cols ==> Get(g2, q, k) == Neg(Get(g, p, k))
    ensures Dot(g2, q, b, c, n) == Neg(Dot(g, p, b, c, n))
  {
    if n > 0 {
      DotNegRow(g, p, g2, q, b, c, n - 1);
      NegRowStep(Dot(g, p, b, c, n - 1), Get(g, p, n - 1), Get(b, n - 1, c));
    }
  }

  /** Row q minus `s` times row p has the products of row q minus `s` times those of row p. */
  lemma {:induction false} DotSubRow(g: Grid, p: nat, q: nat, s: Complex, g2: Grid, b: Grid, c: nat, n: nat)
    requires WellFormed(g) && WellFormed(g2) && WellFormed(b) && g.cols == g2.cols && g.rows == g2.rows
    requires p < g.rows && q < g.rows && c < b.cols && n <= g.cols && n <= b.rows
    requires forall k :: 0 <= k < g.cols ==> Get(g2, q, k) == Sub(Get(g, q, k), Mul(s, Get(g, p, k)))
    ensures Dot(g2, q, b, c, n) == Sub(Dot(g, q, b, c, n), Mul(s, Dot(g, p, b, c, n)))
  {
    if n > 0 {
      DotSubRow(g, p, q, s, g2, b, c, n - 1);
      SubRowStep(Dot(g, q, b, c, n - 1), Dot(g, p, b, c, n - 1), s,
                 Get(g, q, n - 1), Get(g, p, n - 1), Get(b, n - 1, c));
    }
  }

  /** A row scaled by `v` has its products scaled by `v`. */
  lemma {:induction false} DotScaleRow(g: Grid, q: nat, v: Complex, g2: Grid, b: Grid, c: nat, n: nat)
    requires WellFormed(g) && WellFormed(g2) && WellFormed(b) && g.cols == g2.cols && g.rows == g2.rows
    requires q < g.rows && c < b.cols && n <= g.cols && n <= b.rows
    requires forall k :: 0 <= k < g.cols ==> Get(g2, q, k) == Mul(Get(g, q, k), v)
    ensures Dot(g2, q, b, c, n) == Mul(Dot(g, q, b, c, n), v)
  {
    if n > 0 {
      DotScaleRow(g, q, v, g2, b, c, n - 1);
      ScaleRowStep(Dot(g, q, b, c, n - 1), v, Get(g, q, n - 1), Get(b, n - 1, c));
    } else {
      MulZero(v);
    }
  }

  /** Row p of the identity picks row p of `b` once the sum has passed column p. */
  lemma {:induction false} DotIdentityRow(g: Grid, p: nat, b: Grid, c: nat, n: nat)
    requires SquareOf(g, g.rows) && IsIdentity(g, g.rows) && WellFormed(b)
    requires p < g.rows && c < b.cols && n <= g.cols && n <= b.rows
    ensures Dot(g, p, b, c, n) == if p < n then Get(b, p, c) else Zero
  {
    if n > 0 {
      DotIdentityRow(g, p, b, c, n - 1);
      MulOne(Get(b, n - 1, c));
      MulZero(Get(b, n - 1, c));
    }
  }

  /** The identity times `a0` is `a0`: the invariant holds before the first column. */
  lemma IdentityProduct(r: Grid, a0: Grid, dim: nat)
    requires SquareOf(r, dim) && SquareOf(a0, dim) && IsIdentity(r, dim)
    ensures ProductIs(r, a0, a0, dim)
  {
    forall p, c | 0 <= p < dim && 0 <= c < dim
      ensures Dot(r, p, a0, c, dim) == Get(a0, p, c)
    {
      DotIdentityRow(r, p, a0, c, dim);
    }
  }

  /** Swapping and negating the same rows of `r` and `a` keeps `r·a0 == a`. */
  lemma SwapKeepsProduct(r: Grid, r2: Grid, a0: Grid, a: Grid, a2: Grid, dim: nat, i: nat, j: nat)
    requires SquareOf(r, dim) && SquareOf(r2, dim) && SquareOf(a0, dim) && SquareOf(a, dim) && SquareOf(a2, dim)
    requires i < dim && j < dim && i != j
    requires ProductIs(r, a0, a, dim) && SwappedNeg(r, r2, dim, i, j) && SwappedNeg(a, a2, dim, i, j)
    ensures ProductIs(r2, a0, a2, dim)
  {
    forall p, c | 0 <= p < dim && 0 <= c < dim
      ensures Dot(r2, p, a0, c, dim) == Get(a2, p, c)
    {
      if p == i {
        DotCopyRow(r, j, r2, p, a0, c, dim);
      } else if p == j {
        DotNegRow(r, i, r2, p, a0, c, dim);
      } else {
        DotCopyRow(r, p, r2, p, a0, c, dim);
      }
    }
  }

  /** Reducing the rows of `r` and `a` by the same multiples of row i keeps `r·a0 == a`. */
  lemma EliminationKeepsProduct(r: Grid, r2: Grid, a0: Grid, a: Grid, a2: Grid, dim: nat, i: nat)
    requires SquareOf(r, dim) && SquareOf(r2, dim) && SquareOf(a0, dim) && SquareOf(a, dim) && SquareOf(a2, dim)
    requires i < dim && Get(a, i, i) != Zero
    requires ProductIs(r, a0, a, dim) && EliminatedBy(r, r2, a, dim, i) && EliminatedBy(a, a2, a, dim, i)
    ensures ProductIs(r2, a0, a2, dim)
  {
    forall p, c | 0 <= p < dim && 0 <= c < dim
      ensures Dot(r2, p, a0, c, dim) == Get(a2, p, c)
    {
      if p == i {
        DotCopyRow(r, p, r2, p, a0, c, dim);
      } else {
        DotSubRow(r, i, p, Coef(a, p, i), r2, a0, c, dim);
      }
    }
  }

  /** A swap with a row below the pivot keeps the cleared columns and brings a non-zero pivot. */
  lemma SwapKeepsReduced(a: Grid, a2: Grid, dim: nat, i: nat, j: nat)
    requires SquareOf(a, dim) && SquareOf(a2, dim) && i < j < dim
    requires Reduced(a, dim, i) && SwappedNeg(a, a2, dim, i, j) && Get(a, j, i) != Zero
    ensures Reduced(a2, dim, i) && Get(a2, i, i) != Zero
  {
  }

  /** Eliminating with a non-zero pivot clears column i and leaves the earlier columns cleared. */
  lemma EliminationReduces(a: Grid, a2: Grid, dim: nat, i: nat)
    requires SquareOf(a, dim) && SquareOf(a2, dim) && i < dim
    requires Reduced(a, dim, i) && Get(a, i, i) != Zero && EliminatedBy(a, a2, a, dim, i)
    ensures Reduced(a2, dim, i + 1)
  {
    forall p, c | 0 <= p < dim && 0 <= c < i + 1 && p != c
      ensures Get(a2, p, c) == Zero
    {
      if p != i {
        if c == i {
          Cancel(Get(a, p, i), Get(a, i, i));
        } else {
          SubMulZero(Get(a, p, c), Coef(a, p, i));
        }
      }
    }
    forall c | 0 <= c < i + 1
      ensures Get(a2, c, c) != Zero
    {
      if c != i {
        SubMulZero(Get(a, c, c), Coef(a, c, i));
      }
    }
  }

  /** Dividing each row of `r` by the diagonal of `a` divides the products the same way. */
  lemma DividedProduct(r: Grid, r2: Grid, a0: Grid, a: Grid, dim: nat)
    requires SquareOf(r, dim) && SquareOf(r2, dim) && SquareOf(a0, dim) && SquareOf(a, dim)
    requires forall c :: 0 <= c < dim ==> Get(a, c, c) != Zero
    requires ProductIs(r, a0, a, dim) && RowsDivided(r, r2, a, dim)
    ensures forall p, c :: 0 <= p < dim && 0 <= c < dim ==>
              Dot(r2, p, a0, c, dim) == Div(Get(a, p, c), Get(a, p, p))
  {
    forall p, c | 0 <= p < dim && 0 <= c < dim
      ensures Dot(r2, p, a0, c, dim) == Div(Get(a, p, c), Get(a, p, p))
    {
      DotScaleRow(r, p, Inv(Get(a, p, p)), r2, a0, c, dim);
    }
  }

  /** Once every column is cleared, dividing by the diagonal yields the inverse. */
  lemma ReducedGivesInverse(r: Grid, r2: Grid, a0: Grid, a: Grid, dim: nat)
    requires SquareOf(r, dim) && SquareOf(r2, dim) && SquareOf(a0, dim) && SquareOf(a, dim)
    requires Reduced(a, dim, dim) && ProductIs(r, a0, a, dim) && RowsDivided(r, r2, a, dim)
    ensures IsInverse(r2, a0, dim)
  {
    DividedProduct(r, r2, a0, a, dim);
    forall p, c | 0 <= p < dim && 0 <= c < dim
      ensures Div(Get(a, p, c), Get(a, p, p)) == if p == c then One else Zero
    {
      DivSelf(Get(a, p, p));
    }
  }

  /** The row after `j` in the cyclic order of `(j + 1) % dim`. */
  lemma NextRow(j: nat, dim: nat)
    requires j < dim
    ensures (j + 1) % dim == if j + 1 == dim then 0 else j + 1
  {
  }

  /** The column `(k + i) % dim` visited at step `k` of an elimination. */
  lemma CycleIndex(k: nat, i: nat, dim: nat)
    requires k < dim && i < dim
    ensures (k + i) % dim == if k + i < dim then k + i else k + i - dim
  {
    if k + i >= dim {
      assert k + i == 1 * dim + (k + i - dim);
    }
  }

  /** Two different rows of a `dim×dim` buffer occupy disjoint ranges inside it. */
  lemma RowsApart(i: nat, j: nat, dim: nat)
    requires i < dim && j < dim
    ensures i * dim + dim <= dim * dim && j * dim + dim <= dim * dim
    ensures i < j ==> i * dim + dim <= j * dim
    ensures j < i ==> j * dim + dim <= i * dim
  {
    assert (i + 1) * dim == i * dim + dim && (j + 1) * dim == j * dim + dim;
    MulMono(i + 1, dim, dim);
    MulMono(j + 1, dim, dim);
    if i < j {
      MulMono(i + 1, j, dim);
    } else if j < i {
      MulMono(j + 1, i, dim);
    }
  }

  /** Writing one cell changes entry (r, c) and no other. */
  lemma CellUpdate(g: Grid, g2: Grid, r: nat, c: nat, v: Complex)
    requires WellFormed(g) && g2.rows == g.rows && g2.cols == g.cols && r < g.rows && c < g.cols
    requires r * g.cols + c < |g.cells| && g2.cells == g.cells[r * g.cols + c := v]
    ensures WellFormed(g2)
    ensures forall p, q :: 0 <= p < g.rows && 0 <= q < g.cols ==>
              Get(g2, p, q) == if p == r && q == c then v else Get(g, p, q)
  {
    forall p, q | 0 <= p < g.rows && 0 <= q < g.cols
      ensures Get(g2, p, q) == if p == r && q == c then v else Get(g, p, q)
    {
      CellInside(p, q, g.rows, g.cols);
      RowBlock(p, q, r, g.cols);
      RowBlock(r, c, p, g.cols);
    }
  }

  /** The first `i` diagonal entries are 1, every other entry 0. */
  ghost predicate IdentityUpTo(g: Grid, dim: nat, i: nat)
    requires SquareOf(g, dim)
  {
    forall p, c :: 0 <= p < dim && 0 <= c < dim ==> Get(g, p, c) == if p == c && p < i then One else Zero
  }

  lemma IdentityStep(g: Grid, g2: Grid, dim: nat, i: nat)
    requires SquareOf(g, dim) && i < dim && IdentityUpTo(g, dim, i)
    requires g2.rows == dim && g2.cols == dim && i * dim + i < |g.cells| && g2.cells == g.cells[i * dim + i := One]
    ensures SquareOf(g2, dim) && IdentityUpTo(g2, dim, i + 1)
  {
    CellUpdate(g, g2, i, i, One);
  }

  lemma ZeroIdentityUpTo(g: Grid, dim: nat)
    requires SquareOf(g, dim) && forall q :: 0 <= q < |g.cells| ==> g.cells[q] == Zero
    ensures IdentityUpTo(g, dim, 0)
  {
    forall p, c | 0 <= p < dim && 0 <= c < dim
      ensures Get(g, p, c) == Zero
    {
      CellInside(p, c, dim, dim);
      var idx := p * dim + c;
      assert g.cells[idx] == Zero;
    }
  }

  /** The loop of `inverse_matrix` that writes 1 on the diagonal of a zero-filled buffer. */
  method InitIdentity(m: Matrix)
    requires Square(m) && forall q :: 0 <= q < m.data.Length ==> m.data[q] == Zero
    modifies m.data
    ensures IsIdentity(Value(m), m.rows)
  {
    var dim := m.rows;
    ZeroIdentityUpTo(Value(m), dim);
    var i := 0;
    while i < dim
      invariant i <= dim && SquareOf(Value(m), dim) && IdentityUpTo(Value(m), dim, i)
    {
      CellInside(i, i, dim, dim);
      ghost var before := Value(m);
      m.data[i * dim + i] := One;
      IdentityStep(before, Value(m), dim, i);
      i := i + 1;
    }
  }

  /** Row `p` comes strictly after `i` and strictly before `j` in the cyclic order `i+1, …, dim-1, 0, …`. */
  predicate CyclicallyBetween(i: nat, p: nat, j: nat) {
    if i < j then i < p < j else i < p || p < j
  }

  /** Column i of g is zero in every row strictly between i and j in the cyclic order. */
  ghost predicate ZerosBetween(g: Grid, i: nat, j: nat)
    requires WellFormed(g) && i < g.cols
  {
    forall p :: 0 <= p < g.rows && CyclicallyBetween(i, p, j) ==> Get(g, p, i) == Zero
  }

  /** A zero in row j extends the zero run of column i to the row after j. */
  lemma ZerosBetweenStep(g: Grid, i: nat, j: nat)
    requires WellFormed(g) && i < g.rows == g.cols && j < g.rows && j != i
    requires ZerosBetween(g, i, j) && Get(g, j, i) == Zero
    ensures ZerosBetween(g, i, (j + 1) % g.rows)
  {
    NextRow(j, g.rows);
  }

  /**
   * The pivot search of `inverse_matrix` for a zero diagonal entry (i, i):
   * the first row, cyclically after i, with a non-zero entry in column i.
   */
  method FindPivot(a: Matrix, i: nat) returns (found: bool, j: nat)
    requires Square(a) && i < a.rows && Get(Value(a), i, i) == Zero
    ensures found ==> j < a.rows && j != i && Get(Value(a), j, i) != Zero
    ensures found ==> forall p :: 0 <= p < a.rows && CyclicallyBetween(i, p, j) ==> Get(Value(a), p, i) == Zero
    ensures !found ==> forall p :: 0 <= p < a.rows ==> Get(Value(a), p, i) == Zero
  {
    var dim := a.rows;
    ghost var g := Value(a);
    NextRow(i, dim);
    j := (i + 1) % dim;
    assert ZerosBetween(g, i, j);
    EntryAt(a, j, i);
    var x := a.data[j * dim + i];
    while x == Zero
      invariant j < dim && x == Get(g, j, i)
      invariant ZerosBetween(g, i, j)
      decreases if j <= i then i - j else i + dim - j
    {
      if j == i {
        return false, j;
      }
      ZerosBetweenStep(g, i, j);
      NextRow(j, dim);
      j := (j + 1) % dim;
      EntryAt(a, j, i);
      x := a.data[j * dim + i];
    }
    found := true;
  }

  /**
   * `t` is `s` with the first `k` entries of the rows starting at `bi` and `bj`
   * (each `n` long) exchanged, the one moved into the second row negated.
   */
  ghost predicate SwapFlat(s: seq<Complex>, t: seq<Complex>, bi: nat, bj: nat, n: nat, k: nat) {
    k <= n && bi + n <= |s| && bj + n <= |s| && |t| == |s| && (bi + n <= bj || bj + n <= bi) &&
    forall q {:trigger t[q]} :: 0 <= q < |t| ==>
      t[q] == if bi <= q < bi + k then s[q - bi + bj]
              else if bj <= q < bj + k then Neg(s[q - bj + bi])
              else s[q]
  }

  /** One cell of `SwapFlatGet`. */
  lemma SwapCellGet(g: Grid, g2: Grid, dim: nat, i: nat, j: nat, p: nat, c: nat)
    requires SquareOf(g, dim) && SquareOf(g2, dim) && i < dim && j < dim && i != j
    requires SwapFlat(g.cells, g2.cells, i * dim, j * dim, dim, dim)
    requires p < dim && c < dim
    ensures Get(g2, p, c) == if p == i then Get(g, j, c) else if p == j then Neg(Get(g, i, c)) else Get(g, p, c)
  {
    if p == i {
      SwapCellMoved(g, g2, dim, i, j, c);
    } else if p == j {
      SwapCellMoved(g, g2, dim, i, j, c);
    } else {
      SwapCellKept(g, g2, dim, i, j, p, c);
    }
  }

  /** The cells of rows i and j after the swap. */
  lemma SwapCellMoved(g: Grid, g2: Grid, dim: nat, i: nat, j: nat, c: nat)
    requires SquareOf(g, dim) && SquareOf(g2, dim) && i < dim && j < dim && i != j
    requires SwapFlat(g.cells, g2.cells, i * dim, j * dim, dim, dim)
    requires c < dim
    ensures Get(g2, i, c) == Get(g, j, c) && Get(g2, j, c) == Neg(Get(g, i, c))
  {
    CellInside(i, c, dim, dim);
    CellInside(j, c, dim, dim);
    var bi, bj := i * dim, j * dim;
    assert Get(g2, i, c) == g2.cells[bi + c];
    assert Get(g2, j, c) == g2.cells[bj + c];
  }

  /** The cells of every other row are untouched by the swap. */
  lemma SwapCellKept(g: Grid, g2: Grid, dim: nat, i: nat, j: nat, p: nat, c: nat)
    requires SquareOf(g, dim) && SquareOf(g2, dim) && i < dim && j < dim && i != j
    requires SwapFlat(g.cells, g2.cells, i * dim, j * dim, dim, dim)
    requires p < dim && c < dim && p != i && p != j
    ensures Get(g2, p, c) == Get(g, p, c)
  {
    CellInside(p, c, dim, dim);
    RowBlock(p, c, i, dim);
    RowBlock(p, c, j, dim);
    assert Get(g2, p, c) == g2.cells[p * dim + c];
  }

  lemma SwapFlatGet(g: Grid, g2: Grid, dim: nat, i: nat, j: nat)
    requires SquareOf(g, dim) && SquareOf(g2, dim) && i < dim && j < dim && i != j
    requires SwapFlat(g.cells, g2.cells, i * dim, j * dim, dim, dim)
    ensures SwappedNeg(g, g2, dim, i, j)
  {
    forall p, c | 0 <= p < dim && 0 <= c < dim
      ensures Get(g2, p, c) == if p == i then Get(g, j, c) else if p == j then Neg(Get(g, i, c)) else Get(g, p, c)
    {
      SwapCellGet(g, g2, dim, i, j, p, c);
    }
  }

  /**
   * A swap of two rows inside the first `dim * dim` entries of a buffer swaps
   * rows i and j of the `dim`-square matrix those entries hold.
   */
  lemma SwapFlatPrefix(s: seq<Complex>, t: seq<Complex>, dim: nat, i: nat, j: nat)
    requires i < dim && j < dim && i != j && dim * dim <= |s|
    requires SwapFlat(s, t, i * dim, j * dim, dim, dim)
    ensures SwappedNeg(Grid(dim, dim, s[..dim * dim]), Grid(dim, dim, t[..dim * dim]), dim, i, j)
  {
    RowsApart(i, j, dim);
    var len := dim * dim;
    SwapFlatTake(s, t, i * dim, j * dim, dim, len);
    SwapFlatGet(Grid(dim, dim, s[..len]), Grid(dim, dim, t[..len]), dim, i, j);
  }

  /** A swap of two rows that both lie in the first `len` entries is a swap of those entries. */
  lemma SwapFlatTake(s: seq<Complex>, t: seq<Complex>, bi: nat, bj: nat, n: nat, len: nat)
    requires SwapFlat(s, t, bi, bj, n, n) && bi + n <= len && bj + n <= len <= |s|
    ensures SwapFlat(s[..len], t[..len], bi, bj, n, n)
  {
    forall q | 0 <= q < len
      ensures t[..len][q] == if bi <= q < bi + n then s[..len][q - bi + bj]
                             else if bj <= q < bj + n then Neg(s[..len][q - bj + bi])
                             else s[..len][q]
    {
      assert t[..len][q] == t[q];
      if bi <= q < bi + n {
        assert s[..len][q - bi + bj] == s[q - bi + bj];
      } else if bj <= q < bj + n {
        assert s[..len][q - bj + bi] == s[q - bj + bi];
      }
    }
  }

  /** One step of the swap loop on one buffer: entries `bi + k` and `bj + k` exchanged, the first negated. */
  method SwapCell(m: array<Complex>, bi: nat, bj: nat, k: nat)
    requires bi + k < m.Length && bj + k < m.Length && bi != bj
    modifies m
    ensures m[..] == old(m[..])[bi + k := old(m[bj + k])][bj + k := Neg(old(m[bi + k]))]
  {
    var temp := m[bi + k];
    m[bi + k] := m[bj + k];
    m[bj + k] := Neg(temp);
  }

  lemma SwapFlatStep(s: seq<Complex>, t: seq<Complex>, t2: seq<Complex>, bi: nat, bj: nat, n: nat, k: nat)
    requires k < n && SwapFlat(s, t, bi, bj, n, k)
    requires t2 == t[bi + k := t[bj + k]][bj + k := Neg(t[bi + k])]
    ensures SwapFlat(s, t2, bi, bj, n, k + 1)
  {
  }

  /** The swap loop of `inverse_matrix` on the buffers: the rows starting at `bi` and `bj` exchanged in both, the one moved to `bj` negated. */
  method SwapNegBlocks(a: array<Complex>, r: array<Complex>, bi: nat, bj: nat, dim: nat)
    requires a != r && bi + dim <= a.Length && bj + dim <= a.Length && bi + dim <= r.Length && bj + dim <= r.Length
    requires bi + dim <= bj || bj + dim <= bi
    modifies a, r
    ensures SwapFlat(old(a[..]), a[..], bi, bj, dim, dim)
    ensures SwapFlat(old(r[..]), r[..], bi, bj, dim, dim)
  {
    ghost var a0, r0 := a[..], r[..];
    var k := 0;
    while k < dim
      invariant k <= dim
      invariant SwapFlat(a0, a[..], bi, bj, dim, k)
      invariant SwapFlat(r0, r[..], bi, bj, dim, k)
    {
      ghost var a1, r1 := a[..], r[..];
      SwapCell(a, bi, bj, k);
      SwapCell(r, bi, bj, k);
      SwapFlatStep(a0, a1, a[..], bi, bj, dim, k);
      SwapFlatStep(r0, r1, r[..], bi, bj, dim, k);
      k := k + 1;
    }
  }

  /** Rows i and j exchanged in both `a` and `r`, row j negated. */
  method SwapNegRows(a: Matrix, r: Matrix, i: nat, j: nat)
    requires Square(a) && Square(r) && r.rows == a.rows && a.data != r.data
    requires i < a.rows && j < a.rows && i != j
    modifies a.data, r.data
    ensures SwappedNeg(old(Value(a)), Value(a), a.rows, i, j)
    ensures SwappedNeg(old(Value(r)), Value(r), a.rows, i, j)
  {
    var dim := a.rows;
    RowsApart(i, j, dim);
    SwapNegBlocks(a.data, r.data, i * dim, j * dim, dim);
    SwapFlatPrefix(old(a.data[..]), a.data[..], dim, i, j);
    SwapFlatPrefix(old(r.data[..]), r.data[..], dim, i, j);
  }

  /** After `k` steps started at column `i`, column `c` has been visited: the columns `(k' + i) % n` for `k' < k`. */
  predicate Processed(c: int, i: nat, k: nat, n: nat) {
    i <= c < i + k || c < i + k - n
  }

  /**
   * `t` is `s` with the visited entries of the row starting at `bj` (of
   * length `n`) reduced by `coef` times the same column of the row at `bi`.
   */
  ghost predicate ElimFlat(s: seq<Complex>, t: seq<Complex>, bi: nat, bj: nat, n: nat, i: nat, k: nat, coef: Complex) {
    k <= n && i < n && bi + n <= |s| && bj + n <= |s| && |t| == |s| && (bi + n <= bj || bj + n <= bi) &&
    forall q {:trigger t[q]} :: 0 <= q < |t| ==>
      t[q] == if bj <= q < bj + n && Processed(q - bj, i, k, n) then Sub(s[q], Mul(coef, s[q - bj + bi])) else s[q]
  }

  /**
   * A row reduction inside the first `dim * dim` entries of a buffer reduces
   * row j of the `dim`-square matrix those entries hold.
   */
  lemma ElimFlatPrefix(s: seq<Complex>, t: seq<Complex>, dim: nat, i: nat, j: nat, coef: Complex)
    requires i < dim && j < dim && i != j && dim * dim <= |s|
    requires ElimFlat(s, t, i * dim, j * dim, dim, i, dim, coef)
    ensures RowReduced(Grid(dim, dim, s[..dim * dim]), Grid(dim, dim, t[..dim * dim]), dim, i, j, coef)
  {
    RowsApart(i, j, dim);
    var len := dim * dim;
    ElimFlatTake(s, t, i * dim, j * dim, dim, i, coef, len);
    ElimFlatGet(Grid(dim, dim, s[..len]), Grid(dim, dim, t[..len]), dim, i, j, coef);
  }

  /** A reduction of a row that lies, with the row it subtracts, in the first `len` entries is a reduction of those entries. */
  lemma ElimFlatTake(s: seq<Complex>, t: seq<Complex>, bi: nat, bj: nat, n: nat, i: nat, coef: Complex, len: nat)
    requires ElimFlat(s, t, bi, bj, n, i, n, coef) && bi + n <= len && bj + n <= len <= |s|
    ensures ElimFlat(s[..len], t[..len], bi, bj, n, i, n, coef)
  {
    forall q | 0 <= q < len
      ensures t[..len][q] == if bj <= q < bj + n && Processed(q - bj, i, n, n)
                             then Sub(s[..len][q], Mul(coef, s[..len][q - bj + bi])) else s[..len][q]
    {
      assert t[q] == t[..len][q];
    }
  }

  /** One step of the elimination loop on one buffer: entry `bj + id` reduced by `coef` times entry `bi + id`. */
  method ReduceCell(m: array<Complex>, bi: nat, bj: nat, id: nat, coef: Complex)
    requires bi + id < m.Length && bj + id < m.Length
    modifies m
    ensures m[..] == old(m[..])[bj + id := Sub(old(m[bj + id]), Mul(coef, old(m[bi + id])))]
  {
    m[bj + id] := Sub(m[bj + id], Mul(coef, m[bi + id]));
  }

  lemma ElimFlatStep(s: seq<Complex>, t: seq<Complex>, t2: seq<Complex>, bi: nat, bj: nat, n: nat, i: nat, k: nat, coef: Complex, id: nat)
    requires k < n && ElimFlat(s, t, bi, bj, n, i, k, coef)
    requires id == if k + i < n then k + i else k + i - n
    requires t2 == t[bj + id := Sub(t[bj + id], Mul(coef, t[bi + id]))]
    ensures ElimFlat(s, t2, bi, bj, n, i, k + 1, coef)
  {
    assert t[bj + id] == s[bj + id] && t[bi + id] == s[bi + id];
  }

  /** Row j of `g2` is row j of `g` minus `coef` times row i; every other row is unchanged. */
  ghost predicate RowReduced(g: Grid, g2: Grid, dim: nat, i: nat, j: nat, coef: Complex)
    requires SquareOf(g, dim) && SquareOf(g2, dim) && i < dim && j < dim
  {
    forall p, c :: 0 <= p < dim && 0 <= c < dim ==>
      Get(g2, p, c) == if p == j then Sub(Get(g, j, c), Mul(coef, Get(g, i, c))) else Get(g, p, c)
  }

  lemma ElimFlatOnRow(g: Grid, g2: Grid, dim: nat, i: nat, j: nat, coef: Complex, c: nat)
    requires SquareOf(g, dim) && SquareOf(g2, dim) && i < dim && j < dim && c < dim && i != j
    requires ElimFlat(g.cells, g2.cells, i * dim, j * dim, dim, i, dim, coef)
    ensures Get(g2, j, c) == Sub(Get(g, j, c), Mul(coef, Get(g, i, c)))
  {
    CellInside(j, c, dim, dim);
    CellInside(i, c, dim, dim);
    var bi, bj := i * dim, j * dim;
    ElimFlatAt(g.cells, g2.cells, bi, bj, dim, i, coef, c);
    assert Get(g2, j, c) == g2.cells[bj + c] && Get(g, j, c) == g.cells[bj + c] && Get(g, i, c) == g.cells[bi + c];
  }

  /** After a whole row's reduction, its entry at column c is reduced. */
  lemma ElimFlatAt(s: seq<Complex>, t: seq<Complex>, bi: nat, bj: nat, n: nat, i: nat, coef: Complex, c: nat)
    requires ElimFlat(s, t, bi, bj, n, i, n, coef) && c < n
    ensures t[bj + c] == Sub(s[bj + c], Mul(coef, s[bi + c]))
  {
    assert Processed(bj + c - bj, i, n, n);
  }

  lemma ElimFlatOffRow(g: Grid, g2: Grid, dim: nat, i: nat, j: nat, coef: Complex, p: nat, c: nat)
    requires SquareOf(g, dim) && SquareOf(g2, dim) && i < dim && j < dim && p < dim && c < dim && p != j
    requires ElimFlat(g.cells, g2.cells, i * dim, j * dim, dim, i, dim, coef)
    ensures Get(g2, p, c) == Get(g, p, c)
  {
    CellInside(p, c, dim, dim);
    var idx := p * dim + c;
    assert Get(g2, p, c) == g2.cells[idx] && Get(g, p, c) == g.cells[idx];
    RowBlock(p, c, j, dim);
    assert !(j * dim <= idx < j * dim + dim);
  }

  lemma ElimFlatGet(g: Grid, g2: Grid, dim: nat, i: nat, j: nat, coef: Complex)
    requires SquareOf(g, dim) && SquareOf(g2, dim) && i < dim && j < dim && i != j
    requires ElimFlat(g.cells, g2.cells, i * dim, j * dim, dim, i, dim, coef)
    ensures RowReduced(g, g2, dim, i, j, coef)
  {
    forall p, c | 0 <= p < dim && 0 <= c < dim
      ensures Get(g2, p, c) == if p == j then Sub(Get(g, j, c), Mul(coef, Get(g, i, c))) else Get(g, p, c)
    {
      if p == j {
        ElimFlatOnRow(g, g2, dim, i, j, coef, c);
      } else {
        ElimFlatOffRow(g, g2, dim, i, j, coef, p, c);
      }
    }
  }

  /**
   * The inner loop of the elimination in `inverse_matrix`: row j of `a` and
   * of `r` reduced by `a(j, i) / a(i, i)` times row i, column by column from
   * column i round to column i - 1.
   */
  method EliminateRow(a: Matrix, r: Matrix, i: nat, j: nat)
    requires Square(a) && Square(r) && r.rows == a.rows && a.data != r.data
    requires i < a.rows && j < a.rows && i != j && Get(Value(a), i, i) != Zero
    modifies a.data, r.data
    ensures RowReduced(old(Value(a)), Value(a), a.rows, i, j, Coef(old(Value(a)), j, i))
    ensures RowReduced(old(Value(r)), Value(r), a.rows, i, j, Coef(old(Value(a)), j, i))
  {
    var dim := a.rows;
    RowsApart(i, j, dim);
    var bi, bj := i * dim, j * dim;
    EntryAt(a, j, i);
    EntryAt(a, i, i);
    var coef := Div(a.data[bj + i], a.data[bi + i]);
    assert coef == Coef(Value(a), j, i);
    ReduceRows(a.data, r.data, bi, bj, dim, i, coef);
    ElimFlatPrefix(old(a.data[..]), a.data[..], dim, i, j, coef);
    ElimFlatPrefix(old(r.data[..]), r.data[..], dim, i, j, coef);
  }

  /** The column loop of the elimination, on the two buffers: rows at `bj` reduced by `coef` times rows at `bi`. */
  method ReduceRows(a: array<Complex>, r: array<Complex>, bi: nat, bj: nat, n: nat, i: nat, coef: Complex)
    requires a != r && i < n && bi + n <= r.Length && bj + n <= r.Length
    requires bi + n <= a.Length && bj + n <= a.Length && (bi + n <= bj || bj + n <= bi)
    modifies a, r
    ensures ElimFlat(old(a[..]), a[..], bi, bj, n, i, n, coef)
    ensures ElimFlat(old(r[..]), r[..], bi, bj, n, i, n, coef)
  {
    ghost var a0, r0 := a[..], r[..];
    var k := 0;
    while k < n
      invariant k <= n
      invariant ElimFlat(a0, a[..], bi, bj, n, i, k, coef)
      invariant ElimFlat(r0, r[..], bi, bj, n, i, k, coef)
    {
      CycleIndex(k, i, n);
      var id := (k + i) % n;
      ghost var a1, r1 := a[..], r[..];
      ReduceCell(a, bi, bj, id, coef);
      ReduceCell(r, bi, bj, id, coef);
      ElimFlatStep(a0, a1, a[..], bi, bj, n, i, k, coef, id);
      ElimFlatStep(r0, r1, r[..], bi, bj, n, i, k, coef, id);
      k := k + 1;
    }
  }

  /** Rows cyclically between i and j have been reduced by their multiples of row i; the rest are unchanged. */
  ghost predicate PartlyEliminated(g: Grid, g2: Grid, a: Grid, dim: nat, i: nat, j: nat)
    requires SquareOf(g, dim) && SquareOf(g2, dim) && SquareOf(a, dim) && i < dim && Get(a, i, i) != Zero
  {
    forall p, c :: 0 <= p < dim && 0 <= c < dim ==>
      Get(g2, p, c) == if p != i && CyclicallyBetween(i, p, j)
                       then Sub(Get(g, p, c), Mul(Coef(a, p, i), Get(g, i, c)))
                       else Get(g, p, c)
  }

  lemma EliminationStep(g: Grid, g1: Grid, g2: Grid, a: Grid, dim: nat, i: nat, j: nat)
    requires SquareOf(g, dim) && SquareOf(g1, dim) && SquareOf(g2, dim) && SquareOf(a, dim)
    requires i < dim && j < dim && i != j && Get(a, i, i) != Zero
    requires PartlyEliminated(g, g1, a, dim, i, j) && RowReduced(g1, g2, dim, i, j, Coef(a, j, i))
    ensures PartlyEliminated(g, g2, a, dim, i, if j + 1 == dim then 0 else j + 1)
  {
    var next := if j + 1 == dim then 0 else j + 1;
    forall p, c | 0 <= p < dim && 0 <= c < dim
      ensures Get(g2, p, c) == if p != i && CyclicallyBetween(i, p, next)
                               then Sub(Get(g, p, c), Mul(Coef(a, p, i), Get(g, i, c)))
                               else Get(g, p, c)
    {
      assert Get(g1, i, c) == Get(g, i, c);
      if p == j {
        assert Get(g1, j, c) == Get(g, j, c);
      }
    }
  }

  /**
   * The row loop of the elimination in `inverse_matrix`: every row other than
   * i, visited from i + 1 round to i - 1, reduced by its multiple of row i, in
   * `a` and in `r` alike.
   */
  method EliminateColumn(a: Matrix, r: Matrix, i: nat)
    requires Square(a) && Square(r) && r.rows == a.rows && a.data != r.data
    requires i < a.rows && Get(Value(a), i, i) != Zero
    modifies a.data, r.data
    ensures EliminatedBy(old(Value(a)), Value(a), old(Value(a)), a.rows, i)
    ensures EliminatedBy(old(Value(r)), Value(r), old(Value(a)), a.rows, i)
  {
    var dim := a.rows;
    ghost var a0, r0 := Value(a), Value(r);
    NextRow(i, dim);
    var j: nat := (i + 1) % dim;
    while j != i
      invariant j < dim && SquareOf(Value(a), dim) && SquareOf(Value(r), dim)
      invariant PartlyEliminated(a0, Value(a), a0, dim, i, j)
      invariant PartlyEliminated(r0, Value(r), a0, dim, i, j)
      decreases if j <= i then i - j else i + dim - j
    {
      ghost var a1, r1 := Value(a), Value(r);
      assert Get(a1, j, i) == Get(a0, j, i) && Get(a1, i, i) == Get(a0, i, i);
      EliminateRow(a, r, i, j);
      EliminationStep(a0, a1, Value(a), a0, dim, i, j);
      EliminationStep(r0, r1, Value(r), a0, dim, i, j);
      NextRow(j, dim);
      j := (j + 1) % dim;
    }
  }

  /**
   * `t` is `s` with the first `j` entries of the row starting at `bi` divided
   * by `d`, which is non-zero once a division has happened.
   */
  ghost predicate DivFlat(s: seq<Complex>, t: seq<Complex>, bi: nat, j: nat, d: Complex) {
    |t| == |s| && (j > 0 ==> d != Zero) &&
    forall q {:trigger t[q]} :: 0 <= q < |t| ==> t[q] == if bi <= q < bi + j then Div(s[q], d) else s[q]
  }

  lemma DivFlatGet(g: Grid, g2: Grid, dim: nat, i: nat, d: Complex)
    requires SquareOf(g, dim) && SquareOf(g2, dim) && i < dim && DivFlat(g.cells, g2.cells, i * dim, dim, d)
    ensures forall p, c :: 0 <= p < dim && 0 <= c < dim ==>
              Get(g2, p, c) == if p == i then Div(Get(g, p, c), d) else Get(g, p, c)
  {
    forall p, c | 0 <= p < dim && 0 <= c < dim
      ensures Get(g2, p, c) == if p == i then Div(Get(g, p, c), d) else Get(g, p, c)
    {
      CellInside(p, c, dim, dim);
      var idx := p * dim + c;
      assert Get(g2, p, c) == g2.cells[idx] && Get(g, p, c) == g.cells[idx];
      RowBlock(p, c, i, dim);
    }
  }

  /**
   * One pass of the final loop of `inverse_matrix`: unless the diagonal entry
   * (i, i) of `a` is zero, row i of `r` is divided by it.
   */
  method DivideRow(a: Matrix, r: Matrix, i: nat) returns (ok: bool)
    requires Square(a) && Square(r) && r.rows == a.rows && a.data != r.data && i < a.rows
    modifies r.data
    ensures ok <==> Get(Value(a), i, i) != Zero
    ensures ok ==> forall p, c :: 0 <= p < a.rows && 0 <= c < a.rows ==>
                     Get(Value(r), p, c) == if p == i then Div(Get(old(Value(r)), p, c), Get(Value(a), i, i))
                                            else Get(old(Value(r)), p, c)
  {
    var dim := a.rows;
    RowsApart(i, i, dim);
    var bi := i * dim;
    CellInside(i, i, dim, dim);
    assert a.data[bi + i] == Get(Value(a), i, i);
    var j := 0;
    while j < dim
      invariant j <= dim && DivFlat(old(r.data[..]), r.data[..], bi, j, a.data[bi + i])
    {
      if a.data[bi + i] == Zero {
        return false;
      }
      r.data[bi + j] := Div(r.data[bi + j], a.data[bi + i]);
      j := j + 1;
    }
    DivFlatGet(old(Value(r)), Value(r), dim, i, a.data[bi + i]);
    return true;
  }

  /** The final loop of `inverse_matrix`: every row of `r` divided by the diagonal entry of `a`, unless one is zero. */
  method DivideRows(a: Matrix, r: Matrix) returns (ok: bool)
    requires Square(a) && Square(r) && r.rows == a.rows && a.data != r.data
    modifies r.data
    ensures ok <==> forall c :: 0 <= c < a.rows ==> Get(Value(a), c, c) != Zero
    ensures ok ==> RowsDivided(old(Value(r)), Value(r), Value(a), a.rows)
  {
    var dim := a.rows;
    var i := 0;
    while i < dim
      invariant i <= dim && SquareOf(Value(r), dim)
      invariant forall c :: 0 <= c < i ==> Get(Value(a), c, c) != Zero
      invariant forall p, c :: 0 <= p < dim && 0 <= c < dim ==>
                  Get(Value(r), p, c) == if p < i then Div(Get(old(Value(r)), p, c), Get(Value(a), p, p))
                                         else Get(old(Value(r)), p, c)
    {
      ok := DivideRow(a, r, i);
      if !ok {
        return;
      }
      i := i + 1;
    }
    return true;
  }

  /** The non-error status reports of `inverse_matrix`. */
  datatype Inversion = Inverted | NonSquare | Irregular

  /**
   * The pivot step of one column of the Gauss-Jordan loop: a zero pivot is
   * replaced by swapping in the next row, cyclically below, with a non-zero
   * entry in column i. `wrapped` records a search that went past the last row.
   */
  method BringPivot(a: Matrix, r: Matrix, i: nat, ghost a0: Grid) returns (ok: bool, ghost wrapped: bool)
    requires Square(a) && Square(r) && r.rows == a.rows && a.data != r.data && i < a.rows
    requires SquareOf(a0, a.rows) && ProductIs(Value(r), a0, Value(a), a.rows)
    modifies a.data, r.data
    ensures ok ==> ProductIs(Value(r), a0, Value(a), a.rows) && Get(Value(a), i, i) != Zero
    ensures !ok ==> wrapped
    ensures !wrapped && Reduced(old(Value(a)), a.rows, i) ==> ok && Reduced(Value(a), a.rows, i)
  {
    var dim := a.rows;
    EntryAt(a, i, i);
    wrapped := false;
    if a.data[i * dim + i] != Zero {
      return true, false;
    }
    var found, j := FindPivot(a, i);
    if !found {
      return false, true;
    }
    wrapped := j < i;
    ghost var a1, r1 := Value(a), Value(r);
    SwapNegRows(a, r, i, j);
    SwapStep(r1, Value(r), a0, a1, Value(a), dim, i, j);
    assert old(Value(a)) == a1;
    ok := true;
  }

  /** What a swap that brings in the pivot keeps: `r·a0 == a`, the cleared columns when it does not wrap, a non-zero pivot. */
  lemma SwapStep(r: Grid, r2: Grid, a0: Grid, a: Grid, a2: Grid, dim: nat, i: nat, j: nat)
    requires SquareOf(r, dim) && SquareOf(r2, dim) && SquareOf(a0, dim) && SquareOf(a, dim) && SquareOf(a2, dim)
    requires i < dim && j < dim && i != j && Get(a, j, i) != Zero
    requires ProductIs(r, a0, a, dim) && SwappedNeg(r, r2, dim, i, j) && SwappedNeg(a, a2, dim, i, j)
    ensures ProductIs(r2, a0, a2, dim) && Get(a2, i, i) != Zero
    ensures i < j && Reduced(a, dim, i) ==> Reduced(a2, dim, i)
  {
    SwapKeepsProduct(r, r2, a0, a, a2, dim, i, j);
    if i < j && Reduced(a, dim, i) {
      SwapKeepsReduced(a, a2, dim, i, j);
    }
  }

  /**
   * One column of the Gauss-Jordan loop: the pivot step, then column i is
   * cleared in every other row.
   */
  method PivotColumn(a: Matrix, r: Matrix, i: nat, ghost a0: Grid) returns (ok: bool, ghost wrapped: bool)
    requires Square(a) && Square(r) && r.rows == a.rows && a.data != r.data && i < a.rows
    requires SquareOf(a0, a.rows) && ProductIs(Value(r), a0, Value(a), a.rows)
    modifies a.data, r.data
    ensures ok ==> ProductIs(Value(r), a0, Value(a), a.rows)
    ensures !ok ==> wrapped
    ensures !wrapped && Reduced(old(Value(a)), a.rows, i) ==> ok && Reduced(Value(a), a.rows, i + 1)
  {
    var dim := a.rows;
    ok, wrapped := BringPivot(a, r, i, a0);
    if !ok {
      return;
    }
    ghost var a2, r2 := Value(a), Value(r);
    EliminateColumn(a, r, i);
    EliminationKeepsProduct(r2, Value(r), a0, a2, Value(a), dim, i);
    if !wrapped && Reduced(a2, dim, i) {
      EliminationReduces(a2, Value(a), dim, i);
    }
  }

  /** The column loop of `inverse_matrix`, keeping `r·a0 == a` throughout. */
  method Eliminate(a: Matrix, r: Matrix, ghost a0: Grid) returns (ok: bool, ghost wrapped: bool)
    requires Square(a) && Square(r) && r.rows == a.rows && a.data != r.data
    requires SquareOf(a0, a.rows) && ProductIs(Value(r), a0, Value(a), a.rows)
    modifies a.data, r.data
    ensures ok ==> ProductIs(Value(r), a0, Value(a), a.rows)
    ensures !ok ==> wrapped
    ensures !wrapped ==> ok && Reduced(Value(a), a.rows, a.rows)
  {
    var dim := a.rows;
    wrapped := false;
    var i := 0;
    while i < dim
      invariant i <= dim
      invariant ProductIs(Value(r), a0, Value(a), dim)
      invariant !wrapped ==> Reduced(Value(a), dim, i)
    {
      var step;
      ghost var w;
      step, w := PivotColumn(a, r, i, a0);
      wrapped := wrapped || w;
      if !step {
        return false, true;
      }
      i := i + 1;
    }
    return true, wrapped;
  }

  /**
   * `inverse_matrix`: Gauss-Jordan elimination on `a` in place, building the
   * result from the identity by the same row operations, then dividing each
   * row by the diagonal of `a`.
   *
   * A non-square input is reported and returned unchanged; a missing pivot or
   * a zero diagonal at the end frees the new buffer and returns `a` itself.
   * On success `result·a0` is `a` with each row divided by its diagonal
   * entry, `a0` being the input; when no pivot search wrapped round, `a` has
   * been made diagonal and the result is the inverse of `a0`.
   */
  method InverseMatrix(heap: Chore.Heap, a: Matrix) returns (result: Matrix, status: Inversion, ghost wrapped: bool)
    requires Shaped(a)
    modifies heap, a.data
    ensures status == NonSquare <==> a.rows != a.cols
    ensures status == NonSquare ==> unchanged(a.data)
    ensures status != Inverted ==> result == a && heap.live == old(heap.live)
    ensures status == Irregular ==> wrapped
    ensures status == Inverted ==> Square(result) && result.rows == a.rows && fresh(result.data) &&
                                   heap.live == old(heap.live) + {result.data}
    ensures status == Inverted ==> forall c :: 0 <= c < a.rows ==> Get(Value(a), c, c) != Zero
    ensures status == Inverted ==>
              forall p, c :: 0 <= p < a.rows && 0 <= c < a.rows ==>
                Dot(Value(result), p, old(Value(a)), c, a.rows) == Div(Get(Value(a), p, c), Get(Value(a), p, p))
    ensures a.rows == a.cols && !wrapped ==> status == Inverted && IsInverse(Value(result), old(Value(a)), a.rows)
  {
    wrapped := false;
    if a.rows != a.cols {
      return a, NonSquare, false;
    }
    var dim := a.rows;
    ghost var a0 := Value(a);
    var r := NewMatrix(heap, dim, dim);
    InitIdentity(r);
    assert Value(a) == a0;
    IdentityProduct(Value(r), a0, dim);
    var reduced;
    reduced, wrapped := Eliminate(a, r, a0);
    if !reduced {
      heap.Free(r.data);
      return a, Irregular, true;
    }
    ghost var r1 := Value(r);
    var ok := DivideRows(a, r);
    if !ok {
      heap.Free(r.data);
      return a, Irregular, wrapped;
    }
    DividedProduct(r1, Value(r), a0, Value(a), dim);
    if !wrapped {
      ReducedGivesInverse(r1, Value(r), a0, Value(a), dim);
    }
    return r, Inverted, wrapped;
  }

  /** A product of length two, written out. */
  lemma DotTwo(a: Grid, i: nat, b: Grid, j: nat)
    requires SquareOf(a, 2) && SquareOf(b, 2) && i < 2 && j < 2
    ensures Dot(a, i, b, j, 2) == Add(Mul(a.cells[2 * i], b.cells[j]), Mul(a.cells[2 * i + 1], b.cells[2 + j]))
  {
    assert Get(a, i, 0) == a.cells[2 * i] && Get(a, i, 1) == a.cells[2 * i + 1];
    assert Get(b, 0, j) == b.cells[j] && Get(b, 1, j) == b.cells[2 + j];
    assert Dot(a, i, b, j, 1) == Add(Zero, Mul(a.cells[2 * i], b.cells[j]));
  }

  /** Multiplying by a real scales both parts. */
  lemma MulByReal(z: Complex, k: real)
    ensures Mul(z, FromReal(k)) == Complex(z.re * k, z.im * k)
  {
  }

  /** The two equations one row of a left inverse of [[1,2],[3,4]] satisfies have one solution. */
  lemma SampleRowSolve(x: Complex, y: Complex, e0: Complex, e1: Complex)
    requires Add(Mul(x, FromReal(1.0)), Mul(y, FromReal(3.0))) == e0
    requires Add(Mul(x, FromReal(2.0)), Mul(y, FromReal(4.0))) == e1
    ensures e0 == One && e1 == Zero ==> x == FromReal(-2.0) && y == FromReal(1.0)
    ensures e0 == Zero && e1 == One ==> x == FromReal(1.5) && y == FromReal(-0.5)
  {
    MulByReal(x, 1.0);
    MulByReal(x, 2.0);
    MulByReal(y, 3.0);
    MulByReal(y, 4.0);
  }

  /** Row p of a left inverse `r` of [[1,2],[3,4]] is row p of [[-2,1],[1.5,-0.5]]. */
  lemma SampleInverseRow(r: Grid, p: nat)
    requires SquareOf(r, 2) && p < 2 && IsInverse(r, Grid(2, 2, [FromReal(1.0), FromReal(2.0), FromReal(3.0), FromReal(4.0)]), 2)
    ensures r.cells[2 * p] == if p == 0 then FromReal(-2.0) else FromReal(1.5)
    ensures r.cells[2 * p + 1] == if p == 0 then FromReal(1.0) else FromReal(-0.5)
  {
    DotTwo(r, p, Grid(2, 2, [FromReal(1.0), FromReal(2.0), FromReal(3.0), FromReal(4.0)]), 0);
    DotTwo(r, p, Grid(2, 2, [FromReal(1.0), FromReal(2.0), FromReal(3.0), FromReal(4.0)]), 1);
    SampleRowSolve(r.cells[2 * p], r.cells[2 * p + 1], Dot(r, p, Grid(2, 2, [FromReal(1.0), FromReal(2.0), FromReal(3.0), FromReal(4.0)]), 0, 2), Dot(r, p, Grid(2, 2, [FromReal(1.0), FromReal(2.0), FromReal(3.0), FromReal(4.0)]), 1, 2));
  }

  /**
   * The inverse of the program's self-test: any `r` with `r·[[1,2],[3,4]]`
   * the identity is [[-2,1],[1.5,-0.5]].
   */
  lemma SampleInverse(r: Grid)
    requires SquareOf(r, 2) && IsInverse(r, Grid(2, 2, [FromReal(1.0), FromReal(2.0), FromReal(3.0), FromReal(4.0)]), 2)
    ensures r.cells == [FromReal(-2.0), FromReal(1.0), FromReal(1.5), FromReal(-0.5)]
  {
    SampleInverseRow(r, 0);
    SampleInverseRow(r, 1);
    assert 2 * 1 == 2 && 2 * 1 + 1 == 3;
  }
}
