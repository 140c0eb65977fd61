/**
 * The tree-reduction program (04-OmpTask-TreeReduce): n integer matrices, each
 * an array of row pointers, are multiplied in order into one product. Every
 * product is a fresh matrix, and the operands that went into it are freed.
 *
 * Allocation is modelled by a ledger of the blocks that are allocated and not
 * yet freed, so that "every intermediate is released and exactly the result
 * survives" can be stated; the C `int` arithmetic is modelled by unbounded
 * integers.
 */
module TreeReduce {
  import opened CTypes
  import opened Matrices

  /** A matrix as the program holds it: an array of row pointers (matrix_t). */
  type Rows = array<array<int>>

  /**
   * The allocator's ledger: `live` holds the blocks that malloc/calloc have
   * returned and free has not yet released; `products` counts the matrix
   * products computed so far.
   */
  class Heap {
    ghost var live: set<object>
    ghost var products: nat
  }

  /** The blocks that make up m: its row-pointer array and every row. */
  ghost function Blocks(m: Rows): set<object>
    reads m
  {
    {m as object} + (set r | r in m[..])
  }

  /** m is a size-by-size matrix whose rows are distinct blocks of size elements. */
  ghost predicate IsMatrix(m: Rows, size: nat)
    reads m
  {
    && m.Length == size
    && (forall i :: 0 <= i < size ==> m[i].Length == size)
    && (forall i, j :: 0 <= i < j < size ==> m[i] != m[j])
  }

  /** The matrix value that m holds. */
  ghost function Value(m: Rows): (v: Matrix)
    reads m, m[..]
    ensures |v| == m.Length
  {
    seq(m.Length, (i: int) requires 0 <= i < m.Length reads m, m[..] => m[i][..])
  }

  // ---------------------------------------------------------------------------
  // Releasing, multiplying, multiplying and releasing

  /** free_matrix: every row is freed, then the row-pointer array. */
  method FreeMatrix(heap: Heap, m: Rows, size: nat)
    requires IsMatrix(m, size) && Blocks(m) <= heap.live
    modifies heap
    ensures heap.live == old(heap.live) - Blocks(m)
    ensures heap.products == old(heap.products)
  {
    var i := 0;
    while i < size
      invariant 0 <= i <= size
      invariant forall k :: i <= k < size ==> m[k] in heap.live
      invariant heap.live == old(heap.live) - (set r | r in m[..i])
      invariant heap.products == old(heap.products)
    {
      assert m[..i + 1] == m[..i] + [m[i]];
      heap.live := heap.live - {m[i]};  // each row is freed exactly once
      i := i + 1;
    }
    assert m[..size] == m[..];
    heap.live := heap.live - {m};
  }

  /**
   * A fresh size-by-size matrix: a row-pointer array and size rows, zeroed
   * as calloc returns them when `zeroed` holds, of unknown contents as malloc
   * returns them otherwise.
   */
  method AllocMatrix(heap: Heap, size: nat, zeroed: bool) returns (ret: Rows)
    modifies heap
    ensures IsMatrix(ret, size) && fresh(Blocks(ret))
    ensures fresh(ret) && forall i :: 0 <= i < size ==> fresh(ret[i])
    ensures zeroed ==> forall i, j :: 0 <= i < size && 0 <= j < size ==> ret[i][j] == 0
    ensures heap.live == old(heap.live) + Blocks(ret) && Blocks(ret) !! old(heap.live)
    ensures heap.products == old(heap.products)
  {
    var rows: seq<array<int>> := [];
    var i := 0;
    while i < size
      invariant 0 <= i <= size && |rows| == i
      invariant forall r :: 0 <= r < i ==> fresh(rows[r]) && rows[r].Length == size
      invariant zeroed ==> forall r, s :: 0 <= r < i && 0 <= s < size ==> rows[r][s] == 0
      invariant forall r, q :: 0 <= r < q < i ==> rows[r] != rows[q]
      invariant heap.live == old(heap.live) + (set r | r in rows)
      invariant heap.products == old(heap.products)
    {
      var row: array<int>;
      if zeroed {
        row := new int[size](_ => 0);  // calloc(size, sizeof(int))
      } else {
        row := new int[size];  // malloc(size * sizeof(int))
      }
      assert (set r | r in rows + [row]) == (set r | r in rows) + {row};
      heap.live := heap.live + {row};
      rows := rows + [row];
      i := i + 1;
    }
    ret := new array<int>[size](r requires 0 <= r < size => rows[r]);
    heap.live := heap.live + {ret};
    assert ret[..] == rows;
  }

  /**
   * The two inner loops of cmul for row i: cell (i, j) of a zeroed row
   * accumulates a[i][k] * b[k][j] for k = 0 .. size-1.
   */
  method AccumulateRow(a: Rows, b: Rows, row: array<int>, i: nat, size: nat)
    requires IsMatrix(a, size) && IsMatrix(b, size) && i < size
    requires row.Length == size && row !in a[..] && row !in b[..]
    requires forall s :: 0 <= s < size ==> row[s] == 0
    modifies row
    ensures row[..] == Mul(Value(a), Value(b), size)[i]
  {
    ghost var A, B := Value(a), Value(b);
    var j := 0;
    while j < size
      invariant 0 <= j <= size && Value(a) == A && Value(b) == B
      invariant forall s :: 0 <= s < j ==> row[s] == Dot(A, B, i, s, size)
      invariant forall s :: j <= s < size ==> row[s] == 0
    {
      var k := 0;
      while k < size
        invariant 0 <= k <= size && Value(a) == A && Value(b) == B
        invariant row[j] == Dot(A, B, i, j, k)
        invariant forall s :: 0 <= s < j ==> row[s] == Dot(A, B, i, s, size)
        invariant forall s :: j < s < size ==> row[s] == 0
      {
        assert A[i][k] == a[i][k] && B[k][j] == b[k][j];
        row[j] := row[j] + a[i][k] * b[k][j];
        k := k + 1;
      }
      j := j + 1;
    }
  }

  /**
   * cmul: a fresh size-by-size matrix whose rows come zeroed from calloc and
   * whose cell (i, j) then accumulates a[i][k] * b[k][j] for k = 0 .. size-1.
   * The operands are only read.
   */
  method Cmul(heap: Heap, a: Rows, b: Rows, size: nat) returns (ret: Rows)
    requires IsMatrix(a, size) && IsMatrix(b, size)
    requires Blocks(a) <= heap.live && Blocks(b) <= heap.live
    modifies heap
    ensures IsMatrix(ret, size) && fresh(Blocks(ret))
    ensures Value(ret) == Mul(Value(a), Value(b), size)
    ensures heap.live == old(heap.live) + Blocks(ret) && Blocks(ret) !! old(heap.live)
    ensures heap.products == old(heap.products) + 1
  {
    ghost var A, B := Value(a), Value(b);
    ret := AllocMatrix(heap, size, true);
    var i := 0;
    while i < size
      modifies ret[..]
      invariant 0 <= i <= size
      invariant Value(a) == A && Value(b) == B
      invariant forall r :: 0 <= r < i ==> ret[r][..] == Mul(A, B, size)[r]
      invariant forall r, s :: i <= r < size && 0 <= s < size ==> ret[r][s] == 0
    {
      AccumulateRow(a, b, ret[i], i, size);
      i := i + 1;
    }
    forall r | 0 <= r < size
      ensures Value(ret)[r] == Mul(A, B, size)[r]
    {
    }
    heap.products := heap.products + 1;
  }

  /** mul: the product of a and b, after which both operands are freed. */
  method MulAndFree(heap: Heap, a: Rows, b: Rows, size: nat) returns (ret: Rows)
    requires IsMatrix(a, size) && IsMatrix(b, size)
    requires Blocks(a) <= heap.live && Blocks(b) <= heap.live && Blocks(a) !! Blocks(b)
    modifies heap
    ensures IsMatrix(ret, size) && fresh(Blocks(ret))
    ensures Value(ret) == Mul(old(Value(a)), old(Value(b)), size)
    ensures heap.live == old(heap.live) - Blocks(a) - Blocks(b) + Blocks(ret) && Blocks(ret) !! old(heap.live)
    ensures heap.products == old(heap.products) + 1
  {
    ret := Cmul(heap, a, b, size);
    FreeMatrix(heap, a, size);
    FreeMatrix(heap, b, size);
  }

  // ---------------------------------------------------------------------------
  // The ordered chain product

  /** The ordered left fold ((m0 * m1) * m2) * ... of a nonempty chain. */
  function FoldMul(ms: seq<Matrix>, size: nat): Matrix
    requires |ms| >= 1
  {
    if |ms| == 1 then ms[0] else Mul(FoldMul(ms[..|ms| - 1], size), ms[|ms| - 1], size)
  }

  /** The blocks of data[0], ..., data[n - 1]. */
  ghost function BlocksBelow(data: array<Rows>, n: nat): set<object>
    requires n <= data.Length
    reads data, data[..]
  {
    if n == 0 then {} else BlocksBelow(data, n - 1) + Blocks(data[n - 1])
  }

  /** data holds n size-by-size matrices that share no block. */
  ghost predicate IsChain(data: array<Rows>, n: nat, size: nat)
    reads data, data[..]
  {
    && data.Length == n
    && (forall k :: 0 <= k < n ==> IsMatrix(data[k], size))
    && (forall k, l :: 0 <= k < l < n ==> Blocks(data[k]) !! Blocks(data[l]))
  }

  /** The blocks of the matrices before position i share nothing with those from i on. */
  lemma {:induction false} BlocksBelowDisjoint(data: array<Rows>, n: nat, size: nat, i: nat, l: nat)
    requires IsChain(data, n, size) && i <= l < n
    ensures BlocksBelow(data, i) !! Blocks(data[l])
  {
    if i > 0 {
      BlocksBelowDisjoint(data, n, size, i - 1, l);
    }
  }

  /**
   * array_mul: the left fold of data[0..n) by mul. With one matrix the result
   * is data[0] itself; otherwise it is fresh. Every input and every
   * intermediate product is freed, the array data too, and only the blocks
   * of the result stay allocated; exactly n - 1 products are computed.
   */
  method ArrayMul(heap: Heap, n: Uint, data: array<Rows>, size: Uint, ghost ms: seq<Matrix>) returns (ret: Rows)
    requires n >= 1 && IsChain(data, n, size)
    requires |ms| == n && forall k :: 0 <= k < n ==> Value(data[k]) == ms[k]
    requires data in heap.live && forall k :: 0 <= k < n ==> Blocks(data[k]) <= heap.live
    modifies heap
    ensures IsMatrix(ret, size)
    ensures Value(ret) == FoldMul(ms, size)
    ensures n == 1 ==> ret == data[0]
    ensures n > 1 ==> fresh(Blocks(ret))
    ensures heap.live == old(heap.live) - BlocksBelow(data, n) + Blocks(ret) - {data}
    ensures heap.products == old(heap.products) + n - 1
  {
    ghost var live0 := heap.live;
    ret := data[0];
    assert BlocksBelow(data, 1) == Blocks(data[0]);
    var i := 1;
    while i < n
      invariant 1 <= i <= n
      invariant forall k :: 0 <= k < n ==> Value(data[k]) == ms[k]
      invariant IsMatrix(ret, size) && Value(ret) == FoldMul(ms[..i], size)
      invariant i == 1 ==> ret == data[0]
      invariant i > 1 ==> fresh(Blocks(ret))
      invariant Blocks(ret) !! live0 - BlocksBelow(data, i)
      invariant heap.live == live0 - BlocksBelow(data, i) + Blocks(ret)
      invariant heap.products == old(heap.products) + i - 1
    {
      ret := FoldStep(heap, data, size, i, ret, live0, ms);
      i := i + 1;
    }
    assert ms[..n] == ms;
    heap.live := heap.live - {data};
  }

  /**
   * One pass of array_mul's loop body, ret = mul(ret, data[i]): the running
   * product of data[0..i) and data[i] are freed and their product, the
   * running product of data[0..i + 1), is allocated.
   */
  method FoldStep(heap: Heap, data: array<Rows>, size: nat, i: nat, acc: Rows,
                  ghost live0: set<object>, ghost ms: seq<Matrix>) returns (ret: Rows)
    requires 1 <= i < data.Length && IsChain(data, data.Length, size) && |ms| == data.Length
    requires forall k :: 0 <= k < data.Length ==> Blocks(data[k]) <= live0
    requires forall k :: 0 <= k < data.Length ==> Value(data[k]) == ms[k]
    requires IsMatrix(acc, size) && Value(acc) == FoldMul(ms[..i], size)
    requires Blocks(acc) !! live0 - BlocksBelow(data, i)
    requires heap.live == live0 - BlocksBelow(data, i) + Blocks(acc)
    modifies heap
    ensures forall k :: 0 <= k < data.Length ==> Value(data[k]) == ms[k]
    ensures IsMatrix(ret, size) && Value(ret) == FoldMul(ms[..i + 1], size)
    ensures fresh(Blocks(ret))
    ensures Blocks(ret) !! live0 - BlocksBelow(data, i + 1)
    ensures heap.live == live0 - BlocksBelow(data, i + 1) + Blocks(ret)
    ensures heap.products == old(heap.products) + 1
  {
    assert ms[..i + 1][..i] == ms[..i];
    BlocksBelowDisjoint(data, data.Length, size, i, i);
    ghost var below, next, live := BlocksBelow(data, i), Blocks(data[i]), heap.live;
    LedgerBefore(live0, below, next, Blocks(acc), live);
    ret := MulAndFree(heap, acc, data[i], size);
    LedgerAfter(live0, below, next, Blocks(acc), Blocks(ret), live);
  }

  /**
   * One step of array_mul on the ledger: with the live blocks being those of
   * the untouched inputs plus the running product `acc`, freeing `acc` and
   * the next input `next` and adding the fresh product `prod` leaves the
   * untouched inputs plus `prod`.
   */
  lemma LedgerAfter(live0: set<object>, below: set<object>, next: set<object>, acc: set<object>, prod: set<object>, live: set<object>)
    requires live == live0 - below + acc && acc !! live0 - below && prod !! live
    ensures live - acc - next + prod == live0 - (below + next) + prod
    ensures prod !! live0 - (below + next)
  {
  }

  /** Before that step, the running product and the next input are both live and share no block. */
  lemma LedgerBefore(live0: set<object>, below: set<object>, next: set<object>, acc: set<object>, live: set<object>)
    requires next <= live0 && next !! below && acc !! live0 - below && live == live0 - below + acc
    ensures acc <= live && next <= live && acc !! next
  {
  }

  // ---------------------------------------------------------------------------
  // An order-preserving tree reduction of the chain, the kind of reduction a
  // parallel array_mul would perform (the program's directory is TreeReduce)

  /** The ordered product of a nonempty chain, split recursively at the midpoint. */
  function TreeMul(ms: seq<Matrix>, size: nat): Matrix
    requires |ms| >= 1
    decreases |ms|
  {
    if |ms| == 1 then ms[0]
    else
      var mid := |ms| / 2;
      Mul(TreeMul(ms[..mid], size), TreeMul(ms[mid..], size), size)
  }

  /** Folding a concatenation is the product of the two folds: any split point gives the same product. */
  lemma {:induction false} FoldMulSplit(xs: seq<Matrix>, ys: seq<Matrix>, size: nat)
    requires |xs| >= 1 && |ys| >= 1
    ensures FoldMul(xs + ys, size) == Mul(FoldMul(xs, size), FoldMul(ys, size), size)
    decreases |ys|
  {
    var zs := xs + ys;
    if |ys| == 1 {
      assert zs[..|zs| - 1] == xs;
    } else {
      var front := ys[..|ys| - 1];
      assert zs[..|zs| - 1] == xs + front;
      FoldMulSplit(xs, front, size);
      MulAssoc(FoldMul(xs, size), FoldMul(front, size), ys[|ys| - 1], size);
    }
  }

  /** The midpoint tree computes exactly the sequential left fold. */
  lemma {:induction false} TreeMulIsFoldMul(ms: seq<Matrix>, size: nat)
    requires |ms| >= 1
    ensures TreeMul(ms, size) == FoldMul(ms, size)
    decreases |ms|
  {
    if |ms| > 1 {
      var mid := |ms| / 2;
      TreeMulIsFoldMul(ms[..mid], size);
      TreeMulIsFoldMul(ms[mid..], size);
      assert ms[..mid] + ms[mid..] == ms;
      FoldMulSplit(ms[..mid], ms[mid..], size);
    }
  }

  /** The product of two 1-by-1 matrices is the product of their entries. */
  lemma MulOneByOne(p: int, q: int)
    ensures Mul([[p]], [[q]], 1) == [[p * q]]
  {
    assert Dot([[p]], [[q]], 0, 0, 1) == p * q;
    assert Mul([[p]], [[q]], 1)[0] == [p * q];
  }

  /** Four 1-by-1 matrices 2, 3, 4, 5 multiply to 120. */
  lemma FoldMulExample()
    ensures FoldMul([[[2]], [[3]], [[4]], [[5]]], 1) == [[120]]
  {
    var ms: seq<Matrix> := [[[2]], [[3]], [[4]], [[5]]];
    assert ms[..3] == [[[2]], [[3]], [[4]]];
    assert ms[..3][..2] == [[[2]], [[3]]];
    assert ms[..3][..2][..1] == [[[2]]];
    MulOneByOne(2, 3);
    assert FoldMul(ms[..3][..2], 1) == [[6]];
    MulOneByOne(6, 4);
    assert FoldMul(ms[..3], 1) == [[24]];
    MulOneByOne(24, 5);
  }

  // ---------------------------------------------------------------------------
  // Generating the inputs

  /** The element rnd_matrix makes from one rand() result. */
  function SignOf(r: nat): (e: int)
    ensures e == -1 || e == 1
    ensures e == 1 <==> r % 2 == 1
  {
    2 * (r % 2) - 1
  }

  /**
   * rnd_matrix: a fresh size-by-size matrix filled in row-major order from
   * the successive rand() results in draws; every element is -1 or 1.
   */
  method RndMatrix(heap: Heap, size: nat, draws: seq<nat>) returns (ret: Rows)
    requires |draws| >= size * size
    modifies heap
    ensures IsMatrix(ret, size) && fresh(Blocks(ret))
    ensures Value(ret) == AsMatrix(Signs(draws[..size * size]), size)
    ensures forall i, j :: 0 <= i < size && 0 <= j < size ==> ret[i][j] == -1 || ret[i][j] == 1
    ensures heap.live == old(heap.live) + Blocks(ret) && Blocks(ret) !! old(heap.live)
    ensures heap.products == old(heap.products)
  {
    ret := AllocMatrix(heap, size, false);
    ghost var M := AsMatrix(Signs(draws[..size * size]), size);
    var t := 0;  // rand() results consumed so far
    var i := 0;
    while i < size
      modifies ret[..]
      invariant 0 <= i <= size && t == i * size
      invariant forall r :: 0 <= r < i ==> ret[r][..] == M[r]
    {
      SignsRow(draws, size, i);
      t := FillRow(ret[i], size, draws, t);
      assert ret[i][..] == M[i];
      i := i + 1;
    }
    forall r | 0 <= r < size
      ensures Value(ret)[r] == M[r]
    {
    }
    SignsViewIsSigns(draws, size);
  }

  /** The inner loop of rnd_matrix: row[s] takes the sign of the (t0 + s)-th rand() result. */
  method FillRow(row: array<int>, size: nat, draws: seq<nat>, t0: nat) returns (t: nat)
    requires row.Length == size && t0 + size <= |draws|
    modifies row
    ensures t == t0 + size
    ensures forall s :: 0 <= s < size ==> row[s] == SignOf(draws[t0 + s])
  {
    t := t0;
    var j := 0;
    while j < size
      invariant 0 <= j <= size && t == t0 + j
      invariant forall s :: 0 <= s < j ==> row[s] == SignOf(draws[t0 + s])
    {
      row[j] := SignOf(draws[t]);
      t := t + 1;
      j := j + 1;
    }
  }

  /** Row i of the sign matrix holds the signs of rand() results i * size .. i * size + size - 1. */
  lemma SignsRow(draws: seq<nat>, size: nat, i: nat)
    requires |draws| >= size * size && i < size
    ensures i * size + size == (i + 1) * size <= size * size
    ensures forall s :: 0 <= s < size ==>
      AsMatrix(Signs(draws[..size * size]), size)[i][s] == SignOf(draws[i * size + s])
  {
    MulLeRight(i + 1, size, size);
    forall s | 0 <= s < size
      ensures AsMatrix(Signs(draws[..size * size]), size)[i][s] == SignOf(draws[i * size + s])
    {
      RowMajorBound(size, i, s);
    }
  }

  /** Every element of the sign matrix is -1 or 1. */
  lemma SignsViewIsSigns(draws: seq<nat>, size: nat)
    requires |draws| >= size * size
    ensures forall i, j :: 0 <= i < size && 0 <= j < size ==>
      AsMatrix(Signs(draws[..size * size]), size)[i][j] == -1 || AsMatrix(Signs(draws[..size * size]), size)[i][j] == 1
  {
    forall i, j | 0 <= i < size && 0 <= j < size
      ensures AsMatrix(Signs(draws[..size * size]), size)[i][j] == -1 || AsMatrix(Signs(draws[..size * size]), size)[i][j] == 1
    {
      RowMajorBound(size, i, j);
    }
  }

  /** The elements rnd_matrix makes from a sequence of rand() results. */
  function Signs(draws: seq<nat>): (es: seq<int>)
    ensures |es| == |draws|
    ensures forall t :: 0 <= t < |es| ==> es[t] == -1 || es[t] == 1
  {
    seq(|draws|, t requires 0 <= t < |draws| => SignOf(draws[t]))
  }

  // ---------------------------------------------------------------------------
  // Input validation

  datatype InputError = Unreadable | ZeroSized

  /** What read_input decides once the file has been scanned. */
  datatype Outcome = Accepted(n: Uint, size: Uint) | Rejected(error: InputError)

  /**
   * read_input, given fscanf's return value and the two values it stored:
   * both values must have been read and neither may be zero.
   */
  function ReadInput(scanCount: int, n: Uint, size: Uint): (o: Outcome)
    ensures o.Accepted? <==> scanCount == 2 && n > 0 && size > 0
    ensures o.Accepted? ==> o.n == n && o.size == size
    ensures o == Rejected(Unreadable) <==> scanCount != 2
  {
    if scanCount != 2 then Rejected(Unreadable)
    else if n == 0 || size == 0 then Rejected(ZeroSized)
    else Accepted(n, size)
  }
}
