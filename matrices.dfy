/**
 * The matrix value type shared by both programs: square integer matrices as
 * values, their product as a dot product accumulated from zero, and the laws
 * of that product (associativity, identity, zero, non-commutativity), plus the
 * arithmetic of the row-major layout `element(i, j) = buffer[i * size + j]`.
 */
module Matrices {

  /** A matrix as a sequence of rows; element (i, j) is m[i][j]. */
  type Matrix = seq<seq<int>>

  /** m has exactly n rows of exactly n elements. */
  predicate IsSquare(m: Matrix, n: nat) {
    |m| == n && forall i :: 0 <= i < n ==> |m[i]| == n
  }

  /** Element (i, j) of m; a position outside m reads as 0. */
  function At(m: Matrix, i: int, j: int): int {
    if 0 <= i < |m| && 0 <= j < |m[i]| then m[i][j] else 0
  }

  /** f(0) + f(1) + ... + f(k - 1), accumulated left to right starting from 0. */
  function Sum(f: int -> int, k: nat): int {
    if k == 0 then 0 else Sum(f, k - 1) + f(k - 1)
  }

  /** The first k terms of the dot product of row i of x with column j of y. */
  function Dot(x: Matrix, y: Matrix, i: int, j: int, k: nat): int {
    Sum(l => At(x, i, l) * At(y, l, j), k)
  }

  /** The n-by-n product of x and y: element (i, j) is the full dot product. */
  function Mul(x: Matrix, y: Matrix, n: nat): (r: Matrix)
    ensures IsSquare(r, n)
  {
    seq(n, (i: int) requires 0 <= i < n => seq(n, (j: int) requires 0 <= j < n => Dot(x, y, i, j, n)))
  }

  /** The n-by-n identity matrix. */
  function Identity(n: nat): (r: Matrix)
    ensures IsSquare(r, n)
  {
    seq(n, i => seq(n, j => if i == j then 1 else 0))
  }

  /** The n-by-n zero matrix. */
  function Zero(n: nat): (r: Matrix)
    ensures IsSquare(r, n)
  {
    seq(n, i => seq(n, j => 0))
  }

  // ---------------------------------------------------------------------------
  // Sums

  lemma {:induction false} SumExt(f: int -> int, g: int -> int, k: nat)
    requires forall l :: 0 <= l < k ==> f(l) == g(l)
    ensures Sum(f, k) == Sum(g, k)
  {
    if k > 0 {
      SumExt(f, g, k - 1);
    }
  }

  lemma {:induction false} SumOfZeros(f: int -> int, k: nat)
    requires forall l :: 0 <= l < k ==> f(l) == 0
    ensures Sum(f, k) == 0
  {
    if k > 0 {
      SumOfZeros(f, k - 1);
    }
  }

  /** A sum whose terms vanish everywhere except at j equals its j-th term. */
  lemma {:induction false} SumSingle(f: int -> int, k: nat, j: nat)
    requires j < k
    requires forall l :: 0 <= l < k && l != j ==> f(l) == 0
    ensures Sum(f, k) == f(j)
  {
    if k - 1 == j {
      SumOfZeros(f, k - 1);
    } else {
      SumSingle(f, k - 1, j);
    }
  }

  lemma {:induction false} SumAdd(f: int -> int, g: int -> int, h: int -> int, k: nat)
    requires forall l :: 0 <= l < k ==> h(l) == f(l) + g(l)
    ensures Sum(h, k) == Sum(f, k) + Sum(g, k)
  {
    if k > 0 {
      SumAdd(f, g, h, k - 1);
    }
  }

  /** A common factor on the left of every term moves out of the sum. */
  lemma {:induction false} SumScaleLeft(c: int, f: int -> int, g: int -> int, k: nat)
    requires forall l :: 0 <= l < k ==> g(l) == c * f(l)
    ensures Sum(g, k) == c * Sum(f, k)
  {
    if k > 0 {
      SumScaleLeft(c, f, g, k - 1);
      assert c * Sum(f, k) == c * Sum(f, k - 1) + c * f(k - 1);
    }
  }

  /** A common factor on the right of every term moves out of the sum. */
  lemma {:induction false} SumScaleRight(c: int, f: int -> int, g: int -> int, k: nat)
    requires forall l :: 0 <= l < k ==> g(l) == f(l) * c
    ensures Sum(g, k) == Sum(f, k) * c
  {
    if k > 0 {
      SumScaleRight(c, f, g, k - 1);
      assert Sum(f, k) * c == Sum(f, k - 1) * c + f(k - 1) * c;
    }
  }

  /** The order of summation of a double sum does not matter. */
  lemma {:induction false} SumSwap(g: (int, int) -> int, outer: nat, inner: nat)
    ensures Sum(k => Sum(l => g(k, l), inner), outer) == Sum(l => Sum(k => g(k, l), outer), inner)
  {
    if outer == 0 {
      SumOfZeros(l => Sum(k => g(k, l), outer), inner);
    } else {
      SumSwap(g, outer - 1, inner);
      SumAdd(l => Sum(k => g(k, l), outer - 1), l => g(outer - 1, l), l => Sum(k => g(k, l), outer), inner);
    }
  }

  // ---------------------------------------------------------------------------
  // Laws of the product

  lemma MulAssocAt(x: Matrix, y: Matrix, z: Matrix, n: nat, i: nat, j: nat)
    requires i < n && j < n
    ensures Mul(Mul(x, y, n), z, n)[i][j] == Mul(x, Mul(y, z, n), n)[i][j]
  {
    var xy, yz := Mul(x, y, n), Mul(y, z, n);
    var g := (k: int, l: int) => At(x, i, k) * At(y, k, l) * At(z, l, j);
    forall l | 0 <= l < n
      ensures At(xy, i, l) * At(z, l, j) == Sum(k => g(k, l), n)
    {
      SumScaleRight(At(z, l, j), k => At(x, i, k) * At(y, k, l), k => g(k, l), n);
    }
    SumExt(l => At(xy, i, l) * At(z, l, j), l => Sum(k => g(k, l), n), n);
    forall k | 0 <= k < n
      ensures At(x, i, k) * At(yz, k, j) == Sum(l => g(k, l), n)
    {
      forall l | 0 <= l < n
        ensures g(k, l) == At(x, i, k) * (At(y, k, l) * At(z, l, j))
      {
      }
      SumScaleLeft(At(x, i, k), l => At(y, k, l) * At(z, l, j), l => g(k, l), n);
    }
    SumExt(k => At(x, i, k) * At(yz, k, j), k => Sum(l => g(k, l), n), n);
    SumSwap(g, n, n);
  }

  /** Matrix product is associative, so any grouping of an ordered chain agrees. */
  lemma MulAssoc(x: Matrix, y: Matrix, z: Matrix, n: nat)
    ensures Mul(Mul(x, y, n), z, n) == Mul(x, Mul(y, z, n), n)
  {
    forall i | 0 <= i < n
      ensures Mul(Mul(x, y, n), z, n)[i] == Mul(x, Mul(y, z, n), n)[i]
    {
      forall j | 0 <= j < n
        ensures Mul(Mul(x, y, n), z, n)[i][j] == Mul(x, Mul(y, z, n), n)[i][j]
      {
        MulAssocAt(x, y, z, n, i, j);
      }
    }
  }

  lemma MulIdentityRight(x: Matrix, n: nat)
    requires IsSquare(x, n)
    ensures Mul(x, Identity(n), n) == x
  {
    forall i | 0 <= i < n
      ensures Mul(x, Identity(n), n)[i] == x[i]
    {
      forall j | 0 <= j < n
        ensures Mul(x, Identity(n), n)[i][j] == x[i][j]
      {
        SumSingle(l => At(x, i, l) * At(Identity(n), l, j), n, j);
      }
    }
  }

  lemma MulIdentityLeft(x: Matrix, n: nat)
    requires IsSquare(x, n)
    ensures Mul(Identity(n), x, n) == x
  {
    forall i | 0 <= i < n
      ensures Mul(Identity(n), x, n)[i] == x[i]
    {
      forall j | 0 <= j < n
        ensures Mul(Identity(n), x, n)[i][j] == x[i][j]
      {
        SumSingle(l => At(Identity(n), i, l) * At(x, l, j), n, i);
      }
    }
  }

  lemma MulZeroRight(x: Matrix, n: nat)
    ensures Mul(x, Zero(n), n) == Zero(n)
  {
    forall i | 0 <= i < n
      ensures Mul(x, Zero(n), n)[i] == Zero(n)[i]
    {
      forall j | 0 <= j < n
        ensures Mul(x, Zero(n), n)[i][j] == 0
      {
        SumOfZeros(l => At(x, i, l) * At(Zero(n), l, j), n);
      }
    }
  }

  /** Order matters: two 2-by-2 matrices whose products in the two orders differ. */
  lemma MulNotCommutative()
    ensures Mul([[1, 1], [0, 1]], [[1, 0], [1, 1]], 2) != Mul([[1, 0], [1, 1]], [[1, 1], [0, 1]], 2)
  {
    var x: Matrix, y: Matrix := [[1, 1], [0, 1]], [[1, 0], [1, 1]];
    assert Mul(x, y, 2)[0][0] == Dot(x, y, 0, 0, 2) == 2;
    assert Mul(y, x, 2)[0][0] == Dot(y, x, 0, 0, 2) == 1;
  }

  // ---------------------------------------------------------------------------
  // Row-major layout: element (i, j) of a size-by-size matrix sits at i * size + j

  lemma RowMajorBound(size: nat, i: nat, j: nat)
    requires i < size && j < size
    ensures i * size + j < size * size
  {
    assert (i + 1) * size <= size * size by {
      MulLeRight(i + 1, size, size);
    }
  }

  lemma RowMajorDivMod(size: nat, i: nat, j: nat)
    requires j < size
    ensures (i * size + j) / size == i && (i * size + j) % size == j
  {
    var p := i * size + j;
    var q, r := p / size, p % size;
    assert size * q + r == size * i + j;
    if q > i {
      MulLeRight(i + 1, q, size);
    } else if q < i {
      MulLeRight(q + 1, i, size);
    }
  }

  lemma RowMajorSplit(size: nat, p: nat)
    requires p < size * size
    ensures p / size < size && p == (p / size) * size + p % size
  {
    if p / size >= size {
      MulLeRight(size, p / size, size);
    }
  }

  // ---------------------------------------------------------------------------
  // Row-major buffers: the matrix stored in a flat buffer

  /** The size-by-size matrix stored row-major in buf. */
  function AsMatrix(buf: seq<int>, size: nat): (m: Matrix)
    requires |buf| == size * size
    ensures IsSquare(m, size)
  {
    seq(size, (i: int) requires 0 <= i < size =>
      seq(size, (j: int) requires 0 <= j < size => RowMajorBound(size, i, j); buf[i * size + j]))
  }

  /** A buffer is determined by its matrix view: the view covers every cell. */
  lemma AsMatrixInjective(s: seq<int>, t: seq<int>, size: nat)
    requires |s| == size * size && |t| == size * size
    requires AsMatrix(s, size) == AsMatrix(t, size)
    ensures s == t
  {
    forall p | 0 <= p < size * size
      ensures s[p] == t[p]
    {
      RowMajorSplit(size, p);
      var i, j := p / size, p % size;
      assert AsMatrix(s, size)[i][j] == AsMatrix(t, size)[i][j];
    }
  }

  lemma MulLeRight(a: nat, b: nat, c: nat)
    requires a <= b
    ensures a * c <= b * c
  {
  }
}
