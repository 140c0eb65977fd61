/**
 * The dense multiply program (01-OmpFor-MatMul): the unsigned-overflow guard on
 * the matrix size, the decisions taken on the two parsed inputs, the random
 * fill of the operands and the row-major kernel C = A * B over flat buffers.
 *
 * The kernel's float elements are modelled by `int`. Under OpenMP every thread
 * runs the row loop and the columns of each row are shared among the threads,
 * but every cell is computed by the same sequential dot product, which is what
 * is modelled here.
 */
module DenseMultiply {
  import opened CTypes
  import opened Matrices

  /** sizeof(float), the element size the program guards with. */
  const FLOAT_SIZE: nat := 4

  // ---------------------------------------------------------------------------
  // The size guard

  /**
   * The divisions that overflows_uint evaluates along its short-circuit path
   * have nonzero divisors: `UINT_MAX / size` is reached whenever size <= UINT_MAX,
   * and `UINT_MAX / element_size` when the three earlier tests are all false.
   */
  predicate GuardDefined(size: SizeT, elementSize: SizeT): (r: bool)
    ensures r ==> size != 0
    ensures size != 0 && elementSize != 0 ==> r
  {
    size != 0 && (size > UINT_MAX || size > UINT_MAX / size || elementSize > UINT_MAX || elementSize != 0)
  }

  /** The guard as the program writes it, with C's unsigned (flooring) division. */
  function OverflowsUint(size: SizeT, elementSize: SizeT): (r: bool)
    requires GuardDefined(size, elementSize)
    ensures size > UINT_MAX || elementSize > UINT_MAX ==> r
    ensures !r ==> size <= UINT_MAX / size && elementSize <= UINT_MAX
  {
    size > UINT_MAX || size > UINT_MAX / size || elementSize > UINT_MAX || size * size > UINT_MAX / elementSize
  }

  /** For a positive divisor, exceeding the floored quotient is exceeding after multiplying. */
  lemma DivBound(x: nat, y: nat, u: nat)
    requires y > 0
    ensures x > u / y <==> x * y > u
  {
    var q := u / y;
    assert u == q * y + u % y;
    if x > q {
      MulLeRight(q + 1, x, y);
    } else {
      MulLeRight(x, q, y);
    }
  }

  /** overflows_uint says exactly that size * size elements of elementSize bytes exceed UINT_MAX. */
  lemma OverflowsUintIff(size: SizeT, elementSize: SizeT)
    requires size > 0 && elementSize > 0
    ensures GuardDefined(size, elementSize)
    ensures OverflowsUint(size, elementSize) <==> size * size * elementSize > UINT_MAX
  {
    MulLeRight(1, size, size);
    MulLeRight(1, elementSize, size * size);
    MulLeRight(1, size * size, elementSize);
    DivBound(size, size, UINT_MAX);
    DivBound(size * size, elementSize, UINT_MAX);
  }

  /** The product size * size is only evaluated once it is known to fit in size_t. */
  lemma OverflowsUintProductFits(size: SizeT)
    requires size > 0 && size <= UINT_MAX / size
    ensures size * size <= UINT_MAX
  {
    DivBound(size, size, UINT_MAX);
  }

  // ---------------------------------------------------------------------------
  // Input validation

  datatype InputError = Unreadable | TooBig | ZeroSize

  /**
   * What read_input decides once the file has been scanned: the inputs it
   * accepts, the error it reports, or, for the as-written program, that the
   * guard divided by zero (undefined behaviour in C).
   */
  datatype Outcome = Accepted(size: Uint, seed: Uint) | Rejected(error: InputError) | DivisionByZero

  /**
   * read_input as written: sizeCount and seedCount are fscanf's return values,
   * size and seed the values it stored. A size of 0 passes the parse check and
   * reaches `UINT_MAX / size`.
   */
  function ReadInputAsWritten(sizeCount: int, seedCount: int, size: Uint, seed: Uint): (o: Outcome)
    ensures o == DivisionByZero <==> sizeCount == 1 && seedCount == 1 && size == 0
    ensures o.Accepted? ==> o == Accepted(size, seed) && 0 < size && size * size * FLOAT_SIZE <= UINT_MAX
  {
    if sizeCount != 1 || seedCount != 1 then Rejected(Unreadable)
    else if !GuardDefined(size, FLOAT_SIZE) then DivisionByZero
    else if OverflowsUint(size, FLOAT_SIZE) then Rejected(TooBig)
    else OverflowsUintIff(size, FLOAT_SIZE); Accepted(size, seed)
  }

  /** read_input with a zero size rejected before the guard runs, as the reduction program does. */
  function ReadInput(sizeCount: int, seedCount: int, size: Uint, seed: Uint): (o: Outcome)
    ensures o != DivisionByZero
    ensures o.Accepted? <==> sizeCount == 1 && seedCount == 1 && 0 < size && size * size * FLOAT_SIZE <= UINT_MAX
    ensures o.Accepted? ==> o == Accepted(size, seed)
    ensures o == Rejected(Unreadable) <==> sizeCount != 1 || seedCount != 1
    ensures o == Rejected(ZeroSize) <==> sizeCount == 1 && seedCount == 1 && size == 0
  {
    if sizeCount != 1 || seedCount != 1 then Rejected(Unreadable)
    else if size == 0 then Rejected(ZeroSize)
    else
      OverflowsUintIff(size, FLOAT_SIZE);
      if OverflowsUint(size, FLOAT_SIZE) then Rejected(TooBig) else Accepted(size, seed)
  }

  /** The file "0 7" passes the parse check and sends the guard into `UINT_MAX / 0`. */
  lemma ZeroSizeDividesByZero()
    ensures !GuardDefined(0, FLOAT_SIZE)
    ensures ReadInputAsWritten(1, 1, 0, 7) == DivisionByZero
    ensures ReadInput(1, 1, 0, 7) == Rejected(ZeroSize)
  {
  }

  /** The correction changes nothing but the zero-size case. */
  lemma ReadInputAgreesAwayFromZero(sizeCount: int, seedCount: int, size: Uint, seed: Uint)
    requires size != 0
    ensures ReadInput(sizeCount, seedCount, size, seed) == ReadInputAsWritten(sizeCount, seedCount, size, seed)
  {
  }

  // ---------------------------------------------------------------------------
  // The multiply kernel

  /** Element (i, j) of the size-by-size matrix stored row-major in buf; 0 off the matrix. */
  function FlatAt(buf: seq<int>, size: nat, i: int, j: int): int {
    if 0 <= i < size && 0 <= j < size && i * size + j < |buf| then buf[i * size + j] else 0
  }

  /** The first k terms of the kernel's sum for cell (i, j): a[i*size+l] * b[l*size+j] for l < k. */
  function FlatDot(a: seq<int>, b: seq<int>, size: nat, i: int, j: int, k: nat): int {
    if k == 0 then 0 else FlatDot(a, b, size, i, j, k - 1) + FlatAt(a, size, i, k - 1) * FlatAt(b, size, k - 1, j)
  }

  /** The buffer the kernel produces: cell p holds the full sum for row p / size and column p % size. */
  function FlatProduct(a: seq<int>, b: seq<int>, size: nat): (r: seq<int>)
    ensures |r| == size * size
  {
    seq(size * size, (p: int) requires 0 <= p < size * size => FlatDot(a, b, size, p / size, p % size, size))
  }

  /** On a row-major buffer the kernel's sum is the matrix dot product of its views. */
  lemma {:induction false} FlatDotIsDot(a: seq<int>, b: seq<int>, size: nat, i: int, j: int, k: nat)
    requires |a| == size * size && |b| == size * size
    ensures FlatDot(a, b, size, i, j, k) == Dot(AsMatrix(a, size), AsMatrix(b, size), i, j, k)
  {
    if k > 0 {
      FlatDotIsDot(a, b, size, i, j, k - 1);
      var x, y, l := AsMatrix(a, size), AsMatrix(b, size), k - 1;
      if 0 <= i < size && l < size {
        RowMajorBound(size, i, l);
      }
      if l < size && 0 <= j < size {
        RowMajorBound(size, l, j);
      }
      assert FlatAt(a, size, i, l) * FlatAt(b, size, l, j) == At(x, i, l) * At(y, l, j);
    }
  }

  /** Read as a matrix, the kernel's buffer is the matrix product of the operands' views. */
  lemma FlatProductIsMul(a: seq<int>, b: seq<int>, size: nat)
    requires |a| == size * size && |b| == size * size
    ensures AsMatrix(FlatProduct(a, b, size), size) == Mul(AsMatrix(a, size), AsMatrix(b, size), size)
  {
    var x, y, z := AsMatrix(a, size), AsMatrix(b, size), AsMatrix(FlatProduct(a, b, size), size);
    forall i | 0 <= i < size
      ensures z[i] == Mul(x, y, size)[i]
    {
      forall j | 0 <= j < size
        ensures z[i][j] == Mul(x, y, size)[i][j]
      {
        RowMajorBound(size, i, j);
        RowMajorDivMod(size, i, j);
        FlatDotIsDot(a, b, size, i, j, size);
      }
    }
  }

  /**
   * The innermost loop of multiply: the sum of a[i*size+k] * b[k*size+j] over
   * k = 0 .. size-1, accumulated from 0, for cell (i, j).
   */
  method CellSum(size: nat, a: array<int>, b: array<int>, i: nat, j: nat) returns (sum: int)
    requires a.Length == size * size && b.Length == size * size && i < size && j < size
    ensures sum == FlatDot(a[..], b[..], size, i, j, size)
  {
    ghost var A, B := a[..], b[..];
    sum := 0;
    var k := 0;
    while k < size
      invariant 0 <= k <= size
      invariant sum == FlatDot(A, B, size, i, j, k)
    {
      FlatDotStep(A, B, size, i, j, k);
      var x, y := a[i * size + k], b[k * size + j];
      assert x == A[i * size + k] && y == B[k * size + j];
      sum := sum + x * y;
      k := k + 1;
    }
  }

  /** One more term of the kernel's sum: the products the innermost loop reads, both inside the buffers. */
  lemma FlatDotStep(a: seq<int>, b: seq<int>, size: nat, i: nat, j: nat, k: nat)
    requires |a| == size * size && |b| == size * size && i < size && j < size && k < size
    ensures i * size + k < |a| && k * size + j < |b|
    ensures FlatDot(a, b, size, i, j, k + 1) == FlatDot(a, b, size, i, j, k) + a[i * size + k] * b[k * size + j]
  {
    RowMajorBound(size, i, k);
    RowMajorBound(size, k, j);
    assert FlatAt(a, size, i, k) == a[i * size + k];
    assert FlatAt(b, size, k, j) == b[k * size + j];
  }

  /**
   * multiply: every cell of c receives the dot product of a row of a and a
   * column of b, accumulated from 0; a and b are only read.
   */
  method Multiply(size: nat, a: array<int>, b: array<int>, c: array<int>)
    requires a.Length == size * size && b.Length == size * size && c.Length == size * size
    requires c != a && c != b
    modifies c
    ensures c[..] == FlatProduct(a[..], b[..], size)
    ensures AsMatrix(c[..], size) == Mul(AsMatrix(a[..], size), AsMatrix(b[..], size), size)
    ensures a[..] == old(a[..]) && b[..] == old(b[..])
  {
    ghost var A, B := a[..], b[..];
    ghost var P := FlatProduct(A, B, size);
    ghost var done := 0;  // cells written so far, i * size + j
    var i := 0;
    while i < size
      invariant 0 <= i <= size && done == i * size && done <= size * size
      invariant forall p :: 0 <= p < done ==> c[p] == P[p]
    {
      var j := 0;
      while j < size
        invariant 0 <= j <= size && done == i * size + j && done <= size * size
        invariant forall p :: 0 <= p < done ==> c[p] == P[p]
      {
        var sum := CellSum(size, a, b, i, j);
        RowMajorBound(size, i, j);
        RowMajorDivMod(size, i, j);
        c[i * size + j] := sum;
        j := j + 1;
        done := done + 1;
      }
      assert done == (i + 1) * size;
      i := i + 1;
    }
    assert c[..] == P;
    FlatProductIsMul(A, B, size);
  }

  /** The row-major identity buffer: cell p is 1 exactly on the diagonal, where p / size == p % size. */
  function IdentityBuffer(size: nat): (buf: seq<int>)
    ensures |buf| == size * size
  {
    seq(size * size, (p: int) requires 0 <= p < size * size => if p / size == p % size then 1 else 0)
  }

  /** Multiplying by the identity buffer reproduces the left operand. */
  lemma MultiplyByIdentity(a: seq<int>, size: nat)
    requires |a| == size * size
    ensures AsMatrix(IdentityBuffer(size), size) == Identity(size)
    ensures Mul(AsMatrix(a, size), AsMatrix(IdentityBuffer(size), size), size) == AsMatrix(a, size)
  {
    var id := AsMatrix(IdentityBuffer(size), size);
    forall i | 0 <= i < size
      ensures id[i] == Identity(size)[i]
    {
      forall j | 0 <= j < size
        ensures id[i][j] == Identity(size)[i][j]
      {
        RowMajorBound(size, i, j);
        RowMajorDivMod(size, i, j);
      }
    }
    assert id == Identity(size);
    MulIdentityRight(AsMatrix(a, size), size);
  }

  /** Multiplying by the zero buffer gives the zero matrix. */
  lemma MultiplyByZero(a: seq<int>, size: nat)
    requires |a| == size * size
    ensures Mul(AsMatrix(a, size), AsMatrix(seq(size * size, p => 0), size), size) == Zero(size)
  {
    var zero := AsMatrix(seq(size * size, p => 0), size);
    forall i | 0 <= i < size
      ensures zero[i] == Zero(size)[i]
    {
      forall j | 0 <= j < size
        ensures zero[i][j] == 0
      {
        RowMajorBound(size, i, j);
      }
    }
    assert zero == Zero(size);
    MulZeroRight(AsMatrix(a, size), size);
  }

  // ---------------------------------------------------------------------------
  // The random fill

  /** Every element of m lies in [lo, hi]. */
  predicate ElementsIn(m: Matrix, lo: int, hi: int) {
    forall i, j :: 0 <= i < |m| && 0 <= j < |m[i]| ==> lo <= m[i][j] <= hi
  }

  /**
   * initialize_matrices: draws are the successive results of rand() after
   * srand(seed). Walking the cells in row-major order, a takes one draw modulo
   * 10, then b takes the next, and c is cleared.
   */
  method InitializeMatrices(size: nat, a: array<int>, b: array<int>, c: array<int>, draws: seq<int>)
    requires a.Length == size * size && b.Length == size * size && c.Length == size * size
    requires a != b && b != c && a != c
    requires |draws| >= 2 * (size * size)
    requires forall t :: 0 <= t < |draws| ==> draws[t] >= 0
    modifies a, b, c
    ensures forall p :: 0 <= p < size * size ==> a[p] == draws[2 * p] % 10 && b[p] == draws[2 * p + 1] % 10
    ensures c[..] == seq(size * size, p => 0)
    ensures ElementsIn(AsMatrix(a[..], size), 0, 9) && ElementsIn(AsMatrix(b[..], size), 0, 9)
  {
    ghost var done := 0;  // cells filled so far, i * size + j
    var i := 0;
    while i < size
      invariant 0 <= i <= size && done == i * size && done <= size * size
      invariant forall p :: 0 <= p < done ==>
        a[p] == draws[2 * p] % 10 && b[p] == draws[2 * p + 1] % 10 && c[p] == 0
    {
      var j := 0;
      while j < size
        invariant 0 <= j <= size && done == i * size + j && done <= size * size
        invariant forall p :: 0 <= p < done ==>
          a[p] == draws[2 * p] % 10 && b[p] == draws[2 * p + 1] % 10 && c[p] == 0
      {
        RowMajorBound(size, i, j);
        var p := i * size + j;
        a[p] := draws[2 * p] % 10;
        b[p] := draws[2 * p + 1] % 10;
        c[p] := 0;
        j := j + 1;
        done := done + 1;
      }
      assert done == (i + 1) * size;
      i := i + 1;
    }
    ViewInRange(a[..], size, 0, 9);
    ViewInRange(b[..], size, 0, 9);
  }

  /** Bounds on every cell of a row-major buffer carry over to its matrix view. */
  lemma ViewInRange(buf: seq<int>, size: nat, lo: int, hi: int)
    requires |buf| == size * size
    requires forall p :: 0 <= p < |buf| ==> lo <= buf[p] <= hi
    ensures ElementsIn(AsMatrix(buf, size), lo, hi)
  {
    forall r, s | 0 <= r < size && 0 <= s < size
      ensures lo <= AsMatrix(buf, size)[r][s] <= hi
    {
      RowMajorBound(size, r, s);
    }
  }

  /**
   * With operands drawn from [0, 9] every partial sum of the kernel is an
   * integer in [0, 81 * k]; below 2^24 single-precision floats represent all
   * of these exactly, which is where the `int` stand-in agrees with `float`.
   */
  lemma {:induction false} DotBounds(x: Matrix, y: Matrix, i: int, j: int, k: nat)
    requires ElementsIn(x, 0, 9) && ElementsIn(y, 0, 9)
    ensures 0 <= Dot(x, y, i, j, k) <= 81 * k
  {
    if k > 0 {
      DotBounds(x, y, i, j, k - 1);
      var u, v := At(x, i, k - 1), At(y, k - 1, j);
      assert 0 <= u <= 9 && 0 <= v <= 9;
      MulLeRight(u, 9, v);
      assert u * v <= 9 * v <= 81;
    }
  }

  /**
   * Every size read_input accepts keeps those partial sums below 81 * size <= 2^24,
   * so for the program's own inputs the `int` stand-in computes what `float` does.
   */
  lemma AcceptedSizeIsExact(size: nat)
    requires size * size * FLOAT_SIZE <= UINT_MAX
    ensures size <= 32767 && 81 * size <= 0x100_0000
    ensures size * size <= UINT_MAX
  {
    if size >= 32768 {
      MulLeRight(32768, size, 32768);
      MulLeRight(32768, size, size);
    }
    MulLeRight(1, FLOAT_SIZE, size * size);
  }
}
