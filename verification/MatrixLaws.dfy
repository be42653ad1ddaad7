/** Laws of the kernels in src/simd.rs that need arithmetic laws of the
    elements: they hold over the reals and, as contracts/matmul-v1.yaml says,
    only up to rounding for f32. */
module MatrixLaws {
  import opened Matrix

  function Add(x: real, y: real): real { x + y }

  function Mul(x: real, y: real): real { x * y }

  const REALS: Ops<real> := Ops(0.0, Add, Mul)

  /** sum over p < q of a[i,p] * (b[p,l] * z). */
  function Scaled(a: seq<real>, b: seq<real>, m: nat, k: nat, n: nat, i: nat, l: nat, z: real, q: nat): real
    requires |a| == m * k && |b| == k * n && i < m && l < n && q <= k
  {
    if q == 0 then 0.0
    else Scaled(a, b, m, k, n, i, l, z, q - 1) + Mul(Cell(a, m, k, i, q - 1), Mul(Cell(b, k, n, q - 1, l), z))
  }

  lemma MulSum(x: real, y: real, z: real)
    ensures Mul(x + y, z) == Mul(x, z) + Mul(y, z) && Mul(z, x + y) == Mul(z, x) + Mul(z, y)
  {
  }

  lemma MulMul(x: real, y: real, z: real)
    ensures Mul(Mul(x, y), z) == Mul(x, Mul(y, z))
  {
  }

  /** A factor moves into a dot product. */
  lemma {:induction false} ScaleDot(a: seq<real>, b: seq<real>, m: nat, k: nat, n: nat, i: nat, l: nat, z: real, q: nat)
    requires |a| == m * k && |b| == k * n && i < m && l < n && q <= k
    ensures Mul(Dot(REALS, a, b, m, k, n, i, l, q), z) == Scaled(a, b, m, k, n, i, l, z, q)
  {
    if q == 0 {
    } else {
      ScaleDot(a, b, m, k, n, i, l, z, q - 1);
      var x, y := Cell(a, m, k, i, q - 1), Cell(b, k, n, q - 1, l);
      MulSum(Dot(REALS, a, b, m, k, n, i, l, q - 1), Mul(x, y), z);
      MulMul(x, y, z);
    }
  }

  /** sum over p < q of a[i,p] * (the first r products of row p of b and column j of c). */
  function Nested(a: seq<real>, b: seq<real>, c: seq<real>, m: nat, k: nat, n: nat, w: nat,
                  i: nat, j: nat, q: nat, r: nat): real
    requires |a| == m * k && |b| == k * n && |c| == n * w && i < m && j < w && q <= k && r <= n
  {
    if q == 0 then 0.0
    else
      Nested(a, b, c, m, k, n, w, i, j, q - 1, r)
      + Mul(Cell(a, m, k, i, q - 1), Dot(REALS, b, c, k, n, w, q - 1, j, r))
  }

  lemma {:induction false} NestedZero(a: seq<real>, b: seq<real>, c: seq<real>, m: nat, k: nat, n: nat, w: nat,
                                      i: nat, j: nat, q: nat)
    requires |a| == m * k && |b| == k * n && |c| == n * w && i < m && j < w && q <= k
    ensures Nested(a, b, c, m, k, n, w, i, j, q, 0) == 0.0
  {
    if q == 0 {
    } else {
      NestedZero(a, b, c, m, k, n, w, i, j, q - 1);
    }
  }

  /** One more product in every inner sum. */
  lemma {:induction false} NestedStep(a: seq<real>, b: seq<real>, c: seq<real>, m: nat, k: nat, n: nat, w: nat,
                                      i: nat, j: nat, q: nat, r: nat)
    requires |a| == m * k && |b| == k * n && |c| == n * w && i < m && j < w && q <= k && r < n
    ensures Nested(a, b, c, m, k, n, w, i, j, q, r + 1)
            == Nested(a, b, c, m, k, n, w, i, j, q, r) + Scaled(a, b, m, k, n, i, r, Cell(c, n, w, r, j), q)
  {
    if q == 0 {
    } else {
      NestedStep(a, b, c, m, k, n, w, i, j, q - 1, r);
      var x, z := Cell(a, m, k, i, q - 1), Cell(c, n, w, r, j);
      var d, y := Dot(REALS, b, c, k, n, w, q - 1, j, r), Cell(b, k, n, q - 1, r);
      assert Dot(REALS, b, c, k, n, w, q - 1, j, r + 1) == d + Mul(y, z);
      MulSum(d, Mul(y, z), x);
    }
  }

  lemma DotSnoc(a: seq<real>, b: seq<real>, m: nat, k: nat, n: nat, i: nat, j: nat, q: nat)
    requires |a| == m * k && |b| == k * n && i < m && j < n && q < k
    ensures Dot(REALS, a, b, m, k, n, i, j, q + 1)
            == Dot(REALS, a, b, m, k, n, i, j, q) + Mul(Cell(a, m, k, i, q), Cell(b, k, n, q, j))
  {
  }

  /** Row i of AB times column j of C, up to r, is the nested sum. */
  lemma {:induction false} DotOfProduct(a: seq<real>, b: seq<real>, c: seq<real>, ab: seq<real>,
                                        m: nat, k: nat, n: nat, w: nat, i: nat, j: nat, r: nat)
    requires IsProduct(REALS, a, b, ab, m, k, n) && |c| == n * w && i < m && j < w && r <= n
    ensures Dot(REALS, ab, c, m, n, w, i, j, r) == Nested(a, b, c, m, k, n, w, i, j, k, r)
  {
    if r == 0 {
      NestedZero(a, b, c, m, k, n, w, i, j, k);
    } else {
      var x, z := Cell(ab, m, n, i, r - 1), Cell(c, n, w, r - 1, j);
      DotOfProduct(a, b, c, ab, m, k, n, w, i, j, r - 1);
      NestedStep(a, b, c, m, k, n, w, i, j, k, r - 1);
      DotSnoc(ab, c, m, n, w, i, j, r - 1);
      assert Mul(x, z) == Scaled(a, b, m, k, n, i, r - 1, z, k) by {
        ScaleDot(a, b, m, k, n, i, r - 1, z, k);
      }
    }
  }

  /** Row i of A times column j of BC, up to q, is the nested sum. */
  lemma {:induction false} DotWithProduct(a: seq<real>, b: seq<real>, c: seq<real>, bc: seq<real>,
                                          m: nat, k: nat, n: nat, w: nat, i: nat, j: nat, q: nat)
    requires IsProduct(REALS, b, c, bc, k, n, w) && |a| == m * k && i < m && j < w && q <= k
    ensures Dot(REALS, a, bc, m, k, w, i, j, q) == Nested(a, b, c, m, k, n, w, i, j, q, n)
  {
    if q == 0 {
    } else {
      DotWithProduct(a, b, c, bc, m, k, n, w, i, j, q - 1);
      assert Cell(bc, k, w, q - 1, j) == Dot(REALS, b, c, k, n, w, q - 1, j, n);
    }
  }

  /** Over the reals matrix multiplication is associative. */
  lemma ProductAssociative(a: seq<real>, b: seq<real>, c: seq<real>, ab: seq<real>, bc: seq<real>,
                           left: seq<real>, right: seq<real>, m: nat, k: nat, n: nat, w: nat)
    requires IsProduct(REALS, a, b, ab, m, k, n) && IsProduct(REALS, b, c, bc, k, n, w)
    requires IsProduct(REALS, ab, c, left, m, n, w) && IsProduct(REALS, a, bc, right, m, k, w)
    ensures left == right
  {
    forall i, j | 0 <= i < m && 0 <= j < w
      ensures Cell(left, m, w, i, j) == Cell(right, m, w, i, j)
    {
      DotOfProduct(a, b, c, ab, m, k, n, w, i, j, n);
      DotWithProduct(a, b, c, bc, m, k, n, w, i, j, k);
    }
    SameCells(left, right, m, w);
  }

  // ------------------------------------------------------------ AVX2 dot product

  const LANES: nat := 8

  /** dot_f32_scalar over the reals. */
  function DotReal(a: seq<real>, b: seq<real>, n: nat): real
    requires n <= |a| == |b|
  {
    if n == 0 then 0.0 else DotReal(a, b, n - 1) + a[n - 1] * b[n - 1]
  }

  /** The dot product is the one cell of a row times a column. */
  lemma {:induction false} DotIsProduct(a: seq<real>, b: seq<real>, n: nat)
    requires n <= |a| == |b|
    ensures |a| == 1 * |a| && |b| == |b| * 1
    ensures DotReal(a, b, n) == Dot(REALS, a, b, 1, |a|, 1, 0, 0, n)
  {
    if n == 0 {
    } else {
      DotIsProduct(a, b, n - 1);
      assert Cell(a, 1, |a|, 0, n - 1) == a[n - 1] && Cell(b, |a|, 1, n - 1, 0) == b[n - 1];
    }
  }

  /** The horizontal sum: halves, then quarters, then the last two lanes. */
  function Horizontal(v: seq<real>): real
    requires |v| == LANES
  {
    ((v[0] + v[4]) + (v[2] + v[6])) + ((v[1] + v[5]) + (v[3] + v[7]))
  }

  lemma DotNext(a: seq<real>, b: seq<real>, n: nat)
    requires n < |a| == |b|
    ensures DotReal(a, b, n + 1) == DotReal(a, b, n) + a[n] * b[n]
  {
  }

  lemma EightMore(a: seq<real>, b: seq<real>, n: nat)
    requires n + LANES <= |a| == |b|
    ensures DotReal(a, b, n + LANES) == DotReal(a, b, n)
      + a[n] * b[n] + a[n + 1] * b[n + 1] + a[n + 2] * b[n + 2] + a[n + 3] * b[n + 3]
      + a[n + 4] * b[n + 4] + a[n + 5] * b[n + 5] + a[n + 6] * b[n + 6] + a[n + 7] * b[n + 7]
  {
    DotNext(a, b, n);
    DotNext(a, b, n + 1);
    DotNext(a, b, n + 2);
    DotNext(a, b, n + 3);
    DotNext(a, b, n + 4);
    DotNext(a, b, n + 5);
    DotNext(a, b, n + 6);
    DotNext(a, b, n + 7);
  }

  /** One vector step: eight products, each into its own lane. */
  function AddLanes(v: seq<real>, a: seq<real>, b: seq<real>, n: nat): (r: seq<real>)
    requires |v| == LANES && n + LANES <= |a| == |b|
    ensures |r| == LANES
  {
    [v[0] + a[n] * b[n], v[1] + a[n + 1] * b[n + 1], v[2] + a[n + 2] * b[n + 2], v[3] + a[n + 3] * b[n + 3],
     v[4] + a[n + 4] * b[n + 4], v[5] + a[n + 5] * b[n + 5], v[6] + a[n + 6] * b[n + 6], v[7] + a[n + 7] * b[n + 7]]
  }

  lemma HorizontalAdds(v: seq<real>, a: seq<real>, b: seq<real>, n: nat)
    requires |v| == LANES && n + LANES <= |a| == |b|
    ensures Horizontal(AddLanes(v, a, b, n)) == Horizontal(v)
      + a[n] * b[n] + a[n + 1] * b[n + 1] + a[n + 2] * b[n + 2] + a[n + 3] * b[n + 3]
      + a[n + 4] * b[n + 4] + a[n + 5] * b[n + 5] + a[n + 6] * b[n + 6] + a[n + 7] * b[n + 7]
  {
  }

  /** If the lanes add up to the first n products, they do after a vector step to the first n + 8. */
  lemma LanesStep(v: seq<real>, a: seq<real>, b: seq<real>, n: nat)
    requires |v| == LANES && n + LANES <= |a| == |b| && Horizontal(v) == DotReal(a, b, n)
    ensures Horizontal(AddLanes(v, a, b, n)) == DotReal(a, b, n + LANES)
  {
    HorizontalAdds(v, a, b, n);
    EightMore(a, b, n);
  }

  /** The scalar remainder. */
  method AddRest(a: seq<real>, b: seq<real>, start: nat, sum: real) returns (r: real)
    requires start <= |a| == |b| && sum == DotReal(a, b, start)
    ensures r == DotReal(a, b, |a|)
  {
    r := sum;
    for i := start to |a|
      invariant r == DotReal(a, b, i)
    {
      DotNext(a, b, i);
      r := r + a[i] * b[i];
    }
  }

  /** dot_f32_avx2: eight running sums, a horizontal sum and a scalar remainder give
      the scalar result over the reals. */
  method DotAvx2(a: seq<real>, b: seq<real>) returns (r: real)
    requires |a| == |b|
    ensures r == DotReal(a, b, |a|)
  {
    var sum: seq<real> := [0.0, 0.0, 0.0, 0.0, 0.0, 0.0, 0.0, 0.0];
    var chunks := |a| / LANES;
    for i := 0 to chunks
      invariant |sum| == LANES && Horizontal(sum) == DotReal(a, b, i * LANES)
    {
      LanesStep(sum, a, b, i * LANES);
      sum := AddLanes(sum, a, b, i * LANES);
    }
    r := AddRest(a, b, chunks * LANES, Horizontal(sum));
  }
}
