/** The tiled matrix kernels of src/simd.rs, for any element type with an
    addition and a multiplication about which nothing is assumed.  Whatever is
    proved here without extra hypotheses holds of f32 with its rounding. */
module Matrix {
  import opened Prelude
  import Arith

  datatype Ops<!T> = Ops(zero: T, add: (T, T) -> T, mul: (T, T) -> T)

  const TILE_SIZE: nat := 32

  // ---------------------------------------------------------------- indexing

  lemma IndexInRange(i: nat, j: nat, rows: nat, cols: nat)
    requires i < rows && j < cols
    ensures i * cols + j < rows * cols
  {
    Arith.MulMono(i + 1, rows, cols);
    assert (i + 1) * cols == i * cols + cols;
  }

  /** Distinct cells have distinct positions in the flat array. */
  lemma IndexInjective(i: nat, j: nat, i': nat, j': nat, cols: nat)
    requires j < cols && j' < cols && i * cols + j == i' * cols + j'
    ensures i == i' && j == j'
  {
    Arith.DivModUnique(i * cols + j, cols, i, j);
    Arith.DivModUnique(i * cols + j, cols, i', j');
  }

  function Cell<T>(s: seq<T>, rows: nat, cols: nat, i: nat, j: nat): T
    requires |s| == rows * cols && i < rows && j < cols
  {
    IndexInRange(i, j, rows, cols);
    s[i * cols + j]
  }

  lemma CellUpdate<T>(s: seq<T>, rows: nat, cols: nat, i: nat, j: nat, x: T, i': nat, j': nat)
    requires |s| == rows * cols && i < rows && j < cols && i' < rows && j' < cols
    requires i * cols + j < |s|
    ensures Cell(s[i * cols + j := x], rows, cols, i', j') ==
            if i' == i && j' == j then x else Cell(s, rows, cols, i', j')
  {
    IndexInRange(i', j', rows, cols);
    if i' * cols + j' == i * cols + j {
      IndexInjective(i', j', i, j, cols);
    }
  }

  /** Matrices with equal cells are equal. */
  lemma SameCells<T>(s: seq<T>, s': seq<T>, rows: nat, cols: nat)
    requires |s| == rows * cols && |s'| == rows * cols
    requires forall i, j :: 0 <= i < rows && 0 <= j < cols ==> Cell(s, rows, cols, i, j) == Cell(s', rows, cols, i, j)
    ensures s == s'
  {
    forall p | 0 <= p < |s|
      ensures s[p] == s'[p]
    {
      assert cols > 0;
      var i, j := p / cols, p % cols;
      assert p == i * cols + j;
      if i >= rows {
        Arith.MulMono(rows, i, cols);
      }
      assert Cell(s, rows, cols, i, j) == Cell(s', rows, cols, i, j);
    }
  }

  // ----------------------------------------------------------------- product

  /** The left fold of the first `q` products of row `i` and column `j`. */
  function Dot<T>(o: Ops<T>, a: seq<T>, b: seq<T>, m: nat, k: nat, n: nat, i: nat, j: nat, q: nat): T
    requires |a| == m * k && |b| == k * n && i < m && j < n && q <= k
  {
    if q == 0 then o.zero
    else o.add(Dot(o, a, b, m, k, n, i, j, q - 1), o.mul(Cell(a, m, k, i, q - 1), Cell(b, k, n, q - 1, j)))
  }

  ghost predicate IsProduct<T>(o: Ops<T>, a: seq<T>, b: seq<T>, c: seq<T>, m: nat, k: nat, n: nat) {
    && |a| == m * k && |b| == k * n && |c| == m * n
    && forall i, j :: 0 <= i < m && 0 <= j < n ==> Cell(c, m, n, i, j) == Dot(o, a, b, m, k, n, i, j, k)
  }

  /** Where the six loops stand: block rows i0..iEnd and columns j0..jEnd, depth
      k0..kEnd, and inside the tile row i, product kk, column j. */
  datatype Pos = Pos(i0: nat, iEnd: nat, j0: nat, jEnd: nat, k0: nat, kEnd: nat, i: nat, kk: nat, j: nat)

  /** How many products cell (x, y) has accumulated at position `p`. */
  function Done(p: Pos, k: nat, x: nat, y: nat): nat {
    if x < p.i0 then k
    else if x >= p.iEnd then 0
    else if y < p.j0 then k
    else if y >= p.jEnd then 0
    else if x < p.i then p.kEnd
    else if x > p.i then p.k0
    else if y < p.j then p.kk + 1
    else p.kk
  }

  /** Cell (x, y) holds the fold of its first Done(p, k, x, y) products. */
  ghost predicate Accumulated<T>(o: Ops<T>, a: seq<T>, b: seq<T>, c: seq<T>, m: nat, k: nat, n: nat, p: Pos) {
    && |a| == m * k && |b| == k * n && |c| == m * n
    && forall x: nat, y: nat :: x < m && y < n ==>
         Done(p, k, x, y) <= k && Cell(c, m, n, x, y) == Dot(o, a, b, m, k, n, x, y, Done(p, k, x, y))
  }

  /** Two positions that have accumulated the same. */
  lemma SameProgress<T>(o: Ops<T>, a: seq<T>, b: seq<T>, c: seq<T>, m: nat, k: nat, n: nat, p: Pos, p': Pos)
    requires Accumulated(o, a, b, c, m, k, n, p)
    requires forall x: nat, y: nat :: x < m && y < n ==> Done(p', k, x, y) == Done(p, k, x, y)
    ensures Accumulated(o, a, b, c, m, k, n, p')
  {
  }

  predicate InTile(p: Pos, m: nat, k: nat, n: nat) {
    p.i0 <= p.iEnd <= m && p.j0 <= p.jEnd <= n && p.k0 <= p.kEnd <= k
  }

  lemma AccumulateOne<T>(o: Ops<T>, a: seq<T>, b: seq<T>, c: seq<T>, m: nat, k: nat, n: nat, p: Pos, c': seq<T>)
    requires Accumulated(o, a, b, c, m, k, n, p) && InTile(p, m, k, n)
    requires p.i0 <= p.i < p.iEnd && p.j0 <= p.j < p.jEnd && p.kk < k && p.i * n + p.j < |c|
    requires c' == c[p.i * n + p.j := o.add(Cell(c, m, n, p.i, p.j),
                                            o.mul(Cell(a, m, k, p.i, p.kk), Cell(b, k, n, p.kk, p.j)))]
    ensures Accumulated(o, a, b, c', m, k, n, p.(j := p.j + 1))
  {
    var p' := p.(j := p.j + 1);
    forall x: nat, y: nat | x < m && y < n
      ensures Done(p', k, x, y) <= k && Cell(c', m, n, x, y) == Dot(o, a, b, m, k, n, x, y, Done(p', k, x, y))
    {
      CellUpdate(c, m, n, p.i, p.j, c'[p.i * n + p.j], x, y);
      if x == p.i && y == p.j {
        assert Done(p, k, x, y) == p.kk && Done(p', k, x, y) == p.kk + 1;
      } else {
        assert Done(p', k, x, y) == Done(p, k, x, y);
      }
    }
  }

  /** The innermost loop: one element of A times a stretch of a row of B. */
  method RowUpdate<T>(o: Ops<T>, a: seq<T>, b: seq<T>, c: array<T>, m: nat, k: nat, n: nat, p: Pos)
    requires Accumulated(o, a, b, c[..], m, k, n, p) && InTile(p, m, k, n)
    requires p.i0 <= p.i < p.iEnd && p.kk < k && p.j == p.j0
    modifies c
    ensures Accumulated(o, a, b, c[..], m, k, n, p.(j := p.jEnd))
  {
    IndexInRange(p.i, p.kk, m, k);
    var aVal := a[p.i * k + p.kk];
    for j := p.j0 to p.jEnd
      invariant Accumulated(o, a, b, c[..], m, k, n, p.(j := j))
    {
      IndexInRange(p.i, j, m, n);
      IndexInRange(p.kk, j, k, n);
      ghost var before := c[..];
      c[p.i * n + j] := o.add(c[p.i * n + j], o.mul(aVal, b[p.kk * n + j]));
      AccumulateOne(o, a, b, before, m, k, n, p.(j := j), c[..]);
    }
  }

  /** One row of a tile: products k0..kEnd. */
  method TileRow<T>(o: Ops<T>, a: seq<T>, b: seq<T>, c: array<T>, m: nat, k: nat, n: nat, p: Pos)
    requires Accumulated(o, a, b, c[..], m, k, n, p) && InTile(p, m, k, n)
    requires p.i0 <= p.i < p.iEnd && p.kk == p.k0 && p.j == p.j0
    modifies c
    ensures Accumulated(o, a, b, c[..], m, k, n, p.(i := p.i + 1))
  {
    for kk := p.k0 to p.kEnd
      invariant Accumulated(o, a, b, c[..], m, k, n, p.(kk := kk))
    {
      RowUpdate(o, a, b, c, m, k, n, p.(kk := kk));
      SameProgress(o, a, b, c[..], m, k, n, p.(kk := kk, j := p.jEnd), p.(kk := kk + 1));
    }
    SameProgress(o, a, b, c[..], m, k, n, p.(kk := p.kEnd), p.(i := p.i + 1));
  }

  /** One tile: takes every cell of the block from depth k0 to depth kEnd. */
  method Tile<T>(o: Ops<T>, a: seq<T>, b: seq<T>, c: array<T>, m: nat, k: nat, n: nat, p: Pos)
    requires Accumulated(o, a, b, c[..], m, k, n, p) && InTile(p, m, k, n)
    requires p.i == p.i0 && p.kk == p.k0 && p.j == p.j0
    modifies c
    ensures Accumulated(o, a, b, c[..], m, k, n, p.(k0 := p.kEnd, kk := p.kEnd))
  {
    for i := p.i0 to p.iEnd
      invariant Accumulated(o, a, b, c[..], m, k, n, p.(i := i))
    {
      TileRow(o, a, b, c, m, k, n, p.(i := i));
    }
    SameProgress(o, a, b, c[..], m, k, n, p.(i := p.iEnd), p.(k0 := p.kEnd, kk := p.kEnd));
  }

  /** The block i0..iEnd, j0..jEnd at an even depth, everything before it finished. */
  function Block(i0: nat, iEnd: nat, j0: nat, jEnd: nat, depth: nat): Pos {
    Pos(i0, iEnd, j0, jEnd, depth, depth, i0, depth, j0)
  }

  /** All tiles along k for one block of rows and columns. */
  method TileColumn<T>(o: Ops<T>, a: seq<T>, b: seq<T>, c: array<T>, m: nat, k: nat, n: nat,
                       i0: nat, iEnd: nat, j0: nat, jEnd: nat)
    requires Accumulated(o, a, b, c[..], m, k, n, Block(i0, iEnd, j0, jEnd, 0))
    requires i0 <= iEnd <= m && j0 <= jEnd <= n
    modifies c
    ensures Accumulated(o, a, b, c[..], m, k, n, Block(i0, iEnd, jEnd, jEnd, 0))
  {
    var k0 := 0;
    while k0 < k
      invariant Accumulated(o, a, b, c[..], m, k, n, Block(i0, iEnd, j0, jEnd, Min(k0, k)))
    {
      var kEnd := Min(k0 + TILE_SIZE, k);
      var p := Block(i0, iEnd, j0, jEnd, k0).(kEnd := kEnd);
      SameProgress(o, a, b, c[..], m, k, n, Block(i0, iEnd, j0, jEnd, k0), p);
      Tile(o, a, b, c, m, k, n, p);
      k0 := k0 + TILE_SIZE;
    }
    SameProgress(o, a, b, c[..], m, k, n, Block(i0, iEnd, j0, jEnd, k), Block(i0, iEnd, jEnd, jEnd, 0));
  }

  /** All tiles for one block of rows. */
  method TileBand<T>(o: Ops<T>, a: seq<T>, b: seq<T>, c: array<T>, m: nat, k: nat, n: nat, i0: nat, iEnd: nat)
    requires Accumulated(o, a, b, c[..], m, k, n, Block(i0, iEnd, 0, 0, 0))
    requires i0 <= iEnd <= m
    modifies c
    ensures Accumulated(o, a, b, c[..], m, k, n, Block(iEnd, iEnd, 0, 0, 0))
  {
    var j0: nat := 0;
    while j0 < n
      invariant Accumulated(o, a, b, c[..], m, k, n, Block(i0, iEnd, Min(j0, n), Min(j0, n), 0))
    {
      var jEnd := Min(j0 + TILE_SIZE, n);
      SameProgress(o, a, b, c[..], m, k, n, Block(i0, iEnd, j0, j0, 0), Block(i0, iEnd, j0, jEnd, 0));
      TileColumn(o, a, b, c, m, k, n, i0, iEnd, j0, jEnd);
      j0 := j0 + TILE_SIZE;
    }
    SameProgress(o, a, b, c[..], m, k, n, Block(i0, iEnd, n, n, 0), Block(iEnd, iEnd, 0, 0, 0));
  }

  lemma ZeroCells<T>(o: Ops<T>, a: seq<T>, b: seq<T>, c: seq<T>, m: nat, k: nat, n: nat)
    requires |a| == m * k && |b| == k * n && |c| == m * n
    requires forall p :: 0 <= p < |c| ==> c[p] == o.zero
    ensures Accumulated(o, a, b, c, m, k, n, Block(0, 0, 0, 0, 0))
  {
    var start := Block(0, 0, 0, 0, 0);
    forall x: nat, y: nat | x < m && y < n
      ensures Done(start, k, x, y) == 0 && Cell(c, m, n, x, y) == Dot(o, a, b, m, k, n, x, y, 0)
    {
      IndexInRange(x, y, m, n);
      assert Cell(c, m, n, x, y) == o.zero;
    }
  }

  /** matmul_f32: the tiled loops leave in every cell exactly the left fold
      from zero over k = 0, 1, ..., in that order. */
  method MatMul<T>(o: Ops<T>, a: seq<T>, b: seq<T>, c: array<T>, m: nat, k: nat, n: nat)
    requires |a| == m * k && |b| == k * n && c.Length == m * n
    modifies c
    ensures IsProduct(o, a, b, c[..], m, k, n)
  {
    for q := 0 to c.Length
      invariant forall q' :: 0 <= q' < q ==> c[q'] == o.zero
    {
      c[q] := o.zero;
    }
    ZeroCells(o, a, b, c[..], m, k, n);
    var i0: nat := 0;
    while i0 < m
      invariant Accumulated(o, a, b, c[..], m, k, n, Block(Min(i0, m), Min(i0, m), 0, 0, 0))
    {
      var iEnd := Min(i0 + TILE_SIZE, m);
      SameProgress(o, a, b, c[..], m, k, n, Block(i0, i0, 0, 0, 0), Block(i0, iEnd, 0, 0, 0));
      TileBand(o, a, b, c, m, k, n, i0, iEnd);
      i0 := i0 + TILE_SIZE;
    }
  }

  /** There is one product, so tiling does not change the result of the plain triple loop. */
  lemma ProductUnique<T>(o: Ops<T>, a: seq<T>, b: seq<T>, c: seq<T>, c': seq<T>, m: nat, k: nat, n: nat)
    requires IsProduct(o, a, b, c, m, k, n) && IsProduct(o, a, b, c', m, k, n)
    ensures c == c'
  {
    SameCells(c, c', m, n);
  }

  /** Running sum `q + 1` is running sum `q` plus the product of a[i,q] and b[q,j]. */
  ghost predicate AddsProduct<T>(o: Ops<T>, a: seq<T>, b: seq<T>, k: nat, n: nat,
                                 i: nat, j: nat, sums: seq<T>, q: nat) {
    && q + 1 < |sums| && i * k + q < |a| && q * n + j < |b|
    && sums[q + 1] == o.add(sums[q], o.mul(a[i * k + q], b[q * n + j]))
  }

  /** The running sums of row `i` and column `j` in the order of the depth, from zero to what is in `c`. */
  ghost predicate SumsUp<T>(o: Ops<T>, a: seq<T>, b: seq<T>, c: seq<T>, k: nat, n: nat,
                            i: nat, j: nat, sums: seq<T>) {
    && |sums| == k + 1 && sums[0] == o.zero
    && (forall q: nat :: q < k ==> AddsProduct(o, a, b, k, n, i, j, sums, q))
    && i * n + j < |c| && c[i * n + j] == sums[k]
  }

  ghost predicate CellSumsUp<T(!new)>(o: Ops<T>, a: seq<T>, b: seq<T>, c: seq<T>, k: nat, n: nat, i: nat, j: nat) {
    exists sums :: SumsUp(o, a, b, c, k, n, i, j, sums)
  }

  lemma AddsNext<T>(o: Ops<T>, a: seq<T>, b: seq<T>, m: nat, k: nat, n: nat, i: nat, j: nat, sums: seq<T>, q: nat)
    requires |a| == m * k && |b| == k * n && i < m && j < n && q < k && q + 1 < |sums|
    requires sums[q] == Dot(o, a, b, m, k, n, i, j, q)
    ensures AddsProduct(o, a, b, k, n, i, j, sums, q) <==> sums[q + 1] == Dot(o, a, b, m, k, n, i, j, q + 1)
  {
    IndexInRange(i, q, m, k);
    IndexInRange(q, j, k, n);
    assert a[i * k + q] == Cell(a, m, k, i, q) && b[q * n + j] == Cell(b, k, n, q, j);
  }

  /** The running sums are the folds. */
  lemma {:induction false} SumsAreFolds<T>(o: Ops<T>, a: seq<T>, b: seq<T>, c: seq<T>, m: nat, k: nat, n: nat,
                                           i: nat, j: nat, sums: seq<T>, q: nat)
    requires |a| == m * k && |b| == k * n && i < m && j < n && q <= k && SumsUp(o, a, b, c, k, n, i, j, sums)
    ensures sums[q] == Dot(o, a, b, m, k, n, i, j, q)
  {
    if q == 0 {
    } else {
      SumsAreFolds(o, a, b, c, m, k, n, i, j, sums, q - 1);
      AddsNext(o, a, b, m, k, n, i, j, sums, q - 1);
    }
  }

  /** The folds of every depth. */
  ghost function Folds<T>(o: Ops<T>, a: seq<T>, b: seq<T>, m: nat, k: nat, n: nat, i: nat, j: nat): (r: seq<T>)
    requires |a| == m * k && |b| == k * n && i < m && j < n
    ensures |r| == k + 1 && forall q :: 0 <= q <= k ==> r[q] == Dot(o, a, b, m, k, n, i, j, q)
  {
    seq(k + 1, q requires 0 <= q <= k => Dot(o, a, b, m, k, n, i, j, q))
  }

  /** There are running sums for every fold. */
  lemma FoldSumsUp<T(!new)>(o: Ops<T>, a: seq<T>, b: seq<T>, c: seq<T>, m: nat, k: nat, n: nat, i: nat, j: nat)
    requires |a| == m * k && |b| == k * n && i < m && j < n
    requires i * n + j < |c| && c[i * n + j] == Dot(o, a, b, m, k, n, i, j, k)
    ensures CellSumsUp(o, a, b, c, k, n, i, j)
  {
    var sums := Folds(o, a, b, m, k, n, i, j);
    forall q: nat | q < k
      ensures AddsProduct(o, a, b, k, n, i, j, sums, q)
    {
      AddsNext(o, a, b, m, k, n, i, j, sums, q);
    }
    assert SumsUp(o, a, b, c, k, n, i, j, sums);
  }

  /** The product, cell by cell in the flat arrays: each cell of C is what the
      products of a row of A and a column of B sum up to, from zero and in order. */
  lemma ProductExactly<T(!new)>(o: Ops<T>, a: seq<T>, b: seq<T>, c: seq<T>, m: nat, k: nat, n: nat)
    requires |a| == m * k && |b| == k * n && |c| == m * n
    ensures IsProduct(o, a, b, c, m, k, n) <==>
            forall i: nat, j: nat :: i < m && j < n ==> CellSumsUp(o, a, b, c, k, n, i, j)
  {
    forall i: nat, j: nat | i < m && j < n
      ensures Cell(c, m, n, i, j) == Dot(o, a, b, m, k, n, i, j, k) <==> CellSumsUp(o, a, b, c, k, n, i, j)
    {
      IndexInRange(i, j, m, n);
      if Cell(c, m, n, i, j) == Dot(o, a, b, m, k, n, i, j, k) {
        FoldSumsUp(o, a, b, c, m, k, n, i, j);
      }
      if CellSumsUp(o, a, b, c, k, n, i, j) {
        var sums :| SumsUp(o, a, b, c, k, n, i, j, sums);
        SumsAreFolds(o, a, b, c, m, k, n, i, j, sums, k);
      }
    }
  }

  // --------------------------------------------------------------- transpose

  ghost predicate IsTranspose<T>(s: seq<T>, t: seq<T>, rows: nat, cols: nat) {
    && |s| == rows * cols && |t| == cols * rows
    && forall i, j :: 0 <= i < rows && 0 <= j < cols ==> Cell(t, cols, rows, j, i) == Cell(s, rows, cols, i, j)
  }

  /** Transposed cells in the flat arrays. */
  lemma TransposeExactly<T>(s: seq<T>, t: seq<T>, rows: nat, cols: nat, i: nat, j: nat)
    requires IsTranspose(s, t, rows, cols) && i < rows && j < cols
    ensures j * rows + i < |t| && i * cols + j < |s| && t[j * rows + i] == s[i * cols + j]
  {
    IndexInRange(i, j, rows, cols);
    IndexInRange(j, i, cols, rows);
    assert Cell(t, cols, rows, j, i) == Cell(s, rows, cols, i, j);
  }

  method Transpose<T>(src: seq<T>, dst: array<T>, rows: nat, cols: nat)
    requires |src| == rows * cols && dst.Length == rows * cols
    modifies dst
    ensures IsTranspose(src, dst[..], rows, cols)
  {
    for i := 0 to rows
      invariant dst.Length == cols * rows
      invariant forall x, y :: 0 <= x < i && 0 <= y < cols ==>
        Cell(dst[..], cols, rows, y, x) == Cell(src, rows, cols, x, y)
    {
      for j := 0 to cols
        invariant dst.Length == cols * rows
        invariant forall x, y :: 0 <= x < rows && 0 <= y < cols && (x < i || (x == i && y < j)) ==>
          Cell(dst[..], cols, rows, y, x) == Cell(src, rows, cols, x, y)
      {
        IndexInRange(j, i, cols, rows);
        IndexInRange(i, j, rows, cols);
        ghost var before := dst[..];
        dst[j * rows + i] := src[i * cols + j];
        assert dst[..] == before[j * rows + i := src[i * cols + j]];
        forall x, y | 0 <= x < rows && 0 <= y < cols && (x < i || (x == i && y < j + 1))
          ensures Cell(dst[..], cols, rows, y, x) == Cell(src, rows, cols, x, y)
        {
          CellUpdate(before, cols, rows, j, i, src[i * cols + j], y, x);
        }
      }
    }
  }

  /** Transposing twice restores the matrix. */
  lemma TransposeTwice<T>(s: seq<T>, t: seq<T>, u: seq<T>, rows: nat, cols: nat)
    requires IsTranspose(s, t, rows, cols) && IsTranspose(t, u, cols, rows)
    ensures u == s
  {
    forall i, j | 0 <= i < rows && 0 <= j < cols
      ensures Cell(u, rows, cols, i, j) == Cell(s, rows, cols, i, j)
    {
      assert Cell(t, cols, rows, j, i) == Cell(s, rows, cols, i, j);
    }
    SameCells(u, s, rows, cols);
  }

  ghost predicate Commutative<T(!new)>(f: (T, T) -> T) {
    forall x, y :: f(x, y) == f(y, x)
  }

  lemma {:induction false} DotTransposed<T(!new)>(o: Ops<T>, a: seq<T>, b: seq<T>, at: seq<T>, bt: seq<T>,
                                            m: nat, k: nat, n: nat, i: nat, j: nat, q: nat)
    requires IsTranspose(a, at, m, k) && IsTranspose(b, bt, k, n) && Commutative(o.mul)
    requires i < m && j < n && q <= k
    ensures |bt| == n * k && |at| == k * m
    ensures Dot(o, bt, at, n, k, m, j, i, q) == Dot(o, a, b, m, k, n, i, j, q)
  {
    if q == 0 {
    } else {
      DotTransposed(o, a, b, at, bt, m, k, n, i, j, q - 1);
      assert Cell(at, k, m, q - 1, i) == Cell(a, m, k, i, q - 1);
      assert Cell(bt, n, k, j, q - 1) == Cell(b, k, n, q - 1, j);
    }
  }

  /** The transpose of a product is the product of the transposes in reverse, given
      only that multiplication commutes. */
  lemma ProductTranspose<T(!new)>(o: Ops<T>, a: seq<T>, b: seq<T>, c: seq<T>, at: seq<T>, bt: seq<T>, ct: seq<T>,
                            m: nat, k: nat, n: nat)
    requires Commutative(o.mul) && IsProduct(o, a, b, c, m, k, n)
    requires IsTranspose(a, at, m, k) && IsTranspose(b, bt, k, n) && IsTranspose(c, ct, m, n)
    ensures IsProduct(o, bt, at, ct, n, k, m)
  {
    forall j, i | 0 <= j < n && 0 <= i < m
      ensures Cell(ct, n, m, j, i) == Dot(o, bt, at, n, k, m, j, i, k)
    {
      assert Cell(ct, n, m, j, i) == Cell(c, m, n, i, j);
      DotTransposed(o, a, b, at, bt, m, k, n, i, j, k);
    }
  }
}
