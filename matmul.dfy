/** The threaded matrix product: `alloc_matrix` lays each matrix out
    row-major in one block, `main` starts one `worker` per cell of C, and
    each worker writes the dot product of its row of A with its column
    of B.  The workers share nothing but their own cell of C, so running
    them one after another in creation order gives the state the joined
    threads leave. */
module MatMul {
  import opened Wrappers

  /** `m[i] = m[0] + i * c`: element `m[i][j]` sits at offset `i * c + j`
      of the block. */
  function Offset(c: nat, i: nat, j: nat): nat {
    i * c + j
  }

  /** Each element of an r x c matrix lies inside its r * c block. */
  lemma OffsetBound(r: nat, c: nat, i: nat, j: nat)
    requires i < r && j < c
    ensures Offset(c, i, j) < r * c
  {
    assert (i + 1) * c <= r * c by { MulMono(i + 1, r, c); }
  }

  lemma MulMono(x: nat, y: nat, c: nat)
    requires x <= y
    ensures x * c <= y * c
  {
  }

  /** Rows do not overlap: distinct elements have distinct offsets. */
  lemma OffsetInjective(c: nat, i: nat, j: nat, i2: nat, j2: nat)
    requires j < c && j2 < c && Offset(c, i, j) == Offset(c, i2, j2)
    ensures i == i2 && j == j2
  {
    if i < i2 {
      assert (i + 1) * c <= i2 * c by { MulMono(i + 1, i2, c); }
    } else if i2 < i {
      assert (i2 + 1) * c <= i * c by { MulMono(i2 + 1, i, c); }
    }
  }

  /** `alloc_matrix(r, c)`: one block of r * c ints and the row
      pointers into it, given as offsets. */
  method AllocMatrix(r: nat, c: nat) returns (rows: array<nat>, block: array<int>)
    requires r > 0
    ensures fresh(rows) && fresh(block)
    ensures rows.Length == r && block.Length == r * c
    ensures forall i :: 0 <= i < r ==> rows[i] == Offset(c, i, 0)
  {
    rows := new nat[r];
    block := new int[r * c];
    rows[0] := 0;
    for i := 1 to r
      invariant forall k :: 0 <= k < i ==> rows[k] == Offset(c, k, 0)
    {
      rows[i] := rows[0] + i * c;
    }
  }

  /** The first `p` terms of the dot product of row `i` of the M x K
      matrix `a` with column `j` of the K x N matrix `b`. */
  function Sum(a: seq<int>, b: seq<int>, M: nat, K: nat, N: nat, i: nat, j: nat, p: nat): int
    requires |a| == M * K && |b| == K * N && i < M && j < N && p <= K
  {
    if p == 0 then 0
    else
      OffsetBound(M, K, i, p - 1);
      OffsetBound(K, N, p - 1, j);
      Sum(a, b, M, K, N, i, j, p - 1) + a[Offset(K, i, p - 1)] * b[Offset(N, p - 1, j)]
  }

  /** Entry (i, j) of the product of `a` and `b`. */
  function Product(a: seq<int>, b: seq<int>, M: nat, K: nat, N: nat, i: nat, j: nat): int
    requires |a| == M * K && |b| == K * N && i < M && j < N
  {
    Sum(a, b, M, K, N, i, j, K)
  }

  /** `(int)sum`: the value kept by a cast to a 32-bit two's-complement
      int. */
  function Int32(x: int): (r: int)
    ensures -0x8000_0000 <= r < 0x8000_0000
    ensures (x - r) % 0x1_0000_0000 == 0
    ensures -0x8000_0000 <= x < 0x8000_0000 ==> r == x
  {
    (x + 0x8000_0000) % 0x1_0000_0000 - 0x8000_0000
  }

  /** The K x K identity matrix. */
  ghost predicate Identity(a: seq<int>, K: nat)
    requires |a| == K * K
  {
    forall i, q :: 0 <= i < K && 0 <= q < K ==>
      (OffsetBound(K, K, i, q); a[Offset(K, i, q)] == (if i == q then 1 else 0))
  }

  /** The identity on the left gives back the right factor: a product
      entry is the matching entry of `b`. */
  lemma IdentityLeft(a: seq<int>, b: seq<int>, K: nat, N: nat, i: nat, j: nat)
    requires |a| == K * K && |b| == K * N && i < K && j < N && Identity(a, K)
    ensures (OffsetBound(K, N, i, j); Product(a, b, K, K, N, i, j) == b[Offset(N, i, j)])
  {
    OffsetBound(K, N, i, j);
    IdentityLeftPrefix(a, b, K, N, i, j, K);
  }

  lemma {:induction false} IdentityLeftPrefix(a: seq<int>, b: seq<int>, K: nat, N: nat, i: nat, j: nat, p: nat)
    requires |a| == K * K && |b| == K * N && i < K && j < N && p <= K && Identity(a, K)
    ensures (OffsetBound(K, N, i, j); Sum(a, b, K, K, N, i, j, p) == if i < p then b[Offset(N, i, j)] else 0)
  {
    OffsetBound(K, N, i, j);
    if p > 0 {
      IdentityLeftPrefix(a, b, K, N, i, j, p - 1);
      OffsetBound(K, K, i, p - 1);
      assert a[Offset(K, i, p - 1)] == (if i == p - 1 then 1 else 0);
    }
  }

  /** The identity on the right gives back the left factor. */
  lemma IdentityRight(a: seq<int>, b: seq<int>, M: nat, K: nat, i: nat, j: nat)
    requires |a| == M * K && |b| == K * K && i < M && j < K && Identity(b, K)
    ensures (OffsetBound(M, K, i, j); Product(a, b, M, K, K, i, j) == a[Offset(K, i, j)])
  {
    OffsetBound(M, K, i, j);
    IdentityRightPrefix(a, b, M, K, i, j, K);
  }

  lemma {:induction false} IdentityRightPrefix(a: seq<int>, b: seq<int>, M: nat, K: nat, i: nat, j: nat, p: nat)
    requires |a| == M * K && |b| == K * K && i < M && j < K && p <= K && Identity(b, K)
    ensures (OffsetBound(M, K, i, j); Sum(a, b, M, K, K, i, j, p) == if j < p then a[Offset(K, i, j)] else 0)
  {
    OffsetBound(M, K, i, j);
    if p > 0 {
      IdentityRightPrefix(a, b, M, K, i, j, p - 1);
      OffsetBound(K, K, p - 1, j);
      assert b[Offset(K, p - 1, j)] == (if p - 1 == j then 1 else 0);
    }
  }

  /** `worker` for cell (i, j): accumulates the dot product and stores
      its 32-bit truncation in C[i][j], touching no other cell. */
  method Worker(A: array<int>, B: array<int>, C: array<int>, M: nat, K: nat, N: nat, i: nat, j: nat)
    requires A.Length == M * K && B.Length == K * N && C.Length == M * N
    requires i < M && j < N && C != A && C != B
    modifies C
    ensures (OffsetBound(M, N, i, j); C[..] == old(C[..])[Offset(N, i, j) := Int32(Product(A[..], B[..], M, K, N, i, j))])
  {
    ghost var a, b, c := A[..], B[..], C[..];
    var sum := 0;
    for p := 0 to K
      invariant sum == Sum(a, b, M, K, N, i, j, p)
      invariant C[..] == c
    {
      OffsetBound(M, K, i, p);
      OffsetBound(K, N, p, j);
      sum := sum + A[Offset(K, i, p)] * B[Offset(N, p, j)];
    }
    OffsetBound(M, N, i, j);
    C[Offset(N, i, j)] := Int32(sum);
    assert A[..] == a && B[..] == b;
    assert C[..] == c[Offset(N, i, j) := Int32(sum)];
  }

  /** Every cell in `cells` holds its truncated product entry. */
  ghost predicate Written(c: seq<int>, a: seq<int>, b: seq<int>, M: nat, K: nat, N: nat, cells: seq<(nat, nat)>)
    requires |a| == M * K && |b| == K * N && |c| == M * N
  {
    forall t :: 0 <= t < |cells| ==>
      cells[t].0 < M && cells[t].1 < N &&
      (OffsetBound(M, N, cells[t].0, cells[t].1);
       c[Offset(N, cells[t].0, cells[t].1)] == Int32(Product(a, b, M, K, N, cells[t].0, cells[t].1)))
  }

  /** Writing a cell that is not yet listed keeps the listed cells written
      and adds it. */
  lemma WrittenStep(c: seq<int>, a: seq<int>, b: seq<int>, M: nat, K: nat, N: nat, cells: seq<(nat, nat)>, i: nat, j: nat)
    requires |a| == M * K && |b| == K * N && |c| == M * N && i < M && j < N
    requires Written(c, a, b, M, K, N, cells) && (i, j) !in cells
    ensures (OffsetBound(M, N, i, j); Written(c[Offset(N, i, j) := Int32(Product(a, b, M, K, N, i, j))], a, b, M, K, N, cells + [(i, j)]))
  {
    OffsetBound(M, N, i, j);
    var c' := c[Offset(N, i, j) := Int32(Product(a, b, M, K, N, i, j))];
    var cells' := cells + [(i, j)];
    forall t | 0 <= t < |cells'|
      ensures cells'[t].0 < M && cells'[t].1 < N
      ensures (OffsetBound(M, N, cells'[t].0, cells'[t].1); c'[Offset(N, cells'[t].0, cells'[t].1)] == Int32(Product(a, b, M, K, N, cells'[t].0, cells'[t].1)))
    {
      if t < |cells| {
        assert cells'[t] == cells[t] && cells[t] != (i, j);
        OffsetBound(M, N, cells[t].0, cells[t].1);
        if Offset(N, cells[t].0, cells[t].1) == Offset(N, i, j) {
          OffsetInjective(N, cells[t].0, cells[t].1, i, j);
        }
      }
    }
  }

  /** The cells `main` has started workers for when it reaches (i, j):
      every cell of the rows above, then the cells left of `j`. */
  function Created(N: nat, i: nat, j: nat): seq<(nat, nat)>
    requires j <= N
    decreases i, j
  {
    if j > 0 then Created(N, i, j - 1) + [(i, j - 1)]
    else if i > 0 then Created(N, i - 1, N)
    else []
  }

  /** No cell is listed twice. */
  predicate Distinct(cells: seq<(nat, nat)>) {
    forall t, u :: 0 <= t < u < |cells| ==> cells[t] != cells[u]
  }

  /** The cells come before (i, j) in row-major order, and there are
      i * N + j of them. */
  lemma {:induction false} CreatedBefore(N: nat, i: nat, j: nat)
    requires j <= N
    ensures |Created(N, i, j)| == i * N + j
    ensures forall t :: 0 <= t < |Created(N, i, j)| ==>
      var c := Created(N, i, j)[t];
      (c.0 < i && c.1 < N) || (c.0 == i && c.1 < j)
    decreases i, j
  {
    if j > 0 {
      CreatedBefore(N, i, j - 1);
    } else if i > 0 {
      CreatedBefore(N, i - 1, N);
    }
  }

  lemma {:induction false} CreatedDistinct(N: nat, i: nat, j: nat)
    requires j <= N
    ensures Distinct(Created(N, i, j))
    decreases i, j
  {
    if j > 0 {
      CreatedDistinct(N, i, j - 1);
      CreatedBefore(N, i, j - 1);
    } else if i > 0 {
      CreatedDistinct(N, i - 1, N);
    }
  }

  lemma {:induction false} CreatedCovers(N: nat, i: nat, j: nat)
    requires j <= N
    ensures forall i', j' :: 0 <= i' < i && 0 <= j' < N ==> (i', j') in Created(N, i, j)
    ensures forall j' :: 0 <= j' < j ==> (i, j') in Created(N, i, j)
    decreases i, j
  {
    if j > 0 {
      CreatedCovers(N, i, j - 1);
    } else if i > 0 {
      CreatedCovers(N, i - 1, N);
    }
  }

  /** `main` starts exactly M * N workers, one for each cell of C. */
  lemma OneWorkerPerCell(M: nat, N: nat)
    ensures |Created(N, M, 0)| == M * N && Distinct(Created(N, M, 0))
    ensures forall t :: 0 <= t < |Created(N, M, 0)| ==> Created(N, M, 0)[t].0 < M && Created(N, M, 0)[t].1 < N
    ensures forall i, j :: 0 <= i < M && 0 <= j < N ==> (i, j) in Created(N, M, 0)
  {
    CreatedBefore(N, M, 0);
    CreatedDistinct(N, M, 0);
    CreatedCovers(N, M, 0);
  }

  /** `main`'s nested loops: one worker per (i, j), row by row, each
      started on a fresh `Cell`; `cells` lists the workers' cells in
      creation order, and each ends holding its product entry. */
  method Multiply(A: array<int>, B: array<int>, C: array<int>, M: nat, K: nat, N: nat) returns (cells: seq<(nat, nat)>)
    requires A.Length == M * K && B.Length == K * N && C.Length == M * N
    requires C != A && C != B
    modifies C
    ensures cells == Created(N, M, 0)
    ensures IsProduct(C[..], A[..], B[..], M, K, N)
  {
    ghost var a, b := A[..], B[..];
    cells := [];
    for i := 0 to M
      invariant cells == Created(N, i, 0)
      invariant Written(C[..], a, b, M, K, N, cells)
    {
      for j := 0 to N
        invariant cells == Created(N, i, j)
        invariant Written(C[..], a, b, M, K, N, cells)
      {
        CreatedBefore(N, i, j);
        WrittenStep(C[..], a, b, M, K, N, cells, i, j);
        Worker(A, B, C, M, K, N, i, j);
        cells := cells + [(i, j)];
      }
    }
    CreatedCovers(N, M, 0);
    WrittenCells(C[..], a, b, M, K, N, cells);
    assert A[..] == a && B[..] == b;
  }

  /** `c` holds, in every cell, the 32-bit truncation of the product
      entry of `a` and `b`. */
  ghost predicate IsProduct(c: seq<int>, a: seq<int>, b: seq<int>, M: nat, K: nat, N: nat)
    requires |a| == M * K && |b| == K * N && |c| == M * N
  {
    forall i, j :: 0 <= i < M && 0 <= j < N ==>
      (OffsetBound(M, N, i, j); c[Offset(N, i, j)] == Int32(Product(a, b, M, K, N, i, j)))
  }

  /** Once every cell is listed, every cell holds its entry. */
  lemma WrittenCells(c: seq<int>, a: seq<int>, b: seq<int>, M: nat, K: nat, N: nat, cells: seq<(nat, nat)>)
    requires |a| == M * K && |b| == K * N && |c| == M * N
    requires Written(c, a, b, M, K, N, cells)
    requires forall i, j :: 0 <= i < M && 0 <= j < N ==> (i, j) in cells
    ensures IsProduct(c, a, b, M, K, N)
  {
    forall i, j | 0 <= i < M && 0 <= j < N
      ensures (OffsetBound(M, N, i, j); c[Offset(N, i, j)] == Int32(Product(a, b, M, K, N, i, j)))
    {
      var t :| 0 <= t < |cells| && cells[t] == (i, j);
    }
  }

  /** The size check: `scanf` must read three numbers, all positive. */
  function Sizes(read: Option<(int, int, int)>): (r: Option<(nat, nat, nat)>)
    ensures r.Some? <==> read.Some? && read.value.0 > 0 && read.value.1 > 0 && read.value.2 > 0
    ensures r.Some? ==> r.value.0 == read.value.0 && r.value.1 == read.value.1 && r.value.2 == read.value.2
  {
    match read
    case Some((m, k, n)) => if m <= 0 || k <= 0 || n <= 0 then None else Some((m, k, n))
    case None => None
  }
}
