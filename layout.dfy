/** Value-level meaning of the tensor kernels of math.ts: each kernel's output buffer as a
    function of its input buffers and dimensions, all over flat row-major sequences, together
    with the facts the kernels are relied on for (transpose is an involution, merge undoes
    split, the causal mask layout, products with a scaled identity). */
module Layout {
  import opened RowMajor

  /** The large negative stand-in for minus infinity written above the diagonal of a causal mask. */
  const MaskSentinel: real := -10000000000.0

  /** Number of elements of a tensor of the given shape (the product of its dimensions; 1 for []). */
  function Product(shape: seq<nat>): (r: nat)
    ensures |shape| == 1 ==> r == shape[0]
    ensures |shape| == 2 ==> r == shape[0] * shape[1]
  {
    if |shape| == 0 then 1 else shape[0] * Product(shape[1..])
  }

  lemma {:induction false} ProductSnoc(prefix: seq<nat>, last: nat)
    ensures Product(prefix + [last]) == Product(prefix) * last
  {
    if |prefix| > 0 {
      assert (prefix + [last])[1..] == prefix[1..] + [last];
      ProductSnoc(prefix[1..], last);
    }
  }

  /** Number of rows of width last(shape) in a tensor of that shape: the product of all
      dimensions but the last. */
  function LeadingRows(shape: seq<nat>): (r: nat)
    requires |shape| > 0
    ensures r * shape[|shape| - 1] == Product(shape)
  {
    ProductSnoc(shape[..|shape| - 1], shape[|shape| - 1]);
    assert shape[..|shape| - 1] + [shape[|shape| - 1]] == shape;
    Product(shape[..|shape| - 1])
  }

  /** Replacing the last dimension by w gives LeadingRows(shape) rows of width w. */
  lemma ReplaceLast(shape: seq<nat>, w: nat)
    requires |shape| > 0
    ensures Product(shape[..|shape| - 1] + [w]) == LeadingRows(shape) * w
  {
    ProductSnoc(shape[..|shape| - 1], w);
  }

  /** Row i of a matrix with cols columns, when there are more than i rows, ends inside it. */
  lemma RowFits(i: nat, rows: nat, cols: nat)
    requires i < rows
    ensures i * cols + cols <= rows * cols
  {
    MulLeft(i + 1, rows, cols);
  }

  /** Elementwise image of a buffer under fn. */
  function MapSeq(fn: real -> real, s: seq<real>): (r: seq<real>)
    ensures |r| == |s|
  {
    seq(|s|, i requires 0 <= i < |s| => fn(s[i]))
  }

  /** Elementwise sum of two buffers of the same length. */
  function AddSeq(a: seq<real>, b: seq<real>): (r: seq<real>)
    requires |a| == |b|
    ensures |r| == |a|
  {
    seq(|a|, i requires 0 <= i < |a| => a[i] + b[i])
  }

  // ---------------------------------------------------------------------------------------
  // Matrix product

  /** The sum of the first n terms a[i*Y + k] * b[k*Z + j] (k < n) of the dot product of row i
      of the Y-column matrix a with column j of the Z-column matrix b. */
  function Dot(a: seq<real>, b: seq<real>, Y: nat, Z: nat, i: nat, j: nat, n: nat): real
    requires n <= Y && i * Y + Y <= |a| && j < Z && |b| == Y * Z
  {
    if n == 0 then 0.0
    else
      CellInBlock(n - 1, j, Y, Z);
      Dot(a, b, Y, Z, i, j, n - 1) + a[i * Y + n - 1] * b[(n - 1) * Z + j]
  }

  /** Extending a partial dot product by one term. */
  lemma DotStep(a: seq<real>, b: seq<real>, Y: nat, Z: nat, i: nat, j: nat, k: nat)
    requires k < Y && i * Y + Y <= |a| && j < Z && |b| == Y * Z
    ensures i * Y + k < |a| && k * Z + j < |b|
    ensures Dot(a, b, Y, Z, i, j, k + 1) == Dot(a, b, Y, Z, i, j, k) + a[i * Y + k] * b[k * Z + j]
  {
    CellInBlock(k, j, Y, Z);
  }

  function MatMulEntry(a: seq<real>, b: seq<real>, X: nat, Y: nat, Z: nat, p: int): real
    requires |a| == X * Y && |b| == Y * Z && 0 <= p < X * Z
  {
    OffsetInBlock(p, X, Z);
    RowFits(p / Z, X, Y);
    Dot(a, b, Y, Z, p / Z, p % Z, Y)
  }

  /** The X x Z product of the X x Y matrix a and the Y x Z matrix b. */
  function MatMul(a: seq<real>, b: seq<real>, X: nat, Y: nat, Z: nat): (r: seq<real>)
    requires |a| == X * Y && |b| == Y * Z
    ensures |r| == X * Z
  {
    seq(X * Z, p requires 0 <= p < X * Z => MatMulEntry(a, b, X, Y, Z, p))
  }

  /** Entry (i, j) of a product is the full dot product of row i and column j. */
  lemma MatMulAt(a: seq<real>, b: seq<real>, X: nat, Y: nat, Z: nat, i: nat, j: nat)
    requires |a| == X * Y && |b| == Y * Z && i < X && j < Z
    ensures 0 <= i * Z + j < X * Z && i * Y + Y <= |a|
    ensures MatMul(a, b, X, Y, Z)[i * Z + j] == Dot(a, b, Y, Z, i, j, Y)
  {
    CellInBlock(i, j, X, Z);
    CellOfOffset(i, j, Z);
    RowFits(i, X, Y);
  }

  /** The n x n matrix with s on the diagonal and 0 elsewhere. */
  function ScaledIdentity(n: nat, s: real): (r: seq<real>)
    ensures |r| == n * n
  {
    seq(n * n, p requires 0 <= p < n * n => if p / n == p % n then s else 0.0)
  }

  lemma ScaledIdentityAt(n: nat, s: real, k: nat, j: nat)
    requires k < n && j < n
    ensures 0 <= k * n + j < n * n
    ensures ScaledIdentity(n, s)[k * n + j] == if k == j then s else 0.0
  {
    CellInBlock(k, j, n, n);
    CellOfOffset(k, j, n);
  }

  lemma {:induction false} DotScaledIdentity(a: seq<real>, n: nat, s: real, i: nat, j: nat, m: nat)
    requires m <= n && i * n + n <= |a| && j < n
    ensures Dot(a, ScaledIdentity(n, s), n, n, i, j, m) == if j < m then s * a[i * n + j] else 0.0
  {
    if m > 0 {
      DotScaledIdentity(a, n, s, i, j, m - 1);
      ScaledIdentityAt(n, s, m - 1, j);
    }
  }

  /** Multiplying by s times the identity scales every entry by s (with s = 1 it is the
      identity; with s = 2 it doubles every entry). */
  lemma MatMulScaledIdentity(a: seq<real>, X: nat, Y: nat, s: real)
    requires |a| == X * Y
    ensures MatMul(a, ScaledIdentity(Y, s), X, Y, Y) == MapSeq(x => s * x, a)
  {
    var m := MatMul(a, ScaledIdentity(Y, s), X, Y, Y);
    forall p | 0 <= p < X * Y
      ensures m[p] == s * a[p]
    {
      OffsetInBlock(p, X, Y);
      var i, j := p / Y, p % Y;
      MatMulAt(a, ScaledIdentity(Y, s), X, Y, Y, i, j);
      DotScaledIdentity(a, Y, s, i, j, Y);
    }
  }

  // ---------------------------------------------------------------------------------------
  // Transpose

  function TransposeEntry(a: seq<real>, X: nat, Y: nat, p: int): real
    requires |a| == X * Y && 0 <= p < Y * X
  {
    OffsetInBlock(p, Y, X);
    CellInBlock(p % X, p / X, X, Y);
    a[(p % X) * Y + p / X]
  }

  /** The Y x X transpose of the X x Y matrix a. */
  function Transpose(a: seq<real>, X: nat, Y: nat): (r: seq<real>)
    requires |a| == X * Y
    ensures |r| == Y * X
  {
    seq(Y * X, p requires 0 <= p < Y * X => TransposeEntry(a, X, Y, p))
  }

  /** Entry (j, i) of the transpose is entry (i, j) of the matrix. */
  lemma TransposeAt(a: seq<real>, X: nat, Y: nat, i: nat, j: nat)
    requires |a| == X * Y && i < X && j < Y
    ensures 0 <= j * X + i < Y * X && 0 <= i * Y + j < X * Y
    ensures Transpose(a, X, Y)[j * X + i] == a[i * Y + j]
  {
    CellInBlock(j, i, Y, X);
    CellInBlock(i, j, X, Y);
    CellOfOffset(j, i, X);
  }

  /** Transposing twice gives back the matrix. */
  lemma TransposeInvolution(a: seq<real>, X: nat, Y: nat)
    requires |a| == X * Y
    ensures Transpose(Transpose(a, X, Y), Y, X) == a
  {
    var t := Transpose(a, X, Y);
    var tt := Transpose(t, Y, X);
    forall p | 0 <= p < X * Y
      ensures tt[p] == a[p]
    {
      OffsetInBlock(p, X, Y);
      var i, j := p / Y, p % Y;
      TransposeAt(t, Y, X, j, i);
      TransposeAt(a, X, Y, i, j);
    }
  }

  /** The offset of cell (r, c) in a row-major matrix with cols columns. */
  function At(r: nat, c: nat, cols: nat): nat
  {
    r * cols + c
  }

  /** The cells of a Y x X result that the loops of transposeMatrix have filled before they
      visit (i, j): every cell of columns 0 to i - 1, and rows 0 to j - 1 of column i. */
  ghost predicate FilledBefore(s: seq<real>, t: seq<real>, X: nat, Y: nat, i: nat, j: nat)
  {
    forall r: nat, c: nat :: r < Y && c < X && (c < i || (c == i && r < j)) ==>
      At(r, c, X) < |s| && At(r, c, X) < |t| && s[At(r, c, X)] == t[At(r, c, X)]
  }

  /** Filling cell (j, i) extends the filled part of column i by one row. */
  lemma FilledNext(s: seq<real>, t: seq<real>, X: nat, Y: nat, i: nat, j: nat)
    requires |s| == |t| == Y * X && i < X && j < Y && FilledBefore(s, t, X, Y, i, j)
    ensures At(j, i, X) < |s| && FilledBefore(s[At(j, i, X) := t[At(j, i, X)]], t, X, Y, i, j + 1)
  {
    CellInBlock(j, i, Y, X);
    var n := At(j, i, X);
    var s' := s[n := t[n]];
    forall r: nat, c: nat | r < Y && c < X && (c < i || (c == i && r < j + 1))
      ensures At(r, c, X) < |s'| && At(r, c, X) < |t| && s'[At(r, c, X)] == t[At(r, c, X)]
    {
      CellInBlock(r, c, Y, X);
      if r != j || c != i {
        CellOfOffset(r, c, X);
        CellOfOffset(j, i, X);
        assert At(r, c, X) != n;
      }
    }
  }

  /** Once all X columns are filled, the result is t. */
  lemma FilledAll(s: seq<real>, t: seq<real>, X: nat, Y: nat)
    requires |s| == |t| == Y * X && FilledBefore(s, t, X, Y, X, 0)
    ensures s == t
  {
    forall p | 0 <= p < |s|
      ensures s[p] == t[p]
    {
      OffsetInBlock(p, Y, X);
      assert At(p / X, p % X, X) == p;
    }
  }

  // ---------------------------------------------------------------------------------------
  // Split and merge of the last dimension

  function SplitEntry(d: seq<real>, rows: nat, S: nat, c: nat, j: nat, p: int): real
    requires 0 < c && S % c == 0 && j < S / c && |d| == rows * S && 0 <= p < rows * c
  {
    OffsetInBlock(p, rows, c);
    CellInBlock(j, p % c, S / c, c);
    CellInBlock(p / c, j * c + p % c, rows, S);
    d[(p / c) * S + j * c + p % c]
  }

  /** Chunk j of splitting the width-S rows of d into chunks of width c: for every row r, the
      run d[r*S + j*c .. r*S + j*c + c), one after the other. */
  function SplitChunk(d: seq<real>, rows: nat, S: nat, c: nat, j: nat): (r: seq<real>)
    requires 0 < c && S % c == 0 && j < S / c && |d| == rows * S
    ensures |r| == rows * c
  {
    seq(rows * c, p requires 0 <= p < rows * c => SplitEntry(d, rows, S, c, j, p))
  }

  /** All S / c chunks, in order. */
  function SplitSpec(d: seq<real>, rows: nat, S: nat, c: nat): (r: seq<seq<real>>)
    requires 0 < c && S % c == 0 && |d| == rows * S
    ensures |r| == S / c
    ensures forall j :: 0 <= j < |r| ==> |r[j]| == rows * c
  {
    seq(S / c, j requires 0 <= j < S / c => SplitChunk(d, rows, S, c, j))
  }

  /** Element cc of row r of chunk j is element j*c + cc of row r of the input. */
  lemma SplitChunkAt(d: seq<real>, rows: nat, S: nat, c: nat, j: nat, r: nat, cc: nat)
    requires 0 < c && S % c == 0 && j < S / c && |d| == rows * S && r < rows && cc < c
    ensures 0 <= r * c + cc < rows * c && 0 <= r * S + j * c + cc < |d|
    ensures SplitChunk(d, rows, S, c, j)[r * c + cc] == d[r * S + j * c + cc]
  {
    CellInBlock(r, cc, rows, c);
    CellOfOffset(r, cc, c);
    CellInBlock(j, cc, S / c, c);
    CellInBlock(r, j * c + cc, rows, S);
  }

  /** The run of c elements of d that starts at `from`; empty when it does not fit. */
  function Run(d: seq<real>, from: nat, c: nat): seq<real>
  {
    if from + c <= |d| then seq(c, k requires 0 <= k < c => d[from + k]) else []
  }

  /** Rows 0 .. r of chunk j as split's loops build it, one row at a time: row r of the chunk is
      the run of c elements at RowStart(j, c) of row r of the input. */
  function ChunkRows(d: seq<real>, S: nat, c: nat, j: nat, r: nat): seq<real>
  {
    if r == 0 then [] else ChunkRows(d, S, c, j, r - 1) + Run(d, RowStart(r - 1, S) + RowStart(j, c), c)
  }

  lemma ChunkRowsNext(d: seq<real>, S: nat, c: nat, j: nat, r: nat)
    ensures ChunkRows(d, S, c, j, r + 1) == ChunkRows(d, S, c, j, r) + Run(d, RowStart(r, S) + RowStart(j, c), c)
  {
  }

  /** When every run fits, r rows of chunk j hold r * c elements. */
  lemma {:induction false} ChunkRowsLength(d: seq<real>, S: nat, c: nat, j: nat, r: nat)
    requires RowStart(j, c) + c <= S && RowStart(r, S) <= |d|
    ensures |ChunkRows(d, S, c, j, r)| == RowStart(r, c)
  {
    if r > 0 {
      ChunkRowsLength(d, S, c, j, r - 1);
    }
  }

  /** Element cc of row q of chunk j, as split's loops build it, is element cc of the run at
      RowStart(j, c) of row q of the input. */
  lemma {:induction false} ChunkRowsAt(d: seq<real>, S: nat, c: nat, j: nat, r: nat, q: nat, cc: nat)
    requires RowStart(j, c) + c <= S && RowStart(r, S) <= |d| && q < r && cc < c
    ensures RowStart(q, c) + cc < |ChunkRows(d, S, c, j, r)| && RowStart(q, S) + RowStart(j, c) + cc < |d|
    ensures ChunkRows(d, S, c, j, r)[RowStart(q, c) + cc] == d[RowStart(q, S) + RowStart(j, c) + cc]
  {
    ChunkRowsLength(d, S, c, j, r);
    ChunkRowsLength(d, S, c, j, r - 1);
    if q < r - 1 {
      ChunkRowsAt(d, S, c, j, r - 1, q, cc);
      RowStartMono(q + 1, r - 1, c);
    } else {
      assert RowStart(q + 1, S) == RowStart(q, S) + S;
    }
  }

  /** Chunk j of a split fits inside each row of the input, and the input has rows full rows. */
  lemma SplitFits(d: seq<real>, rows: nat, S: nat, c: nat, j: nat)
    requires 0 < c && S % c == 0 && j < S / c && |d| == rows * S
    ensures RowStart(j, c) + c <= S && RowStart(rows, S) == |d|
  {
    RowStartIsProduct(j, c);
    RowFits(j, S / c, c);
    assert (S / c) * c == S;
    RowStartIsProduct(rows, S);
  }

  /** Element p of chunk j of the split is element p of ChunkRows. */
  lemma ChunkRowsElement(d: seq<real>, rows: nat, S: nat, c: nat, j: nat, p: nat)
    requires 0 < c && S % c == 0 && j < S / c && |d| == rows * S && p < rows * c
    ensures RowStart(j, c) + c <= S && RowStart(rows, S) <= |d| && p < |ChunkRows(d, S, c, j, rows)|
    ensures ChunkRows(d, S, c, j, rows)[p] == SplitChunk(d, rows, S, c, j)[p]
  {
    SplitFits(d, rows, S, c, j);
    OffsetInBlock(p, rows, c);
    var q, cc := p / c, p % c;
    RowStartIsProduct(q, c);
    RowStartIsProduct(q, S);
    RowStartIsProduct(j, c);
    ChunkRowsAt(d, S, c, j, rows, q, cc);
    SplitChunkAt(d, rows, S, c, j, q, cc);
  }

  /** All rows of chunk j, as split's loops build them, hold rows * c elements. */
  lemma ChunkRowsSplitLength(d: seq<real>, rows: nat, S: nat, c: nat, j: nat)
    requires 0 < c && S % c == 0 && j < S / c && |d| == rows * S
    ensures |ChunkRows(d, S, c, j, rows)| == rows * c
  {
    SplitFits(d, rows, S, c, j);
    RowStartIsProduct(rows, c);
    ChunkRowsLength(d, S, c, j, rows);
  }

  /** All rows that split's loops deal to chunk j make up chunk j of SplitSpec. */
  lemma ChunkRowsAreSplit(d: seq<real>, rows: nat, S: nat, c: nat, j: nat)
    requires 0 < c && S % c == 0 && j < S / c && |d| == rows * S
    ensures ChunkRows(d, S, c, j, rows) == SplitSpec(d, rows, S, c)[j]
  {
    var x, y := ChunkRows(d, S, c, j, rows), SplitChunk(d, rows, S, c, j);
    ChunkRowsSplitLength(d, rows, S, c, j);
    forall p | 0 <= p < |x|
      ensures x[p] == y[p]
    {
      ChunkRowsElement(d, rows, S, c, j, p);
    }
    assert x == y;
  }

  /** The chunks all hold `rows` rows of width c. */
  predicate SameChunkShape(chunks: seq<seq<real>>, rows: nat, c: nat)
  {
    forall j :: 0 <= j < |chunks| ==> |chunks[j]| == rows * c
  }

  function MergeEntry(chunks: seq<seq<real>>, rows: nat, c: nat, p: int): real
    requires 0 < c && SameChunkShape(chunks, rows, c) && 0 <= p < rows * (|chunks| * c)
  {
    var M := |chunks| * c;
    OffsetInBlock(p, rows, M);
    OffsetInBlock(p % M, |chunks|, c);
    CellInBlock(p / M, p % M % c, rows, c);
    chunks[p % M / c][(p / M) * c + p % M % c]
  }

  /** Reassembly of chunks of width c into rows of width |chunks| * c: row r is row r of chunk 0,
      then row r of chunk 1, and so on. */
  function MergeSpec(chunks: seq<seq<real>>, rows: nat, c: nat): (r: seq<real>)
    requires 0 < c && SameChunkShape(chunks, rows, c)
    ensures |r| == rows * (|chunks| * c)
  {
    seq(rows * (|chunks| * c), p requires 0 <= p < rows * (|chunks| * c) => MergeEntry(chunks, rows, c, p))
  }

  /** Element j*c + cc of row r of the merge is element cc of row r of chunk j. */
  lemma MergeAt(chunks: seq<seq<real>>, rows: nat, c: nat, M: nat, r: nat, j: nat, cc: nat)
    requires 0 < c && SameChunkShape(chunks, rows, c) && M == |chunks| * c && r < rows && j < |chunks| && cc < c
    ensures 0 <= r * M + j * c + cc < rows * M && 0 <= r * c + cc < rows * c
    ensures MergeSpec(chunks, rows, c)[r * M + j * c + cc] == chunks[j][r * c + cc]
  {
    CellInBlock(j, cc, |chunks|, c);
    CellInBlock(r, j * c + cc, rows, M);
    CellOfOffset(r, j * c + cc, M);
    CellOfOffset(j, cc, c);
    CellInBlock(r, cc, rows, c);
  }

  /** The merged output as merge's loops build it: MergeRows(chunks, c, r) holds rows 0 .. r of
      the output, and MergePrefix(chunks, c, r, j) those rows followed by the runs of row r of
      chunks 0 .. j. */
  function MergeRows(chunks: seq<seq<real>>, c: nat, r: nat): seq<real>
    decreases r, 0
  {
    if r == 0 then [] else MergePrefix(chunks, c, r - 1, |chunks|)
  }

  function MergePrefix(chunks: seq<seq<real>>, c: nat, r: nat, j: nat): seq<real>
    requires j <= |chunks|
    decreases r, j + 1
  {
    if j == 0 then MergeRows(chunks, c, r) else MergePrefix(chunks, c, r, j - 1) + Run(chunks[j - 1], RowStart(r, c), c)
  }

  lemma MergePrefixNext(chunks: seq<seq<real>>, c: nat, r: nat, j: nat)
    requires j < |chunks|
    ensures MergePrefix(chunks, c, r, j + 1) == MergePrefix(chunks, c, r, j) + Run(chunks[j], RowStart(r, c), c)
  {
  }

  lemma MergeRowsNext(chunks: seq<seq<real>>, c: nat, r: nat)
    ensures MergeRows(chunks, c, r + 1) == MergePrefix(chunks, c, r, |chunks|)
  {
  }

  /** Every chunk holds `rows` rows of width c, counted with RowStart. */
  predicate ChunksHold(chunks: seq<seq<real>>, rows: nat, c: nat)
  {
    forall k :: 0 <= k < |chunks| ==> |chunks[k]| == RowStart(rows, c)
  }

  lemma SameShapeHolds(chunks: seq<seq<real>>, rows: nat, c: nat)
    requires SameChunkShape(chunks, rows, c)
    ensures ChunksHold(chunks, rows, c)
  {
    RowStartIsProduct(rows, c);
  }

  /** Row r of every chunk fits inside it. */
  lemma RunFits(rows: nat, c: nat, r: nat)
    requires r < rows
    ensures RowStart(r, c) + c <= RowStart(rows, c)
  {
    RowStartMono(r + 1, rows, c);
  }

  /** The first r rows that merge's loops build hold r full output rows. */
  lemma {:induction false} MergeRowsLength(chunks: seq<seq<real>>, rows: nat, c: nat, r: nat)
    requires ChunksHold(chunks, rows, c) && r <= rows
    ensures |MergeRows(chunks, c, r)| == RowStart(r, RowStart(|chunks|, c))
    decreases r, 0
  {
    if r > 0 {
      MergePrefixLength(chunks, rows, c, r - 1, |chunks|);
    }
  }

  /** Those rows followed by the runs of row r of chunks 0 .. j. */
  lemma {:induction false} MergePrefixLength(chunks: seq<seq<real>>, rows: nat, c: nat, r: nat, j: nat)
    requires ChunksHold(chunks, rows, c) && r < rows && j <= |chunks|
    ensures |MergePrefix(chunks, c, r, j)| == RowStart(r, RowStart(|chunks|, c)) + RowStart(j, c)
    decreases r, j + 1
  {
    if j == 0 {
      MergeRowsLength(chunks, rows, c, r);
    } else {
      MergePrefixLength(chunks, rows, c, r, j - 1);
      RunFits(rows, c, r);
    }
  }

  /** Element cc of row q of chunk k sits at offset cc of the run of chunk k in row q of what
      merge's loops build, once they are past that run. */
  lemma {:induction false} MergeRowsAt(chunks: seq<seq<real>>, rows: nat, c: nat, r: nat, q: nat, k: nat, cc: nat)
    requires ChunksHold(chunks, rows, c) && r <= rows && q < r && k < |chunks| && cc < c
    ensures RowStart(q, c) + cc < |chunks[k]|
    ensures RowStart(q, RowStart(|chunks|, c)) + RowStart(k, c) + cc < |MergeRows(chunks, c, r)|
    ensures MergeRows(chunks, c, r)[RowStart(q, RowStart(|chunks|, c)) + RowStart(k, c) + cc] == chunks[k][RowStart(q, c) + cc]
    decreases r, 0, 0
  {
    MergePrefixAt(chunks, rows, c, r - 1, |chunks|, q, k, cc);
  }

  lemma {:induction false} MergePrefixAt(chunks: seq<seq<real>>, rows: nat, c: nat, r: nat, j: nat, q: nat, k: nat, cc: nat)
    requires ChunksHold(chunks, rows, c) && r < rows && j <= |chunks| && k < |chunks| && cc < c
    requires q < r || (q == r && k < j)
    ensures RowStart(q, c) + cc < |chunks[k]|
    ensures RowStart(q, RowStart(|chunks|, c)) + RowStart(k, c) + cc < |MergePrefix(chunks, c, r, j)|
    ensures MergePrefix(chunks, c, r, j)[RowStart(q, RowStart(|chunks|, c)) + RowStart(k, c) + cc] == chunks[k][RowStart(q, c) + cc]
    decreases r, j + 1, 1
  {
    if j == 0 {
      assert MergePrefix(chunks, c, r, j) == MergeRows(chunks, c, r);
      MergeRowsAt(chunks, rows, c, r, q, k, cc);
    } else if q == r && k == j - 1 {
      MergePrefixLast(chunks, rows, c, r, j, cc);
    } else {
      MergePrefixEarlier(chunks, rows, c, r, j, q, k, cc);
    }
  }

  /** The run appended last, that of chunk j - 1 in row r. */
  lemma MergePrefixLast(chunks: seq<seq<real>>, rows: nat, c: nat, r: nat, j: nat, cc: nat)
    requires ChunksHold(chunks, rows, c) && r < rows && 0 < j <= |chunks| && cc < c
    ensures RowStart(r, c) + cc < |chunks[j - 1]|
    ensures RowStart(r, RowStart(|chunks|, c)) + RowStart(j - 1, c) + cc < |MergePrefix(chunks, c, r, j)|
    ensures MergePrefix(chunks, c, r, j)[RowStart(r, RowStart(|chunks|, c)) + RowStart(j - 1, c) + cc] == chunks[j - 1][RowStart(r, c) + cc]
  {
    var pre, run := MergePrefix(chunks, c, r, j - 1), Run(chunks[j - 1], RowStart(r, c), c);
    MergePrefixLength(chunks, rows, c, r, j - 1);
    RunFits(rows, c, r);
    RunAt(chunks[j - 1], RowStart(r, c), c, cc);
    assert (pre + run)[|pre| + cc] == run[cc];
  }

  /** A run appended before the last one. */
  lemma {:induction false} MergePrefixEarlier(chunks: seq<seq<real>>, rows: nat, c: nat, r: nat, j: nat, q: nat, k: nat, cc: nat)
    requires ChunksHold(chunks, rows, c) && r < rows && 0 < j <= |chunks| && k < |chunks| && cc < c
    requires q < r || (q == r && k < j - 1)
    ensures RowStart(q, c) + cc < |chunks[k]|
    ensures RowStart(q, RowStart(|chunks|, c)) + RowStart(k, c) + cc < |MergePrefix(chunks, c, r, j)|
    ensures MergePrefix(chunks, c, r, j)[RowStart(q, RowStart(|chunks|, c)) + RowStart(k, c) + cc] == chunks[k][RowStart(q, c) + cc]
    decreases r, j + 1, 0
  {
    var pre, run := MergePrefix(chunks, c, r, j - 1), Run(chunks[j - 1], RowStart(r, c), c);
    var at := RowStart(q, RowStart(|chunks|, c)) + RowStart(k, c) + cc;
    MergePrefixAt(chunks, rows, c, r, j - 1, q, k, cc);
    assert (pre + run)[at] == pre[at];
  }

  lemma RunAt(d: seq<real>, from: nat, c: nat, cc: nat)
    requires from + c <= |d| && cc < c
    ensures |Run(d, from, c)| == c && Run(d, from, c)[cc] == d[from + cc]
  {
  }

  /** A sequence of c elements that agrees with d from `from` on is the run there. */
  lemma RunOfElements(r: seq<real>, d: seq<real>, from: nat, c: nat)
    requires from + c <= |d| && |r| == c && forall k :: 0 <= k < c ==> r[k] == d[from + k]
    ensures r == Run(d, from, c)
  {
  }

  /** A cell of the run of chunk k in row q lies before the end of the run of chunk j - 1 in
      row r whenever (q, k) comes before (r, j). */
  lemma CellBefore(n: nat, c: nat, r: nat, j: nat, q: nat, k: nat, cc: nat)
    requires j <= n && k < n && cc < c && (q < r || (q == r && k < j))
    ensures RowStart(q, RowStart(n, c)) + RowStart(k, c) + cc < RowStart(r, RowStart(n, c)) + RowStart(j, c)
  {
    RowStartMono(k + 1, n, c);
    if q < r {
      RowStartMono(q + 1, r, RowStart(n, c));
    } else {
      RowStartMono(k + 1, j, c);
    }
  }

  /** Element p of what merge's loops build is element p of MergeSpec. */
  lemma MergeRowsElement(chunks: seq<seq<real>>, rows: nat, c: nat, p: nat)
    requires 0 < c && SameChunkShape(chunks, rows, c) && p < rows * (|chunks| * c)
    ensures ChunksHold(chunks, rows, c)
    ensures p < |MergeRows(chunks, c, rows)|
    ensures MergeRows(chunks, c, rows)[p] == MergeSpec(chunks, rows, c)[p]
  {
    SameShapeHolds(chunks, rows, c);
    var M := |chunks| * c;
    OffsetInBlock(p, rows, M);
    OffsetInBlock(p % M, |chunks|, c);
    var q, k, cc := p / M, p % M / c, p % M % c;
    RowStartIsProduct(|chunks|, c);
    RowStartIsProduct(q, M);
    RowStartIsProduct(k, c);
    RowStartIsProduct(q, c);
    MergeRowsAt(chunks, rows, c, rows, q, k, cc);
    MergeAt(chunks, rows, c, M, q, k, cc);
  }

  /** All rows that merge's loops build make up MergeSpec. */
  lemma MergeRowsAreMerge(chunks: seq<seq<real>>, rows: nat, c: nat)
    requires 0 < c && SameChunkShape(chunks, rows, c)
    ensures MergeRows(chunks, c, rows) == MergeSpec(chunks, rows, c)
  {
    var x, y := MergeRows(chunks, c, rows), MergeSpec(chunks, rows, c);
    assert |x| == |y| by {
      SameShapeHolds(chunks, rows, c);
      MergeRowsLength(chunks, rows, c, rows);
      RowStartIsProduct(rows, RowStart(|chunks|, c));
      RowStartIsProduct(|chunks|, c);
    }
    forall p | 0 <= p < |x|
      ensures x[p] == y[p]
    {
      MergeRowsElement(chunks, rows, c, p);
    }
    assert x == y;
  }

  /** Merging the chunks of a split gives back the split tensor. */
  lemma MergeSplit(d: seq<real>, rows: nat, S: nat, c: nat)
    requires 0 < c && S % c == 0 && |d| == rows * S
    ensures SameChunkShape(SplitSpec(d, rows, S, c), rows, c)
    ensures MergeSpec(SplitSpec(d, rows, S, c), rows, c) == d
  {
    var ch := SplitSpec(d, rows, S, c);
    assert |ch| * c == S;
    var m := MergeSpec(ch, rows, c);
    forall p | 0 <= p < rows * S
      ensures m[p] == d[p]
    {
      var r, j, cc := Decompose(p, rows, S, c);
      MergeSplitAt(d, rows, S, c, r, j, cc);
    }
  }

  /** The one element of the merged split at row r, chunk j, column cc. */
  lemma MergeSplitAt(d: seq<real>, rows: nat, S: nat, c: nat, r: nat, j: nat, cc: nat)
    requires 0 < c && S % c == 0 && |d| == rows * S && r < rows && j < S / c && cc < c
    ensures SameChunkShape(SplitSpec(d, rows, S, c), rows, c)
    ensures 0 <= r * S + j * c + cc < |d|
    ensures MergeSpec(SplitSpec(d, rows, S, c), rows, c)[r * S + j * c + cc] == d[r * S + j * c + cc]
  {
    var ch := SplitSpec(d, rows, S, c);
    assert |ch| * c == S;
    MergeAt(ch, rows, c, S, r, j, cc);
    SplitChunkAt(d, rows, S, c, j, r, cc);
  }

  /** An offset into rows of width S, cut into chunks of width c, is row r, chunk j, column cc. */
  lemma Decompose(p: int, rows: nat, S: nat, c: nat) returns (r: nat, j: nat, cc: nat)
    requires 0 < c && S % c == 0 && 0 <= p < rows * S
    ensures r < rows && j < S / c && cc < c && p == r * S + j * c + cc
  {
    OffsetInBlock(p, rows, S);
    OffsetInBlock(p % S, S / c, c);
    r, j, cc := p / S, p % S / c, p % S % c;
  }

  /** Splitting a merge into chunks of the original width gives back the chunks. */
  lemma SplitMerge(chunks: seq<seq<real>>, rows: nat, c: nat)
    requires 0 < c && SameChunkShape(chunks, rows, c)
    ensures (|chunks| * c) % c == 0
    ensures SplitSpec(MergeSpec(chunks, rows, c), rows, |chunks| * c, c) == chunks
  {
    var S := |chunks| * c;
    CellOfOffset(|chunks|, 0, c);
    var m := MergeSpec(chunks, rows, c);
    var sp := SplitSpec(m, rows, S, c);
    forall j | 0 <= j < |chunks|
      ensures sp[j] == chunks[j]
    {
      forall p | 0 <= p < rows * c
        ensures sp[j][p] == chunks[j][p]
      {
        OffsetInBlock(p, rows, c);
        var r, cc := p / c, p % c;
        SplitChunkAt(m, rows, S, c, j, r, cc);
        MergeAt(chunks, rows, c, |chunks| * c, r, j, cc);
      }
    }
  }

  // ---------------------------------------------------------------------------------------
  // Causal mask

  function MaskEntry(n: nat, p: int): real
    requires 0 <= p < n * n
  {
    OffsetInBlock(p, n, n);
    if p % n > p / n then MaskSentinel else 0.0
  }

  /** The n x n additive attention mask: 0 where column <= row, the sentinel above the diagonal. */
  function CausalMaskSpec(n: nat): (r: seq<real>)
    ensures |r| == n * n
  {
    seq(n * n, p requires 0 <= p < n * n => MaskEntry(n, p))
  }

  lemma MaskAt(n: nat, i: nat, j: nat)
    requires i < n && j < n
    ensures 0 <= i * n + j < n * n
    ensures CausalMaskSpec(n)[i * n + j] == if j > i then MaskSentinel else 0.0
  {
    CellInBlock(i, j, n, n);
    CellOfOffset(i, j, n);
  }

  // ---------------------------------------------------------------------------------------
  // Linear layer

  function BroadcastEntry(m: seq<real>, bias: seq<real>, rows: nat, p: int): real
    requires |m| == rows * |bias| && 0 <= p < |m|
  {
    OffsetInBlock(p, rows, |bias|);
    m[p] + bias[p % |bias|]
  }

  /** Adds bias to every row of the matrix m, whose rows are |bias| wide. */
  function AddToRows(m: seq<real>, bias: seq<real>, rows: nat): (r: seq<real>)
    requires |m| == rows * |bias|
    ensures |r| == |m|
  {
    seq(|m|, p requires 0 <= p < |m| => BroadcastEntry(m, bias, rows, p))
  }

  /** x times w, with bias added to every row. */
  function LinearSpec(x: seq<real>, w: seq<real>, bias: seq<real>, X: nat, Y: nat): (r: seq<real>)
    requires |x| == X * Y && |w| == Y * |bias|
    ensures |r| == X * |bias|
  {
    AddToRows(MatMul(x, w, X, Y, |bias|), bias, X)
  }

  /** Entry (i, j) of a linear layer is the dot product of row i of x with column j of w, plus
      bias[j]. */
  lemma LinearAt(x: seq<real>, w: seq<real>, bias: seq<real>, X: nat, Y: nat, i: nat, j: nat)
    requires |x| == X * Y && |w| == Y * |bias| && i < X && j < |bias|
    ensures 0 <= i * |bias| + j < X * |bias| && i * Y + Y <= |x|
    ensures LinearSpec(x, w, bias, X, Y)[i * |bias| + j] == Dot(x, w, Y, |bias|, i, j, Y) + bias[j]
  {
    MatMulAt(x, w, X, Y, |bias|, i, j);
    CellOfOffset(i, j, |bias|);
  }

  /** cur with bias added to the |bias| elements starting at `at`; every other element keeps its
      value. */
  function AddRow(cur: seq<real>, bias: seq<real>, at: nat): (r: seq<real>)
    ensures |r| == |cur|
  {
    seq(|cur|, p requires 0 <= p < |cur| => if at <= p < at + |bias| then cur[p] + bias[p - at] else cur[p])
  }

  /** m after its first i rows, each |bias| wide, have had bias added one row at a time. */
  function BiasedRows(m: seq<real>, bias: seq<real>, i: nat): (r: seq<real>)
    ensures |r| == |m|
  {
    if i == 0 then m else AddRow(BiasedRows(m, bias, i - 1), bias, RowStart(i - 1, |bias|))
  }

  lemma BiasedRowsNext(m: seq<real>, bias: seq<real>, i: nat)
    ensures BiasedRows(m, bias, i + 1) == AddRow(BiasedRows(m, bias, i), bias, RowStart(i, |bias|))
  {
  }

  /** Elements past the first i rows have not been touched. */
  lemma {:induction false} BiasedRowsRest(m: seq<real>, bias: seq<real>, i: nat, p: nat)
    requires RowStart(i, |bias|) <= p < |m|
    ensures BiasedRows(m, bias, i)[p] == m[p]
  {
    if i > 0 {
      var prev := BiasedRows(m, bias, i - 1);
      RowStartNext(i - 1, |bias|);
      BiasedRowsRest(m, bias, i - 1, p);
      assert AddRow(prev, bias, RowStart(i - 1, |bias|))[p] == prev[p];
    }
  }

  /** Column j of a row q among the first i holds its original value plus bias[j]. */
  lemma {:induction false} BiasedRowsDone(m: seq<real>, bias: seq<real>, i: nat, q: nat, j: nat)
    requires q < i && j < |bias| && RowStart(i, |bias|) <= |m|
    ensures RowStart(q, |bias|) + j < |m|
    ensures BiasedRows(m, bias, i)[RowStart(q, |bias|) + j] == m[RowStart(q, |bias|) + j] + bias[j]
  {
    var w := |bias|;
    var x := RowStart(q, w) + j;
    var at := RowStart(i - 1, w);
    var prev := BiasedRows(m, bias, i - 1);
    RowStartNext(i - 1, w);
    RowStartNext(q, w);
    RowStartMono(q + 1, i, w);
    if q + 1 < i {
      RowStartMono(q + 1, i - 1, w);
      BiasedRowsDone(m, bias, i - 1, q, j);
      assert AddRow(prev, bias, at)[x] == prev[x];
    } else {
      BiasedRowsRest(m, bias, i - 1, x);
      assert AddRow(prev, bias, at)[x] == prev[x] + bias[j];
    }
  }

  /** Adding bias to every row, one row at a time, gives the broadcast sum. */
  lemma BiasedRowsAreAddToRows(m: seq<real>, bias: seq<real>, rows: nat)
    requires |m| == rows * |bias|
    ensures BiasedRows(m, bias, rows) == AddToRows(m, bias, rows)
  {
    var x, y := BiasedRows(m, bias, rows), AddToRows(m, bias, rows);
    RowStartIsProduct(rows, |bias|);
    forall p | 0 <= p < |m|
      ensures x[p] == y[p]
    {
      OffsetInBlock(p, rows, |bias|);
      var q, j := p / |bias|, p % |bias|;
      RowStartIsProduct(q, |bias|);
      BiasedRowsDone(m, bias, rows, q, j);
    }
  }
}
