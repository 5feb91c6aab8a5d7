/** The layout kernels of math.ts that fill fresh buffers in index loops: matrix product,
    transpose, causal mask, split, merge and the linear layer. Each method is proved to produce
    the value its Layout function describes. */
module Kernels {
  import opened RowMajor
  import opened Layout
  import opened Outcomes
  import opened Tensors

  /** multiplyMatrix(a, b) (math.ts:45-65) for a of shape [X, Y] and b of shape [Y, Z]; the
      shared dimension is checked by the TypeScript types, so it is a precondition here. */
  method MultiplyMatrix(a: Tensor, b: Tensor) returns (out: Tensor)
    requires Valid(a) && Valid(b) && |a.shape| == 2 && |b.shape| == 2 && a.shape[1] == b.shape[0]
    ensures fresh(out.data.buffer) && Owner(out) && out.shape == [a.shape[0], b.shape[1]]
    ensures Read(out.data) == MatMul(Read(a.data), Read(b.data), a.shape[0], a.shape[1], b.shape[1])
  {
    var X, Y, Z := a.shape[0], a.shape[1], b.shape[1];
    ghost var A, B := Read(a.data), Read(b.data);
    ghost var M := MatMul(A, B, X, Y, Z);
    out := NewTensor([X, Z], [], false);
    ProductRows(a, b, out.data.buffer, A, B, M);
    assert Read(out.data) == out.data.buffer[..];
  }

  /** The i-loop of multiplyMatrix (math.ts:54-62): row after row, the output buffer receives
      the whole product. */
  method ProductRows(a: Tensor, b: Tensor, buf: array<real>,
                     ghost A: seq<real>, ghost B: seq<real>, ghost M: seq<real>)
    requires Valid(a) && Valid(b) && |a.shape| == 2 && |b.shape| == 2 && a.shape[1] == b.shape[0]
    requires buf != a.data.buffer && buf != b.data.buffer
    requires A == Read(a.data) && B == Read(b.data)
    requires |A| == a.shape[0] * a.shape[1] && |B| == b.shape[0] * b.shape[1]
    requires M == MatMul(A, B, a.shape[0], a.shape[1], b.shape[1]) && buf.Length == |M|
    modifies buf
    ensures buf[..] == M
  {
    var X, Z := a.shape[0], b.shape[1];
    RowStartIsProduct(X, Z);
    var i := 0;
    while i < X
      invariant 0 <= i <= X && RowStart(i, Z) <= |M|
      invariant buf[..RowStart(i, Z)] == M[..RowStart(i, Z)]
    {
      RowStartNext(i, Z);
      RowStartMono(i + 1, X, Z);
      ProductRow(a, b, buf, i, A, B, M);
      i := i + 1;
    }
    assert buf[..RowStart(X, Z)] == buf[..];
    assert M[..RowStart(X, Z)] == M;
  }

  /** The j-loop of multiplyMatrix (math.ts:55-61): row i of the output, cell by cell, receives
      row i of the product and the earlier rows keep theirs. */
  method ProductRow(a: Tensor, b: Tensor, buf: array<real>, i: nat,
                    ghost A: seq<real>, ghost B: seq<real>, ghost M: seq<real>)
    requires Valid(a) && Valid(b) && |a.shape| == 2 && |b.shape| == 2 && a.shape[1] == b.shape[0]
    requires i < a.shape[0] && buf != a.data.buffer && buf != b.data.buffer
    requires A == Read(a.data) && B == Read(b.data)
    requires |A| == a.shape[0] * a.shape[1] && |B| == b.shape[0] * b.shape[1]
    requires M == MatMul(A, B, a.shape[0], a.shape[1], b.shape[1])
    requires RowStart(i, b.shape[1]) + b.shape[1] <= |M| == buf.Length
    requires buf[..RowStart(i, b.shape[1])] == M[..RowStart(i, b.shape[1])]
    modifies buf
    ensures buf[..RowStart(i, b.shape[1]) + b.shape[1]] == M[..RowStart(i, b.shape[1]) + b.shape[1]]
  {
    var Z := b.shape[1];
    var j := 0;
    while j < Z
      invariant 0 <= j <= Z
      invariant buf[..RowStart(i, Z) + j] == M[..RowStart(i, Z) + j]
    {
      ProductCell(a, b, buf, i, j, A, B, M);
      j := j + 1;
    }
  }

  /** One cell of multiplyMatrix (math.ts:56-60): output entry (i, j), the next one in row-major
      order, receives the dot product of row i of a and column j of b. */
  method ProductCell(a: Tensor, b: Tensor, buf: array<real>, i: nat, j: nat,
                     ghost A: seq<real>, ghost B: seq<real>, ghost M: seq<real>)
    requires Valid(a) && Valid(b) && |a.shape| == 2 && |b.shape| == 2 && a.shape[1] == b.shape[0]
    requires i < a.shape[0] && j < b.shape[1] && buf != a.data.buffer && buf != b.data.buffer
    requires A == Read(a.data) && B == Read(b.data)
    requires |A| == a.shape[0] * a.shape[1] && |B| == b.shape[0] * b.shape[1]
    requires M == MatMul(A, B, a.shape[0], a.shape[1], b.shape[1])
    requires RowStart(i, b.shape[1]) + b.shape[1] <= |M| == buf.Length
    requires buf[..RowStart(i, b.shape[1]) + j] == M[..RowStart(i, b.shape[1]) + j]
    modifies buf
    ensures buf[..RowStart(i, b.shape[1]) + j + 1] == M[..RowStart(i, b.shape[1]) + j + 1]
  {
    var X, Y, Z := a.shape[0], a.shape[1], b.shape[1];
    MatMulAt(A, B, X, Y, Z, i, j);
    RowStartIsProduct(i, Z);
    var sum := DotProduct(a, b, i, j);
    var n := i * Z + j;
    buf[n] := sum;
    assert buf[..n + 1] == buf[..n] + [sum];
    assert M[..n + 1] == M[..n] + [M[n]];
  }

  /** The innermost k-loop of multiplyMatrix (math.ts:56-59): the dot product of row i of a
      with column j of b. */
  method DotProduct(a: Tensor, b: Tensor, i: nat, j: nat) returns (sum: real)
    requires Valid(a) && Valid(b) && |a.shape| == 2 && |b.shape| == 2 && a.shape[1] == b.shape[0]
    requires i < a.shape[0] && j < b.shape[1]
    ensures a.shape[0] * a.shape[1] == |Read(a.data)| && i * a.shape[1] + a.shape[1] <= |Read(a.data)|
    ensures sum == Dot(Read(a.data), Read(b.data), a.shape[1], b.shape[1], i, j, a.shape[1])
  {
    var Y, Z := a.shape[1], b.shape[1];
    RowFits(i, a.shape[0], Y);
    ghost var A, B := Read(a.data), Read(b.data);
    assert i * Y + Y <= |A| && |B| == Y * Z;
    sum := 0.0;
    var k := 0;
    while k < Y
      invariant 0 <= k <= Y
      invariant sum == Dot(A, B, Y, Z, i, j, k)
    {
      var t := DotTerm(a.data, b.data, A, B, Y, Z, i, j, k);
      sum := sum + t;
      k := k + 1;
    }
  }

  /** One term of the inner loop of multiplyMatrix (math.ts:58): a[i * Y + k] * b[k * Z + j]. */
  method DotTerm(a: Span, b: Span, ghost A: seq<real>, ghost B: seq<real>, Y: nat, Z: nat, i: nat, j: nat, k: nat)
    returns (t: real)
    requires InBounds(a) && InBounds(b) && Read(a) == A && Read(b) == B
    requires k < Y && i * Y + Y <= |A| && j < Z && |B| == Y * Z
    ensures Dot(A, B, Y, Z, i, j, k + 1) == Dot(A, B, Y, Z, i, j, k) + t
  {
    DotStep(A, B, Y, Z, i, j, k);
    var x, y := a.buffer[a.offset + i * Y + k], b.buffer[b.offset + k * Z + j];
    assert x == A[i * Y + k] && y == B[k * Z + j];
    t := x * y;
  }

  /** transposeMatrix(a) (math.ts:67-79): a fresh [Y, X] copy with out[j][i] == a[i][j]. */
  method TransposeMatrix(a: Tensor) returns (out: Tensor)
    requires Valid(a) && |a.shape| == 2
    ensures fresh(out.data.buffer) && Owner(out) && out.shape == [a.shape[1], a.shape[0]]
    ensures Read(out.data) == Transpose(Read(a.data), a.shape[0], a.shape[1])
  {
    var X, Y := a.shape[0], a.shape[1];
    ghost var A := Read(a.data);
    ghost var T := Transpose(A, X, Y);
    out := NewTensor([Y, X], [], false);
    assert |out.data.buffer[..]| == Y * X;
    var i := 0;
    while i < X
      invariant 0 <= i <= X && |out.data.buffer[..]| == Y * X
      invariant FilledBefore(out.data.buffer[..], T, X, Y, i, 0)
    {
      var j := 0;
      while j < Y
        invariant 0 <= j <= Y
        invariant FilledBefore(out.data.buffer[..], T, X, Y, i, j)
      {
        TransposeAt(A, X, Y, i, j);
        FilledNext(out.data.buffer[..], T, X, Y, i, j);
        out.data.buffer[j * X + i] := a.data.buffer[a.data.offset + i * Y + j];
        j := j + 1;
      }
      i := i + 1;
    }
    FilledAll(out.data.buffer[..], T, X, Y);
    assert Read(out.data) == out.data.buffer[..];
  }

  /** causalMask(n) (math.ts:160-168): the [n, n] mask, 0 on and below the diagonal and the
      sentinel above it. */
  method CausalMask(n: nat) returns (out: Tensor)
    ensures fresh(out.data.buffer) && Owner(out) && out.shape == [n, n]
    ensures Read(out.data) == CausalMaskSpec(n)
  {
    ghost var C := CausalMaskSpec(n);
    out := NewTensor([n, n], [], false);
    var i := 0;
    while i < n
      invariant 0 <= i <= n
      invariant i * n <= n * n
      invariant forall p :: 0 <= p < i * n ==> out.data.buffer[p] == C[p]
    {
      RowFits(i, n, n);
      var j := 0;
      while j < n
        invariant 0 <= j <= n
        invariant i * n + j <= n * n
        invariant forall p :: 0 <= p < i * n + j ==> out.data.buffer[p] == C[p]
      {
        MaskAt(n, i, j);
        out.data.buffer[i * n + j] := if j > i then MaskSentinel else 0.0;
        j := j + 1;
      }
      NextRow(i, n);
      i := i + 1;
    }
    assert Read(out.data) == out.data.buffer[..];
  }

  /** split(a, chunkSize) (math.ts:94-132): the last dimension S of a is cut into S / chunkSize
      fresh tensors of width chunkSize. An empty shape or a zero chunk makes `stride % chunkSize`
      NaN, so those throw like an uneven chunk does. */
  method Split(a: Tensor, chunkSize: nat) returns (r: Result<seq<Tensor>>)
    requires Valid(a)
    ensures r.Err? <==> |a.shape| == 0 || chunkSize == 0 || a.shape[|a.shape| - 1] % chunkSize != 0
    ensures r.Err? ==> r.error == InvalidChunkSize
    ensures r.Ok? ==> chunkSize > 0 && |a.shape| > 0 && a.shape[|a.shape| - 1] % chunkSize == 0
    ensures r.Ok? ==> |r.value| == a.shape[|a.shape| - 1] / chunkSize
    ensures r.Ok? ==> forall j :: 0 <= j < |r.value| ==>
      fresh(r.value[j].data.buffer) && Owner(r.value[j]) && r.value[j].shape == a.shape[..|a.shape| - 1] + [chunkSize]
    ensures r.Ok? ==> forall j, k :: 0 <= j < k < |r.value| ==> r.value[j].data.buffer != r.value[k].data.buffer
    ensures r.Ok? ==> forall j :: 0 <= j < |r.value| ==>
      Owner(r.value[j]) && Read(r.value[j].data) == SplitSpec(Read(a.data), LeadingRows(a.shape), a.shape[|a.shape| - 1], chunkSize)[j]
  {
    if |a.shape| == 0 || chunkSize == 0 || a.shape[|a.shape| - 1] % chunkSize != 0 {
      return Err(InvalidChunkSize);
    }
    var out := SplitChecked(a, chunkSize);
    return Ok(out);
  }

  /** The allocation and copy of split (math.ts:115-131), once chunkSize is known to divide the
      last dimension: one fresh tensor per chunk, chunk j holding columns j * chunkSize to
      (j + 1) * chunkSize - 1 of every row. */
  method SplitChecked(a: Tensor, chunkSize: nat) returns (out: seq<Tensor>)
    requires Valid(a) && |a.shape| > 0 && chunkSize > 0 && a.shape[|a.shape| - 1] % chunkSize == 0
    ensures |out| == a.shape[|a.shape| - 1] / chunkSize
    ensures forall j :: 0 <= j < |out| ==>
      fresh(out[j].data.buffer) && Owner(out[j]) && out[j].shape == a.shape[..|a.shape| - 1] + [chunkSize]
    ensures forall j, k :: 0 <= j < k < |out| ==> out[j].data.buffer != out[k].data.buffer
    ensures forall j :: 0 <= j < |out| ==>
      Owner(out[j]) && Read(out[j].data) == SplitSpec(Read(a.data), LeadingRows(a.shape), a.shape[|a.shape| - 1], chunkSize)[j]
  {
    var stride, c := a.shape[|a.shape| - 1], chunkSize;
    var prefix := a.shape[..|a.shape| - 1];
    ghost var rows := LeadingRows(a.shape);
    ghost var D := Read(a.data);
    assert Product(prefix + [c]) == RowStart(rows, c) by {
      ReplaceLast(a.shape, c);
      RowStartIsProduct(rows, c);
    }
    assert RowStart(stride / c, c) == stride && a.data.length == RowStart(rows, stride) by {
      RowStartIsProduct(stride / c, c);
      RowStartIsProduct(rows, stride);
    }
    out := NewChunks(prefix + [c], stride / c);
    var bufs := seq(|out|, j requires 0 <= j < |out| => out[j].data.buffer);
    SplitCopy(a.data, bufs, stride, c, rows);
    forall j | 0 <= j < |out|
      ensures Read(out[j].data) == SplitSpec(D, rows, stride, c)[j]
    {
      assert Read(out[j].data) == bufs[j][..];
      ChunkRowsAreSplit(D, rows, stride, c, j);
    }
  }

  /** The allocation loop of split (math.ts:115-117): n fresh, zeroed tensors of one shape, each
      with a buffer of its own. */
  method NewChunks(shape: seq<nat>, n: nat) returns (out: seq<Tensor>)
    ensures |out| == n
    ensures forall j :: 0 <= j < n ==>
      fresh(out[j].data.buffer) && Owner(out[j]) && out[j].shape == shape && Read(out[j].data) == Zeros(Product(shape))
    ensures forall j, k :: 0 <= j < k < n ==> out[j].data.buffer != out[k].data.buffer
  {
    out := [];
    while |out| < n
      invariant |out| <= n
      invariant forall j :: 0 <= j < |out| ==>
        fresh(out[j].data.buffer) && Owner(out[j]) && out[j].shape == shape && Read(out[j].data) == Zeros(Product(shape))
      invariant forall j, k :: 0 <= j < k < |out| ==> out[j].data.buffer != out[k].data.buffer
    {
      var t := NewTensor(shape, [], false);
      out := out + [t];
    }
  }

  /** The copy loops of split (math.ts:118-129) over the chunks' buffers: chunk j receives, for
      each of the `rows` rows of the source, the run of c elements at RowStart(j, c) of that row.
      The source visits row by row and, inside a row, chunk by chunk; the chunks are visited here
      one after the other instead, which writes the same runs to the same places. */
  method SplitCopy(a: Span, bufs: seq<array<real>>, stride: nat, c: nat, ghost rows: nat)
    requires InBounds(a) && 0 < c && a.length == RowStart(rows, stride) && RowStart(|bufs|, c) == stride
    requires forall j :: 0 <= j < |bufs| ==> bufs[j].Length == RowStart(rows, c) && bufs[j] != a.buffer
    requires forall j, k :: 0 <= j < k < |bufs| ==> bufs[j] != bufs[k]
    modifies set j | 0 <= j < |bufs| :: bufs[j]
    ensures forall j :: 0 <= j < |bufs| ==>
      RowStart(j, c) + c <= stride && bufs[j][..] == ChunkRows(old(Read(a)), stride, c, j, rows)
  {
    ghost var D := Read(a);
    // With stride 0 the source divides 0 by 0, and a NaN bound runs no rows.
    var macroChunks := if stride == 0 then 0 else a.length / stride;
    if stride > 0 {
      RowsOfLength(rows, stride);
    }
    RowsFit(|bufs|, c);
    var j := 0;
    while j < |bufs|
      invariant 0 <= j <= |bufs| && Read(a) == D
      invariant forall k :: 0 <= k < j ==> bufs[k][..] == ChunkRows(D, stride, c, k, rows)
    {
      FillChunk(a, bufs, j, macroChunks, c, D, stride, rows);
      j := j + 1;
    }
  }

  /** Chunk j receives all of its runs; every other chunk, and the source, keep their elements. */
  method FillChunk(a: Span, bufs: seq<array<real>>, j: nat, macroChunks: nat, c: nat,
                   ghost D: seq<real>, S: nat, ghost rows: nat)
    requires InBounds(a) && Read(a) == D && |D| == RowStart(rows, S) && j < |bufs| && macroChunks == rows
    requires RowStart(j, c) + c <= S
    requires forall k :: 0 <= k < |bufs| ==> bufs[k].Length == RowStart(rows, c) && bufs[k] != a.buffer
    requires forall k, l :: 0 <= k < l < |bufs| ==> bufs[k] != bufs[l]
    requires forall k :: 0 <= k < j ==> bufs[k][..] == ChunkRows(D, S, c, k, rows)
    modifies bufs[j]
    ensures Read(a) == D
    ensures forall k :: 0 <= k < j + 1 ==> bufs[k][..] == ChunkRows(D, S, c, k, rows)
  {
    label L:
    CopyChunk(a, bufs[j], j, macroChunks, c, D, S, rows);
    forall k | 0 <= k < j
      ensures bufs[k][..] == old@L(bufs[k][..])
    {
      assert bufs[k] != bufs[j];
    }
  }

  /** The writes of split's loops into chunk j (math.ts:125-127): row after row, the run of c
      elements at RowStart(j, c) of row i of the source goes to RowStart(i, c) of the chunk. */
  method CopyChunk(a: Span, dst: array<real>, j: nat, macroChunks: nat, c: nat,
                   ghost D: seq<real>, S: nat, ghost rows: nat)
    requires InBounds(a) && dst != a.buffer && Read(a) == D && |D| == RowStart(rows, S) && macroChunks == rows
    requires RowStart(j, c) + c <= S && dst.Length == RowStart(rows, c)
    modifies dst
    ensures Read(a) == D && dst[..] == ChunkRows(D, S, c, j, rows)
  {
    var outOffset := 0;
    var sourceOffset := RowStart(j, c);
    var i := 0;
    while i < macroChunks
      invariant 0 <= i <= rows && Read(a) == D
      invariant outOffset == RowStart(i, c) && sourceOffset == RowStart(i, S) + RowStart(j, c)
      invariant outOffset <= dst.Length && dst[..outOffset] == ChunkRows(D, S, c, j, i)
    {
      assert outOffset + c == RowStart(i + 1, c) <= dst.Length by {
        RowStartNext(i, c);
        RowStartMono(i + 1, rows, c);
      }
      assert RowStart(i, S) + S == RowStart(i + 1, S) <= |D| by {
        RowStartNext(i, S);
        RowStartMono(i + 1, rows, S);
      }
      SplitStep(a, dst, outOffset, sourceOffset, c, D, S, i, j);
      outOffset := outOffset + c;
      sourceOffset := sourceOffset + S;
      i := i + 1;
    }
    assert dst[..outOffset] == dst[..];
  }

  /** One step of split's inner loop (math.ts:125-127): the run of c elements of row i that
      belongs to chunk j is appended to that chunk, after the i rows it already holds. */
  method SplitStep(a: Span, dst: array<real>, at: nat, from: nat, c: nat,
                   ghost D: seq<real>, ghost S: nat, ghost i: nat, ghost j: nat)
    requires InBounds(a) && dst != a.buffer && Read(a) == D
    requires from == RowStart(i, S) + RowStart(j, c) && from + c <= |D|
    requires at + c <= dst.Length && dst[..at] == ChunkRows(D, S, c, j, i)
    modifies dst
    ensures dst[..at + c] == ChunkRows(D, S, c, j, i + 1)
  {
    var run := Slice(a, from, from + c);
    assert |run| == c && ChunkRows(D, S, c, j, i + 1) == ChunkRows(D, S, c, j, i) + run by {
      ChunkRowsNext(D, S, c, j, i);
      RunOfElements(run, D, from, c);
    }
    AppendRun(dst, run, at, ChunkRows(D, S, c, j, i));
  }

  /** merge(a, mergedSize) (math.ts:134-158): the inverse of split. The chunks, which the
      TypeScript signature gives one common shape, are laid side by side along the last
      dimension. An empty list fails on a[0]; an empty shape or a zero chunk makes
      `mergedSize % chunk` NaN, which throws. The source allocates the output before the size
      check; that allocation is unobservable and is done after it here. */
  method Merge(a: seq<Tensor>, mergedSize: nat) returns (r: Result<Tensor>)
    requires forall j :: 0 <= j < |a| ==> Valid(a[j]) && a[j].shape == a[0].shape
    ensures forall j :: 0 <= j < |a| ==> InBounds(a[j].data)
    ensures |a| == 0 ==> r == Err(EmptyChunkList)
    ensures |a| > 0 ==> (r.Err? <==>
      |a[0].shape| == 0 || a[0].shape[|a[0].shape| - 1] == 0 || mergedSize != a[0].shape[|a[0].shape| - 1] * |a|)
    ensures |a| > 0 && r.Err? ==> r.error == InvalidMergedSize
    ensures r.Ok? ==> |a| > 0 && |a[0].shape| > 0 && a[0].shape[|a[0].shape| - 1] > 0
    ensures r.Ok? ==>
      var shape := a[0].shape;
      var chunk := shape[|shape| - 1];
      && fresh(r.value.data.buffer) && Owner(r.value) && r.value.shape == shape[..|shape| - 1] + [mergedSize]
      && SameChunkShape(Contents(a), LeadingRows(shape), chunk)
      && Read(r.value.data) == MergeSpec(Contents(a), LeadingRows(shape), chunk)
  {
    if |a| == 0 {
      return Err(EmptyChunkList);
    }
    var shape := a[0].shape;
    if |shape| == 0 {
      return Err(InvalidMergedSize);
    }
    var chunk := shape[|shape| - 1];
    if chunk == 0 || mergedSize % chunk != 0 || mergedSize != chunk * |a| {
      if chunk > 0 && mergedSize == chunk * |a| {
        CellOfOffset(|a|, 0, chunk);
      }
      return Err(InvalidMergedSize);
    }
    var out := MergeChecked(a, mergedSize, shape, chunk);
    return Ok(out);
  }

  /** merge(split(a, c), S) gives back a, for a last dimension S > 0 that c divides: the round
      trip attention relies on when it splits the heads and merges them again. */
  method SplitThenMerge(a: Tensor, c: nat) returns (r: Result<Tensor>)
    requires Valid(a) && |a.shape| > 0 && 0 < c && 0 < a.shape[|a.shape| - 1] && a.shape[|a.shape| - 1] % c == 0
    ensures r.Ok? && Owner(r.value) && r.value.shape == a.shape && Read(r.value.data) == Read(a.data)
  {
    var S := a.shape[|a.shape| - 1];
    var rows := LeadingRows(a.shape);
    var prefix := a.shape[..|a.shape| - 1];
    assert prefix + [S] == a.shape;
    assert (prefix + [c])[..|prefix|] == prefix;
    ExactQuotient(S, c);
    Layout.MergeSplit(Read(a.data), rows, S, c);
    var chunks := Split(a, c);
    var ch := chunks.value;
    forall j | 0 <= j < |ch| ensures Valid(ch[j]) && ch[j].shape == ch[0].shape {}
    ContentsAre(ch, SplitSpec(Read(a.data), rows, S, c));
    r := Merge(ch, S);
  }

  /** The allocation and copy of merge (math.ts:140, 143-155), once the sizes are known to fit:
      a fresh tensor of the chunks' shape, with mergedSize as its last dimension, holding the
      chunks laid side by side. */
  method MergeChecked(a: seq<Tensor>, mergedSize: nat, shape: seq<nat>, chunk: nat) returns (out: Tensor)
    requires 0 < |a| && forall j :: 0 <= j < |a| ==> Valid(a[j]) && a[j].shape == shape
    requires 0 < |shape| && chunk == shape[|shape| - 1] && 0 < chunk && mergedSize == chunk * |a|
    ensures forall j :: 0 <= j < |a| ==> InBounds(a[j].data)
    ensures fresh(out.data.buffer) && Owner(out) && out.shape == shape[..|shape| - 1] + [mergedSize]
    ensures SameChunkShape(Contents(a), LeadingRows(shape), chunk)
    ensures Read(out.data) == MergeSpec(Contents(a), LeadingRows(shape), chunk)
  {
    var prefix := shape[..|shape| - 1];
    ghost var rows := LeadingRows(shape);
    assert Product(prefix + [mergedSize]) == RowStart(rows, mergedSize) by {
      ReplaceLast(shape, mergedSize);
      RowStartIsProduct(rows, mergedSize);
    }
    assert mergedSize == RowStart(|a|, chunk) && Product(shape) == RowStart(rows, chunk) by {
      RowStartIsProduct(|a|, chunk);
      RowStartIsProduct(rows, chunk);
    }
    ghost var ch := Contents(a);
    assert SameChunkShape(ch, rows, chunk) by {
      RowStartIsProduct(rows, chunk);
    }
    out := NewTensor(prefix + [mergedSize], [], false);
    MergeCopy(out.data.buffer, a, chunk, mergedSize, rows, ch);
    MergeRowsAreMerge(ch, rows, chunk);
    assert Read(out.data) == out.data.buffer[..];
  }

  /** The copy loops of merge (math.ts:143-155) over the output's buffer: row after row, the
      next run of chunk elements of each input in turn is appended to the output. */
  method MergeCopy(out: array<real>, a: seq<Tensor>, chunk: nat, mergedSize: nat, ghost rows: nat, ghost ch: seq<seq<real>>)
    requires 0 < chunk && 0 < |a| && mergedSize == RowStart(|a|, chunk) && out.Length == RowStart(rows, mergedSize)
    requires |ch| == |a| && forall k :: 0 <= k < |a| ==>
      InBounds(a[k].data) && a[k].data.length == RowStart(rows, chunk) && a[k].data.buffer != out && Read(a[k].data) == ch[k]
    modifies out
    ensures out[..] == MergeRows(ch, chunk, rows)
  {
    var inOffsets := seq(|a|, _ => 0);
    var outOffset := 0;
    var macroChunks := out.Length / mergedSize;
    assert macroChunks == rows by {
      RowStartIsProduct(|a|, chunk);
      RowStartIsProduct(rows, mergedSize);
      CellOfOffset(rows, 0, mergedSize);
    }
    var i := 0;
    ghost var done := 0;
    while i < macroChunks
      invariant 0 <= i <= macroChunks == rows
      invariant done == RowStart(i, chunk) && done <= RowStart(rows, chunk)
      invariant outOffset == RowStart(i, mergedSize) && outOffset <= out.Length
      invariant |inOffsets| == |a| && forall k :: 0 <= k < |a| ==> inOffsets[k] == done
      invariant out[..outOffset] == MergeRows(ch, chunk, i)
    {
      assert RowStart(i + 1, chunk) <= RowStart(rows, chunk) && RowStart(i + 1, mergedSize) <= out.Length by {
        RowStartMono(i + 1, rows, chunk);
        RowStartMono(i + 1, rows, mergedSize);
      }
      outOffset, inOffsets := MergePass(out, a, inOffsets, outOffset, chunk, ch, i, done);
      i := i + 1;
      done := done + chunk;
    }
    assert out[..outOffset] == out[..];
  }

  /** One pass of merge's inner loop (math.ts:149-154) over row i: the next run of c elements of
      each input in turn is appended to the output at outOffset. */
  method MergePass(out: array<real>, a: seq<Tensor>, inOffsets: seq<nat>, outOffset: nat, c: nat,
                   ghost ch: seq<seq<real>>, ghost i: nat, ghost done: nat)
    returns (outOffset': nat, inOffsets': seq<nat>)
    requires |ch| == |a| == |inOffsets| && done == RowStart(i, c)
    requires outOffset == RowStart(i, RowStart(|a|, c)) && RowStart(i + 1, RowStart(|a|, c)) <= out.Length
    requires forall k :: 0 <= k < |a| ==>
      InBounds(a[k].data) && a[k].data.buffer != out && inOffsets[k] == done && Read(a[k].data) == ch[k] && done + c <= |ch[k]|
    requires out[..outOffset] == MergeRows(ch, c, i)
    modifies out
    ensures outOffset' == outOffset + RowStart(|a|, c) && |inOffsets'| == |a|
    ensures forall k :: 0 <= k < |a| ==> inOffsets'[k] == done + c
    ensures out[..outOffset'] == MergeRows(ch, c, i + 1)
  {
    outOffset', inOffsets' := outOffset, inOffsets;
    var j := 0;
    while j < |a|
      invariant 0 <= j <= |a| && |inOffsets'| == |a|
      invariant outOffset' == outOffset + RowStart(j, c) && outOffset' <= out.Length
      invariant forall k :: 0 <= k < |a| ==> inOffsets'[k] == if k < j then done + c else done
      invariant out[..outOffset'] == MergePrefix(ch, c, i, j)
    {
      assert outOffset' + c <= out.Length by {
        RowStartMono(j + 1, |a|, c);
      }
      MergeStep(out, a[j].data, outOffset', inOffsets'[j], c, ch, i, j);
      inOffsets' := inOffsets'[j := inOffsets'[j] + c];
      outOffset' := outOffset' + c;
      RowStartNext(j, c);
      j := j + 1;
    }
    MergeRowsNext(ch, c, i);
  }

  /** One step of merge's inner loop (math.ts:151-153): row i of chunk j, the run of c elements at
      `from` of src, is appended to the output at `at`. */
  method MergeStep(out: array<real>, src: Span, at: nat, from: nat, c: nat, ghost ch: seq<seq<real>>, ghost i: nat, ghost j: nat)
    requires InBounds(src) && src.buffer != out && j < |ch| && Read(src) == ch[j]
    requires from == RowStart(i, c) && from + c <= |ch[j]| && at + c <= out.Length
    requires out[..at] == MergePrefix(ch, c, i, j)
    modifies out
    ensures out[..at + c] == MergePrefix(ch, c, i, j + 1)
  {
    var run := Slice(src, from, from + c);
    assert |run| == c && MergePrefix(ch, c, i, j + 1) == MergePrefix(ch, c, i, j) + run by {
      MergePrefixNext(ch, c, i, j);
      RunOfElements(run, ch[j], from, c);
    }
    AppendRun(out, run, at, MergePrefix(ch, c, i, j));
  }

  /** linear(activations, weights, bias) (math.ts:201-217): x times w, then every row of the
      result is overwritten in place, through a getSlice view, by its sum with bias. */
  method Linear(x: Tensor, w: Tensor, bias: Tensor) returns (out: Tensor)
    requires Valid(x) && Valid(w) && Valid(bias)
    requires |x.shape| == 2 && |w.shape| == 2 && x.shape[1] == w.shape[0] && bias.shape == [w.shape[1]]
    ensures fresh(out.data.buffer) && Owner(out) && out.shape == [x.shape[0], w.shape[1]]
    ensures |Read(w.data)| == x.shape[1] * |Read(bias.data)|
    ensures Read(out.data) == LinearSpec(Read(x.data), Read(w.data), Read(bias.data), x.shape[0], x.shape[1])
  {
    out := MultiplyMatrix(x, w);
    assert |Read(bias.data)| == w.shape[1] by {
      assert Product(bias.shape) == w.shape[1];
    }
    AddBiasRows(out, bias);
  }

  /** The row loop of linear (math.ts:211-214): every row of out, in turn, is replaced by its sum
      with bias. */
  method AddBiasRows(out: Tensor, bias: Tensor)
    requires Owner(out) && |out.shape| == 2
    requires Valid(bias) && bias.shape == [out.shape[1]] && bias.data.buffer != out.data.buffer
    modifies out.data.buffer
    ensures |Read(bias.data)| == out.shape[1]
    ensures Read(out.data) == AddToRows(old(Read(out.data)), Read(bias.data), out.shape[0])
  {
    var X, Z := out.shape[0], out.shape[1];
    ghost var B, M := Read(bias.data), Read(out.data);
    assert |B| == Z && |M| == X * Z;
    var i := 0;
    ghost var at := 0;
    while i < X
      invariant 0 <= i <= X && at == RowStart(i, Z)
      invariant Read(bias.data) == B
      invariant Read(out.data) == BiasedRows(M, B, i)
    {
      AddBiasToRow(out, i, bias, at);
      BiasedRowsNext(M, B, i);
      RowStartNext(i, Z);
      i := i + 1;
      at := at + Z;
    }
    BiasedRowsAreAddToRows(M, B, X);
  }

  /** One pass of linear's loop (math.ts:212-213): row i of out, which starts at `at`, is seen
      through a getSlice view and overwritten by its sum with bias; the rest of the buffer keeps
      its values. */
  method AddBiasToRow(out: Tensor, i: nat, bias: Tensor, ghost at: nat)
    requires Owner(out) && |out.shape| == 2 && i < out.shape[0] && at == RowStart(i, out.shape[1])
    requires Valid(bias) && bias.shape == [out.shape[1]] && bias.data.buffer != out.data.buffer
    modifies out.data.buffer
    ensures Read(bias.data) == old(Read(bias.data))
    ensures Read(out.data) == AddRow(old(Read(out.data)), Read(bias.data), at)
  {
    ghost var Z := out.shape[1];
    ghost var before := Read(out.data);
    RowOfOwner(out, i);
    var s := GetSlice(out, i).value;
    AddInPlace(s, bias);
    ghost var after := AddRow(before, Read(bias.data), at);
    forall p | 0 <= p < |before|
      ensures Read(out.data)[p] == after[p]
    {
      if at <= p < at + Z {
        assert Read(s.data)[p - at] == Read(out.data)[p];
        assert old(Read(s.data))[p - at] == before[p];
      } else {
        assert out.data.buffer[p] == old(out.data.buffer[p]);
      }
    }
  }

  /** Row i of a 2-d tensor that owns its buffer, as getSlice views it: the Z elements from
      RowStart(i, Z) on, in the same buffer. */
  lemma RowOfOwner(out: Tensor, i: nat)
    requires Owner(out) && |out.shape| == 2 && i < out.shape[0]
    ensures GetSlice(out, i).Ok?
    ensures var s, Z := GetSlice(out, i).value, out.shape[1];
      && Valid(s) && s.shape == [Z] && s.data == Span(out.data.buffer, RowStart(i, Z), Z)
      && RowStart(i, Z) + Z <= out.data.buffer.Length
  {
    var Z := out.shape[1];
    RowStartIsProduct(i, Z);
    SliceOfOwner(out, i);
    assert out.shape[1..] == [Z] && Product([Z]) == Z;
  }

  /** s.data.set(addMatrix(s, bias).data) (math.ts:213): the span of s is overwritten by its sum
      with bias; the rest of its buffer, and bias, keep their values. */
  method AddInPlace(s: Tensor, bias: Tensor)
    requires Valid(s) && Valid(bias) && s.shape == bias.shape && bias.data.buffer != s.data.buffer
    modifies s.data.buffer
    ensures Read(bias.data) == old(Read(bias.data))
    ensures Read(s.data) == AddSeq(old(Read(s.data)), Read(bias.data))
    ensures forall k :: 0 <= k < s.data.buffer.Length && !(s.data.offset <= k < s.data.offset + s.data.length) ==>
      s.data.buffer[k] == old(s.data.buffer[k])
  {
    var sum := AddMatrix(s, bias);
    Set(s.data, Read(sum.data), 0);
    assert old(Read(s.data))[..0] == [] && old(Read(s.data))[s.data.length..] == [];
  }

  /** A Set over a whole buffer that extends a known prefix: when the first `at` elements of dst
      are `prefix`, then afterwards the first at + |src| elements are prefix followed by src. */
  method AppendRun(dst: array<real>, src: seq<real>, at: nat, ghost prefix: seq<real>)
    requires at + |src| <= dst.Length && dst[..at] == prefix
    modifies dst
    ensures dst[..at + |src|] == prefix + src
  {
    ghost var before := dst[..];
    Set(Span(dst, 0, dst.Length), src, at);
    assert dst[..at + |src|] == before[..at] + src;
  }
}
