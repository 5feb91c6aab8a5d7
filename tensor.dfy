/** The tensor type of math.ts: a Float32Array (a window onto a heap buffer) plus a shape, and
    the primitive operations that allocate, view, copy and update tensors. */
module Tensors {
  import opened RowMajor
  import opened Layout
  import opened Outcomes

  /** A Float32Array: `length` elements of `buffer` starting at element `offset` (the array's
      byteOffset divided by 4). Several spans may share one buffer; that sharing is how views
      alias their owner. */
  datatype Span = Span(buffer: array<real>, offset: nat, length: nat)

  /** A tensor: its data and its shape (math.ts:26-29). */
  datatype Tensor = Tensor(data: Span, shape: seq<nat>)

  predicate InBounds(s: Span)
  {
    s.offset + s.length <= s.buffer.Length
  }

  /** The tensor invariant: the data fits its buffer and holds product(shape) elements. */
  predicate Valid(t: Tensor)
  {
    InBounds(t.data) && t.data.length == Product(t.shape)
  }

  /** A tensor that owns its whole buffer, as tensor() makes them. */
  predicate Owner(t: Tensor)
  {
    Valid(t) && t.data.offset == 0 && t.data.length == t.data.buffer.Length
  }

  /** The elements currently visible through a span. */
  function Read(s: Span): (r: seq<real>)
    reads s.buffer
    requires InBounds(s)
    ensures |r| == s.length
  {
    s.buffer[s.offset..s.offset + s.length]
  }

  /** The elements of each of several tensors, in order. */
  function Contents(ts: seq<Tensor>): (r: seq<seq<real>>)
    reads set k | 0 <= k < |ts| :: ts[k].data.buffer
    requires forall k :: 0 <= k < |ts| ==> InBounds(ts[k].data)
    ensures |r| == |ts| && forall k :: 0 <= k < |ts| ==> r[k] == Read(ts[k].data)
  {
    if |ts| == 0 then [] else Contents(ts[..|ts| - 1]) + [Read(ts[|ts| - 1].data)]
  }

  /** Tensors whose elements are, one by one, the given sequences have those as Contents. */
  lemma ContentsAre(ts: seq<Tensor>, want: seq<seq<real>>)
    requires forall k :: 0 <= k < |ts| ==> InBounds(ts[k].data)
    requires |ts| == |want| && forall k :: 0 <= k < |ts| ==> Read(ts[k].data) == want[k]
    ensures Contents(ts) == want
  {
  }

  /** Dimensions after the first; [].slice(1) is [] in the source. */
  function Tail(shape: seq<nat>): seq<nat>
  {
    if |shape| == 0 then [] else shape[1..]
  }

  function Zeros(n: nat): (r: seq<real>)
    ensures |r| == n && forall i :: 0 <= i < n ==> r[i] == 0.0
  {
    seq(n, _ => 0.0)
  }

  /** tensor(d, init) (math.ts:31-39): a fresh Float32Array holding a copy of init when init is
      given, and product(d) zeros otherwise. The source does not compare |init| with product(d),
      so the tensor invariant holds exactly when they agree. */
  method NewTensor(shape: seq<nat>, init: seq<real>, hasInit: bool) returns (t: Tensor)
    ensures fresh(t.data.buffer) && t.data.offset == 0 && t.data.length == t.data.buffer.Length
    ensures t.shape == shape
    ensures Read(t.data) == if hasInit then init else Zeros(Product(shape))
    ensures Owner(t) <==> !hasInit || |init| == Product(shape)
  {
    var values := if hasInit then init else Zeros(Product(shape));
    var buffer := new real[|values|](i requires 0 <= i < |values| => values[i]);
    t := Tensor(Span(buffer, 0, buffer.Length), shape);
    assert Read(t.data) == buffer[..];
  }

  /** TypedArray.prototype.set(src, at): overwrites elements at .. at + |src| of the span and
      nothing else of its buffer. With |src| > length - at the browser raises a RangeError; every
      call in the core is typed so that this cannot happen, which is the precondition here. */
  method Set(dst: Span, src: seq<real>, at: nat)
    requires InBounds(dst) && at + |src| <= dst.length
    modifies dst.buffer
    ensures Read(dst) == old(Read(dst))[..at] + src + old(Read(dst))[at + |src|..]
    ensures forall k :: 0 <= k < dst.buffer.Length && !(dst.offset + at <= k < dst.offset + at + |src|) ==>
      dst.buffer[k] == old(dst.buffer[k])
  {
    ghost var before := Read(dst);
    forall k | 0 <= k < |src| {
      dst.buffer[dst.offset + at + k] := src[k];
    }
    ghost var spliced := before[..at] + src + before[at + |src|..];
    forall k | 0 <= k < dst.length
      ensures Read(dst)[k] == spliced[k]
    {
      if k < at {
        assert spliced[k] == before[k];
      } else if k < at + |src| {
        assert spliced[k] == src[k - at];
      } else {
        assert spliced[k] == before[k];
      }
    }
    assert Read(dst) == spliced;
  }

  /** TypedArray.prototype.slice(from, to): a copy of elements from .. to of the span, with both
      bounds clamped to its length (an empty copy when they cross). */
  method Slice(s: Span, from: nat, to: nat) returns (r: seq<real>)
    requires InBounds(s)
    ensures var hi := if to < s.length then to else s.length;
      var lo := if from < hi then from else hi;
      |r| == hi - lo && forall k :: 0 <= k < |r| ==> r[k] == Read(s)[lo + k]
  {
    var hi := if to < s.length then to else s.length;
    var lo := if from < hi then from else hi;
    r := s.buffer[s.offset + lo..s.offset + hi];
  }

  /** getSlice(a, idx) with the view placed at idx * stride after the start of a's own data.
      This is what getSlice means to do; GetSliceAsWritten is the source's expression, which
      forgets a's offset. The Float32Array constructor raises a RangeError when the window does
      not fit the buffer; nothing compares idx with shape[0]. */
  function GetSlice(a: Tensor, idx: int): (r: Result<Tensor>)
    ensures r.Err? ==> r.error == RangeError
    ensures r.Ok? ==> Valid(r.value) && r.value.shape == Tail(a.shape) && r.value.data.buffer == a.data.buffer
  {
    var stride := Product(Tail(a.shape));
    var start := a.data.offset + idx * stride;
    if start < 0 || start + stride > a.data.buffer.Length then Err(RangeError)
    else Ok(Tensor(Span(a.data.buffer, start, stride), Tail(a.shape)))
  }

  /** getSlice exactly as written (math.ts:187-194): the view starts at element idx * stride of
      the whole buffer, whatever a's own offset. */
  function GetSliceAsWritten(a: Tensor, idx: int): (r: Result<Tensor>)
    ensures r.Err? ==> r.error == RangeError
    ensures r.Ok? ==> Valid(r.value) && r.value.shape == Tail(a.shape) && r.value.data.buffer == a.data.buffer
  {
    var stride := Product(Tail(a.shape));
    var start := idx * stride;
    if start < 0 || start + stride > a.data.buffer.Length then Err(RangeError)
    else Ok(Tensor(Span(a.data.buffer, start, stride), Tail(a.shape)))
  }

  lemma ProductCons(shape: seq<nat>)
    requires |shape| > 0
    ensures Product(shape) == shape[0] * Product(Tail(shape))
  {
  }

  /** On a tensor that owns its buffer, slicing fails exactly when idx is outside the first
      dimension (for rows that are not empty). */
  lemma SliceOfOwnerFails(a: Tensor, idx: int)
    requires Owner(a) && |a.shape| > 0 && Product(a.shape[1..]) > 0
    ensures GetSlice(a, idx).Ok? <==> 0 <= idx < a.shape[0]
  {
    var stride := Product(a.shape[1..]);
    ProductCons(a.shape);
    assert a.data.buffer.Length >= a.shape[0] * stride;
    if 0 <= idx < a.shape[0] {
      RowFits(idx, a.shape[0], stride);
    } else if idx >= a.shape[0] {
      MulLeft(a.shape[0], idx, stride);
      assert idx * stride + stride > a.shape[0] * stride;
    } else {
      assert idx * stride < 0;
    }
  }

  /** On a tensor that owns its buffer, the slice at an index inside the first dimension is a
      valid tensor of the remaining dimensions, placed at idx * stride of the shared buffer, and
      its elements are exactly row idx of the owner. */
  lemma SliceOfOwner(a: Tensor, idx: int)
    requires Owner(a) && |a.shape| > 0 && 0 <= idx < a.shape[0]
    ensures GetSlice(a, idx).Ok?
    ensures var v, stride := GetSlice(a, idx).value, Product(a.shape[1..]);
      && Valid(v) && v.shape == a.shape[1..]
      && v.data.buffer == a.data.buffer && v.data.offset == idx * stride && v.data.length == stride
      && idx * stride + stride <= |Read(a.data)|
      && Read(v.data) == Read(a.data)[idx * stride..idx * stride + stride]
  {
    var stride := Product(a.shape[1..]);
    ProductCons(a.shape);
    RowFits(idx, a.shape[0], stride);
    assert Tail(a.shape) == a.shape[1..];
  }

  /** With the view's own offset taken into account, slicing any valid tensor (a view
      included) at an index inside the first dimension reads exactly row idx of its elements. */
  lemma SliceOfView(a: Tensor, idx: int)
    requires Valid(a) && |a.shape| > 0 && 0 <= idx < a.shape[0]
    ensures GetSlice(a, idx).Ok?
    ensures var v, stride := GetSlice(a, idx).value, Product(a.shape[1..]);
      && Valid(v) && v.shape == a.shape[1..]
      && v.data.buffer == a.data.buffer && v.data.offset == a.data.offset + idx * stride
      && idx * stride + stride <= |Read(a.data)|
      && Read(v.data) == Read(a.data)[idx * stride..idx * stride + stride]
  {
    var stride := Product(a.shape[1..]);
    ProductCons(a.shape);
    RowFits(idx, a.shape[0], stride);
    assert Tail(a.shape) == a.shape[1..];
    WindowOfWindow(a.data.buffer, a.data.offset, a.data.length, idx * stride, idx * stride + stride);
  }

  /** A window of the elements of a span is the window of its buffer shifted by the offset. */
  lemma WindowOfWindow(b: array<real>, offset: nat, length: nat, lo: nat, hi: nat)
    requires offset + length <= b.Length && lo <= hi <= length
    ensures b[offset..offset + length][lo..hi] == b[offset + lo..offset + hi]
  {
    var w := b[offset..offset + length][lo..hi];
    forall k | 0 <= k < hi - lo
      ensures w[k] == b[offset + lo..offset + hi][k]
    {
      assert w[k] == b[offset + lo + k];
    }
  }

  /** The source's getSlice and the intended one agree on every tensor that owns its buffer,
      which is every tensor the core slices. */
  lemma SliceAsWrittenOnOwners(a: Tensor, idx: int)
    requires a.data.offset == 0
    ensures GetSliceAsWritten(a, idx) == GetSlice(a, idx)
  {
  }

  /** A slice of a slice, as written, reads the wrong row: in a [2, 2, 1] tensor, element [1][0]
      is buffer[2], but getSlice(getSlice(a, 1), 0) looks at buffer[0]. */
  lemma SliceOfSliceAsWrittenMisses(buffer: array<real>)
    requires buffer.Length == 4 && buffer[0] != buffer[2]
    ensures var a := Tensor(Span(buffer, 0, 4), [2, 2, 1]);
      && GetSlice(a, 1).Ok?
      && var row := GetSlice(a, 1).value;
      && GetSliceAsWritten(row, 0).Ok? && GetSlice(row, 0).Ok?
      && InBounds(GetSliceAsWritten(row, 0).value.data) && InBounds(GetSlice(row, 0).value.data)
      && Read(GetSlice(row, 0).value.data) == [buffer[2]]
      && Read(GetSliceAsWritten(row, 0).value.data) == [buffer[0]]
  {
    var a := Tensor(Span(buffer, 0, 4), [2, 2, 1]);
    assert Product([1]) == 1;
    assert Product([2, 1]) == 2;
    var row := GetSlice(a, 1).value;
    assert row.data.offset == 2;
  }

  /** copy({from, to}) (math.ts:197-199): to's elements become from's; nothing else of to's
      buffer changes. The TypeScript signature gives both the same shape. */
  method Copy(from: Tensor, to: Tensor)
    requires Valid(from) && Valid(to) && from.shape == to.shape
    modifies to.data.buffer
    ensures Read(to.data) == old(Read(from.data))
    ensures forall k :: 0 <= k < to.data.buffer.Length && !(to.data.offset <= k < to.data.offset + to.data.length) ==>
      to.data.buffer[k] == old(to.data.buffer[k])
  {
    Set(to.data, Read(from.data), 0);
  }

  /** mapInPlace(a, fn) (math.ts:89-92): every element of a is replaced by fn of itself, the rest
      of the buffer is untouched, and the same tensor is returned. */
  method MapInPlace(a: Tensor, fn: real -> real) returns (r: Tensor)
    requires Valid(a)
    modifies a.data.buffer
    ensures r == a
    ensures Read(a.data) == MapSeq(fn, old(Read(a.data)))
    ensures forall k :: 0 <= k < a.data.buffer.Length && !(a.data.offset <= k < a.data.offset + a.data.length) ==>
      a.data.buffer[k] == old(a.data.buffer[k])
  {
    Set(a.data, MapSeq(fn, Read(a.data)), 0);
    r := a;
  }

  /** addMatrix(a, b) (math.ts:170-175): a fresh buffer of elementwise sums, with a's shape. The
      TypeScript signature gives a and b the same shape. */
  method AddMatrix(a: Tensor, b: Tensor) returns (r: Tensor)
    requires Valid(a) && Valid(b) && a.shape == b.shape
    ensures fresh(r.data.buffer) && Owner(r) && r.shape == a.shape
    ensures Read(r.data) == AddSeq(Read(a.data), Read(b.data))
  {
    var x, y := Read(a.data), Read(b.data);
    var buffer := new real[|x|](i requires 0 <= i < |x| => x[i] + y[i]);
    r := Tensor(Span(buffer, 0, |x|), a.shape);
    assert Read(r.data) == buffer[..];
  }

  /** unsqueeze(a) (math.ts:81-87): the same data under the shape [1] + a.shape; a valid
      tensor stays valid and shows the same elements. */
  function Unsqueeze(a: Tensor): (r: Tensor)
    reads a.data.buffer
    ensures r.shape == [1] + a.shape && r.data == a.data
    ensures Valid(a) ==> Valid(r) && Read(r.data) == Read(a.data)
  {
    var r := Tensor(a.data, [1] + a.shape);
    assert r.shape[1..] == a.shape;
    r
  }

}
