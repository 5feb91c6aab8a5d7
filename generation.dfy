/** The generation loop of main.ts (main.ts:25-38, 95-111): the embedding of the token sequence,
    the greedy choice of the next token, and the 100 steps that append one token each. The
    transformer between embedding and logits is a parameter. */
module Generation {
  import opened RowMajor
  import opened Layout
  import opened Outcomes
  import opened Tensors
  import opened Kernels

  // ---------------------------------------------------------------------------------------
  // Embedding (main.ts:30-38)

  /** Cell c of row r of a row-major block whose rows are E wide. */
  function Cell(r: nat, c: nat, E: nat): nat
  {
    RowStart(r, E) + c
  }

  /** Row t of a block of `rows` rows, each E wide, lies inside it. */
  predicate RowFitsIn(t: nat, rows: nat, E: nat)
  {
    RowStart(t, E) + E <= RowStart(rows, E)
  }

  /** The first n tokens name rows of the token table (V rows) and their positions name rows of
      the position table (S rows). */
  predicate FitsBefore(tokens: seq<nat>, V: nat, S: nat, E: nat, n: nat)
    requires n <= |tokens|
  {
    n == 0 || (FitsBefore(tokens, V, S, E, n - 1) && RowFitsIn(tokens[n - 1], V, E) && RowFitsIn(n - 1, S, E))
  }

  predicate EmbeddingFits(tokens: seq<nat>, V: nat, S: nat, E: nat)
  {
    FitsBefore(tokens, V, S, E, |tokens|)
  }

  /** Each of the first n tokens and positions has its row. */
  lemma {:induction false} FitsBeforeAt(tokens: seq<nat>, V: nat, S: nat, E: nat, n: nat, j: nat)
    requires j < n <= |tokens|
    ensures FitsBefore(tokens, V, S, E, n) ==> RowFitsIn(tokens[j], V, E) && RowFitsIn(j, S, E)
  {
    if j < n - 1 {
      FitsBeforeAt(tokens, V, S, E, n - 1, j);
    }
  }

  /** With non-empty rows, a row fits exactly when its index is below the row count. */
  lemma RowFitsInIff(t: nat, rows: nat, E: nat)
    requires E > 0
    ensures RowFitsIn(t, rows, E) <==> t < rows
  {
    RowStartNext(t, E);
    if t < rows {
      RowStartMono(t + 1, rows, E);
    } else {
      RowStartMono(rows, t, E);
    }
  }

  lemma {:induction false} FitsBeforeIff(tokens: seq<nat>, V: nat, S: nat, E: nat, n: nat)
    requires E > 0 && n <= |tokens|
    ensures FitsBefore(tokens, V, S, E, n) <==> (forall i :: 0 <= i < n ==> tokens[i] < V) && n <= S
  {
    if n > 0 {
      FitsBeforeIff(tokens, V, S, E, n - 1);
      RowFitsInIff(tokens[n - 1], V, E);
      RowFitsInIff(n - 1, S, E);
    }
  }

  /** The embedding fits exactly when every token is below the vocabulary size V and the
      sequence is no longer than the S positions of the position table. */
  lemma EmbeddingFitsIff(tokens: seq<nat>, V: nat, S: nat, E: nat)
    requires E > 0
    ensures EmbeddingFits(tokens, V, S, E) <==> (forall i :: 0 <= i < |tokens| ==> tokens[i] < V) && |tokens| <= S
  {
    FitsBeforeIff(tokens, V, S, E, |tokens|);
  }

  /** cur with the |row| elements from `at` on replaced by row; every other element keeps its
      value. */
  function WriteRow(cur: seq<real>, row: seq<real>, at: nat): (r: seq<real>)
    ensures |r| == |cur|
  {
    seq(|cur|, p requires 0 <= p < |cur| => if at <= p < at + |row| then row[p - at] else cur[p])
  }

  /** Both rows exist: row t of the token table W and row i of the position table P. */
  predicate RowsExist(W: seq<real>, P: seq<real>, t: nat, i: nat, E: nat)
  {
    RowStart(t, E) + E <= |W| && RowStart(i, E) + E <= |P|
  }

  /** addMatrix(embedding, position) for token t at position i: row t of the token table plus
      row i of the position table. The loop only reaches the copy when both rows exist; the
      zero row for the other case is never written. */
  function EmbeddingRow(W: seq<real>, P: seq<real>, t: nat, i: nat, E: nat): (r: seq<real>)
    ensures |r| == E
    ensures RowsExist(W, P, t, i, E) ==> forall c :: 0 <= c < E ==>
      Cell(t, c, E) < |W| && Cell(i, c, E) < |P| && r[c] == W[Cell(t, c, E)] + P[Cell(i, c, E)]
  {
    if RowsExist(W, P, t, i, E) then
      AddSeq(W[RowStart(t, E)..RowStart(t, E) + E], P[RowStart(i, E)..RowStart(i, E) + E])
    else Zeros(E)
  }

  lemma WriteRowAt(cur: seq<real>, row: seq<real>, at: nat, p: nat)
    requires p < |cur|
    ensures WriteRow(cur, row, at)[p] == if at <= p < at + |row| then row[p - at] else cur[p]
  {
  }

  /** s is x after the first n passes of the embedding loop: cell c of row r is cell c of row
      tokens[r] of the token table W plus cell c of row r of the position table P when r < n,
      and still zero otherwise. */
  ghost predicate EmbeddedUpTo(s: seq<real>, W: seq<real>, P: seq<real>, tokens: seq<nat>, E: nat, n: nat)
  {
    forall r: nat, c: nat :: r < |tokens| && c < E ==>
      && Cell(r, c, E) < |s|
      && (r < n ==> Cell(tokens[r], c, E) < |W| && Cell(r, c, E) < |P|
                    && s[Cell(r, c, E)] == W[Cell(tokens[r], c, E)] + P[Cell(r, c, E)])
      && (r >= n ==> s[Cell(r, c, E)] == 0.0)
  }

  /** Every cell of |tokens| rows lies inside them. */
  lemma CellInRows(r: nat, c: nat, E: nat, n: nat)
    requires r < n && c < E
    ensures Cell(r, c, E) < RowStart(n, E)
  {
    RowStartNext(r, E);
    RowStartMono(r + 1, n, E);
  }

  /** Before the first pass x is all zeros. */
  lemma EmbeddedStart(W: seq<real>, P: seq<real>, tokens: seq<nat>, E: nat)
    ensures EmbeddedUpTo(Zeros(RowStart(|tokens|, E)), W, P, tokens, E, 0)
  {
    forall r: nat, c: nat | r < |tokens| && c < E
      ensures Cell(r, c, E) < RowStart(|tokens|, E)
    {
      CellInRows(r, c, E, |tokens|);
    }
  }

  /** Pass m writes row m with the sum of the two table rows and keeps every other row. */
  lemma EmbeddedStep(s: seq<real>, W: seq<real>, P: seq<real>, tokens: seq<nat>, E: nat, m: nat)
    requires m < |tokens| && RowsExist(W, P, tokens[m], m, E) && EmbeddedUpTo(s, W, P, tokens, E, m)
    ensures EmbeddedUpTo(WriteRow(s, EmbeddingRow(W, P, tokens[m], m, E), RowStart(m, E)), W, P, tokens, E, m + 1)
  {
    var row := EmbeddingRow(W, P, tokens[m], m, E);
    var at := RowStart(m, E);
    var t := WriteRow(s, row, at);
    forall r: nat, c: nat | r < |tokens| && c < E
      ensures Cell(r, c, E) < |t|
      ensures r < m + 1 ==> Cell(tokens[r], c, E) < |W| && Cell(r, c, E) < |P|
                            && t[Cell(r, c, E)] == W[Cell(tokens[r], c, E)] + P[Cell(r, c, E)]
      ensures r >= m + 1 ==> t[Cell(r, c, E)] == 0.0
    {
      CellOfRow(s, row, at, m, r, c, E);
    }
  }

  /** Whether cell (r, c) lies in the row that starts at `at` = RowStart(m, E). */
  lemma CellOfRow(s: seq<real>, row: seq<real>, at: nat, m: nat, r: nat, c: nat, E: nat)
    requires at == RowStart(m, E) && |row| == E && c < E && Cell(r, c, E) < |s|
    ensures WriteRow(s, row, at)[Cell(r, c, E)] == if r == m then row[c] else s[Cell(r, c, E)]
  {
    var p := Cell(r, c, E);
    WriteRowAt(s, row, at, p);
    RowStartNext(r, E);
    RowStartNext(m, E);
    if r < m {
      RowStartMono(r + 1, m, E);
    } else if r > m {
      RowStartMono(m + 1, r, E);
    }
  }

  /** A 2-d tensor that owns its buffer holds shape[0] rows of shape[1] elements. */
  lemma TableSize(a: Tensor)
    requires Owner(a) && |a.shape| == 2
    ensures |Read(a.data)| == RowStart(a.shape[0], a.shape[1])
  {
    RowStartIsProduct(a.shape[0], a.shape[1]);
  }

  /** Row t of a 2-d tensor that owns its buffer, as getSlice views it: getSlice succeeds
      exactly when the row fits, and the view then shows that row. */
  lemma TableRow(a: Tensor, t: nat)
    requires Owner(a) && |a.shape| == 2
    ensures GetSlice(a, t).Ok? <==> RowFitsIn(t, a.shape[0], a.shape[1])
    ensures GetSlice(a, t).Ok? ==> var s, E := GetSlice(a, t).value, a.shape[1];
      && Valid(s) && s.shape == [E] && s.data.buffer == a.data.buffer
      && RowStart(t, E) + E <= |Read(a.data)|
      && Read(s.data) == Read(a.data)[RowStart(t, E)..RowStart(t, E) + E]
  {
    var E := a.shape[1];
    RowStartIsProduct(t, E);
    RowStartIsProduct(a.shape[0], E);
    assert Tail(a.shape) == [E] && Product([E]) == E;
    assert Read(a.data) == a.data.buffer[..];
  }

  /** One pass of the embedding loop (main.ts:32-37): row i of x, seen through a getSlice view,
      is overwritten by the sum of the two table rows; the rest of x keeps its values. */
  method EmbedRow(x: Tensor, i: nat, e: Tensor, p: Tensor, ghost E: nat, ghost at: nat)
    requires Owner(x) && |x.shape| == 2 && x.shape[1] == E && i < x.shape[0] && at == RowStart(i, E)
    requires Valid(e) && Valid(p) && e.shape == [E] && p.shape == [E]
    modifies x.data.buffer
    ensures Read(x.data) == WriteRow(old(Read(x.data)), AddSeq(old(Read(e.data)), old(Read(p.data))), at)
  {
    ghost var before := Read(x.data);
    RowOfOwner(x, i);
    var slice := GetSlice(x, i).value;
    var sum := AddMatrix(e, p);
    Copy(sum, slice);
    ghost var after := WriteRow(before, Read(sum.data), at);
    forall k | 0 <= k < |before|
      ensures Read(x.data)[k] == after[k]
    {
      if at <= k < at + E {
        assert Read(slice.data)[k - at] == Read(x.data)[k];
      } else {
        assert x.data.buffer[k] == old(x.data.buffer[k]);
      }
    }
  }

  /** One pass of the embedding loop (main.ts:31-38) for position i: when token i and position i
      have their rows, row i of x becomes their sum; otherwise getSlice raises and x keeps its
      values. */
  method EmbedPass(x: Tensor, tokens: seq<nat>, i: nat, wte: Tensor, wpe: Tensor, ghost W: seq<real>, ghost P: seq<real>)
      returns (ok: bool)
    requires Owner(wte) && Owner(wpe) && |wte.shape| == 2 && |wpe.shape| == 2 && wte.shape[1] == wpe.shape[1]
    requires W == Read(wte.data) && P == Read(wpe.data)
    requires Owner(x) && x.shape == [|tokens|, wte.shape[1]] && i < |tokens|
    requires x.data.buffer != wte.data.buffer && x.data.buffer != wpe.data.buffer
    modifies x.data.buffer
    ensures ok <==> RowFitsIn(tokens[i], wte.shape[0], wte.shape[1]) && RowFitsIn(i, wpe.shape[0], wte.shape[1])
    ensures ok ==> Read(x.data) == WriteRow(old(Read(x.data)), EmbeddingRow(W, P, tokens[i], i, wte.shape[1]), RowStart(i, wte.shape[1]))
    ensures !ok ==> Read(x.data) == old(Read(x.data))
  {
    var E := wte.shape[1];
    TableRow(wte, tokens[i]);
    TableRow(wpe, i);
    var embedding := GetSlice(wte, tokens[i]);
    if embedding.Err? {
      return false;
    }
    var position := GetSlice(wpe, i);
    if position.Err? {
      return false;
    }
    assert AddSeq(Read(embedding.value.data), Read(position.value.data)) == EmbeddingRow(W, P, tokens[i], i, E);
    EmbedRow(x, i, embedding.value, position.value, E, RowStart(i, E));
    return true;
  }

  /** The embedding of the generation loop (main.ts:30-38): a fresh [|tokens|, E] tensor whose
      row i is row tokens[i] of the token table wte plus row i of the position table wpe. A
      token or position past the end of its table makes getSlice raise a RangeError. */
  method Embed(tokens: seq<nat>, wte: Tensor, wpe: Tensor) returns (r: Result<Tensor>)
    requires Owner(wte) && Owner(wpe) && |wte.shape| == 2 && |wpe.shape| == 2 && wte.shape[1] == wpe.shape[1]
    ensures r.Ok? <==> EmbeddingFits(tokens, wte.shape[0], wpe.shape[0], wte.shape[1])
    ensures r.Err? ==> r.error == RangeError
    ensures r.Ok? ==> var x, E := r.value, wte.shape[1];
      && fresh(x.data.buffer) && Owner(x) && x.shape == [|tokens|, E]
      && EmbeddedUpTo(Read(x.data), Read(wte.data), Read(wpe.data), tokens, E, |tokens|)
  {
    var E := wte.shape[1];
    ghost var V, S := wte.shape[0], wpe.shape[0];
    ghost var W, P := Read(wte.data), Read(wpe.data);
    TableSize(wte);
    TableSize(wpe);
    var x := NewTensor([|tokens|, E], [], false);
    RowStartIsProduct(|tokens|, E);
    EmbeddedStart(W, P, tokens, E);
    var ok := EmbedRows(x, tokens, wte, wpe, W, P);
    if !ok {
      return Err(RangeError);
    }
    return Ok(x);
  }

  /** The tokens.map of the embedding (main.ts:31-38) over a zeroed x: it stops at the first row
      whose view does not fit, and otherwise leaves row i of x equal to wte[tokens[i]] + wpe[i]
      for every i. */
  method EmbedRows(x: Tensor, tokens: seq<nat>, wte: Tensor, wpe: Tensor, ghost W: seq<real>, ghost P: seq<real>)
      returns (ok: bool)
    requires Owner(wte) && Owner(wpe) && |wte.shape| == 2 && |wpe.shape| == 2 && wte.shape[1] == wpe.shape[1]
    requires W == Read(wte.data) && P == Read(wpe.data)
    requires Owner(x) && x.shape == [|tokens|, wte.shape[1]]
    requires x.data.buffer != wte.data.buffer && x.data.buffer != wpe.data.buffer
    requires EmbeddedUpTo(Read(x.data), W, P, tokens, wte.shape[1], 0)
    modifies x.data.buffer
    ensures ok <==> EmbeddingFits(tokens, wte.shape[0], wpe.shape[0], wte.shape[1])
    ensures ok ==> EmbeddedUpTo(Read(x.data), W, P, tokens, wte.shape[1], |tokens|)
  {
    var E := wte.shape[1];
    ghost var V, S := wte.shape[0], wpe.shape[0];
    TableSize(wte);
    TableSize(wpe);
    var i := 0;
    while i < |tokens|
      invariant i <= |tokens|
      invariant Read(wte.data) == W && Read(wpe.data) == P
      invariant FitsBefore(tokens, V, S, E, i)
      invariant EmbeddedUpTo(Read(x.data), W, P, tokens, E, i)
    {
      ghost var before := Read(x.data);
      ok := EmbedPass(x, tokens, i, wte, wpe, W, P);
      if !ok {
        FitsBeforeAt(tokens, V, S, E, |tokens|, i);
        return;
      }
      EmbeddedStep(before, W, P, tokens, E, i);
      i := i + 1;
    }
    ok := true;
  }

  // ---------------------------------------------------------------------------------------
  // Greedy choice (main.ts:95-103)

  /** bestScore of the argmax loop: -Infinity, or the value of a logit. */
  datatype Score = NegInf | Finite(value: real)

  /** logits.data[j] > bestScore. */
  predicate Above(x: real, s: Score)
  {
    s.NegInf? || x > s.value
  }

  /** bestToken after the argmax loop has seen the first n logits: a later logit replaces the
      best so far only when it is strictly greater. */
  function FirstMax(s: seq<real>, n: nat): (r: nat)
    requires n <= |s|
    ensures r == 0 || r < n
  {
    if n <= 1 then 0
    else
      var best := FirstMax(s, n - 1);
      if s[n - 1] > s[best] then n - 1 else best
  }

  /** The choice is a maximum of the logits seen, and every earlier logit is strictly smaller:
      ties go to the lowest index. */
  lemma {:induction false} FirstMaxIsFirst(s: seq<real>, n: nat)
    requires 0 < n <= |s|
    ensures var b := FirstMax(s, n);
      && b < n
      && (forall j :: 0 <= j < n ==> s[j] <= s[b])
      && (forall j :: 0 <= j < b ==> s[j] < s[b])
  {
    if n > 1 {
      FirstMaxIsFirst(s, n - 1);
    }
  }

  /** Conversely, the first index of a maximum is the choice. */
  lemma FirstMaxIsUnique(s: seq<real>, b: nat)
    requires b < |s|
    requires forall j :: 0 <= j < |s| ==> s[j] <= s[b]
    requires forall j :: 0 <= j < b ==> s[j] < s[b]
    ensures FirstMax(s, |s|) == b
  {
    FirstMaxIsFirst(s, |s|);
  }

  /** The argmax loop of main.ts:96-103 over the logits of the last position. */
  method Argmax(logits: seq<real>) returns (bestToken: nat)
    ensures bestToken == FirstMax(logits, |logits|)
  {
    bestToken := 0;
    var bestScore := NegInf;
    var j := 0;
    while j < |logits|
      invariant j <= |logits| && bestToken == FirstMax(logits, j)
      invariant bestScore == if j == 0 then NegInf else Finite(logits[bestToken])
    {
      if Above(logits[j], bestScore) {
        bestScore := Finite(logits[j]);
        bestToken := j;
      }
      j := j + 1;
    }
  }

  // ---------------------------------------------------------------------------------------
  // The generation loop (main.ts:25-26, 109-111)

  /** tokens after `steps` more passes of the generation loop, where forward gives the logits of
      the last position for a token sequence or fails: each pass appends the greedy choice. */
  function Generated(tokens: seq<nat>, forward: seq<nat> -> Result<seq<real>>, steps: nat): (r: Result<seq<nat>>)
    decreases steps
    ensures r.Ok? ==> |r.value| == |tokens| + steps
  {
    if steps == 0 then Ok(tokens)
    else
      var logits := forward(tokens);
      if logits.Err? then Err(logits.error)
      else Generated(tokens + [FirstMax(logits.value, |logits.value|)], forward, steps - 1)
  }

  /** A successful run appends exactly `steps` tokens to the prompt, each the greedy choice over
      the logits of the sequence before it. */
  lemma {:induction false} GeneratedAppends(tokens: seq<nat>, forward: seq<nat> -> Result<seq<real>>, steps: nat)
    requires Generated(tokens, forward, steps).Ok?
    decreases steps
    ensures var ts := Generated(tokens, forward, steps).value;
      && |ts| == |tokens| + steps && ts[..|tokens|] == tokens
      && forall k :: |tokens| <= k < |ts| ==>
          forward(ts[..k]).Ok? && ts[k] == FirstMax(forward(ts[..k]).value, |forward(ts[..k]).value|)
  {
    if steps > 0 {
      var logits := forward(tokens).value;
      var next := tokens + [FirstMax(logits, |logits|)];
      GeneratedAppends(next, forward, steps - 1);
      var ts := Generated(tokens, forward, steps).value;
      assert ts[..|next|] == next;
      assert ts[..|tokens|] == next[..|tokens|] == tokens;
    }
  }

  /** When the forward pass never fails, the run succeeds. */
  lemma {:induction false} GeneratedSucceeds(tokens: seq<nat>, forward: seq<nat> -> Result<seq<real>>, steps: nat)
    requires forall ts :: forward(ts).Ok?
    ensures Generated(tokens, forward, steps).Ok?
    decreases steps
  {
    if steps > 0 {
      var logits := forward(tokens).value;
      GeneratedSucceeds(tokens + [FirstMax(logits, |logits|)], forward, steps - 1);
    }
  }

  /** The generation loop (main.ts:25-26, 94-111): 100 times, run the forward pass, choose the
      greedy token and append it. */
  method Generate(prompt: seq<nat>, forward: seq<nat> -> Result<seq<real>>) returns (r: Result<seq<nat>>)
    ensures r == Generated(prompt, forward, 100)
  {
    var tokens := prompt;
    var toGenerate := 100;
    while toGenerate > 0
      invariant 0 <= toGenerate && Generated(prompt, forward, 100) == Generated(tokens, forward, toGenerate)
    {
      var logits := forward(tokens);
      if logits.Err? {
        return Err(logits.error);
      }
      var bestToken := Argmax(logits.value);
      tokens := tokens + [bestToken];
      toGenerate := toGenerate - 1;
    }
    return Ok(tokens);
  }
}
