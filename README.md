# potatogpt core in Dafny

potatogpt runs GPT-2 inference in TypeScript with no libraries: a tensor is a flat row-major
`Float32Array` plus a shape (`math.ts`), and `main.ts` tokenizes a prompt with GPT-2's
byte-level vocabulary, embeds the tokens, runs the transformer and appends the greedy choice
100 times. This project models the parts of that program that are index arithmetic, table
construction and string scanning, and proves what they compute.

Modules, in dependency order:

- `RowMajor` (row_major.dfy): arithmetic of row starts `r * cols` used by every kernel.
- `Layout` (layout.dfy): specification functions over flat sequences. These include matrix
  product, transpose, the round-robin split and merge of the last dimension, the causal mask,
  and row-broadcast bias. Lemmas here state their laws: transpose is an involution, merge
  undoes split and split undoes merge, multiplying by `s·I` scales every entry, and the mask
  layout.
- `Outcomes` (outcomes.dfy): the errors the core raises and a `Result` type.
- `Tensors` (tensor.dfy): a `Float32Array` as a window `(buffer, offset, length)` onto a heap
  `array<real>`, so views alias their owner as in the source. It also has `tensor`, `getSlice`,
  `copy`, `mapInPlace`, `addMatrix`, `unsqueeze`, and `TypedArray` `set`/`slice`.
- `Kernels` (kernels.dfy): `multiplyMatrix`, `transposeMatrix`, `causalMask`, `split`,
  `merge` and `linear`. Each is an imperative method with the source's loops and offset
  counters, proved equal to its `Layout` specification.
- `ByteTable` (byte_table.dfy): `bytesToUnicode`, built with the source's push loop. The table
  is proved to be a bijection between the 256 bytes and its characters, with the two tables
  inverse to each other. The printable bytes map to themselves; the other 68 map to 256,
  257, … in byte order.
- `Tokenizer` (tokenizer.dfy): greedy longest-prefix `encodeString`, `decodeString` and
  `decodeTokens` over a vocabulary passed as a parameter (its keys in the order `Object.keys` and
  `for ... in` visit them, which puts integer-like keys first in ascending numeric order and
  the others after them in insertion order, and its id map). It proves that the greedy choice is the longest key with ties to the first
  key, when encoding succeeds, and that decoding an encoding returns the input.
- `Generation` (generation.dfy): the embedding loop, which writes `wte[token] + wpe[i]` into
  row `i` through views. It also has the argmax with lowest-index ties and the 100-step
  append loop with the forward pass as a parameter.

Elements are exact `real`s; `-1e10` is the real constant `-10000000000.0`.

Where the TypeScript types enforce shape agreement (`multiplyMatrix`, `linear`,
`addMatrix`, `copy`, and the common chunk shape of `merge`), the agreement is a precondition. Runtime failures become `Result`
errors:
- the JavaScript `Error`s of `split` and `merge`;
- the `RangeError` of a `Float32Array` view that does not fit its buffer;
- the `TypeError` of `merge([])`.

The JavaScript edge cases of the tokenizer are kept:
- a character with a code of 256 or more has no byte mapping and vanishes from the join;
- a character missing from the inverse table decodes to `"\0"`;
- an id missing from the decoder contributes "".

## Model

| member | source | states |
|---|---|---|
| Layout.LeadingRows | math.ts:122 | the number of rows of the last dimension: rows times the last dimension is the element count |
| Layout.MatMulAt | math.ts:56-60 | entry (i, j) of the product is the sum over k of a[i*Y+k]*b[k*Z+j] |
| Layout.MatMulScaledIdentity | math.ts:52-62 | multiplying by s times the identity scales every entry by s |
| Layout.TransposeAt | math.ts:74 | out[j*X+i] == a[i*Y+j] for every cell |
| Layout.TransposeInvolution | math.ts:67-79 | transposing twice gives back the original data |
| Layout.FilledAll | math.ts:72-76 | a buffer that agrees with a specification at every cell j * X + i written by the nested loops of transposeMatrix equals it |
| Layout.SplitSpec | math.ts:94-132 | split yields S/c chunks, each holding rows*c elements |
| Layout.SplitChunkAt | math.ts:123-128 | element cc of row r of chunk j is d[r*S + j*c + cc] |
| Layout.ChunkRowsAreSplit | math.ts:123-128 | the runs the source copies into chunk j, row after row, are exactly chunk j |
| Layout.MergeSpec | math.ts:134-158 | the merged data has rows*(chunks*c) elements |
| Layout.MergeAt | math.ts:148-155 | element cc of chunk j in row r lands at r*M + j*c + cc |
| Layout.MergeRowsAreMerge | math.ts:148-155 | interleaving one run of every chunk per row, as the source does, is the merge |
| Layout.MergeSplit | math.ts:107-155 | on the specification functions, merging the split gives back the data for every 0 < c dividing the last dimension S; for the kernels S > 0 is also needed, since at S = 0 split returns no chunks and merge([]) fails |
| Layout.SplitMerge | math.ts:107-155 | split(merge(chunks), c) gives back the chunks |
| Layout.MaskAt | math.ts:160-167 | entry (i, j) of the mask is 0 when j <= i and -1e10 when j > i |
| Layout.LinearAt | math.ts:209-216 | entry (i, j) of linear is the dot product of row i with column j plus bias[j] |
| Layout.BiasedRowsAreAddToRows | math.ts:211-214 | adding the bias one row at a time adds it to every row |
| Tensors.NewTensor | math.ts:31-39 | tensor(d, init) is a fresh owner of shape d holding init, or product(d) zeros without init; it satisfies the size invariant unless init has the wrong length |
| Tensors.Set | math.ts:125 | TypedArray.set writes src at an offset of the view and changes no other element of the buffer |
| Tensors.Slice | math.ts:125 | TypedArray.slice copies the clamped range [from, to) of the view |
| Tensors.GetSlice | math.ts:187-194 | getSlice with the view placed after the start of a's own data (the corrected form); it fails only with RangeError, and a result is a valid tensor of shape a.shape[1..] aliasing a's buffer |
| Tensors.GetSliceAsWritten | math.ts:187-194 | getSlice as written, placing the view at idx * stride of the whole buffer; it fails only with RangeError, and a result is a valid tensor of shape a.shape[1..] aliasing a's buffer |
| Tensors.SliceOfOwnerFails | math.ts:187-194 | on an owner whose rows are not empty (the product of the remaining dimensions is positive), getSlice fails exactly when idx lies outside the first dimension |
| Tensors.SliceOfOwner | math.ts:187-194 | on an owner, getSlice(a, idx) is a valid view of shape a.shape[1..] sharing a's buffer, whose elements are a[idx*stride .. (idx+1)*stride) |
| Tensors.SliceOfView | math.ts:187-194 | with its offset counted, getSlice reads row idx of any valid view |
| Tensors.SliceAsWrittenOnOwners | math.ts:191 | the source's getSlice agrees with the corrected one on every tensor whose data starts at offset 0 |
| Tensors.SliceOfSliceAsWrittenMisses | math.ts:191 | slicing a slice as written reads row 0 of the owner instead of the row of the view |
| Tensors.Copy | math.ts:197-199 | copy makes to's elements equal to from's and changes nothing else of to's buffer |
| Tensors.MapInPlace | math.ts:89-92 | mapInPlace returns the same tensor, now holding fn of each old element, and touches nothing outside its view |
| Tensors.AddMatrix | math.ts:170-175 | addMatrix returns a fresh tensor of a's shape holding a[i]+b[i] |
| Tensors.Unsqueeze | math.ts:81-87 | unsqueeze prepends 1 to the shape and shares the data; a valid tensor stays valid and shows the same elements |
| Kernels.MultiplyMatrix | math.ts:45-65 | a fresh [X, Z] tensor equal to the matrix product |
| Kernels.ProductRows | math.ts:54-62 | the i loop leaves the output buffer equal to the matrix product |
| Kernels.ProductRow | math.ts:55-61 | the j loop fills row i of the output with row i of the product and keeps the rows before it |
| Kernels.ProductCell | math.ts:56-60 | one pass of the j loop fills cell (i, j) and keeps the cells before it |
| Kernels.DotProduct | math.ts:56-59 | the k loop accumulates the dot product of row i and column j |
| Kernels.DotTerm | math.ts:58 | each step adds a[i*Y+k]*b[k*Z+j] to the running sum |
| Kernels.TransposeMatrix | math.ts:67-79 | a fresh [Y, X] tensor equal to the transpose |
| Kernels.CausalMask | math.ts:160-168 | a fresh [n, n] tensor holding the mask |
| Kernels.Split | math.ts:94-132 | fails exactly when the shape is empty, the chunk size is 0 or it does not divide the last dimension; otherwise returns S/c fresh, distinct owners of shape prefix ++ [c] holding the chunks |
| Kernels.SplitChecked | math.ts:112-131 | after the divisibility check, the chunks are allocated and filled with the split |
| Kernels.NewChunks | math.ts:113-117 | n fresh, distinct zero tensors of the chunk shape |
| Kernels.SplitCopy | math.ts:119-129 | the copy loop fills every chunk with its runs |
| Kernels.FillChunk | math.ts:123-128 | chunk j receives its runs and earlier chunks keep theirs |
| Kernels.CopyChunk | math.ts:123-128 | all runs of chunk j, one per row |
| Kernels.SplitStep | math.ts:125-127 | one data.set appends the next run of chunk j |
| Kernels.Merge | math.ts:134-158 | fails on an empty list, and otherwise exactly when the chunks' shape is empty, the chunk width is 0 or mergedSize differs from chunk times the number of chunks; otherwise returns a fresh owner of shape prefix ++ [mergedSize] holding the merge |
| Kernels.SplitThenMerge | math.ts:94-158 | for a last dimension S > 0 that c divides, merge(split(a, c), S) succeeds and returns an owner with a's shape and a's elements |
| Kernels.MergeChecked | math.ts:136-157 | after the checks, the output holds the merge of the chunks' contents |
| Kernels.MergeCopy | math.ts:143-155 | the copy loop writes every row of the merge |
| Kernels.MergePass | math.ts:149-154 | one pass of the j loop appends a run of every chunk and advances every input offset by chunk |
| Kernels.MergeStep | math.ts:151-153 | one data.set appends the next run of chunk j |
| Kernels.Linear | math.ts:201-217 | a fresh [X, Z] tensor whose row i is the product row plus the bias |
| Kernels.AddBiasRows | math.ts:211-214 | the row loop adds the bias to every row of the product in place |
| Kernels.AddBiasToRow | math.ts:212-213 | adding through the view of row i changes row i only, leaving the bias intact |
| Kernels.RowOfOwner | math.ts:212 | the view of row i of an owner is a valid [Z] view of exactly that row |
| Kernels.AddInPlace | math.ts:213 | s.data.set(addMatrix(s, bias).data) adds the bias to the view and touches nothing else |
| Kernels.AppendRun | math.ts:151 | data.set at an offset extends the filled prefix by the run |
| ByteTable.ShiftedCount | main.ts:226-233 | the count n after byte b is the number of non-printable bytes below b |
| ByteTable.ByteCodeFormula | main.ts:220-233 | a byte's character code is itself when printable, else 256 plus the number of non-printable bytes before it |
| ByteTable.ShiftedCodes | main.ts:226-233 | printable bytes keep their code; the other 68 get 256..323 in ascending byte order |
| ByteTable.ByteCharInjective | main.ts:234-240 | no two bytes share a character |
| ByteTable.TablesAreInverse | main.ts:219-242 | lookupTable covers exactly the 256 bytes, and unlookupTable is its exact inverse |
| ByteTable.PrintableBytesArePrintable | main.ts:220-224 | the three initial ranges are exactly the bytes 33-126, 161-172 and 174-255 |
| ByteTable.ShiftedBelowMembers | main.ts:227-233 | the bytes pushed before b are the non-printable ones below b |
| ByteTable.ShiftedIndex | main.ts:229-231 | the k-th pushed byte was pushed when n was k |
| ByteTable.BytesToUnicode | main.ts:219-242 | returns the lookup table and its inverse |
| ByteTable.PairBytes | main.ts:220-233 | bs and cs have 256 entries, bs is a permutation of the bytes and cs[k] is the code of bs[k] |
| ByteTable.PushShifted | main.ts:228-232 | one pass of the loop keeps bs, cs and n in step |
| ByteTable.IncludedIffPrintable | main.ts:228 | bs.includes(b) holds exactly for printable bytes |
| ByteTable.PairedAll | main.ts:227-233 | after the loop, bs covers every byte once with its code |
| ByteTable.FillTables | main.ts:234-240 | the forEach fills both tables with the byte-to-character bijection |
| ByteTable.LookupMatches | main.ts:238 | a map with the right keys and values is the lookup table |
| ByteTable.UnlookupMatches | main.ts:239 | a map with the right keys and values is the inverse table |
| Tokenizer.RemapChar | main.ts:251 | byteMapping[c.charCodeAt(0)] joined: at most one character; through the byte table, a character is kept exactly when its code is below 256, and it becomes that byte's table character |
| Tokenizer.Remap | main.ts:251 | the remapped string is no longer than the input, and for codes below 256 it has the same length with each character the table character of the input's byte |
| Tokenizer.DecodeChar | main.ts:272 | one character decodes to one or two characters, all with codes below 256; a table character decodes to the byte whose table character it is |
| Tokenizer.DecodeString | main.ts:270-273 | decodeString yields at least one character per input character, all with codes below 256; on table characters it yields one byte per character, whose table character is the input's |
| Tokenizer.DecodeRemap | main.ts:270-273 | decodeString undoes the byte remapping for every string with codes below 256 |
| Tokenizer.RemapInTable | main.ts:251 | every remapped character has an entry in the inverse table |
| Tokenizer.Longest | main.ts:257-262 | the choice of the inner loop after n keys is "" or one of those keys, and it starts the string |
| Tokenizer.LongestIsGreedy | main.ts:258-261 | the chosen token is at least as long as every key that prefixes the string, and strictly longer than every earlier one (the first key wins ties) |
| Tokenizer.LongestPrefix | main.ts:257-262 | the inner loop over the keys computes that choice |
| Tokenizer.PrependAll | main.ts:263 | pushing pieces onto the output composes |
| Tokenizer.Tokenize | main.ts:256-265 | the reference definition of the outer loop over the remapped string: it fails only with UnmatchedToken (where the source loops forever), and emits at most one piece per character |
| Tokenizer.TokenizeCovers | main.ts:256-265 | a successful scan emits non-empty keys whose concatenation is the remapped string |
| Tokenizer.TokenizeSucceeds | main.ts:256-265 | the scan succeeds (the loop terminates) when every character is itself a key |
| Tokenizer.Encode | main.ts:244-268 | encodeString as the ids of the scan of the remapped input; it fails only with UnmatchedToken and emits at most one id per input character |
| Tokenizer.EncodeSucceeds | main.ts:244-268 | encoding succeeds when every byte's character is a key |
| Tokenizer.EncodeString | main.ts:244-268 | the while loop computes the encoding |
| Tokenizer.DecoderOf | main.ts:278-281 | the decoder after the first n keys of the loop has an entry for the id of each of them |
| Tokenizer.DecoderSound | main.ts:278-281 | every decoder entry maps an id to a key with that id |
| Tokenizer.DecoderInverse | main.ts:278-281 | for an injective vocabulary, the decoder maps each key's id back to the key |
| Tokenizer.Joined | main.ts:283 | tokens.map(decoder).join(''): ids without a decoder entry contribute nothing, so tokens that are all unknown join to "" |
| Tokenizer.Decode | main.ts:275-284 | decodeTokens: every character of the result has a code below 256 |
| Tokenizer.JoinedIds | main.ts:283 | decoding the ids of keys and joining gives the concatenation of the keys |
| Tokenizer.RoundTrip | main.ts:244-283 | decodeTokens(encodeString(s)) == s for an injective vocabulary and codes below 256 |
| Tokenizer.DecodeTokens | main.ts:275-284 | the decoder loop and join compute the decoding |
| Generation.FitsBeforeAt | main.ts:31-34 | every row viewed so far fits its table |
| Generation.RowFitsInIff | main.ts:33-34 | for E > 0, a row view fits exactly when its index is below the row count |
| Generation.FitsBeforeIff | main.ts:31-34 | for E > 0, the first n views fit exactly when those tokens are below the vocabulary size and n is at most the sequence length |
| Generation.EmbeddingFitsIff | main.ts:30-38 | for E > 0, the embedding succeeds exactly when every token is below the vocabulary size and there are at most SequenceLength tokens |
| Generation.EmbeddingRow | main.ts:33-36 | addMatrix(embedding, position): E elements, element c being wte[t][c] + wpe[i][c] whenever both rows exist |
| Generation.EmbeddedStart | main.ts:30 | the fresh x is zero in every row |
| Generation.EmbeddedStep | main.ts:31-38 | writing row m keeps rows before m and leaves later rows zero |
| Generation.CellOfRow | main.ts:35-37 | writing row m changes cells of row m only |
| Generation.TableSize | main.ts:168-170 | a weight table holds rows times E elements |
| Generation.TableRow | main.ts:33-34 | the view of row t fits exactly when RowFitsIn(t, rows, E) holds, that is for E > 0 exactly when t is below the row count (for E = 0 every view fits), and then shows row t |
| Generation.EmbedRow | main.ts:32-37 | copy(addMatrix(embedding, position), slice) writes their sum into row i of x and nothing else |
| Generation.EmbedPass | main.ts:32-37 | one pass fails exactly when a view does not fit, and otherwise writes row i |
| Generation.EmbedRows | main.ts:31-38 | the tokens.map over a zeroed x succeeds exactly when every row view fits, and then row i of x is wte[tokens[i]] + wpe[i] for every i |
| Generation.Embed | main.ts:30-38 | succeeds exactly when every view fits; then x is [tokens.length, E] with row i equal to wte[tokens[i]] + wpe[i] |
| Generation.FirstMax | main.ts:96-103 | bestToken after the argmax loop has seen n logits: 0, or an index below n (FirstMaxIsFirst states that it is the first maximum) |
| Generation.FirstMaxIsFirst | main.ts:96-103 | the choice is a maximum, and every earlier logit is strictly smaller |
| Generation.FirstMaxIsUnique | main.ts:96-103 | conversely, the first index of a maximum is the choice |
| Generation.Argmax | main.ts:96-103 | the loop computes that choice |
| Generation.Generated | main.ts:25-111 | the tokens after `steps` passes of the generation loop; a successful run has exactly `steps` more tokens than the prompt |
| Generation.GeneratedAppends | main.ts:25-111 | a run appends exactly `steps` tokens, keeps the prompt, and each token is the greedy choice for the sequence before it |
| Generation.GeneratedSucceeds | main.ts:25-111 | a run succeeds when the forward pass never fails |
| Generation.Generate | main.ts:25-111 | the generation loop computes 100 greedy steps |

## Left out

- `softmax`, `layerNorm`, `gelu` (math.ts:219-261): `exp`, `tanh`, `sqrt` and float32 rounding have no exact model.
- The transformer block, attention scaling, final layer norm and projection (main.ts:41-95): compositions of the kernels above with the floating-point functions. `Generate` takes the whole forward pass as a function parameter that returns the logits of the last position. It therefore includes the `getSlice(final, final.shape[0] - 1)` of main.ts:95.
- Float32 rounding, infinities other than the argmax sentinel, and NaN: elements are exact reals. In particular the argmax of main.ts:97-101 skips a NaN logit, because `NaN > bestScore` is false; the model has no NaN logits.
- `isTensor` and the checks that raise "Invalid tensor" / "Invalid parameters" (math.ts:41-50, 205-207), and the type-level shape machinery: shapes are preconditions.
- Weight loading (`GPT`, `load`, main.ts:133-217), the `readline` prompt, reading `encoder.json` (the vocabulary is a parameter), logging and timing: I/O.
- The `prompt += decodeTokens([bestToken])` at main.ts:108: it only feeds the log line.
- main.js (a generated bundle of the same code) and export_weights.py (checkpoint download and conversion).
- Kernels.Split: a negative chunkSize is not modelled, since the parameter is a `nat`. A chunk size of 0 is an error, as NaN in the source makes `stride % chunkSize !== 0` true.
- Kernels.Split: `macroChunks` is `a.data.length / stride`. The model requires `Valid(a)`, so this count is the product of the leading dimensions.
- Kernels.SplitCopy: the source interleaves chunks inside each row. The model fills chunk by chunk. The chunks are distinct buffers, so the final contents are the same, but the order of writes is not modelled.
- Kernels.Merge: the source allocates `out` before checking the sizes. Allocation has no observable effect on failure, so the model checks first.
- Tensors.Slice: only non-negative bounds are modelled, since the source calls slice with non-negative offsets only.
- Tokenizer.EncodeString: a remainder that no non-empty key prefixes makes the source loop forever, pushing `undefined`. The model returns `Err(UnmatchedToken)` instead.
- Tokenizer.DecodeChar: a character without an entry in the inverse table decodes to `"\0"` (`String.fromCharCode(undefined)`). For characters outside the Basic Multilingual Plane, `split('')` sees two UTF-16 units, which become `"\0\0"`. The model has no UTF-16 surrogates beyond that.
- Generation.EmbeddingRow: when a view does not fit, it returns a zero row. The source raises a `RangeError` there; `Embed` stops at that point, so the zero row is never written.
- Generation.Embed: a failure leaves the partially written `x` behind in the source. `x` is local, so the model discards it.

## Findings

| source | as written | input that shows it | evidently intended | confidence | as-written member | corrected member |
|---|---|---|---|---|---|---|
| math.ts:191 | `getSlice` places the view at element `idx * stride` of `a.data.buffer`, ignoring `a.data.byteOffset` | `a` of shape [2, 2, 1]; `getSlice(getSlice(a, 1), 0)` reads element 0 of the buffer instead of element 2 | the view starts at `a.data.byteOffset + 4 * idx * stride` | not executed | Tensors.SliceOfSliceAsWrittenMisses | Tensors.SliceOfView |

The core only slices tensors that own their buffer, where the two agree
(`Tensors.SliceAsWrittenOnOwners`). Every tensor the core builds gets a fresh buffer of its own
(`new Float32Array(init)` at math.ts:36), so its data starts at offset 0. The kernels and the
embedding loop therefore slice through the corrected `Tensors.GetSlice`: every tensor they slice
is such an owner, and on owners `GetSlice` and `GetSliceAsWritten` return the same view.
