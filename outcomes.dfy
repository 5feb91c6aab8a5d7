/** The errors the tensor kernels and the tokenizer raise, and a result type carrying them. */
module Outcomes {

  /** One constructor per way a call in the core can fail. */
  datatype Error =
    | InvalidChunkSize   // split: the last dimension is not a multiple of the chunk size
    | InvalidMergedSize  // merge: the merged width disagrees with the chunks
    | EmptyChunkList     // merge: no chunk to read the shape from (a TypeError in the source)
    | RangeError         // a Float32Array view that does not fit its buffer
    | UnmatchedToken     // encodeString: no vocabulary key prefixes the remaining text

  datatype Result<T> = Ok(value: T) | Err(error: Error)
}
