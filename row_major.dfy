/** Index arithmetic of row-major layouts: cell (r, c) of a block with `cols` columns lives at
    offset r * cols + c. */
module RowMajor {

  lemma MulLeft(a: int, b: int, c: int)
    requires 0 <= a <= b && 0 <= c
    ensures a * c <= b * c
  {
  }

  /** The next row starts one row width further on. */
  lemma NextRow(r: int, cols: int)
    ensures (r + 1) * cols == r * cols + cols
  {
  }

  /** r * cols, counted up one row at a time. Loops keep their offsets in this form: it grows by
      one row width per step and brings no product into their proofs. */
  function RowStart(r: nat, cols: nat): nat
  {
    if r == 0 then 0 else RowStart(r - 1, cols) + cols
  }

  lemma RowStartNext(r: nat, cols: nat)
    ensures RowStart(r + 1, cols) == RowStart(r, cols) + cols
  {
  }

  lemma {:induction false} RowStartIsProduct(r: nat, cols: nat)
    ensures RowStart(r, cols) == r * cols
  {
    if r > 0 {
      RowStartIsProduct(r - 1, cols);
    }
  }

  /** Later rows start no earlier. */
  lemma {:induction false} RowStartMono(a: nat, b: nat, cols: nat)
    requires a <= b
    ensures RowStart(a, cols) <= RowStart(b, cols)
  {
    if a < b {
      RowStartMono(a, b - 1, cols);
    }
  }

  /** Every one of the first n rows ends inside the first n rows. */
  lemma RowsFit(n: nat, cols: nat)
    ensures forall j :: 0 <= j < n ==> RowStart(j, cols) + cols <= RowStart(n, cols)
  {
    forall j | 0 <= j < n
      ensures RowStart(j, cols) + cols <= RowStart(n, cols)
    {
      RowStartMono(j + 1, n, cols);
    }
  }

  /** Dividing the length of r rows by the row width gives r back. */
  lemma RowsOfLength(r: nat, cols: nat)
    requires cols > 0
    ensures RowStart(r, cols) / cols == r
  {
    RowStartIsProduct(r, cols);
    CellOfOffset(r, 0, cols);
  }

  /** The offset of a cell inside a rows x cols block lies inside the block. */
  lemma CellInBlock(r: int, c: int, rows: int, cols: int)
    requires 0 <= r < rows && 0 <= c < cols
    ensures 0 <= r * cols + c < rows * cols
  {
    MulLeft(r + 1, rows, cols);
    assert r * cols + cols == (r + 1) * cols;
  }

  /** The row and column of a cell are recovered from its offset by division and remainder. */
  lemma CellOfOffset(r: int, c: int, cols: int)
    requires 0 <= r && 0 <= c < cols
    ensures (r * cols + c) / cols == r && (r * cols + c) % cols == c
  {
    var q := (r * cols + c) / cols;
    if q < r {
      MulLeft(q + 1, r, cols);
    } else if q > r {
      MulLeft(r + 1, q, cols);
    }
  }

  /** Every offset inside a rows x cols block is the offset of exactly one cell of it. */
  lemma OffsetInBlock(p: int, rows: nat, cols: nat)
    requires 0 <= p < rows * cols
    ensures cols > 0 && 0 <= p / cols < rows && 0 <= p % cols < cols
    ensures p == (p / cols) * cols + p % cols
  {
    if p / cols >= rows {
      MulLeft(rows, p / cols, cols);
    }
  }

  /** A width that divides a row splits it into exactly width-sized pieces. */
  lemma ExactQuotient(n: nat, width: nat)
    requires 0 < width && n % width == 0
    ensures width * (n / width) == n
  {
  }
}
