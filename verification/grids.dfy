/** Two-dimensional sample buffers over an arbitrary element type.
    A buffer records its own shape, so an empty axis (no frames, or no
    channels) is still remembered and transposition is exactly invertible. */
module Grids {

  /** A shape `rows` x `cols` and the cells, row by row. */
  datatype Matrix<E> = Matrix(rows: nat, cols: nat, cells: seq<seq<E>>) {

    /** The cells really have the declared shape. */
    predicate Rectangular() {
      && |cells| == rows
      && forall i :: 0 <= i < |cells| ==> |cells[i]| == cols
    }
  }

  /** A rectangular buffer. */
  type Grid<E> = m: Matrix<E> | m.Rectangular() witness Matrix(0, 0, [])

  /** Swaps the two axes: frames x channels becomes channels x frames and
      back (numpy's `.T` / torch's `.T`). */
  function Transpose<E>(g: Grid<E>): (t: Grid<E>)
    ensures t.rows == g.cols && t.cols == g.rows
    ensures forall i, j :: 0 <= i < t.rows && 0 <= j < t.cols ==> t.cells[i][j] == g.cells[j][i]
  {
    Matrix(g.cols, g.rows,
      seq(g.cols, i requires 0 <= i < g.cols =>
        seq(g.rows, j requires 0 <= j < g.rows => g.cells[j][i])))
  }

  /** Transposing twice gives back the original buffer, shape and cells. */
  lemma TransposeInvolutive<E>(g: Grid<E>)
    ensures Transpose(Transpose(g)) == g
  {
    var tt := Transpose(Transpose(g));
    assert tt.rows == g.rows && tt.cols == g.cols;
    forall i | 0 <= i < g.rows
      ensures tt.cells[i] == g.cells[i]
    {
      assert |tt.cells[i]| == |g.cells[i]|;
    }
    assert tt.cells == g.cells;
  }
}
