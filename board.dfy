/** `init_board`: frames the lines of a board file into the padded text board. */
module Board {

  /** A border row: nine spaces and a line break. */
  const BorderRow: string := "         \n"

  /** The closing border: ten spaces, no line break. */
  const ClosingRow: string := "          "

  /** The length of a row of a standard board file: eight squares and a line break. */
  const RowLength: int := 9

  /** The lines in order, each behind a one-space left sentinel. */
  function Body(lines: seq<string>): string
  {
    if lines == [] then "" else Body(lines[..|lines| - 1]) + " " + lines[|lines| - 1]
  }

  /** The padded board made from the lines: two border rows, the body, a border row and the closing row. */
  function Framed(lines: seq<string>): string
  {
    BorderRow + BorderRow + Body(lines) + BorderRow + ClosingRow
  }

  /** The number of characters the lines contribute once each has its sentinel. */
  function SentinelledLength(lines: seq<string>): nat
  {
    if lines == [] then 0 else SentinelledLength(lines[..|lines| - 1]) + |lines[|lines| - 1]| + 1
  }

  /**
   * `init_board`, with the file already read into its lines (line breaks kept as
   * Python's file iteration yields them).
   */
  method InitBoard(lines: seq<string>) returns (output: string)
    ensures output == Framed(lines)
  {
    output := BorderRow + BorderRow;
    for i := 0 to |lines|
      invariant output == BorderRow + BorderRow + Body(lines[..i])
    {
      assert lines[..i + 1][..i] == lines[..i];
      output := output + " " + lines[i];
    }
    assert lines[..|lines|] == lines;
    output := output + BorderRow + ClosingRow;
  }

  lemma {:induction false} BodyLength(lines: seq<string>)
    ensures |Body(lines)| == SentinelledLength(lines)
  {
    if lines != [] {
      BodyLength(lines[..|lines| - 1]);
    }
  }

  /** The frame adds 40 characters to the sentinelled lines. */
  lemma FramedLength(lines: seq<string>)
    ensures |Framed(lines)| == 40 + SentinelledLength(lines)
  {
    BodyLength(lines);
  }

  /**
   * When every line is a standard row (eight squares and a line break), row `i` of the body
   * starts with the sentinel space at offset 10 * i and carries line `i` right after it.
   */
  lemma {:induction false} BodyCell(lines: seq<string>, i: int, j: int)
    requires forall k :: 0 <= k < |lines| ==> |lines[k]| == RowLength
    requires 0 <= i < |lines| && 0 <= j < RowLength
    ensures |Body(lines)| == 10 * |lines|
    ensures Body(lines)[10 * i] == ' '
    ensures Body(lines)[10 * i + 1 + j] == lines[i][j]
  {
    var n := |lines|;
    var front := lines[..n - 1];
    if n == 1 {
      assert Body(lines) == "" + " " + lines[0];
    } else {
      BodyCell(front, if i < n - 1 then i else 0, j);
      assert Body(lines) == Body(front) + " " + lines[n - 1];
    }
  }

  /**
   * For a board file of 8 standard rows, the framed board has exactly the 120 cells the
   * move indices range over; cell 10 * (r + 2) is the left sentinel of row r and the row's
   * squares follow it.
   */
  lemma StandardBoard(lines: seq<string>, r: int, j: int)
    requires |lines| == 8
    requires forall k :: 0 <= k < |lines| ==> |lines[k]| == RowLength
    requires 0 <= r < 8 && 0 <= j < RowLength
    ensures |Framed(lines)| == 120
    ensures Framed(lines)[10 * (r + 2)] == ' '
    ensures Framed(lines)[10 * (r + 2) + 1 + j] == lines[r][j]
    ensures forall c :: 0 <= c < 20 ==> Framed(lines)[c] == (if c % 10 == 9 then '\n' else ' ')
  {
    BodyCell(lines, r, j);
    var f := Framed(lines);
    assert f == (BorderRow + BorderRow) + Body(lines) + (BorderRow + ClosingRow);
  }
}
