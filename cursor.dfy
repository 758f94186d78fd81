/** The cursor predicates of delta.c and the arrow-key rules of its key loop.
    A position is (x, y): column x of line y, both zero-based. */
module Cursor {
  import opened Buffer

  /** Rows the footer covers; `valid_move` subtracts it from the line count, so the
      last line can never be entered by a move. */
  const FooterHeight := 1

  /** `valid_move`: a move may land on a column before the line's last byte, on
      any line but the last. */
  predicate ValidMove(lines: seq<Line>, x: int, y: int)
    ensures ValidMove(lines, x, y) <==> RemoveInRange(lines, x, y) && y + 1 < |lines|
  {
    x >= 0 && y >= 0 && y < |lines| - FooterHeight && x + 1 < StoredLen(lines[y])
  }

  /** `at_eol`: the cursor is on its line's last byte (`len - 2`), which is where
      Delete joins the line with the next one when there is a next one. */
  predicate AtEol(lines: seq<Line>, x: int, y: int)
    requires 0 <= y
    ensures AtEol(lines, x, y) && 0 <= x ==> RemoveInRange(lines, x, y)
    ensures AtEol(lines, x, y) && 0 <= x ==> (IsJoin(lines, x, y) <==> y + 1 < |lines|)
    ensures RemoveInRange(lines, x, y) && !AtEol(lines, x, y) ==> !IsJoin(lines, x, y)
  {
    y < |lines| && x == StoredLen(lines[y]) - 2
  }

  /** `at_bol`: the cursor is in column 0. On a position where `valid_move`
      holds, that is exactly when a step left cannot stay on the line. */
  predicate AtBol(lines: seq<Line>, x: int, y: int)
    ensures ValidMove(lines, x, y) ==> (AtBol(lines, x, y) <==> !ValidMove(lines, x - 1, y))
  {
    x == 0
  }

  datatype Direction = Left | Right | Up | Down

  /** The arrow-key branches of the key loop: Left in column 0 wraps to the end of
      the previous line, Right at the end of a line wraps to the start of the next,
      and otherwise the cursor steps one row or column when `valid_move` allows.
      Every move that is taken lands where `valid_move` holds. */
  function Move(lines: seq<Line>, x: int, y: int, d: Direction): (p: (int, int))
    requires 0 <= y
    ensures p == (x, y) || ValidMove(lines, p.0, p.1)
    ensures d.Up? || d.Down? ==> p.0 == x
  {
    if d == Left && AtBol(lines, x, y) then
      if ValidMove(lines, 0, y - 1) then (StoredLen(lines[y - 1]) - 2, y - 1) else (x, y)
    else if d == Right && AtEol(lines, x, y) then
      if ValidMove(lines, 0, y + 1) then (0, y + 1) else (x, y)
    else if d == Up && ValidMove(lines, x, y - 1) then (x, y - 1)
    else if d == Down && ValidMove(lines, x, y + 1) then (x, y + 1)
    else if d == Left && ValidMove(lines, x - 1, y) then (x - 1, y)
    else if d == Right && ValidMove(lines, x + 1, y) then (x + 1, y)
    else (x, y)
  }

  /** Left in column 0 lands on the previous line's last byte, exactly where
      `at_eol` holds, whenever that line may be entered. */
  lemma LeftAtBolLandsAtEol(lines: seq<Line>, y: int)
    requires 1 <= y && ValidMove(lines, 0, y - 1)
    ensures var p := Move(lines, 0, y, Left);
      p.1 == y - 1 && p.0 >= 0 && AtEol(lines, p.0, p.1) && ValidMove(lines, p.0, p.1)
  {
  }

  /** Right on a line's last byte lands in column 0 of the next line, where
      `at_bol` holds, whenever that line may be entered. */
  lemma RightAtEolLandsAtBol(lines: seq<Line>, x: int, y: int)
    requires 0 <= y && AtEol(lines, x, y) && ValidMove(lines, 0, y + 1)
    ensures Move(lines, x, y, Right) == (0, y + 1) && AtBol(lines, Move(lines, x, y, Right).0, Move(lines, x, y, Right).1)
  {
  }

  /** No move enters the last line, and a move never leaves the buffer. */
  lemma MoveStaysInBuffer(lines: seq<Line>, x: int, y: int, d: Direction)
    requires 0 <= y < |lines|
    ensures var p := Move(lines, x, y, d);
      0 <= p.1 < |lines| && (p.1 == |lines| - 1 ==> p == (x, y))
  {
  }
}
