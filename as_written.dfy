/** `fc_insert` and `fc_remove` of delta.c exactly as written, including the paths
    that read or write outside an allocation and the line join that keeps a freed
    pointer. These definitions exist to exhibit the defects; the rest of the model
    edits with Buffer.InsertChar and Buffer.RemoveChar. */
module AsWritten {
  import opened Buffer

  /** One slot of the line-pointer array: a live line, or a pointer to freed memory. */
  datatype Slot = Live(content: Line) | Freed

  /** What a call leaves behind: the pointer array's slots, or undefined behaviour
      (a read or write outside an allocation). */
  datatype Outcome = Done(slots: seq<Slot>) | Undefined

  function AllLive(lines: seq<Line>): (r: seq<Slot>)
    ensures |r| == |lines|
    ensures forall i :: 0 <= i < |r| ==> r[i] == Live(lines[i])
  {
    seq(|lines|, i requires 0 <= i < |lines| => Live(lines[i]))
  }

  function FreedSlots(n: nat): (r: seq<Slot>)
    ensures |r| == n && forall i :: 0 <= i < n ==> r[i] == Freed
  {
    seq(n, _ => Freed)
  }

  /** `fc_insert` as written: the guard `y > fc->len` lets `y == len` through to
      `fc->data[y]`, and a line whose `len` becomes 3 is overwritten with
      `c` and '\n' whatever its one byte was. Its behaviour is undefined exactly
      on the row past the end. */
  function InsertAsWritten(lines: seq<Line>, x: int, y: int, c: char): (r: Outcome)
    ensures r.Undefined? <==> y == |lines| && 0 <= x
    ensures r.Done? ==> |r.slots| == |lines|
  {
    if y < 0 || y > |lines| || x < 0 then Done(AllLive(lines))
    else if y == |lines| then Undefined
    else if x > StoredLen(lines[y]) - 2 then Done(AllLive(lines))
    else if StoredLen(lines[y]) + 1 == 3 then Done(AllLive(lines[y := [c, '\n']]))
    else Done(AllLive(lines[y := lines[y][..x] + [c] + lines[y][x..]]))
  }

  /** Line y's visible content after delta.c joins `t` onto `s`: the bytes are
      copied, but `len` keeps its old value, so only the first |s| bytes of
      s-without-its-last-byte, then `t`, then the NUL, are ever written out. */
  function MergedAsWritten(s: Line, t: Line): (m: Line)
    requires |s| >= 1
    ensures |m| == |s|
  {
    (s[..|s| - 1] + t + ['\0'])[..|s|]
  }

  /** The pointer array after delta.c's join of lines y and y + 1: slot y + 1
      still holds the freed pointer, the loop copies that pointer into the slots
      up to `len - 2`, and the count drops by one, so only the old second-to-last
      line survives after the freed slots and the old last line is lost. */
  function JoinAsWritten(lines: seq<Line>, y: int): (r: seq<Slot>)
    requires 0 <= y && y + 1 < |lines| && |lines[y]| >= 1
    ensures |r| == |lines| - 1
  {
    AllLive(lines[..y]) + [Live(MergedAsWritten(lines[y], lines[y + 1]))] +
    (if |lines| == y + 2 then []
     else if |lines| == y + 3 then [Freed]
     else FreedSlots(|lines| - y - 3) + [Live(lines[|lines| - 2])])
  }

  /** `fc_remove` as written: the guard `x > len - 1` lets `x == len - 1` through.
      On an empty line the line is reallocated to 0 bytes, which the C standard
      leaves to the implementation; on any other line the second `strncpy` gets
      the length `len - x` = -1, converted to SIZE_MAX, and overruns without bound.
      `x == len - 2` joins with `fc->data[y + 1]` even on the last line. */
  function RemoveAsWritten(lines: seq<Line>, x: int, y: int): (r: Outcome)
    ensures r.Undefined? <==>
      0 <= x && (y == |lines| || (0 <= y < |lines| && (x == |lines[y]| || (x + 1 == |lines[y]| && y + 1 == |lines|))))
    ensures r.Done? ==> |r.slots| == |lines| || (IsJoin(lines, x, y) && |r.slots| == |lines| - 1)
  {
    if y < 0 || y > |lines| || x < 0 then Done(AllLive(lines))
    else if y == |lines| then Undefined
    else if x > StoredLen(lines[y]) - 1 then Done(AllLive(lines))
    else if x == StoredLen(lines[y]) - 2 then
      if y + 1 == |lines| then Undefined else Done(JoinAsWritten(lines, y))
    else if x == StoredLen(lines[y]) - 1 then Undefined
    else Done(AllLive(lines[y := lines[y][..x] + lines[y][x + 1..]]))
  }

  // ---------------------------------------------------------------------------
  // Where the code as written and the corrected operations agree

  /** Away from the row past the end and from a one-byte line that is not "\n",
      `fc_insert` as written does what Buffer.InsertChar does. */
  lemma InsertAsWrittenAgrees(lines: seq<Line>, x: int, y: int, c: char)
    requires y != |lines|
    requires 0 <= y < |lines| && |lines[y]| == 1 ==> lines[y] == ['\n']
    ensures InsertAsWritten(lines, x, y, c) == Done(AllLive(InsertChar(lines, x, y, c)))
  {
    if InsertInRange(lines, x, y) && |lines[y]| == 1 {
      assert lines[y][..x] + [c] + lines[y][x..] == [c, '\n'];
    }
  }

  /** Deleting a byte that does not end its line, `fc_remove` as written does what
      Buffer.RemoveChar does. */
  lemma RemoveAsWrittenAgrees(lines: seq<Line>, x: int, y: int)
    requires 0 <= y < |lines| && 0 <= x < |lines[y]| - 1
    ensures RemoveAsWritten(lines, x, y) == Done(AllLive(RemoveChar(lines, x, y)))
  {
  }

  // ---------------------------------------------------------------------------
  // Inputs that show the defects

  /** Row `count` passes both guards and reads one slot past the pointer array;
      the corrected operations leave the buffer as it is. */
  lemma RowPastEndAsWritten(lines: seq<Line>, x: int, c: char)
    requires x >= 0
    ensures InsertAsWritten(lines, x, |lines|, c) == Undefined
    ensures RemoveAsWritten(lines, x, |lines|) == Undefined
    ensures InsertChar(lines, x, |lines|, c) == lines
    ensures RemoveChar(lines, x, |lines|) == lines
  {
  }

  /** The file "a" loads as one line without a newline. */
  lemma LoadA()
    ensures SplitLines("a") == ["a"]
  {
    JoinSingle("a");
    SplitLinesJoin(["a"]);
  }

  /** Typing 'x' at the start of the file "a" (one line, no newline): delta.c
      turns the line into "x\n", dropping the 'a' and adding a newline. */
  lemma OneByteLineInsertAsWritten()
    ensures SplitLines("a") == ["a"]
    ensures InsertAsWritten(["a"], 0, 0, 'x') == Done([Live("x\n")])
    ensures InsertChar(["a"], 0, 0, 'x') == ["xa"]
    ensures Join(InsertChar(["a"], 0, 0, 'x')) == "xa"
  {
    LoadA();
    assert "a"[..0] + ['x'] + "a"[0..] == "xa";
    assert ["a"][0 := "xa"] == ["xa"];
    assert ["a"][0 := "x\n"] == ["x\n"];
    JoinSingle("xa");
  }

  /** Delete in an empty file: column 0 of the one empty line passes the guard,
      and the line is reallocated to zero bytes, whose result the C standard
      leaves to the implementation before the copies read and write through it. */
  lemma EmptyLineRemoveAsWritten()
    ensures SplitLines("") == [""]
    ensures RemoveAsWritten([""], 0, 0) == Undefined
    ensures RemoveChar([""], 0, 0) == [""]
  {
  }

  /** Delete on the last byte of the file "a": the column is `len - 2`, so the
      delta.c joins with a line that does not exist. */
  lemma LastLineJoinAsWritten()
    ensures SplitLines("a") == ["a"]
    ensures RemoveAsWritten(["a"], 0, 0) == Undefined
    ensures RemoveChar(["a"], 0, 0) == [""]
  {
    LoadA();
    assert "a"[..0] + "a"[1..] == "";
  }

  /** The file "a\nb\nc\nd" loads as four lines. */
  lemma LoadFourLines()
    ensures SplitLines("a\nb\nc\nd") == ["a\n", "b\n", "c\n", "d"]
  {
    var lines: seq<Line> := ["a\n", "b\n", "c\n", "d"];
    JoinCons("a\n", ["b\n", "c\n", "d"]);
    JoinCons("b\n", ["c\n", "d"]);
    JoinCons("c\n", ["d"]);
    JoinSingle("d");
    assert Join(lines) == "a\nb\nc\nd";
    assert "a\n"[..1] == "a" && "b\n"[..1] == "b" && "c\n"[..1] == "c";
    assert WellFormed(lines);
    SplitLinesJoin(lines);
  }

  /** Delete on the newline of line 0 of "a\nb\nc\nd": delta.c leaves line 0
      as "ab" (its old length), a freed pointer in slot 1 and "c\n" in slot 2,
      losing "d"; the intended result is "ab\n", "c\n", "d". */
  lemma JoinLosesLinesAsWritten()
    ensures SplitLines("a\nb\nc\nd") == ["a\n", "b\n", "c\n", "d"]
    ensures RemoveAsWritten(["a\n", "b\n", "c\n", "d"], 1, 0) ==
      Done([Live("ab"), Freed, Live("c\n")])
    ensures RemoveChar(["a\n", "b\n", "c\n", "d"], 1, 0) == ["ab\n", "c\n", "d"]
  {
    var lines: seq<Line> := ["a\n", "b\n", "c\n", "d"];
    LoadFourLines();
    assert RemoveAsWritten(lines, 1, 0) == Done(JoinAsWritten(lines, 0));
    assert MergedAsWritten("a\n", "b\n") == "ab";
    assert AllLive(lines[..0]) == [];
    assert FreedSlots(1) == [Freed];
    assert JoinAsWritten(lines, 0) == [Live("ab")] + [Freed] + [Live("c\n")];
    assert IsJoin(lines, 1, 0);
    assert lines[0][..1] + lines[1] == "ab\n";
    assert RemoveChar(lines, 1, 0) == [] + ["ab\n"] + lines[2..];
    assert lines[2..] == ["c\n", "d"];
  }
}
