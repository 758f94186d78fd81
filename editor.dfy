/** The key loop of delta.c's `edit_file`: a buffer, a cursor and the flag that
    says the buffer has changes not yet written, updated one key at a time. */
module Editor {
  import opened Buffer
  import opened Cursor
  import opened Contents

  /** How many spaces the Tab key inserts (`tab_does`). */
  const TabWidth := 4

  /** Character codes the key loop tests for. */
  const NewlineCode := 10
  const TabCode := 9
  const CtrlS := 19
  const CtrlE := 5

  /** A key as `getch` reports it: an arrow, Backspace or Delete (ncurses special
      keys), or a plain character code. */
  datatype Key = Arrow(d: Direction) | Backspace | DeleteKey | Code(c: int)

  /** Everything the key loop changes: the lines, the cursor, the `changed` flag,
      and the bytes of the file on disk as last written. */
  datatype EditorState = EditorState(lines: seq<Line>, x: int, y: int, changed: bool, disk: seq<char>)

  /** What holds between keys: the buffer keeps the shape it was loaded with, the
      cursor is on an existing row at a non-negative column, and a clear `changed`
      flag means the file on disk holds exactly the buffer. */
  predicate Inv(st: EditorState) {
    WellFormed(st.lines) && 0 <= st.x && 0 <= st.y < |st.lines| &&
    (!st.changed ==> st.disk == Join(st.lines))
  }

  /** The session right after a file is loaded. */
  function Opened(input: seq<char>): EditorState {
    EditorState(SplitLines(input), 0, 0, false, input)
  }

  /** `n` calls of `fc_insert` with a space, the cursor moving right after each. */
  function InsertSpaces(lines: seq<Line>, x: int, y: int, n: nat): (r: seq<Line>)
    ensures |r| == |lines|
  {
    if n == 0 then lines
    else InsertChar(InsertSpaces(lines, x, y, n - 1), x + n - 1, y, ' ')
  }

  function Spaces(n: nat): seq<char> {
    seq(n, _ => ' ')
  }

  /** The Tab branch as written: it inserts the spaces and moves the cursor, but
      does not set `changed`. The inserts go through the corrected `InsertChar`;
      on a one-byte line `fc_insert` as written differs (AsWritten.InsertAsWritten). */
  function TabAsWritten(st: EditorState): (r: EditorState)
    ensures r.changed == st.changed && r.disk == st.disk && r.y == st.y
    ensures r.x == st.x + TabWidth && |r.lines| == |st.lines|
  {
    st.(lines := InsertSpaces(st.lines, st.x, st.y, TabWidth), x := st.x + TabWidth)
  }

  /** Ctrl-S as written: when there are changes, write the file (if it can be
      opened) and clear `changed` whether or not the write happened. */
  function SaveAsWritten(st: EditorState, writable: bool): (r: EditorState)
    ensures r.lines == st.lines && (r.x, r.y) == (st.x, st.y)
    ensures !r.changed
    ensures r.disk == st.disk || (st.changed && writable && r.disk == Join(st.lines))
  {
    if st.changed then
      (if writable then st.(disk := Join(st.lines)) else st).(changed := false)
    else st
  }

  /** Ctrl-S: when there are changes, write the file; `changed` is cleared only
      when the file could be written. */
  function Save(st: EditorState, writable: bool): (r: EditorState)
    ensures r.lines == st.lines && (r.x, r.y) == (st.x, st.y)
    ensures r.changed <==> st.changed && !writable
    ensures r.disk == st.disk || r.disk == Join(st.lines)
    ensures st.changed && !r.changed ==> r.disk == Join(r.lines)
  {
    if st.changed && writable then st.(disk := Join(st.lines), changed := false) else st
  }

  /** One pass of the key loop. Opening the file for writing is the one outside
      effect, so whether it succeeds is a parameter. */
  function Step(st: EditorState, k: Key, writable: bool): (r: EditorState)
    requires 0 <= st.y
    ensures k.Arrow? ==> r.lines == st.lines && r.changed == st.changed && r.disk == st.disk
    ensures k.Arrow? && (r.x, r.y) != (st.x, st.y) ==> ValidMove(r.lines, r.x, r.y)
    ensures r.lines != st.lines ==> r.changed
  {
    match k
    case Arrow(d) =>
      var p := Move(st.lines, st.x, st.y, d);
      st.(x := p.0, y := p.1)
    case Backspace =>
      if st.x >= 1 then
        st.(lines := RemoveChar(st.lines, st.x - 1, st.y), x := st.x - 1, changed := true)
      else st
    case DeleteKey =>
      st.(lines := RemoveChar(st.lines, st.x, st.y), changed := true)
    case Code(c) =>
      if 32 <= c <= 126 then
        st.(lines := InsertChar(st.lines, st.x, st.y, c as char), x := st.x + 1, changed := true)
      else if c == NewlineCode then st.(changed := true)
      else if c == TabCode then TabAsWritten(st).(changed := true)
      else if c == CtrlS then Save(st, writable)
      else st
  }

  // ---------------------------------------------------------------------------
  // Lemmas

  /** Tab inserts `n` spaces at the cursor when the cursor is where `fc_insert`
      accepts it, and changes nothing when it is past the line's last byte. */
  lemma {:induction false} InsertSpacesAtCursor(lines: seq<Line>, x: int, y: int, n: nat)
    requires 0 <= y < |lines| && 0 <= x
    ensures InsertInRange(lines, x, y) ==>
      InsertSpaces(lines, x, y, n) == lines[y := lines[y][..x] + Spaces(n) + lines[y][x..]]
    ensures !InsertInRange(lines, x, y) ==> InsertSpaces(lines, x, y, n) == lines
  {
    if n > 0 {
      InsertSpacesAtCursor(lines, x, y, n - 1);
      if InsertInRange(lines, x, y) {
        var s := lines[y];
        var t := s[..x] + Spaces(n - 1) + s[x..];
        var prev := lines[y := t];
        assert InsertSpaces(lines, x, y, n - 1) == prev;
        assert InsertInRange(prev, x + n - 1, y);
        assert t[..x + n - 1] == s[..x] + Spaces(n - 1);
        assert t[x + n - 1..] == s[x..];
        assert Spaces(n) == Spaces(n - 1) + [' '];
        assert t[..x + n - 1] + [' '] + t[x + n - 1..] == s[..x] + Spaces(n) + s[x..];
        assert prev[y := s[..x] + Spaces(n) + s[x..]] == lines[y := s[..x] + Spaces(n) + s[x..]];
      } else {
        assert !InsertInRange(lines, x + n - 1, y);
      }
    } else if InsertInRange(lines, x, y) {
      assert lines[y][..x] + Spaces(0) + lines[y][x..] == lines[y];
    }
  }

  lemma {:induction false} InsertSpacesKeepsWellFormed(lines: seq<Line>, x: int, y: int, n: nat)
    requires WellFormed(lines)
    ensures WellFormed(InsertSpaces(lines, x, y, n))
  {
    if n > 0 {
      InsertSpacesKeepsWellFormed(lines, x, y, n - 1);
      InsertKeepsWellFormed(InsertSpaces(lines, x, y, n - 1), x + n - 1, y, ' ');
    }
  }

  /** A freshly opened file satisfies the invariant. */
  lemma OpenedInv(input: seq<char>)
    ensures Inv(Opened(input))
  {
    SplitLinesWellFormed(input);
    JoinSplitLines(input);
  }

  /** Every key keeps the invariant: in particular, whenever `changed` is clear
      the file on disk holds exactly the buffer. */
  lemma StepKeepsInv(st: EditorState, k: Key, writable: bool)
    requires Inv(st)
    ensures Inv(Step(st, k, writable))
  {
    match k
    case Arrow(d) =>
      MoveStaysInBuffer(st.lines, st.x, st.y, d);
    case Backspace =>
      RemoveKeepsWellFormed(st.lines, st.x - 1, st.y);
    case DeleteKey =>
      RemoveKeepsWellFormed(st.lines, st.x, st.y);
    case Code(c) =>
      if 32 <= c <= 126 {
        InsertKeepsWellFormed(st.lines, st.x, st.y, c as char);
      } else if c == TabCode {
        InsertSpacesKeepsWellFormed(st.lines, st.x, st.y, TabWidth);
      }
  }

  /** With `changed` clear, loading the file on disk gives back exactly the buffer. */
  lemma CleanFileReloads(st: EditorState)
    requires Inv(st) && !st.changed
    ensures SplitLines(st.disk) == st.lines
  {
    SplitLinesJoin(st.lines);
  }

  /** Ctrl-S with changes and a writable file stores the buffer's bytes and clears
      the flag; otherwise it changes nothing. */
  lemma SaveStoresBuffer(st: EditorState, writable: bool)
    requires Inv(st)
    ensures var r := Step(st, Code(CtrlS), writable);
      r.lines == st.lines && (r.x, r.y) == (st.x, st.y) &&
      (if st.changed && writable then r.disk == Join(st.lines) && !r.changed else r == st)
    ensures var r := Step(st, Code(CtrlS), writable);
      !r.changed ==> SplitLines(r.disk) == st.lines
  {
    SplitLinesJoin(st.lines);
  }

  /** Typing and deleting at the same column of a row restores the buffer. */
  lemma TypeThenDelete(st: EditorState, c: int)
    requires Inv(st) && 32 <= c <= 126
    ensures var t := Step(st, Code(c), true);
      Step(t.(x := st.x), DeleteKey, true).lines == st.lines
  {
    InsertThenRemove(st.lines, st.x, st.y, c as char);
  }

  /** From a clean buffer, Tab as written edits the buffer but leaves `changed`
      clear, so the file on disk no longer holds the buffer and Ctrl-S will not
      write it: typing Tab in the file "ab" and saving leaves "ab" on disk. The
      line has two bytes, so `fc_insert` as written agrees with the corrected one. */
  lemma TabAsWrittenLosesEdit()
    ensures var st := Opened("ab");
      Inv(st) && !Inv(TabAsWritten(st)) &&
      TabAsWritten(st).lines == ["    ab"] &&
      Save(TabAsWritten(st), true) == TabAsWritten(st)
  {
    var st := Opened("ab");
    OpenedInv("ab");
    assert SplitLines("ab") == ["ab"] by {
      JoinSingle("ab");
      SplitLinesJoin(["ab"]);
    }
    InsertSpacesAtCursor(["ab"], 0, 0, TabWidth);
    assert Spaces(4) == "    ";
    assert "ab"[..0] + "    " + "ab"[0..] == "    ab";
    assert ["ab"][0 := "    ab"] == ["    ab"];
    JoinSingle("    ab");
  }

  /** Ctrl-S as written, when the file cannot be opened for writing, clears
      `changed` although nothing was written. */
  lemma SaveAsWrittenHidesFailure()
    ensures var st := EditorState(["b"], 0, 0, true, "a");
      Inv(st) && !Inv(SaveAsWritten(st, false)) &&
      Inv(Save(st, false)) && Save(st, false).changed
  {
    JoinSingle("b");
  }

  // ---------------------------------------------------------------------------
  // The session object

  class Session {
    var fc: FileContents
    var x: int
    var y: int
    var changed: bool
    var disk: seq<char>

    ghost function State(): EditorState
      reads this, fc, fc.data
      requires fc.Valid()
    {
      EditorState(fc.Lines(), x, y, changed, disk)
    }

    ghost predicate Valid()
      reads this, fc, fc.data
    {
      fc.Valid() && Inv(State())
    }

    /** Open a file whose bytes are `input`. */
    constructor Open(input: seq<char>)
      ensures Valid() && fresh(fc) && fresh(fc.data)
      ensures State() == Opened(input)
    {
      fc := new FileContents.Load(input);
      x, y := 0, 0;
      changed := false;
      disk := input;
      OpenedInv(input);
    }

    /** The arrow-key branches: only the cursor moves. */
    method MoveCursor(d: Direction)
      requires Valid()
      modifies this`x, this`y
      ensures (x, y) == Move(fc.Lines(), old(x), old(y), d)
    {
      if d == Left && AtBol(fc.Lines(), x, y) {
        if ValidMove(fc.Lines(), 0, y - 1) {
          y := y - 1;
          x := StoredLen(fc.data[y]) - 2;
        }
      } else if d == Right && AtEol(fc.Lines(), x, y) {
        if ValidMove(fc.Lines(), 0, y + 1) {
          x := 0;
          y := y + 1;
        }
      } else {
        if d == Up && ValidMove(fc.Lines(), x, y - 1) {
          y := y - 1;
        } else if d == Down && ValidMove(fc.Lines(), x, y + 1) {
          y := y + 1;
        }
        if d == Left && ValidMove(fc.Lines(), x - 1, y) {
          x := x - 1;
        } else if d == Right && ValidMove(fc.Lines(), x + 1, y) {
          x := x + 1;
        }
      }
    }

    /** The Tab branch: `TabWidth` spaces, each inserted at the cursor, which
        then moves right. */
    method InsertTab()
      requires fc.Valid()
      modifies this`x, fc.data
      ensures fc.Valid()
      ensures fc.Lines() == InsertSpaces(old(fc.Lines()), old(x), y, TabWidth)
      ensures x == old(x) + TabWidth
    {
      var i := 0;
      while i < TabWidth
        invariant 0 <= i <= TabWidth && fc.Valid()
        invariant fc.Lines() == InsertSpaces(old(fc.Lines()), old(x), y, i)
        invariant x == old(x) + i
      {
        fc.Insert(x, y, ' ');
        x := x + 1;
        i := i + 1;
      }
    }

    /** The Backspace branch: step left, then remove the byte there. */
    method BackspaceKey(writable: bool)
      requires Valid()
      modifies this, fc, fc.data
      ensures fc == old(fc) && fc.data == old(fc.data) && fc.Valid()
      ensures State() == Step(old(State()), Backspace, writable)
    {
      if x >= 1 {
        changed := true;
        x := x - 1;
        fc.Remove(x, y);
      }
    }

    /** The Delete branch: remove the byte under the cursor. */
    method DeleteKeyPressed(writable: bool)
      requires Valid()
      modifies this, fc, fc.data
      ensures fc == old(fc) && fc.data == old(fc.data) && fc.Valid()
      ensures State() == Step(old(State()), DeleteKey, writable)
    {
      changed := true;
      fc.Remove(x, y);
    }

    /** The printable-key branch: insert at the cursor, then step right. */
    method TypeKey(c: int, writable: bool)
      requires Valid() && 32 <= c <= 126
      modifies this, fc.data
      ensures fc == old(fc) && fc.data == old(fc.data) && fc.Valid()
      ensures State() == Step(old(State()), Code(c), writable)
    {
      fc.Insert(x, y, c as char);
      x := x + 1;
      changed := true;
    }

    /** The Tab branch with `changed` set, as every other edit does. */
    method TabKey(writable: bool)
      requires Valid()
      modifies this, fc.data
      ensures fc == old(fc) && fc.data == old(fc.data) && fc.Valid()
      ensures State() == Step(old(State()), Code(TabCode), writable)
    {
      InsertTab();
      changed := true;
    }

    /** The Ctrl-S branch: write the file when there are changes and it opens. */
    method SaveKey(writable: bool)
      requires Valid()
      modifies this
      ensures fc == old(fc) && fc.Valid()
      ensures State() == Step(old(State()), Code(CtrlS), writable)
    {
      if changed {
        if writable {
          disk := fc.Write();
          changed := false;
        }
      }
    }

    /** One pass of the key loop; `exit` reports Ctrl-E. */
    method HandleKey(k: Key, writable: bool) returns (exit: bool)
      requires Valid()
      modifies this, fc, fc.data
      ensures Valid() && fc == old(fc) && fc.data == old(fc.data)
      ensures State() == Step(old(State()), k, writable)
      ensures exit == (k == Code(CtrlE))
    {
      exit := false;
      match k {
        case Arrow(d) => MoveCursor(d);
        case Backspace => BackspaceKey(writable);
        case DeleteKey => DeleteKeyPressed(writable);
        case Code(c) =>
          if 32 <= c <= 126 {
            TypeKey(c, writable);
          } else if c == NewlineCode {
            changed := true;
          } else if c == TabCode {
            TabKey(writable);
          } else if c == CtrlE {
            exit := true;
          } else if c == CtrlS {
            SaveKey(writable);
          }
      }
      StepKeepsInv(old(State()), k, writable);
    }
  }
}
