/** The editor's text buffer as values: a file is an ordered sequence of lines,
    each line holding its bytes (its '\n' included when it has one).
    The C struct keeps `len` = content bytes + 1 for the NUL slot; here a line is
    exactly the content that `write_file` emits, and `StoredLen` recovers `len`. */
module Buffer {

  type Line = seq<char>

  /** The `len` field of a C `FileLine`: content bytes plus the NUL slot. */
  function StoredLen(s: Line): int {
    |s| + 1
  }

  /** Every line but the last, as the loader produces it: one '\n', at its end. */
  predicate Terminated(s: Line) {
    |s| > 0 && s[|s| - 1] == '\n' && '\n' !in s[..|s| - 1]
  }

  /** The shape of a loaded buffer: at least one line, every line but the last
      terminated, the last one free of '\n' (possibly empty). */
  predicate WellFormed(lines: seq<Line>) {
    |lines| >= 1 &&
    (forall i :: 0 <= i < |lines| - 1 ==> Terminated(lines[i])) &&
    '\n' !in lines[|lines| - 1]
  }

  /** What `read_file` builds from a byte stream: a new line starts after each '\n',
      and the remainder after the last '\n' is the final line. */
  function SplitLines(bytes: seq<char>): (lines: seq<Line>)
    ensures |lines| >= 1
  {
    if bytes == [] then [[]]
    else
      var rest := SplitLines(bytes[1..]);
      if bytes[0] == '\n' then [['\n']] + rest
      else [[bytes[0]] + rest[0]] + rest[1..]
  }

  /** What `write_file` emits: every line's content, in order, starting with the
      first line. */
  function Join(lines: seq<Line>): (r: seq<char>)
    ensures lines != [] ==> lines[0] <= r
  {
    if lines == [] then [] else lines[0] + Join(lines[1..])
  }

  /** In the saved file, line y's last byte sits just before line y + 1's offset. */
  lemma JoinLineEnd(lines: seq<Line>, y: int)
    requires 0 <= y < |lines| - 1 && Terminated(lines[y])
    ensures 0 < Offset(lines, y + 1) <= |Join(lines)| && Join(lines)[Offset(lines, y + 1) - 1] == '\n'
  {
    JoinAround(lines, y);
    assert lines[..y + 1] == lines[..y] + [lines[y]];
    JoinAppend(lines[..y], [lines[y]]);
    JoinSingle(lines[y]);
  }

  /** A well-formed buffer writes one '\n' fewer than it has lines, and each line
      but the last ends in one, just before the next line's offset; so the '\n'
      bytes are exactly those line ends. */
  lemma {:induction false} JoinNewlines(lines: seq<Line>)
    requires WellFormed(lines)
    ensures Newlines(Join(lines)) == |lines| - 1
    ensures forall i :: 0 < i < |lines| ==>
      0 < Offset(lines, i) <= |Join(lines)| && Join(lines)[Offset(lines, i) - 1] == '\n'
  {
    forall i | 0 < i < |lines|
      ensures 0 < Offset(lines, i) <= |Join(lines)| && Join(lines)[Offset(lines, i) - 1] == '\n'
    {
      JoinLineEnd(lines, i - 1);
    }
    LineNewlines(lines[0]);
    NewlinesAppend(lines[0], Join(lines[1..]));
    if |lines| > 1 {
      assert WellFormed(lines[1..]);
      JoinNewlines(lines[1..]);
    }
  }

  /** The number of '\n' bytes in a byte sequence. */
  function Newlines(bytes: seq<char>): nat {
    if bytes == [] then 0
    else (if bytes[0] == '\n' then 1 else 0) + Newlines(bytes[1..])
  }

  lemma {:induction false} NewlinesAppend(a: seq<char>, b: seq<char>)
    ensures Newlines(a + b) == Newlines(a) + Newlines(b)
  {
    if a == [] {
      assert a + b == b;
    } else {
      assert (a + b)[1..] == a[1..] + b;
      NewlinesAppend(a[1..], b);
    }
  }

  /** A terminated line holds one '\n', a line without '\n' holds none. */
  lemma {:induction false} LineNewlines(s: Line)
    ensures '\n' !in s ==> Newlines(s) == 0
    ensures Terminated(s) ==> Newlines(s) == 1
  {
    if s != [] {
      LineNewlines(s[1..]);
      if Terminated(s) && |s| > 1 {
        assert s[1..][..|s| - 2] == s[1..|s| - 1];
        assert s[0] in s[..|s| - 1];
      }
    }
  }

  // ---------------------------------------------------------------------------
  // Editing operations (the corrected `fc_insert` and `fc_remove`)

  /** Where `fc_insert` accepts a position: an existing row, and a column strictly
      before the line's last byte (`x <= len - 2`). */
  predicate InsertInRange(lines: seq<Line>, x: int, y: int) {
    0 <= y < |lines| && 0 <= x <= StoredLen(lines[y]) - 2
  }

  /** Where `fc_remove` acts: an existing row and a column holding a byte. */
  predicate RemoveInRange(lines: seq<Line>, x: int, y: int) {
    0 <= y < |lines| && 0 <= x < |lines[y]|
  }

  /** Whether removing at (x, y) joins line y with line y + 1: the column is the
      line's last byte (`x == len - 2`) and a following line exists. */
  predicate IsJoin(lines: seq<Line>, x: int, y: int) {
    RemoveInRange(lines, x, y) && x == StoredLen(lines[y]) - 2 && y + 1 < |lines|
  }

  /** `fc_insert`: put `c` at column `x` of line `y`; a no-op out of range. */
  function InsertChar(lines: seq<Line>, x: int, y: int, c: char): (r: seq<Line>)
    ensures |r| == |lines|
    ensures forall i :: 0 <= i < |r| && i != y ==> r[i] == lines[i]
    ensures InsertInRange(lines, x, y) ==>
      |r[y]| == |lines[y]| + 1 && r[y][x] == c &&
      r[y][..x] == lines[y][..x] && r[y][x + 1..] == lines[y][x..]
    ensures !InsertInRange(lines, x, y) ==> r == lines
  {
    if InsertInRange(lines, x, y) then
      lines[y := lines[y][..x] + [c] + lines[y][x..]]
    else lines
  }

  /** `fc_remove`: delete the byte at column `x` of line `y`; when that byte ends a
      line that has a successor, the successor is appended to line `y` and removed. */
  function RemoveChar(lines: seq<Line>, x: int, y: int): (r: seq<Line>)
    ensures !RemoveInRange(lines, x, y) ==> r == lines
    ensures IsJoin(lines, x, y) ==>
      |r| == |lines| - 1 && r[..y] == lines[..y] && r[y + 1..] == lines[y + 2..] &&
      r[y] == lines[y][..x] + lines[y + 1]
    ensures RemoveInRange(lines, x, y) && !IsJoin(lines, x, y) ==>
      |r| == |lines| && |r[y]| == |lines[y]| - 1 &&
      r[y][..x] == lines[y][..x] && r[y][x..] == lines[y][x + 1..] &&
      forall i :: 0 <= i < |r| && i != y ==> r[i] == lines[i]
  {
    if !RemoveInRange(lines, x, y) then lines
    else if IsJoin(lines, x, y) then
      lines[..y] + [lines[y][..x] + lines[y + 1]] + lines[y + 2..]
    else
      lines[y := lines[y][..x] + lines[y][x + 1..]]
  }

  /** The byte offset at which line `y` starts in the saved file. */
  function Offset(lines: seq<Line>, y: int): nat
    requires 0 <= y <= |lines|
  {
    |Join(lines[..y])|
  }

  // ---------------------------------------------------------------------------
  // Load and save

  lemma {:induction false} JoinAppend(a: seq<Line>, b: seq<Line>)
    ensures Join(a + b) == Join(a) + Join(b)
  {
    if a == [] {
      assert a + b == b;
    } else {
      assert (a + b)[1..] == a[1..] + b;
      JoinAppend(a[1..], b);
    }
  }

  lemma JoinSingle(s: Line)
    ensures Join([s]) == s
  {
    assert [s][1..] == [];
  }

  lemma JoinCons(s: Line, rest: seq<Line>)
    ensures Join([s] + rest) == s + Join(rest)
  {
    assert ([s] + rest)[1..] == rest;
  }

  /** Saving a freshly loaded buffer reproduces the input bytes exactly. */
  lemma {:induction false} JoinSplitLines(bytes: seq<char>)
    ensures Join(SplitLines(bytes)) == bytes
  {
    if bytes != [] {
      var rest := SplitLines(bytes[1..]);
      JoinSplitLines(bytes[1..]);
      if bytes[0] == '\n' {
        JoinCons(['\n'], rest);
      } else {
        JoinCons([bytes[0]] + rest[0], rest[1..]);
        JoinCons(rest[0], rest[1..]);
        assert rest == [rest[0]] + rest[1..];
      }
    }
  }

  /** A loaded buffer has at least one line, every line but the last ends in its
      only '\n', and the last line holds no '\n'. */
  lemma {:induction false} SplitLinesWellFormed(bytes: seq<char>)
    ensures WellFormed(SplitLines(bytes))
  {
    if bytes != [] {
      var rest := SplitLines(bytes[1..]);
      SplitLinesWellFormed(bytes[1..]);
      var r := SplitLines(bytes);
      if bytes[0] == '\n' {
        assert r == [['\n']] + rest;
        assert Terminated(['\n']) by { assert ['\n'][..0] == []; }
        forall i | 0 <= i < |r| - 1 ensures Terminated(r[i]) {
          if i > 0 { assert r[i] == rest[i - 1]; }
        }
      } else {
        var first := [bytes[0]] + rest[0];
        assert r == [first] + rest[1..];
        if |rest| == 1 {
          assert '\n' !in first;
        } else {
          assert Terminated(rest[0]);
          assert first[..|first| - 1] == [bytes[0]] + rest[0][..|rest[0]| - 1];
          assert Terminated(first);
          forall i | 0 <= i < |r| - 1 ensures Terminated(r[i]) {
            if i > 0 { assert r[i] == rest[i]; }
          }
        }
      }
    }
  }

  /** The number of lines is the number of '\n' bytes plus one. */
  lemma {:induction false} SplitLinesCount(bytes: seq<char>)
    ensures |SplitLines(bytes)| == Newlines(bytes) + 1
  {
    if bytes != [] {
      SplitLinesCount(bytes[1..]);
    }
  }

  /** Bytes with no '\n' in front of more input extend the first line. */
  lemma {:induction false} SplitLinesPrefix(s: seq<char>, rest: seq<char>)
    requires '\n' !in s
    ensures SplitLines(s + rest) ==
      [s + SplitLines(rest)[0]] + SplitLines(rest)[1..]
  {
    if s != [] {
      assert (s + rest)[1..] == s[1..] + rest;
      assert (s + rest)[0] == s[0];
      SplitLinesPrefix(s[1..], rest);
      assert [s[0]] + (s[1..] + SplitLines(rest)[0]) == s + SplitLines(rest)[0];
    } else {
      var r := SplitLines(rest);
      assert s + rest == rest;
      assert s + r[0] == r[0];
      assert r == [r[0]] + r[1..];
    }
  }

  /** Loading what a well-formed buffer saves gives that buffer back: well-formed
      buffers and byte sequences are in one-to-one correspondence. */
  lemma {:induction false} SplitLinesJoin(lines: seq<Line>)
    requires WellFormed(lines)
    ensures SplitLines(Join(lines)) == lines
  {
    var l0 := lines[0];
    if |lines| == 1 {
      JoinSingle(l0);
      SplitLinesPrefix(l0, []);
      assert l0 + [] == l0;
    } else {
      var tail := lines[1..];
      assert WellFormed(tail) by {
        forall i | 0 <= i < |tail| - 1 ensures Terminated(tail[i]) {
          assert tail[i] == lines[i + 1];
        }
      }
      SplitLinesJoin(tail);
      assert lines == [l0] + tail;
      JoinCons(l0, tail);
      assert Terminated(l0);
      var body := l0[..|l0| - 1];
      assert l0 == body + ['\n'];
      var after := ['\n'] + Join(tail);
      assert Join(lines) == body + after;
      SplitLinesPrefix(body, after);
      assert after[1..] == Join(tail);
      assert SplitLines(after) == [['\n']] + tail;
    }
  }

  // ---------------------------------------------------------------------------
  // Edits seen through the saved file

  /** The saved file splits around line `y`. */
  lemma {:induction false} JoinAround(lines: seq<Line>, y: int)
    requires 0 <= y < |lines|
    ensures Join(lines) == Join(lines[..y]) + lines[y] + Join(lines[y + 1..])
  {
    assert lines == lines[..y] + lines[y..];
    JoinAppend(lines[..y], lines[y..]);
    assert lines[y..] == [lines[y]] + lines[y + 1..];
    JoinCons(lines[y], lines[y + 1..]);
  }

  /** An insert in range puts exactly `c` into the saved file, at the cursor's offset. */
  lemma JoinInsertChar(lines: seq<Line>, x: int, y: int, c: char)
    requires InsertInRange(lines, x, y)
    ensures var k := Offset(lines, y) + x;
      k < |Join(lines)| &&
      Join(InsertChar(lines, x, y, c)) == Join(lines)[..k] + [c] + Join(lines)[k..]
  {
    var s := lines[y];
    var p, q := Join(lines[..y]), Join(lines[y + 1..]);
    JoinAround(lines, y);
    InsertAt(p, s, q, x, c);
    JoinReplace(lines, y, s[..x] + [c] + s[x..]);
  }

  /** Joining lines y and y + 1 into `m` leaves the rest of the saved file in place. */
  lemma JoinMerged(lines: seq<Line>, y: int, m: Line)
    requires 0 <= y && y + 1 < |lines|
    ensures Join(lines[..y] + [m] + lines[y + 2..]) == Join(lines[..y]) + m + Join(lines[y + 2..])
    ensures Join(lines[y + 1..]) == lines[y + 1] + Join(lines[y + 2..])
  {
    assert lines[..y] + [m] + lines[y + 2..] == lines[..y] + ([m] + lines[y + 2..]);
    JoinAppend(lines[..y], [m] + lines[y + 2..]);
    JoinCons(m, lines[y + 2..]);
    assert lines[y + 1..] == [lines[y + 1]] + lines[y + 2..];
    JoinCons(lines[y + 1], lines[y + 2..]);
  }

  /** Deleting byte `x` of the middle part of `p + s + q`. */
  lemma DeleteAt(p: seq<char>, s: seq<char>, q: seq<char>, x: int)
    requires 0 <= x < |s|
    ensures (p + s + q)[..|p| + x] + (p + s + q)[|p| + x + 1..] == p + s[..x] + s[x + 1..] + q
  {
    var j := p + s + q;
    assert j[..|p| + x] == p + s[..x];
    assert j[|p| + x + 1..] == s[x + 1..] + q;
  }

  /** Inserting `c` before byte `x` of the middle part of `p + s + q`. */
  lemma InsertAt(p: seq<char>, s: seq<char>, q: seq<char>, x: int, c: char)
    requires 0 <= x <= |s|
    ensures (p + s + q)[..|p| + x] + [c] + (p + s + q)[|p| + x..] == p + (s[..x] + [c] + s[x..]) + q
  {
    var j := p + s + q;
    assert j[..|p| + x] == p + s[..x];
    assert j[|p| + x..] == s[x..] + q;
  }

  /** Replacing line `y` replaces its bytes in the saved file and nothing else. */
  lemma JoinReplace(lines: seq<Line>, y: int, t: Line)
    requires 0 <= y < |lines|
    ensures Join(lines[y := t]) == Join(lines[..y]) + t + Join(lines[y + 1..])
  {
    var r := lines[y := t];
    JoinAround(r, y);
    assert r[..y] == lines[..y];
    assert r[y + 1..] == lines[y + 1..];
  }

  /** Removing a line's last byte when a line follows: the next line's bytes
      take the removed byte's place in the saved file. */
  lemma JoinRemoveJoining(lines: seq<Line>, x: int, y: int)
    requires IsJoin(lines, x, y)
    ensures Join(RemoveChar(lines, x, y)) ==
      Join(lines[..y]) + lines[y][..x] + lines[y][x + 1..] + Join(lines[y + 1..])
  {
    var s := lines[y];
    var m := s[..x] + lines[y + 1];
    assert RemoveChar(lines, x, y) == lines[..y] + [m] + lines[y + 2..];
    JoinMerged(lines, y, m);
    assert s[x + 1..] == [];
  }

  lemma JoinRemoveCases(lines: seq<Line>, x: int, y: int, p: seq<char>, q: seq<char>)
    requires RemoveInRange(lines, x, y)
    requires p == Join(lines[..y]) && q == Join(lines[y + 1..])
    ensures Join(RemoveChar(lines, x, y)) == p + lines[y][..x] + lines[y][x + 1..] + q
  {
    var s := lines[y];
    if IsJoin(lines, x, y) {
      JoinRemoveJoining(lines, x, y);
    } else {
      assert RemoveChar(lines, x, y) == lines[y := s[..x] + s[x + 1..]];
      JoinReplace(lines, y, s[..x] + s[x + 1..]);
    }
  }

  /** A remove in range deletes exactly one byte of the saved file, at the cursor's
      offset; joining two lines deletes the '\n' between them. */
  lemma JoinRemoveChar(lines: seq<Line>, x: int, y: int)
    requires RemoveInRange(lines, x, y)
    ensures var k := Offset(lines, y) + x;
      k < |Join(lines)| &&
      Join(RemoveChar(lines, x, y)) == Join(lines)[..k] + Join(lines)[k + 1..]
  {
    var s := lines[y];
    var p, q := Join(lines[..y]), Join(lines[y + 1..]);
    JoinAround(lines, y);
    DeleteAt(p, s, q, x);
    JoinRemoveCases(lines, x, y, p, q);
  }

  /** Inserting a byte and then removing it at the same position restores the
      buffer, for every position: out of range both calls are no-ops. */
  lemma InsertThenRemove(lines: seq<Line>, x: int, y: int, c: char)
    ensures RemoveChar(InsertChar(lines, x, y, c), x, y) == lines
  {
    var r := InsertChar(lines, x, y, c);
    if InsertInRange(lines, x, y) {
      assert RemoveInRange(r, x, y) && !IsJoin(r, x, y);
      var t := RemoveChar(r, x, y);
      assert t[y] == lines[y];
      assert t == lines;
    }
  }

  // ---------------------------------------------------------------------------
  // Shape invariants under editing

  lemma NoNewlineSlices(s: Line, a: int, b: int)
    requires 0 <= a <= b <= |s| && '\n' !in s
    ensures '\n' !in s[a..b] && '\n' !in s[..a] && '\n' !in s[a..]
  {
  }

  /** Inserting a byte other than '\n' keeps a loaded buffer's shape. */
  lemma InsertKeepsWellFormed(lines: seq<Line>, x: int, y: int, c: char)
    requires WellFormed(lines) && c != '\n'
    ensures WellFormed(InsertChar(lines, x, y, c))
  {
    var r := InsertChar(lines, x, y, c);
    if InsertInRange(lines, x, y) {
      var s := lines[y];
      var t := r[y];
      assert t == s[..x] + [c] + s[x..];
      if y < |lines| - 1 {
        assert Terminated(s);
        var body := s[..|s| - 1];
        NoNewlineSlices(body, x, x);
        assert body[..x] == s[..x];
        assert t[..|t| - 1] == body[..x] + [c] + body[x..];
        assert t[|t| - 1] == '\n';
        assert Terminated(t);
      } else {
        NoNewlineSlices(s, x, x);
        assert '\n' !in t;
      }
      forall i | 0 <= i < |r| - 1 ensures Terminated(r[i]) {
        if i != y { assert r[i] == lines[i]; }
      }
    }
  }

  /** Removing a byte, or joining two lines, keeps a loaded buffer's shape. */
  lemma RemoveKeepsWellFormed(lines: seq<Line>, x: int, y: int)
    requires WellFormed(lines)
    ensures WellFormed(RemoveChar(lines, x, y))
  {
    var r := RemoveChar(lines, x, y);
    if RemoveInRange(lines, x, y) {
      var s := lines[y];
      if IsJoin(lines, x, y) {
        var t := lines[y + 1];
        var m := s[..x] + t;
        assert r[y] == m;
        assert Terminated(s);
        assert s[..x] == s[..|s| - 1];
        if y + 1 == |lines| - 1 {
          assert '\n' !in m;
        } else {
          assert Terminated(t);
          assert m[..|m| - 1] == s[..x] + t[..|t| - 1];
          assert Terminated(m);
        }
        forall i | 0 <= i < |r| - 1 ensures Terminated(r[i]) {
          if i < y { assert r[i] == lines[i]; }
          else if i > y { assert r[i] == lines[i + 1]; }
        }
        assert r[|r| - 1] == if y == |r| - 1 then m else lines[|lines| - 1];
      } else {
        var t := r[y];
        assert t == s[..x] + s[x + 1..];
        if y < |lines| - 1 {
          assert Terminated(s);
          var body := s[..|s| - 1];
          assert x < |s| - 1;
          NoNewlineSlices(body, x, x + 1);
          assert t[..|t| - 1] == body[..x] + body[x + 1..];
          assert t[|t| - 1] == '\n';
          assert Terminated(t);
        } else {
          NoNewlineSlices(s, x, x + 1);
          assert '\n' !in t;
        }
        forall i | 0 <= i < |r| - 1 ensures Terminated(r[i]) {
          if i != y { assert r[i] == lines[i]; }
        }
      }
    }
  }

  /** Removing at the cursor is the same as deleting one byte of the saved file at
      the cursor's offset and loading the result. */
  lemma RemoveIsTextDelete(lines: seq<Line>, x: int, y: int)
    requires WellFormed(lines) && RemoveInRange(lines, x, y)
    ensures var k := Offset(lines, y) + x;
      k < |Join(lines)| &&
      RemoveChar(lines, x, y) == SplitLines(Join(lines)[..k] + Join(lines)[k + 1..])
  {
    JoinRemoveChar(lines, x, y);
    RemoveKeepsWellFormed(lines, x, y);
    SplitLinesJoin(RemoveChar(lines, x, y));
  }

  /** Inserting at the cursor is the same as inserting the byte into the saved file
      at the cursor's offset and loading the result. */
  lemma InsertIsTextInsert(lines: seq<Line>, x: int, y: int, c: char)
    requires WellFormed(lines) && InsertInRange(lines, x, y) && c != '\n'
    ensures var k := Offset(lines, y) + x;
      k < |Join(lines)| &&
      InsertChar(lines, x, y, c) == SplitLines(Join(lines)[..k] + [c] + Join(lines)[k..])
  {
    JoinInsertChar(lines, x, y, c);
    InsertKeepsWellFormed(lines, x, y, c);
    SplitLinesJoin(InsertChar(lines, x, y, c));
  }
}
