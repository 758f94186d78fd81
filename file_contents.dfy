/** `FileContents` of delta.c: an array of lines and the number of lines in use,
    updated in place by the editing operations. */
module Contents {
  import opened Buffer

  /** The inner loop of `read_file`: read bytes from `start` up to and including
      the next '\n', or to the end of the input, which it reports as `eof`. */
  method ReadLine(input: seq<char>, start: int) returns (entry: Line, next: int, eof: bool)
    requires 0 <= start <= |input|
    ensures start <= next <= |input| && entry == input[start..next]
    ensures !eof ==> Terminated(entry)
    ensures eof ==> next == |input| && '\n' !in entry
  {
    entry, next, eof := [], start, false;
    var done := false;
    while !done
      invariant start <= next <= |input| && entry == input[start..next]
      invariant !done ==> '\n' !in entry && !eof
      invariant done && !eof ==> Terminated(entry)
      invariant done && eof ==> next == |input| && '\n' !in entry
      decreases |input| - next, !done
    {
      if next == |input| {
        eof := true;
        done := true;
      } else {
        var c := input[next];
        ghost var prev := entry;
        entry := entry + [c];
        next := next + 1;
        assert entry[..|entry| - 1] == prev;
        if c == '\n' {
          done := true;
        }
      }
    }
  }

  /** `read_file`: read lines until the end of the input closes the last line,
      empty or not. */
  method ReadLines(input: seq<char>) returns (lines: seq<Line>)
    ensures lines == SplitLines(input)
  {
    lines := [];
    var i := 0;
    var eof := false;
    while !eof
      invariant 0 <= i <= |input|
      invariant Join(lines) == input[..i]
      invariant !eof ==> forall j :: 0 <= j < |lines| ==> Terminated(lines[j])
      invariant eof ==> i == |input| && WellFormed(lines)
      decreases |input| - i + (if eof then 0 else 1)
    {
      var entry, next, atEnd := ReadLine(input, i);
      JoinAppend(lines, [entry]);
      JoinSingle(entry);
      assert input[..next] == input[..i] + entry;
      lines := lines + [entry];
      i, eof := next, atEnd;
    }
    assert input[..i] == input;
    SplitLinesJoin(lines);
  }

  class FileContents {
    var data: array<Line>
    var len: nat

    ghost predicate Valid()
      reads this
    {
      1 <= len <= data.Length
    }

    /** The lines in use, in document order. */
    function Lines(): seq<Line>
      reads this, data
      requires Valid()
    {
      data[..len]
    }

    /** Load a file's bytes. */
    constructor Load(input: seq<char>)
      ensures Valid() && fresh(data)
      ensures Lines() == SplitLines(input)
    {
      var lines := ReadLines(input);
      data := new Line[|lines|](i requires 0 <= i < |lines| => lines[i]);
      len := |lines|;
    }

    /** `write_file`'s byte output: every line's content, in order. */
    method Write() returns (bytes: seq<char>)
      requires Valid()
      ensures bytes == Join(Lines())
    {
      bytes := [];
      var i := 0;
      while i < len
        invariant 0 <= i <= len
        invariant bytes == Join(data[..i])
      {
        assert data[..i + 1] == data[..i] + [data[i]];
        JoinAppend(data[..i], [data[i]]);
        JoinSingle(data[i]);
        bytes := bytes + data[i];
        i := i + 1;
      }
      assert data[..len] == Lines();
    }

    /** `fc_insert`. */
    method Insert(x: int, y: int, c: char)
      requires Valid()
      modifies data
      ensures Valid()
      ensures Lines() == InsertChar(old(Lines()), x, y, c)
    {
      if y < 0 || y >= len || x < 0 || x > StoredLen(data[y]) - 2 {
        return;
      }
      var s := data[y];
      if s == ['\n'] {
        assert s[..x] + [c] + s[x..] == [c, '\n'];
        data[y] := [c, '\n'];
      } else {
        data[y] := s[..x] + [c] + s[x..];
      }
    }

    /** The line-dropping half of a join: move every line after row `j` up one
        slot, then count one line fewer. */
    method DropLine(j: int)
      requires Valid() && 1 <= j < len
      modifies this, data
      ensures Valid() && data == old(data) && len == old(len) - 1
      ensures Lines() == old(Lines())[..j] + old(Lines())[j + 1..]
    {
      ghost var before := data[..len];
      var i := j;
      while i < len - 1
        modifies data
        invariant j <= i <= len - 1 && |before| == len
        invariant forall m :: 0 <= m < j ==> data[m] == before[m]
        invariant forall m :: j <= m < i ==> data[m] == before[m + 1]
        invariant forall m :: i <= m < len ==> data[m] == before[m]
      {
        data[i] := data[i + 1];
        i := i + 1;
      }
      len := len - 1;
      assert data[..len] == before[..j] + before[j + 1..];
    }

    /** `fc_remove`: join with the next line, shifting the later lines up one
        slot, or delete one byte. */
    method Remove(x: int, y: int)
      requires Valid()
      modifies this, data
      ensures Valid() && data == old(data)
      ensures Lines() == RemoveChar(old(Lines()), x, y)
    {
      if y < 0 || y >= len || x < 0 || x > StoredLen(data[y]) - 2 {
        return;
      }
      var s := data[y];
      if x == StoredLen(s) - 2 && y + 1 < len {
        ghost var before := data[..len];
        var merged := s[..x] + data[y + 1];
        data[y] := merged;
        DropLine(y + 1);
        assert data[..len] == before[..y] + [merged] + before[y + 2..];
      } else {
        data[y] := s[..x] + s[x + 1..];
      }
    }
  }
}
