/** utils/string_utils.c: trimming spaces, taking the leading number of a string,
    and guessing its base. A C string is its bytes before the NUL. */
module StringUtils {

  // ---------------------------------------------------------------------------
  // str_trim

  /** How many ' ' open the string (the front scan's `i`). */
  function Leading(s: seq<char>): (n: nat)
    ensures n <= |s|
    ensures forall j :: 0 <= j < n ==> s[j] == ' '
    ensures n < |s| ==> s[n] != ' '
  {
    if |s| > 0 && s[0] == ' ' then 1 + Leading(s[1..]) else 0
  }

  /** How many ' ' close the string (`len - 1 - k` after the back scan). */
  function Trailing(s: seq<char>): (n: nat)
    ensures n <= |s|
    ensures forall j :: |s| - n <= j < |s| ==> s[j] == ' '
    ensures n < |s| ==> s[|s| - 1 - n] != ' '
  {
    if |s| > 0 && s[|s| - 1] == ' ' then 1 + Trailing(s[..|s| - 1]) else 0
  }

  /** The string without its leading and trailing ' ' (other whitespace stays). */
  function Trimmed(s: seq<char>): (r: seq<char>)
    ensures Leading(s) + |r| <= |s| && r == s[Leading(s)..Leading(s) + |r|]
    ensures r == [] || (r[0] != ' ' && r[|r| - 1] != ' ')
    ensures r == [] <==> Leading(s) == |s|
    ensures r != [] ==> Leading(s) + |r| + Trailing(s) == |s|
  {
    var i := Leading(s);
    if i == |s| then []
    else
      assert s[i] != ' ';
      s[i..|s| - Trailing(s)]
  }

  /** `str_trim`: scan spaces from the front, then from the back, then copy the
      middle into a new string. The back scan stops at the front scan's index. */
  method Trim(s: seq<char>) returns (r: seq<char>)
    ensures r == Trimmed(s)
  {
    var finalLen := |s|;
    var i := 0;
    var len := |s|;
    if len == 0 {
      return [];
    }
    if len == 1 {
      if s[0] != ' ' {
        return [s[0]];
      } else {
        return [];
      }
    }
    while i < len && s[i] == ' '
      invariant 0 <= i <= len && finalLen == len - i
      invariant forall j :: 0 <= j < i ==> s[j] == ' '
    {
      finalLen := finalLen - 1;
      i := i + 1;
    }
    assert i == Leading(s);
    var k := len - 1;
    while k >= i && s[k] == ' '
      invariant i - 1 <= k <= len - 1 && finalLen == k + 1 - i
      invariant forall j :: k < j < len ==> s[j] == ' '
    {
      finalLen := finalLen - 1;
      k := k - 1;
    }
    assert i < len ==> k == len - 1 - Trailing(s);
    var output := new char[finalLen];
    for l := 0 to finalLen
      invariant forall j :: 0 <= j < l ==> output[j] == s[j + i]
    {
      output[l] := s[l + i];
    }
    r := output[..];
    assert r == s[i..i + finalLen];
  }

  /** The back scan of `str_trim` as written: step left while the byte is ' ',
      with no lower bound. A result of -1 means it went on to read `string[-1]`. */
  function BackScan(s: seq<char>, k: int): (stop: int)
    requires -1 <= k < |s|
    ensures -1 <= stop <= k
    ensures stop >= 0 ==> s[stop] != ' '
    ensures forall j :: stop < j <= k ==> s[j] == ' '
    decreases k + 1
  {
    if k < 0 then -1 else if s[k] != ' ' then k else BackScan(s, k - 1)
  }

  /** On a string of two or more spaces the back scan as written runs past the
      front of the string, while the intended result is the empty string. */
  lemma AllSpacesAsWritten(s: seq<char>)
    requires |s| >= 2 && forall j :: 0 <= j < |s| ==> s[j] == ' '
    ensures BackScan(s, |s| - 1) == -1
    ensures Trimmed(s) == []
  {
  }

  /** Trimming twice is trimming once. */
  lemma TrimmedIdempotent(s: seq<char>)
    ensures Trimmed(Trimmed(s)) == Trimmed(s)
  {
    TrimmedIdentity(Trimmed(s));
  }

  /** A string with no ' ' at either end is returned unchanged. */
  lemma TrimmedIdentity(s: seq<char>)
    requires s == [] || (s[0] != ' ' && s[|s| - 1] != ' ')
    ensures Trimmed(s) == s
  {
    if s != [] {
      assert Leading(s) == 0;
      assert Trailing(s) == 0;
    }
  }

  /** Only ' ' is removed: a tab, a newline or any other byte at either end stays. */
  lemma TrimmedKeepsOtherEdges(s: seq<char>)
    requires s != []
    ensures s[0] != ' ' ==> Trimmed(s) != [] && Trimmed(s)[0] == s[0]
    ensures s[|s| - 1] != ' ' ==> Trimmed(s) != [] && Trimmed(s)[|Trimmed(s)| - 1] == s[|s| - 1]
  {
    if s[|s| - 1] != ' ' {
      assert Trailing(s) == 0;
      assert Leading(s) < |s|;
    }
  }

  /** The short strings `str_trim` handles before scanning. */
  lemma TrimmedShort(c: char)
    ensures Trimmed([]) == []
    ensures Trimmed([c]) == if c == ' ' then [] else [c]
  {
  }

  // ---------------------------------------------------------------------------
  // str_parse and str_guessbase

  /** The bytes `str_parse` accepts after the prefix: `isdigit` or a lower-case
      'a' to 'f'. */
  predicate IsHexDigit(c: char) {
    '0' <= c <= '9' || c == 'a' || c == 'b' || c == 'c' || c == 'd' || c == 'e' || c == 'f'
  }

  /** The test both functions use: longer than two bytes and starting with "0x". */
  predicate HasHexPrefix(s: seq<char>) {
    |s| > 2 && s[0] == '0' && s[1] == 'x'
  }

  function PrefixLen(s: seq<char>): nat {
    if HasHexPrefix(s) then 2 else 0
  }

  /** The length of the run of hex digits starting at `i`. */
  function HexRun(s: seq<char>, i: nat): (n: nat)
    requires i <= |s|
    ensures i + n <= |s|
    ensures forall j :: i <= j < i + n ==> IsHexDigit(s[j])
    ensures i + n == |s| || !IsHexDigit(s[i + n])
    decreases |s| - i
  {
    if i < |s| && IsHexDigit(s[i]) then 1 + HexRun(s, i + 1) else 0
  }

  /** What `str_parse` returns: the "0x" prefix when the string has it, then the
      longest run of hex digits; the byte after the result is not a hex digit. */
  function Parsed(s: seq<char>): (r: seq<char>)
    ensures |r| <= |s| && r == s[..|r|]
    ensures HasHexPrefix(s) ==> |r| >= 2 && r[..2] == "0x"
    ensures forall j :: PrefixLen(s) <= j < |r| ==> IsHexDigit(r[j])
    ensures |r| == |s| || !IsHexDigit(s[|r|])
  {
    s[..PrefixLen(s) + HexRun(s, PrefixLen(s))]
  }

  /** `str_parse`: skip the prefix, count hex digits, copy that many bytes out. */
  method Parse(input: seq<char>) returns (r: seq<char>)
    ensures r == Parsed(input)
  {
    var len := 0;
    if |input| > 2 && input[0] == '0' && input[1] == 'x' {
      len := 2;
    }
    ghost var p := len;
    while len < |input| && IsHexDigit(input[len])
      invariant p <= len <= |input|
      invariant HexRun(input, p) == (len - p) + HexRun(input, len)
    {
      len := len + 1;
    }
    var output := new char[len];
    for i := 0 to len
      invariant forall j :: 0 <= j < i ==> output[j] == input[j]
    {
      output[i] := input[i];
    }
    r := output[..];
  }

  /** The result of `str_parse` is determined by its contract: any prefix with the
      same prefix rule, only hex digits after it and a non-hex byte after it is it. */
  lemma ParsedUnique(s: seq<char>, r: seq<char>)
    requires |r| <= |s| && r == s[..|r|] && |r| >= PrefixLen(s)
    requires forall j :: PrefixLen(s) <= j < |r| ==> IsHexDigit(r[j])
    requires |r| == |s| || !IsHexDigit(s[|r|])
    ensures r == Parsed(s)
  {
  }

  /** Upper-case hex stops the scan, and "0x" alone is too short for the prefix. */
  lemma ParsedExamples()
    ensures Parsed("0x") == "0"
    ensures Parsed("0xAB") == "0x"
    ensures Parsed("0xff") == "0xff"
    ensures Parsed("12z") == "12"
  {
    ParsedUnique("0x", "0");
    ParsedUnique("0xAB", "0x");
    ParsedUnique("0xff", "0xff");
    ParsedUnique("12z", "12");
  }

  /** `str_guessbase`: 16 exactly when `str_parse` keeps a "0x" prefix, else 10. */
  function GuessBase(s: seq<char>): (b: int)
    ensures b == 10 || b == 16
    ensures b == 16 <==> |Parsed(s)| >= 2 && Parsed(s)[..2] == "0x"
  {
    if |s| > 2 && s[0] == '0' && s[1] == 'x' then 16 else 10
  }
}
