/** JavaScript's `String.prototype.trim`, as used on the title and the
    description of a new task. */
module Text {

  /** The code points ECMAScript treats as WhiteSpace or LineTerminator:
      TAB, LF, VT, FF, CR, SPACE, NBSP, OGHAM SPACE MARK, the spaces
      U+2000..U+200A, LINE and PARAGRAPH SEPARATOR, NNBSP, MMSP,
      IDEOGRAPHIC SPACE and the byte order mark. */
  predicate IsWhitespace(c: char) {
    var n := c as int;
    (0x09 <= n <= 0x0D) || n == 0x20 || n == 0xA0 || n == 0x1680
    || (0x2000 <= n <= 0x200A) || n == 0x2028 || n == 0x2029
    || n == 0x202F || n == 0x205F || n == 0x3000 || n == 0xFEFF
  }

  /** Every character of `s` is whitespace (the empty string included). */
  predicate IsBlank(s: string) {
    forall i :: 0 <= i < |s| ==> IsWhitespace(s[i])
  }

  /** `s` neither starts nor ends with whitespace. */
  predicate IsTrimmed(s: string) {
    s == [] || (!IsWhitespace(s[0]) && !IsWhitespace(s[|s| - 1]))
  }

  /** Drops the leading whitespace: the result is the longest suffix of `s`
      that does not start with whitespace. */
  function TrimStart(s: string): (r: string)
    ensures |r| <= |s| && r == s[|s| - |r|..]
    ensures forall i :: 0 <= i < |s| - |r| ==> IsWhitespace(s[i])
    ensures r == [] || !IsWhitespace(r[0])
  {
    if s != [] && IsWhitespace(s[0]) then
      var r := TrimStart(s[1..]);
      assert forall i :: 1 <= i < |s| - |r| ==> s[i] == s[1..][i - 1];
      r
    else s
  }

  /** Drops the trailing whitespace: the result is the longest prefix of `s`
      that does not end with whitespace. */
  function TrimEnd(s: string): (r: string)
    ensures |r| <= |s| && r == s[..|r|]
    ensures forall i :: |r| <= i < |s| ==> IsWhitespace(s[i])
    ensures r == [] || !IsWhitespace(r[|r| - 1])
  {
    if s != [] && IsWhitespace(s[|s| - 1]) then
      var r := TrimEnd(s[..|s| - 1]);
      assert forall i :: |r| <= i < |s| - 1 ==> s[i] == s[..|s| - 1][i];
      r
    else s
  }

  /** `s.trim()`: the result has no whitespace at either end and is empty
      exactly when `s` is blank; `TrimStripsBlanks` says that what it drops
      is whitespace and nothing else. */
  function Trim(s: string): (r: string)
    ensures IsTrimmed(r)
    ensures r == [] <==> IsBlank(s)
  {
    var left := TrimStart(s);
    var r := TrimEnd(left);
    assert r == [] ==> left == [];
    r
  }

  /** `s` is the trimmed string with only blanks around it. */
  lemma TrimStripsBlanks(s: string) returns (p: string, q: string)
    ensures s == p + Trim(s) + q && IsBlank(p) && IsBlank(q)
  {
    var left := TrimStart(s);
    var r := TrimEnd(left);
    p := LeadingBlanks(s);
    q := TrailingBlanks(left);
    ConcatAssociates(p, r, q);
  }

  lemma ConcatAssociates(a: string, b: string, c: string)
    ensures a + (b + c) == a + b + c
  {
  }

  /** What `TrimStart` drops. */
  lemma LeadingBlanks(s: string) returns (p: string)
    ensures s == p + TrimStart(s) && IsBlank(p)
  {
    var left := TrimStart(s);
    p := s[..|s| - |left|];
    forall i | 0 <= i < |p| ensures IsWhitespace(p[i]) { assert p[i] == s[i]; }
    assert s == p + left;
  }

  /** What `TrimEnd` drops. */
  lemma TrailingBlanks(s: string) returns (q: string)
    ensures s == TrimEnd(s) + q && IsBlank(q)
  {
    var r := TrimEnd(s);
    q := s[|r|..];
    forall i | 0 <= i < |q| ensures IsWhitespace(q[i]) { assert q[i] == s[|r| + i]; }
    assert s == r + q;
  }

  /** A string that is already trimmed is left alone. */
  lemma TrimOfTrimmed(s: string)
    requires IsTrimmed(s)
    ensures Trim(s) == s
  {
    assert TrimStart(s) == s;
    assert TrimEnd(s) == s;
  }

  /** Trimming twice is trimming once. */
  lemma TrimIdempotent(s: string)
    ensures Trim(Trim(s)) == Trim(s)
  {
    TrimOfTrimmed(Trim(s));
  }
}
