/** The blank-input guard of the add box relies on JavaScript's
    `String.prototype.trim`, which strips white space and line terminators
    from both ends of a string. */
module Whitespace {

  /** The characters `trim` strips: the ECMAScript WhiteSpace set (tab,
      vertical tab, form feed, space, no-break space, byte order mark and the
      other Unicode space separators) and the LineTerminator set. */
  predicate IsJsWhitespace(c: char) {
    var n := c as int;
    || n == 0x09 || n == 0x0B || n == 0x0C || n == 0x20 || n == 0xA0 || n == 0xFEFF
    || n == 0x1680 || (0x2000 <= n <= 0x200A) || n == 0x202F || n == 0x205F || n == 0x3000
    || n == 0x0A || n == 0x0D || n == 0x2028 || n == 0x2029
  }

  /** How many characters at the start of `s` are white space: all of them
      below the count are, and the one at the count (if any) is not. */
  function LeadingWhitespace(s: string): (n: nat)
    ensures n <= |s|
    ensures forall i :: 0 <= i < n ==> IsJsWhitespace(s[i])
    ensures n < |s| ==> !IsJsWhitespace(s[n])
  {
    if s != [] && IsJsWhitespace(s[0]) then 1 + LeadingWhitespace(s[1..]) else 0
  }

  /** How many characters at the end of `s` are white space: all of the last
      `n` are, and the one before them (if any) is not. */
  function TrailingWhitespace(s: string): (n: nat)
    ensures n <= |s|
    ensures forall i :: |s| - n <= i < |s| ==> IsJsWhitespace(s[i])
    ensures n < |s| ==> !IsJsWhitespace(s[|s| - n - 1])
  {
    if s != [] && IsJsWhitespace(s[|s| - 1]) then 1 + TrailingWhitespace(s[..|s| - 1]) else 0
  }

  /** `s` with its leading white space removed: a suffix of `s` that starts
      with a non-white character, everything before it being white. */
  function TrimStart(s: string): (r: string)
    ensures |r| <= |s| && r == s[|s| - |r|..]
    ensures forall i :: 0 <= i < |s| - |r| ==> IsJsWhitespace(s[i])
    ensures r != [] ==> !IsJsWhitespace(r[0])
  {
    s[LeadingWhitespace(s)..]
  }

  /** `s` with its trailing white space removed: a prefix of `s` that ends
      with a non-white character, everything after it being white. */
  function TrimEnd(s: string): (r: string)
    ensures |r| <= |s| && r == s[..|r|]
    ensures forall i :: |r| <= i < |s| ==> IsJsWhitespace(s[i])
    ensures r != [] ==> !IsJsWhitespace(r[|r| - 1])
  {
    s[..|s| - TrailingWhitespace(s)]
  }

  /** Trimming the start and then the end of `s` leaves a slice of `s`. */
  lemma TrimmedIsSlice(s: string)
    ensures var t := TrimStart(s); var r := TrimEnd(t); var a := |s| - |t|;
      a + |r| <= |s| && r == s[a..a + |r|]
  {
    var t := TrimStart(s);
    var r := TrimEnd(t);
    var a := |s| - |t|;
    forall k | 0 <= k < |r| ensures r[k] == s[a + k] {
      assert r[k] == t[k];
    }
  }

  /** Everything after that slice is white space. */
  lemma TrimmedTailIsWhitespace(s: string)
    ensures var t := TrimStart(s); var r := TrimEnd(t); var a := |s| - |t|;
      forall i :: a + |r| <= i < |s| ==> IsJsWhitespace(s[i])
  {
    var t := TrimStart(s);
    var r := TrimEnd(t);
    var a := |s| - |t|;
    forall i | a + |r| <= i < |s| ensures IsJsWhitespace(s[i]) {
      assert s[i] == t[i - a];
    }
  }

  /** JavaScript's `s.trim()`: the slice of `s` left once its leading and
      its trailing white space are cut off; neither end of the result is
      white space. */
  function Trim(s: string): (r: string)
    ensures |r| <= |s|
    ensures var a := |s| - |TrimStart(s)|;
      && a + |r| <= |s| && r == s[a..a + |r|]
      && (forall i :: 0 <= i < a ==> IsJsWhitespace(s[i]))
      && (forall i :: a + |r| <= i < |s| ==> IsJsWhitespace(s[i]))
    ensures r != [] ==> !IsJsWhitespace(r[0]) && !IsJsWhitespace(r[|r| - 1])
  {
    var t := TrimStart(s);
    var r := TrimEnd(t);
    TrimmedIsSlice(s);
    TrimmedTailIsWhitespace(s);
    assert r != [] ==> r[0] == t[0];
    r
  }

  /** The guard `text.trim() === ''`. */
  predicate IsBlank(s: string) {
    Trim(s) == ""
  }

  /** A string is blank exactly when every one of its characters is white
      space; in particular the empty string is blank and any string holding a
      visible character is not. */
  lemma BlankIffAllWhitespace(s: string)
    ensures IsBlank(s) <==> forall i :: 0 <= i < |s| ==> IsJsWhitespace(s[i])
  {
    if !IsBlank(s) {
      var t := TrimStart(s);
      assert Trim(s)[0] == t[0] == s[|s| - |t|];
    }
  }

  /** The result of `trim` is the part of the input between its leading and
      trailing white space, so trimming twice changes nothing more. */
  lemma {:induction false} TrimIdempotent(s: string)
    ensures Trim(Trim(s)) == Trim(s)
  {
    var r := Trim(s);
    if r != [] {
      assert TrimStart(r) == r;
      assert TrimEnd(r) == r;
    }
  }

  /** A one-character string holding a visible character is not blank. */
  lemma VisibleCharIsNotBlank(t: string)
    requires |t| == 1 && !IsJsWhitespace(t[0])
    ensures !IsBlank(t)
  {
    BlankIffAllWhitespace(t);
  }
}
