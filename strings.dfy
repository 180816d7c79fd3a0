/** Character classes and string helpers shared by the whole model.
    A JavaScript string is modelled as `seq<char>` (see README for what the
    difference between UTF-16 units and Unicode scalars leaves out). */
module Strings {

  datatype Option<T> = None | Some(value: T)

  /** The value of an expression that may throw: `Err` carries the message. */
  datatype Result<T> = Ok(value: T) | Err(error: string)

  /** `\d` of a JavaScript regular expression: ASCII digits only. */
  predicate IsDigit(c: char) { '0' <= c <= '9' }

  predicate IsAsciiUpper(c: char) { 'A' <= c <= 'Z' }

  predicate IsAsciiLower(c: char) { 'a' <= c <= 'z' }

  /** `\w` of a JavaScript regular expression without the `u` flag. */
  predicate IsWordChar(c: char) { IsDigit(c) || IsAsciiUpper(c) || IsAsciiLower(c) || c == '_' }

  /** The white space and line terminators that `\s` matches and that
      `String.prototype.trim` removes. */
  predicate IsJsSpace(c: char) {
    || c == ' ' || c == '\t' || c == '\n' || c == '\r' || c == '\U{B}' || c == '\U{C}'
    || c == '\U{A0}' || c == '\U{1680}' || ('\U{2000}' <= c <= '\U{200A}')
    || c == '\U{2028}' || c == '\U{2029}' || c == '\U{202F}' || c == '\U{205F}'
    || c == '\U{3000}' || c == '\U{FEFF}'
  }

  /** The line terminators that `.` of a regular expression does not match. */
  predicate IsLineTerminator(c: char) { c == '\n' || c == '\r' || c == '\U{2028}' || c == '\U{2029}' }

  predicate AllDigits(s: string) { forall i :: 0 <= i < |s| ==> IsDigit(s[i]) }

  function ToLowerAscii(c: char): (r: char)
    ensures IsAsciiUpper(c) ==> IsAsciiLower(r)
    ensures !IsAsciiUpper(c) ==> r == c
  {
    if IsAsciiUpper(c) then (c as int + 32) as char else c
  }

  function ToUpperAscii(c: char): (r: char)
    ensures IsAsciiLower(c) ==> IsAsciiUpper(r)
    ensures !IsAsciiLower(c) ==> r == c
  {
    if IsAsciiLower(c) then (c as int - 32) as char else c
  }

  /** Characters equal under the case folding of a regular expression with
      the `i` flag (ASCII letters only, see README). */
  predicate SameIgnoringCase(a: char, b: char) { ToUpperAscii(a) == ToUpperAscii(b) }

  predicate EqualIgnoringCase(a: string, b: string) {
    |a| == |b| && forall i :: 0 <= i < |a| ==> SameIgnoringCase(a[i], b[i])
  }

  /** Length of the leading run of word characters. */
  function WordRun(s: string): (n: nat)
    ensures n <= |s|
    ensures forall i :: 0 <= i < n ==> IsWordChar(s[i])
    ensures n < |s| ==> !IsWordChar(s[n])
  {
    if s == [] || !IsWordChar(s[0]) then 0 else 1 + WordRun(s[1..])
  }

  /** The leading word of `a + b` is `a` when `a` is all word characters and
      `b` does not start with one. */
  lemma {:induction false} WordRunAppend(a: string, b: string)
    requires forall i :: 0 <= i < |a| ==> IsWordChar(a[i])
    requires b == [] || !IsWordChar(b[0])
    ensures WordRun(a + b) == |a|
  {
    if a != [] {
      assert (a + b)[1..] == a[1..] + b;
      WordRunAppend(a[1..], b);
    }
  }

  /** `s` with every ASCII upper-case letter made lower-case. */
  function LowerAscii(s: string): (r: string)
    ensures |r| == |s| && forall i :: 0 <= i < |s| ==> r[i] == ToLowerAscii(s[i])
  {
    seq(|s|, i requires 0 <= i < |s| => ToLowerAscii(s[i]))
  }

  /** True when `pat` occurs in `s` at position `i`. */
  predicate OccursAt(s: string, pat: string, i: nat) {
    i + |pat| <= |s| && s[i..i + |pat|] == pat
  }

  /** The first position at or after `from` where `pat` occurs in `s`. */
  function IndexOf(s: string, pat: string, from: nat): (r: Option<nat>)
    ensures r.Some? ==> from <= r.value && OccursAt(s, pat, r.value)
    ensures r.Some? ==> forall j :: from <= j < r.value ==> !OccursAt(s, pat, j)
    ensures r.None? ==> forall j :: from <= j ==> !OccursAt(s, pat, j)
    decreases |s| - from
  {
    if from + |pat| > |s| then None
    else if s[from..from + |pat|] == pat then Some(from)
    else IndexOf(s, pat, from + 1)
  }

  /** `String.prototype.replace` with a string pattern: only the first
      occurrence is replaced. */
  function ReplaceFirst(s: string, pat: string, rep: string): (r: string)
    ensures IndexOf(s, pat, 0).None? ==> r == s
    ensures IndexOf(s, pat, 0).Some? ==>
      var i := IndexOf(s, pat, 0).value; r == s[..i] + rep + s[i + |pat|..]
  {
    match IndexOf(s, pat, 0)
    case None => s
    case Some(i) => s[..i] + rep + s[i + |pat|..]
  }

  /** Number of leading characters of `s` that satisfy "is JavaScript space". */
  function LeadingSpaces(s: string): (n: nat)
    ensures n <= |s|
    ensures forall i :: 0 <= i < n ==> IsJsSpace(s[i])
    ensures n < |s| ==> !IsJsSpace(s[n])
  {
    if s == [] || !IsJsSpace(s[0]) then 0 else 1 + LeadingSpaces(s[1..])
  }

  function TrailingSpaces(s: string): (n: nat)
    ensures n <= |s|
    ensures forall i :: |s| - n <= i < |s| ==> IsJsSpace(s[i])
    ensures n < |s| ==> !IsJsSpace(s[|s| - n - 1])
  {
    if s == [] || !IsJsSpace(s[|s| - 1]) then 0 else 1 + TrailingSpaces(s[..|s| - 1])
  }

  /** `String.prototype.trim`: the longest infix of `s` that neither starts
      nor ends with white space. */
  function Trim(s: string): (r: string)
    ensures |r| <= |s|
    ensures r != [] ==> !IsJsSpace(r[0]) && !IsJsSpace(r[|r| - 1])
    ensures LeadingSpaces(s) + |r| <= |s| && r == s[LeadingSpaces(s)..LeadingSpaces(s) + |r|]
    ensures forall i :: 0 <= i < LeadingSpaces(s) || LeadingSpaces(s) + |r| <= i < |s| ==> IsJsSpace(s[i])
    ensures (forall i :: 0 <= i < |s| ==> IsJsSpace(s[i])) <==> r == []
  {
    var a := LeadingSpaces(s);
    if a == |s| then
      []
    else
      var b := TrailingSpaces(s[a..]);
      assert !IsJsSpace(s[a]);
      assert b < |s[a..]|;
      var r := s[a..|s| - b];
      assert s[a..a + |r|] == r;
      assert !IsJsSpace(r[0]);
      r
  }

  /** Regrouping a concatenation whose tail was itself split in two. */
  lemma Regroup<T>(x: seq<T>, h: seq<T>, y: seq<T>, p: seq<T>, q: seq<T>)
    requires x == h + y && y == p + q
    ensures x == (h + p) + q
  {
  }

  /** A text that neither starts nor ends with white space is its own trim. */
  lemma TrimUnchanged(s: string)
    requires s != [] && !IsJsSpace(s[0]) && !IsJsSpace(s[|s| - 1])
    ensures Trim(s) == s
  {
    assert LeadingSpaces(s) == 0;
  }

  /** `Array.prototype.join`. */
  function Join(parts: seq<string>, sep: string): (r: string)
    ensures parts == [] ==> r == []
    ensures |parts| == 1 ==> r == parts[0]
  {
    if parts == [] then []
    else if |parts| == 1 then parts[0]
    else parts[0] + sep + Join(parts[1..], sep)
  }

  /** `String.prototype.split` with a non-empty separator string: the
      pieces between the leftmost non-overlapping occurrences of `sep`. */
  function SplitOn(s: string, sep: string): (r: seq<string>)
    requires sep != []
    ensures |r| >= 1
    decreases |s|
  {
    match IndexOf(s, sep, 0)
    case None => [s]
    case Some(i) => [s[..i]] + SplitOn(s[i + |sep|..], sep)
  }

  /** `String.prototype.split` with any separator string; the empty
      separator cuts the string into its characters. */
  function Split(s: string, sep: string): (r: seq<string>)
  {
    if sep == [] then seq(|s|, i requires 0 <= i < |s| => [s[i]])
    else SplitOn(s, sep)
  }

  lemma {:induction false} JoinSplitOn(s: string, sep: string)
    requires sep != []
    ensures Join(SplitOn(s, sep), sep) == s
    decreases |s|
  {
    match IndexOf(s, sep, 0)
    case None =>
    case Some(i) =>
      var rest := s[i + |sep|..];
      var parts := SplitOn(s, sep);
      assert parts == [s[..i]] + SplitOn(rest, sep);
      assert parts[1..] == SplitOn(rest, sep);
      JoinSplitOn(rest, sep);
      calc {
        Join(parts, sep);
        parts[0] + sep + Join(parts[1..], sep);
        s[..i] + sep + rest;
        { assert s[i..i + |sep|] == sep; }
        s;
      }
  }

  lemma {:induction false} JoinChars(s: string)
    ensures Join(Split(s, []), []) == s
  {
    if |s| > 1 {
      JoinChars(s[1..]);
      assert Split(s, [])[1..] == Split(s[1..], []);
    }
  }

  /** Splitting and joining again with the same separator gives back the
      original string. */
  lemma SplitJoin(s: string, sep: string)
    ensures Join(Split(s, sep), sep) == s
  {
    if sep == [] { JoinChars(s); } else { JoinSplitOn(s, sep); }
  }

  lemma PrefixOccurrence(s: string, i: nat, pat: string, j: nat)
    requires j + |pat| <= i <= |s|
    ensures OccursAt(s[..i], pat, j) == OccursAt(s, pat, j)
  {
    assert s[..i][j..j + |pat|] == s[j..j + |pat|];
  }

  /** No piece produced by `SplitOn` contains the separator. */
  lemma {:induction false} SplitOnPiecesFree(s: string, sep: string, k: nat, j: nat)
    requires sep != [] && k < |SplitOn(s, sep)|
    ensures !OccursAt(SplitOn(s, sep)[k], sep, j)
    decreases |s|
  {
    match IndexOf(s, sep, 0)
    case None =>
    case Some(i) =>
      if k == 0 {
        if j + |sep| <= i {
          PrefixOccurrence(s, i, sep, j);
        }
      } else {
        SplitOnPiecesFree(s[i + |sep|..], sep, k - 1, j);
      }
  }

  /** The first occurrence of `sep` after a piece free of its first
      character is the one that follows the piece. */
  lemma IndexOfAfterPiece(p: string, sep: string, rest: string)
    requires sep != [] && forall j :: 0 <= j < |p| ==> p[j] != sep[0]
    ensures IndexOf(p + sep + rest, sep, 0) == Some(|p|)
  {
    var s := p + sep + rest;
    assert OccursAt(s, sep, |p|) by { assert s[|p|..|p| + |sep|] == sep; }
    forall j | 0 <= j < |p|
      ensures !OccursAt(s, sep, j)
    {
      assert s[j] == p[j];
      if j + |sep| <= |s| { assert s[j..j + |sep|][0] == s[j] != sep[0]; }
    }
  }

  /** Splitting a joined list again gives back its parts, provided no part
      contains the first character of the separator. */
  lemma {:induction false} SplitOnJoin(parts: seq<string>, sep: string)
    requires sep != [] && parts != []
    requires forall k, j :: 0 <= k < |parts| && 0 <= j < |parts[k]| ==> parts[k][j] != sep[0]
    ensures SplitOn(Join(parts, sep), sep) == parts
  {
    if |parts| == 1 {
      forall j | 0 <= j
        ensures !OccursAt(parts[0], sep, j)
      {
        if j + |sep| <= |parts[0]| {
          assert parts[0][j..j + |sep|][0] == parts[0][j] != sep[0];
        }
      }
    } else {
      var p0 := parts[0];
      var rest := Join(parts[1..], sep);
      var s := p0 + sep + rest;
      assert Join(parts, sep) == s;
      assert SplitOn(s, sep) == [p0] + SplitOn(rest, sep) by {
        IndexOfAfterPiece(p0, sep, rest);
        assert s[..|p0|] == p0;
        assert s[|p0| + |sep|..] == rest;
      }
      assert SplitOn(rest, sep) == parts[1..] by {
        assert forall k :: 1 <= k < |parts| ==> parts[1..][k - 1] == parts[k];
        SplitOnJoin(parts[1..], sep);
      }
      assert parts == [p0] + parts[1..];
    }
  }

  /** Value of a string of decimal digits (`parseInt` on digits only). */
  function DigitsValue(s: string): nat
    requires AllDigits(s)
  {
    if s == [] then 0 else 10 * DigitsValue(s[..|s| - 1]) + (s[|s| - 1] as int - '0' as int)
  }

  function DigitChar(d: nat): (c: char)
    requires d < 10
    ensures IsDigit(c) && c as int - '0' as int == d
  {
    ('0' as int + d) as char
  }

  /** The decimal form of a natural number, as a template literal prints it. */
  function NatToString(n: nat): (r: string)
    ensures r != [] && AllDigits(r)
    ensures |r| > 1 ==> r[0] != '0'
  {
    if n < 10 then [DigitChar(n)] else NatToString(n / 10) + [DigitChar(n % 10)]
  }

  /** The decimal form of an integer, with a leading `-` when negative. */
  function IntToString(n: int): (r: string)
    ensures r != []
  {
    if n < 0 then "-" + NatToString(-n) else NatToString(n)
  }

  /** Reading back the decimal form of `n` gives `n`. */
  lemma {:induction false} DigitsValueOfNatToString(n: nat)
    ensures DigitsValue(NatToString(n)) == n
  {
    if n >= 10 {
      DigitsValueOfNatToString(n / 10);
      var s := NatToString(n);
      assert s[..|s| - 1] == NatToString(n / 10);
    }
  }
}
