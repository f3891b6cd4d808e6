/** The few JavaScript string operations the quiz code relies on:
    `String.prototype.trim`, `indexOf` of one character, `startsWith`
    and splitting at line breaks. Strings are sequences of Unicode scalar values. */
module Text {

  /** The code points `trim` removes: the WhiteSpace and LineTerminator
      code points of ECMAScript (tab, line tabulation, form feed, space,
      no-break space, byte order mark, the Zs separators U+1680, U+2000 to
      U+200A, U+202F, U+205F and U+3000, and LF, CR, LS, PS). */
  const SpaceCodes: set<int> := {
    0x09, 0x0B, 0x0C, 0x20, 0xA0, 0xFEFF,
    0x1680, 0x2000, 0x2001, 0x2002, 0x2003, 0x2004, 0x2005, 0x2006,
    0x2007, 0x2008, 0x2009, 0x200A, 0x202F, 0x205F, 0x3000,
    0x0A, 0x0D, 0x2028, 0x2029}

  /** A character `trim` removes. */
  predicate IsSpace(c: char) {
    c as int in SpaceCodes
  }

  /** Every character of `s` in positions `lo` up to `hi` is whitespace. */
  ghost predicate SpaceBetween(s: string, lo: int, hi: int) {
    forall k {:trigger IsSpace(s[k])} :: lo <= k < hi && 0 <= k < |s| ==> IsSpace(s[k])
  }

  /** Neither the first nor the last character is whitespace. */
  predicate NoOuterSpace(s: string) {
    s == [] || (!IsSpace(s[0]) && !IsSpace(s[|s| - 1]))
  }

  /** `r` is `s` with some whitespace cut from each end. */
  ghost predicate IsTrimOf(r: string, s: string) {
    exists i, j :: 0 <= i <= j <= |s| && r == s[i..j] && SpaceBetween(s, 0, i) && SpaceBetween(s, j, |s|)
  }

  /** Length of the whitespace run that starts `s`. */
  function LeadingSpace(s: string): (n: nat)
    ensures n <= |s| && SpaceBetween(s, 0, n)
    ensures n < |s| ==> !IsSpace(s[n])
    decreases |s|
  {
    if |s| > 0 && IsSpace(s[0]) then 1 + LeadingSpace(s[1..]) else 0
  }

  /** Index where the whitespace run that ends `s` begins. */
  function TrailingStart(s: string): (n: nat)
    ensures n <= |s| && SpaceBetween(s, n, |s|)
    ensures n > 0 ==> !IsSpace(s[n - 1])
    decreases |s|
  {
    if |s| > 0 && IsSpace(s[|s| - 1]) then TrailingStart(s[..|s| - 1]) else |s|
  }

  /** `String.prototype.trim`: the result is what is left of `s` once the
      whitespace at both ends is cut, and it has none left at either end. */
  function Trim(s: string): (r: string)
    ensures IsTrimOf(r, s) && NoOuterSpace(r)
  {
    var i := LeadingSpace(s);
    var t := s[i..];
    var j := TrailingStart(t);
    assert t[..j] == s[i..i + j];
    assert SpaceBetween(s, i + j, |s|) by {
      forall k | i + j <= k < |s| ensures IsSpace(s[k]) { assert s[k] == t[k - i]; }
    }
    t[..j]
  }

  /** Two positions that each hold a non-whitespace character with only
      whitespace before them are the same position. */
  lemma SameFirstNonSpace(s: string, i1: nat, i2: nat)
    requires i1 < |s| && SpaceBetween(s, 0, i1) && !IsSpace(s[i1])
    requires i2 < |s| && SpaceBetween(s, 0, i2) && !IsSpace(s[i2])
    ensures i1 == i2
  {
  }

  /** Two positions that each end in a non-whitespace character with only
      whitespace after them are the same position. */
  lemma SameLastNonSpace(s: string, j1: nat, j2: nat)
    requires 0 < j1 <= |s| && SpaceBetween(s, j1, |s|) && !IsSpace(s[j1 - 1])
    requires 0 < j2 <= |s| && SpaceBetween(s, j2, |s|) && !IsSpace(s[j2 - 1])
    ensures j1 == j2
  {
  }

  /** Whitespace cut from both ends determines the result: there is exactly
      one trimmed form of a string. */
  lemma TrimUnique(s: string, r1: string, r2: string)
    requires IsTrimOf(r1, s) && NoOuterSpace(r1)
    requires IsTrimOf(r2, s) && NoOuterSpace(r2)
    ensures r1 == r2
  {
    var i1, j1 :| 0 <= i1 <= j1 <= |s| && r1 == s[i1..j1] && SpaceBetween(s, 0, i1) && SpaceBetween(s, j1, |s|);
    var i2, j2 :| 0 <= i2 <= j2 <= |s| && r2 == s[i2..j2] && SpaceBetween(s, 0, i2) && SpaceBetween(s, j2, |s|);
    TrimFormsEqual(s, r1, i1, j1, r2, i2, j2);
  }

  /** `TrimUnique` for given positions of the two trimmed forms. */
  lemma TrimFormsEqual(s: string, r1: string, i1: nat, j1: nat, r2: string, i2: nat, j2: nat)
    requires i1 <= j1 <= |s| && r1 == s[i1..j1] && SpaceBetween(s, 0, i1) && SpaceBetween(s, j1, |s|)
    requires i2 <= j2 <= |s| && r2 == s[i2..j2] && SpaceBetween(s, 0, i2) && SpaceBetween(s, j2, |s|)
    requires NoOuterSpace(r1) && NoOuterSpace(r2)
    ensures r1 == r2
  {
    if r1 != [] && r2 != [] {
      assert s[i1] == r1[0] && s[j1 - 1] == r1[|r1| - 1];
      assert s[i2] == r2[0] && s[j2 - 1] == r2[|r2| - 1];
      SameFirstNonSpace(s, i1, i2);
      SameLastNonSpace(s, j1, j2);
    }
  }

  lemma TrimWitness(r: string, s: string, i: nat, j: nat)
    requires i <= j <= |s| && r == s[i..j] && SpaceBetween(s, 0, i) && SpaceBetween(s, j, |s|)
    ensures IsTrimOf(r, s)
  {
  }

  /** A string without whitespace at its ends is its own trimmed form. */
  lemma TrimNoOuterSpace(s: string)
    requires NoOuterSpace(s)
    ensures Trim(s) == s
  {
    assert s[0..|s|] == s;
    TrimWitness(s, s, 0, |s|);
    TrimUnique(s, Trim(s), s);
  }

  /** Trimming twice is trimming once. */
  lemma TrimIdempotent(s: string)
    ensures Trim(Trim(s)) == Trim(s)
  {
    TrimNoOuterSpace(Trim(s));
  }

  /** Whitespace added around a string does not survive trimming. */
  lemma TrimIgnoresPadding(a: string, s: string, b: string)
    requires SpaceBetween(a, 0, |a|) && SpaceBetween(b, 0, |b|)
    ensures Trim(a + s + b) == Trim(s)
  {
    var r := Trim(s);
    var i, j :| 0 <= i <= j <= |s| && r == s[i..j] && SpaceBetween(s, 0, i) && SpaceBetween(s, j, |s|);
    PaddedTrim(a, s, b, i, j);
    TrimUnique(a + s + b, Trim(a + s + b), r);
  }

  lemma PaddedTrim(a: string, s: string, b: string, i: nat, j: nat)
    requires SpaceBetween(a, 0, |a|) && SpaceBetween(b, 0, |b|)
    requires i <= j <= |s| && SpaceBetween(s, 0, i) && SpaceBetween(s, j, |s|)
    ensures IsTrimOf(s[i..j], a + s + b)
  {
    var w := a + s + b;
    assert w[|a| + i..|a| + j] == s[i..j];
    assert SpaceBetween(w, 0, |a| + i) by {
      forall k | 0 <= k < |a| + i ensures IsSpace(w[k]) {
        if k < |a| { assert w[k] == a[k]; } else { assert w[k] == s[k - |a|]; }
      }
    }
    assert SpaceBetween(w, |a| + j, |w|) by {
      forall k | |a| + j <= k < |w| ensures IsSpace(w[k]) {
        if k < |a| + |s| { assert w[k] == s[k - |a|]; } else { assert w[k] == b[k - |a| - |s|]; }
      }
    }
    TrimWitness(s[i..j], w, |a| + i, |a| + j);
  }

  /** `String.prototype.startsWith`: the string begins with every
      character of the prefix, in order. */
  predicate StartsWith(s: string, prefix: string)
    ensures StartsWith(s, prefix) <==>
      |prefix| <= |s| && forall k :: 0 <= k < |prefix| ==> s[k] == prefix[k]
  {
    |prefix| <= |s| && s[..|prefix|] == prefix
  }

  /** `indexOf` for a one-character needle: the first position of `c`,
      or -1 when `c` does not occur. */
  function IndexOf(s: string, c: char): (r: int)
    ensures -1 <= r < |s|
    ensures r == -1 <==> c !in s
    ensures 0 <= r ==> s[r] == c && c !in s[..r]
    decreases |s|
  {
    if |s| == 0 then -1
    else if s[0] == c then 0
    else
      var k := IndexOf(s[1..], c);
      assert k >= 0 ==> s[..k + 1] == [s[0]] + s[1..][..k];
      if k < 0 then -1 else k + 1
  }

  /** The position of `c` right after a prefix free of `c` is its first one. */
  lemma IndexOfAfter(x: string, c: char, y: string)
    requires c !in x
    ensures IndexOf(x + [c] + y, c) == |x|
  {
    assert (x + [c] + y)[|x|] == c;
  }

  /** Splitting text into lines: cuts at every LF, and a CR directly before
      that LF belongs to the separator rather than to the line. A lone CR
      stays in its line. */
  function SplitLines(s: string): (r: seq<string>)
    ensures |r| >= 1
    ensures forall k :: 0 <= k < |r| ==> '\n' !in r[k]
    decreases |s|
  {
    var i := IndexOf(s, '\n');
    if i < 0 then [s]
    else
      var line := if i > 0 && s[i - 1] == '\r' then s[..i - 1] else s[..i];
      assert line == s[..i][..|line|];
      [line] + SplitLines(s[i + 1..])
  }

  /** A line that does not end in CR. */
  predicate NoTrailingCR(line: string) {
    line == [] || line[|line| - 1] != '\r'
  }

  /** The text of `lines` with a line break after every line but the last:
      CR LF where `crlf` says so, a bare LF otherwise. */
  function JoinLines(lines: seq<string>, crlf: seq<bool>): string
    requires |lines| >= 1 && |crlf| == |lines| - 1
    decreases |lines|
  {
    if |lines| == 1 then lines[0]
    else lines[0] + (if crlf[0] then "\r\n" else "\n") + JoinLines(lines[1..], crlf[1..])
  }

  /** Splitting undoes joining, whatever mix of CR LF and LF separates the
      lines, provided no line holds an LF and no line followed by a bare LF
      ends in CR (that CR would be read as part of the separator). */
  lemma {:induction false} SplitJoinLines(lines: seq<string>, crlf: seq<bool>)
    requires |lines| >= 1 && |crlf| == |lines| - 1
    requires forall k :: 0 <= k < |lines| ==> '\n' !in lines[k]
    requires forall k :: 0 <= k < |crlf| && !crlf[k] ==> NoTrailingCR(lines[k])
    ensures SplitLines(JoinLines(lines, crlf)) == lines
    decreases |lines|
  {
    if |lines| == 1 {
      assert '\n' !in lines[0];
    } else {
      var rest := JoinLines(lines[1..], crlf[1..]);
      var x := if crlf[0] then lines[0] + ['\r'] else lines[0];
      var s := JoinLines(lines, crlf);
      assert s == x + ['\n'] + rest;
      SplitFirstLine(lines[0], crlf[0], rest);
      SplitJoinLines(lines[1..], crlf[1..]);
      assert lines == [lines[0]] + lines[1..];
    }
  }

  /** The first line of text that starts with `line` and a separator. */
  lemma SplitFirstLine(line: string, crlf: bool, rest: string)
    requires '\n' !in line
    requires !crlf ==> NoTrailingCR(line)
    ensures SplitLines(line + (if crlf then "\r\n" else "\n") + rest)
         == [line] + SplitLines(rest)
  {
    var x := if crlf then line + ['\r'] else line;
    var s := line + (if crlf then "\r\n" else "\n") + rest;
    assert s == x + ['\n'] + rest;
    assert '\n' !in x;
    IndexOfAfter(x, '\n', rest);
    var i := |x|;
    assert s[i + 1..] == rest;
    if crlf {
      assert s[i - 1] == '\r';
      assert s[..i - 1] == line;
    } else {
      assert s[..i] == line;
    }
  }

  /** The example `"a\r\nb\nc\r"`: CR LF and LF both end a line, and a
      CR at the very end stays in the last line. */
  lemma SplitLinesMixedExample()
    ensures SplitLines("a\r\nb\nc\r") == ["a", "b", "c\r"]
  {
    var lines := ["a", "b", "c\r"];
    var crlf := [true, false];
    assert JoinLines(lines, crlf) == "a\r\nb\nc\r" by {
      assert JoinLines(lines[2..], crlf[2..]) == "c\r";
      assert JoinLines(lines[1..], crlf[1..]) == "b\nc\r";
    }
    SplitJoinLines(lines, crlf);
  }
}
